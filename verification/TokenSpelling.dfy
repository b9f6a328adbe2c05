/** What stands at a position of a token list, spelled out. */
module TokenSpelling {
  import L = Lexer

  predicate IsIdentifier(tokens: seq<L.Token>, k: int, name: string) {
    0 <= k < |tokens| && tokens[k].kind == L.Identifier && tokens[k].value == name
  }

  predicate IsPunctuation(tokens: seq<L.Token>, k: int, mark: string) {
    0 <= k < |tokens| && tokens[k].kind == L.Punctuation && tokens[k].value == mark
  }

  predicate IsOperator(tokens: seq<L.Token>, k: int, operator: string) {
    0 <= k < |tokens| && tokens[k].kind == L.Operator && tokens[k].value == operator
  }
}
