/**
 The tokenizer of scripts/release-safety-migrations.ts.

 `Lexemes` says what the pieces of a source text are, without any bookkeeping.
 `Stack` says which delimiters are open at each token. `Tokenize` is the
 source's single pass over the text, which does both at once.
 */
module Lexer {
  import opened Options
  import opened JsText

  datatype TokenKind =
    | Identifier | StringLiteral | Template | DynamicTemplate
    | Number | Regex | Punctuation | Operator

  datatype Token = Token(kind: TokenKind, value: string, start: nat, end: nat, depth: nat)

  /** A token before its nesting depth is known. */
  datatype Lexeme = Lexeme(kind: TokenKind, value: string, start: nat, end: nat)

  /** What the text at one position is. */
  datatype Piece =
    | Skip(end: nat)
    | Found(lexeme: Lexeme)
    | Unterminated

  datatype Lexing = Lexing(lexemes: seq<Lexeme>, complete: bool)

  // ---- Character classes ----------------------------------------------------

  predicate IsNumberPart(c: char) { IsLetter(c) || IsDigit(c) || c == '_' || c == '.' }

  predicate IsOpening(c: char) { c == '(' || c == '[' || c == '{' }

  predicate IsClosing(c: char) { c == ')' || c == ']' || c == '}' }

  function OpeningFor(c: char): char
    requires IsClosing(c)
  {
    if c == ')' then '(' else if c == ']' then '[' else '{'
  }

  function ClosingFor(c: char): char
    requires IsOpening(c)
  {
    if c == '(' then ')' else if c == '[' then ']' else '}'
  }

  // ---- Searching the text ---------------------------------------------------

  /** Position of the first unescaped `quote` at or after `i`; at least |s| if there is none. */
  function StringEnd(s: string, i: nat, quote: char): (r: nat)
    ensures i <= r
    ensures r < |s| ==> s[r] == quote
    decreases |s| - i
  {
    if i >= |s| then i
    else if s[i] == '\\' then StringEnd(s, i + 2, quote)
    else if s[i] == quote then i
    else StringEnd(s, i + 1, quote)
  }

  /** Is there an unescaped `${` between `i` and the end of the string literal? */
  predicate HasPlaceholder(s: string, i: nat, quote: char)
    decreases |s| - i
  {
    if i >= |s| then false
    else if s[i] == '\\' then HasPlaceholder(s, i + 2, quote)
    else if quote == '`' && StartsWith(s, i, "${") then true
    else if s[i] == quote then false
    else HasPlaceholder(s, i + 1, quote)
  }

  /** Position of the `/` that ends a regex body, or of what stops it from ending. */
  function RegexEnd(s: string, i: nat, inClass: bool): (r: nat)
    ensures i <= r
    decreases |s| - i
  {
    if i >= |s| then i
    else if s[i] == '\\' then RegexEnd(s, i + 2, inClass)
    else
      var inside := s[i] != ']' && (s[i] == '[' || inClass);
      if (s[i] == '/' && !inside) || s[i] == '\n' then i
      else RegexEnd(s, i + 1, inside)
  }

  const OPERATORS: seq<string> := [
    "===", "!==", ">>>", "**=", "??=", "&&=", "||=", "=>", "??", "||", "&&", "?.",
    "==", "!=", "<=", ">=", "++", "--", "**", "+=", "-=", "*=", "/=", "<<", ">>"
  ]

  predicate NonEmpty(candidates: seq<string>) {
    forall k :: 0 <= k < |candidates| ==> |candidates[k]| > 0
  }

  /** The first of `candidates` that starts at `i`. */
  function FirstMatch(candidates: seq<string>, s: string, i: nat): (r: Option<string>)
    requires NonEmpty(candidates)
    ensures r.Some? ==> |r.value| > 0 && StartsWith(s, i, r.value)
  {
    if candidates == [] then None
    else if StartsWith(s, i, candidates[0]) then Some(candidates[0])
    else FirstMatch(candidates[1..], s, i)
  }

  /** The source's operator list, tried in order. */
  function OperatorAt(s: string, i: nat): (r: Option<string>)
    ensures r.Some? ==> |r.value| > 0 && StartsWith(s, i, r.value)
  {
    FirstMatch(OPERATORS, s, i)
  }

  /** May a `/` after `previous` start a regular expression? */
  predicate CanStartRegex(previous: Option<Lexeme>) {
    match previous
    case None => true
    case Some(p) =>
      match p.kind
      case Operator => true
      case Punctuation => p.value in ["(", "[", "{", ",", ";", ":"]
      case Identifier => p.value in ["case", "delete", "return", "throw", "typeof", "void"]
      case _ => false
  }

  // ---- The pieces of a source text ------------------------------------------

  /** The operator or punctuation mark at `i`: the longest listed operator, else one character. */
  function SymbolAt(s: string, i: nat): (r: Lexeme)
    requires i < |s|
    ensures r.start == i < r.end <= |s| && r.value == s[i..r.end]
    ensures r.kind == Operator || r.kind == Punctuation
  {
    var operator := OperatorAt(s, i);
    if operator.Some? then Lexeme(Operator, operator.value, i, i + |operator.value|)
    else Lexeme(if s[i] in "()[]{}.,;:" then Punctuation else Operator, [s[i]], i, i + 1)
  }

  /** What starts at position `i`; `decode` resolves the escapes of a string body. */
  function PieceAt(s: string, i: nat, previous: Option<Lexeme>, decode: string -> string): (r: Piece)
    requires i < |s|
    ensures r.Skip? ==> i < r.end <= |s|
    ensures r.Found? ==> r.lexeme.start == i < r.lexeme.end <= |s|
  {
    var c := s[i];
    if IsSpace(c) then Skip(i + 1)
    else if StartsWith(s, i, "//") then
      var newline := IndexOf(s, i + 2, "\n");
      Skip(if newline.None? then |s| else newline.value + 1)
    else if StartsWith(s, i, "/*") then
      var close := IndexOf(s, i + 2, "*/");
      if close.None? then Unterminated else Skip(close.value + 2)
    else if IsQuote(c) then
      var close := StringEnd(s, i + 1, c);
      if close >= |s| then Unterminated
      else Found(Lexeme(
        if c != '`' then StringLiteral else if HasPlaceholder(s, i + 1, c) then DynamicTemplate else Template,
        decode(s[i + 1..close]), i, close + 1))
    else if IsNameStart(c) then
      var end := SkipWhile(s, i + 1, IsNamePart);
      Found(Lexeme(Identifier, s[i..end], i, end))
    else if IsDigit(c) then
      var end := SkipWhile(s, i + 1, IsNumberPart);
      Found(Lexeme(Number, s[i..end], i, end))
    else if c == '/' && CanStartRegex(previous) then
      var close := RegexEnd(s, i + 1, false);
      if close >= |s| || s[close] != '/' then Unterminated
      else
        var end := SkipWhile(s, close + 1, IsLetter);
        Found(Lexeme(Regex, s[i..end], i, end))
    else Found(SymbolAt(s, i))
  }

  /** Every lexeme from `i` on, and whether the text could be read to its end. */
  function Lexemes(s: string, i: nat, previous: Option<Lexeme>, decode: string -> string): Lexing
    requires i <= |s|
    decreases |s| - i
  {
    if i == |s| then Lexing([], true)
    else
      match PieceAt(s, i, previous, decode)
      case Skip(end) => Lexemes(s, end, previous, decode)
      case Unterminated => Lexing([], false)
      case Found(lexeme) =>
        var rest := Lexemes(s, lexeme.end, Some(lexeme), decode);
        Lexing([lexeme] + rest.lexemes, rest.complete)
  }

  // ---- Nesting ----------------------------------------------------------------

  predicate Opens(t: Token) {
    t.kind == Punctuation && |t.value| == 1 && IsOpening(t.value[0])
  }

  predicate Closes(t: Token) {
    t.kind == Punctuation && |t.value| == 1 && IsClosing(t.value[0])
  }

  /** The open delimiters after `t` when `stack` were open before it. */
  function After(stack: seq<char>, t: Token): seq<char> {
    if Closes(t) then (if stack == [] then [] else stack[..|stack| - 1])
    else if Opens(t) then stack + [t.value[0]]
    else stack
  }

  /** The delimiters still open before token `k`, outermost first. */
  function Stack(tokens: seq<Token>, k: nat): seq<char>
    requires k <= |tokens|
  {
    if k == 0 then [] else After(Stack(tokens, k - 1), tokens[k - 1])
  }

  /** A closing delimiter closes the innermost delimiter that is open. */
  predicate ClosesInnermost(stack: seq<char>, t: Token) {
    Closes(t) ==> stack != [] && stack[|stack| - 1] == OpeningFor(t.value[0])
  }

  predicate MatchedAt(tokens: seq<Token>, k: nat)
    requires k < |tokens|
  {
    ClosesInnermost(Stack(tokens, k), tokens[k])
  }

  predicate Matched(tokens: seq<Token>) {
    forall k :: 0 <= k < |tokens| ==> MatchedAt(tokens, k)
  }

  /** A delimiter is as deep as its surroundings, both when it opens and when it closes. */
  function DepthAt(tokens: seq<Token>, k: nat): nat
    requires k < |tokens|
  {
    if Opens(tokens[k]) then |Stack(tokens, k)| else |Stack(tokens, k + 1)|
  }

  predicate DepthsRecorded(tokens: seq<Token>) {
    forall k :: 0 <= k < |tokens| ==> tokens[k].depth == DepthAt(tokens, k)
  }

  /** An `=` with nothing to its right. */
  predicate DanglingAssignment(tokens: seq<Token>, k: nat)
    requires k < |tokens|
  {
    && tokens[k].kind == Operator && tokens[k].value == "="
    && (k + 1 == |tokens|
        || (tokens[k + 1].kind == Punctuation && tokens[k + 1].value in [")", "]", "}", ",", ";"]))
  }

  function Bare(t: Token): Lexeme { Lexeme(t.kind, t.value, t.start, t.end) }

  /** The tokens without their depths. */
  function Bares(tokens: seq<Token>): seq<Lexeme> {
    seq(|tokens|, k requires 0 <= k < |tokens| => Bare(tokens[k]))
  }

  /** What the tokenizer's `valid` flag means. */
  predicate WellFormed(tokens: seq<Token>, complete: bool) {
    && complete
    && Matched(tokens)
    && Stack(tokens, |tokens|) == []
    && forall k :: 0 <= k < |tokens| ==> !DanglingAssignment(tokens, k)
  }

  /** What `Tokenize` delivers for a source text. */
  predicate Tokenized(source: string, decode: string -> string, tokens: seq<Token>, valid: bool) {
    var lexing := Lexemes(source, 0, None, decode);
    && Bares(tokens) == lexing.lexemes
    && DepthsRecorded(tokens)
    && valid == WellFormed(tokens, lexing.complete)
  }

  lemma StackPrefix(tokens: seq<Token>, more: seq<Token>, k: nat)
    requires k <= |tokens|
    ensures Stack(tokens + more, k) == Stack(tokens, k)
  {
    if k > 0 { StackPrefix(tokens, more, k - 1); }
  }

  lemma StackAppend(tokens: seq<Token>, t: Token)
    ensures Stack(tokens + [t], |tokens|) == Stack(tokens, |tokens|)
    ensures Stack(tokens + [t], |tokens| + 1) == After(Stack(tokens, |tokens|), t)
  {
    StackPrefix(tokens, [t], |tokens|);
  }

  lemma MatchedAppend(tokens: seq<Token>, t: Token)
    ensures Matched(tokens + [t]) <==> Matched(tokens) && ClosesInnermost(Stack(tokens, |tokens|), t)
  {
    var all := tokens + [t];
    forall k | 0 <= k < |tokens| ensures MatchedAt(all, k) == MatchedAt(tokens, k) { StackPrefix(tokens, [t], k); }
    StackAppend(tokens, t);
    assert MatchedAt(all, |tokens|) == ClosesInnermost(Stack(tokens, |tokens|), t);
  }

  lemma DepthsAppend(tokens: seq<Token>, t: Token)
    requires DepthsRecorded(tokens)
    requires t.depth == if Opens(t) then |Stack(tokens, |tokens|)| else |After(Stack(tokens, |tokens|), t)|
    ensures DepthsRecorded(tokens + [t])
  {
    var all := tokens + [t];
    StackAppend(tokens, t);
    forall k | 0 <= k < |all| ensures all[k].depth == DepthAt(all, k) {
      if k < |tokens| {
        assert tokens[k].depth == DepthAt(tokens, k);
        StackPrefix(tokens, [t], k);
        StackPrefix(tokens, [t], k + 1);
      }
    }
  }

  // ---- The pass -----------------------------------------------------------------

  method ScanWhile(s: string, from: nat, p: char -> bool) returns (index: nat)
    requires from <= |s|
    ensures index == SkipWhile(s, from, p)
  {
    index := from;
    while index < |s| && p(s[index])
      invariant from <= index <= |s|
      invariant SkipWhile(s, index, p) == SkipWhile(s, from, p)
    {
      index := index + 1;
    }
  }

  method ScanString(s: string, from: nat, quote: char) returns (index: nat, dynamic: bool)
    ensures index == StringEnd(s, from, quote)
    ensures dynamic == HasPlaceholder(s, from, quote)
  {
    index := from;
    dynamic := false;
    while index < |s|
      invariant StringEnd(s, index, quote) == StringEnd(s, from, quote)
      invariant (dynamic || HasPlaceholder(s, index, quote)) == HasPlaceholder(s, from, quote)
      decreases |s| - index
    {
      if s[index] == '\\' {
        index := index + 2;
        continue;
      }
      if quote == '`' && StartsWith(s, index, "${") {
        dynamic := true;
      }
      if s[index] == quote { break; }
      index := index + 1;
    }
  }

  method ScanRegex(s: string, from: nat) returns (index: nat)
    ensures index == RegexEnd(s, from, false)
  {
    var inClass := false;
    index := from;
    while index < |s|
      invariant RegexEnd(s, index, inClass) == RegexEnd(s, from, false)
      decreases |s| - index
    {
      if s[index] == '\\' {
        index := index + 2;
        continue;
      }
      if s[index] == '[' { inClass := true; }
      if s[index] == ']' { inClass := false; }
      if s[index] == '/' && !inClass { break; }
      if s[index] == '\n' { break; }
      index := index + 1;
    }
  }

  /** The lexeme at `index` when it is neither blank nor a comment. */
  method ScanLexeme(s: string, index: nat, previous: Option<Lexeme>, decode: string -> string)
    returns (r: Piece)
    requires index < |s|
    requires !IsSpace(s[index]) && !StartsWith(s, index, "//") && !StartsWith(s, index, "/*")
    ensures r == PieceAt(s, index, previous, decode)
  {
    var c := s[index];
    if IsQuote(c) {
      var close, dynamic := ScanString(s, index + 1, c);
      if close >= |s| { return Unterminated; }
      var kind := if c == '`' then (if dynamic then DynamicTemplate else Template) else StringLiteral;
      return Found(Lexeme(kind, decode(s[index + 1..close]), index, close + 1));
    }
    if IsNameStart(c) {
      var end := ScanWhile(s, index + 1, IsNamePart);
      return Found(Lexeme(Identifier, s[index..end], index, end));
    }
    if IsDigit(c) {
      var end := ScanWhile(s, index + 1, IsNumberPart);
      return Found(Lexeme(Number, s[index..end], index, end));
    }
    if c == '/' && CanStartRegex(previous) {
      var close := ScanRegex(s, index + 1);
      if close >= |s| || s[close] != '/' { return Unterminated; }
      var end := ScanWhile(s, close + 1, IsLetter);
      return Found(Lexeme(Regex, s[index..end], index, end));
    }
    return Found(SymbolAt(s, index));
  }

  /** What starts at `index`, found by scanning forward from there. */
  method ScanPiece(s: string, index: nat, previous: Option<Lexeme>, decode: string -> string)
    returns (r: Piece)
    requires index < |s|
    ensures r == PieceAt(s, index, previous, decode)
  {
    if IsSpace(s[index]) { return Skip(index + 1); }
    if StartsWith(s, index, "//") {
      var newline := IndexOf(s, index + 2, "\n");
      return Skip(if newline.None? then |s| else newline.value + 1);
    }
    if StartsWith(s, index, "/*") {
      var close := IndexOf(s, index + 2, "*/");
      return if close.None? then Unterminated else Skip(close.value + 2);
    }
    r := ScanLexeme(s, index, previous, decode);
  }

  /** Pushes one token, and opens or closes the delimiter it stands for. */
  method Record(tokens: seq<Token>, stack: seq<char>, valid: bool, l: Lexeme)
    returns (tokens': seq<Token>, stack': seq<char>, valid': bool)
    requires stack == Stack(tokens, |tokens|) && DepthsRecorded(tokens) && valid == Matched(tokens)
    ensures Bares(tokens') == Bares(tokens) + [l]
    ensures stack' == Stack(tokens', |tokens'|) && DepthsRecorded(tokens') && valid' == Matched(tokens')
  {
    stack', valid' := stack, valid;
    if l.kind == Punctuation && |l.value| == 1 && IsClosing(l.value[0]) {
      if stack == [] || stack[|stack| - 1] != OpeningFor(l.value[0]) { valid' := false; }
      if stack != [] { stack' := stack[..|stack| - 1]; }
    }
    var t := Token(l.kind, l.value, l.start, l.end, |stack'|);
    StackAppend(tokens, t);
    MatchedAppend(tokens, t);
    DepthsAppend(tokens, t);
    tokens' := tokens + [t];
    if Opens(t) { stack' := stack' + [l.value[0]]; }
  }

  /** Is some `=` left without a right-hand side? */
  method FindDangling(tokens: seq<Token>) returns (found: bool)
    ensures found <==> exists k :: 0 <= k < |tokens| && DanglingAssignment(tokens, k)
  {
    found := false;
    for k := 0 to |tokens|
      invariant found <==> exists j :: 0 <= j < k && DanglingAssignment(tokens, j)
    {
      if DanglingAssignment(tokens, k) { found := true; }
    }
  }

  /** What has been read so far and what is left make up the whole. */
  predicate Divides(whole: Lexing, tokens: seq<Token>, rest: Lexing) {
    whole.lexemes == Bares(tokens) + rest.lexemes && whole.complete == rest.complete
  }

  /** What follows a piece that could be read. */
  function Rest(s: string, piece: Piece, previous: Option<Lexeme>, decode: string -> string): Lexing
    requires piece.Skip? ==> piece.end <= |s|
    requires piece.Found? ==> piece.lexeme.end <= |s|
  {
    match piece
    case Skip(end) => Lexemes(s, end, previous, decode)
    case Unterminated => Lexing([], false)
    case Found(lexeme) => Lexemes(s, lexeme.end, Some(lexeme), decode)
  }

  /** One piece in front of the rest of the lexemes. */
  lemma LexemesStep(s: string, i: nat, previous: Option<Lexeme>, decode: string -> string)
    requires i < |s|
    ensures var piece := PieceAt(s, i, previous, decode);
      && (piece.Found? ==> Lexemes(s, i, previous, decode).lexemes == [piece.lexeme] + Rest(s, piece, previous, decode).lexemes)
      && (!piece.Found? ==> Lexemes(s, i, previous, decode).lexemes == Rest(s, piece, previous, decode).lexemes)
      && Lexemes(s, i, previous, decode).complete == Rest(s, piece, previous, decode).complete
  {}

  lemma DividesFound(whole: Lexing, tokens: seq<Token>, tokens': seq<Token>, l: Lexeme, rest: Lexing, rest': Lexing)
    requires Divides(whole, tokens, rest) && Bares(tokens') == Bares(tokens) + [l]
    requires rest.lexemes == [l] + rest'.lexemes && rest.complete == rest'.complete
    ensures Divides(whole, tokens', rest')
  {
    assert Bares(tokens) + ([l] + rest'.lexemes) == (Bares(tokens) + [l]) + rest'.lexemes;
  }

  /** One pass over the text: lexing, bracket matching and depth recording interleaved. */
  method Tokenize(source: string, decode: string -> string) returns (tokens: seq<Token>, valid: bool)
    ensures Tokenized(source, decode, tokens, valid)
  {
    var stack: seq<char>, complete: bool;
    tokens, stack, valid, complete := ReadTokens(source, decode);
    var dangling := FindDangling(tokens);
    if dangling { valid := false; }
    valid := valid && complete && |stack| == 0;
  }

  method ReadTokens(source: string, decode: string -> string)
    returns (tokens: seq<Token>, stack: seq<char>, valid: bool, complete: bool)
    ensures var whole := Lexemes(source, 0, None, decode);
      Bares(tokens) == whole.lexemes && complete == whole.complete
    ensures stack == Stack(tokens, |tokens|) && DepthsRecorded(tokens) && valid == Matched(tokens)
  {
    ghost var whole := Lexemes(source, 0, None, decode);
    tokens, stack, valid, complete := [], [], true, true;
    var index := 0;
    var previous: Option<Lexeme> := None;
    ghost var rest := whole;
    while index < |source|
      invariant index <= |source|
      invariant stack == Stack(tokens, |tokens|) && DepthsRecorded(tokens) && valid == Matched(tokens)
      invariant rest == Lexemes(source, index, previous, decode) && Divides(whole, tokens, rest)
      invariant complete
      decreases |source| - index
    {
      var piece := ScanPiece(source, index, previous, decode);
      LexemesStep(source, index, previous, decode);
      match piece
      case Skip(end) =>
        index := end;
        rest := Lexemes(source, index, previous, decode);
      case Unterminated =>
        complete := false;
        assert Bares(tokens) + [] == Bares(tokens);
        return;
      case Found(lexeme) =>
        ghost var before := tokens;
        tokens, stack, valid := Record(tokens, stack, valid, lexeme);
        previous := Some(lexeme);
        index := lexeme.end;
        DividesFound(whole, before, tokens, lexeme, rest, Lexemes(source, index, previous, decode));
        rest := Lexemes(source, index, previous, decode);
    }
    assert Bares(tokens) + [] == Bares(tokens);
  }
}
