/**
 A source text as its tokens with the gaps in front of them. Every tokenized text is made of
 such words, and a text made of simple words is tokenized as they say.
 */
module SourceWords {
  import opened Options
  import opened JsText
  import opened Sequences
  import L = Lexer
  import C = Coverage

  /** A token's text behind the gap in front of it. */
  datatype Word = Word(gap: string, text: string, kind: L.TokenKind, value: string, depth: nat)

  function TextOf(ws: seq<Word>): string {
    if ws == [] then [] else TextOf(ws[..|ws| - 1]) + (ws[|ws| - 1].gap + ws[|ws| - 1].text)
  }

  /** A text that starts with the words. */
  function Whole(ws: seq<Word>, rest: string): string { TextOf(ws) + rest }

  /** Where word `k` starts, behind its gap. */
  function Start(ws: seq<Word>, k: nat): nat
    requires k < |ws|
  {
    |TextOf(ws[..k])| + |ws[k].gap|
  }

  /** Where the first `k` words end. */
  function End(ws: seq<Word>, k: nat): nat
    requires k <= |ws|
  {
    |TextOf(ws[..k])|
  }

  function TokenAt(ws: seq<Word>, k: nat): L.Token
    requires k < |ws|
  {
    L.Token(ws[k].kind, ws[k].value, Start(ws, k), End(ws, k + 1), ws[k].depth)
  }

  function TokensOf(ws: seq<Word>): (r: seq<L.Token>)
    ensures |r| == |ws|
  {
    seq(|ws|, k requires 0 <= k < |ws| => TokenAt(ws, k))
  }

  predicate Solid(ws: seq<Word>) { forall k :: 0 <= k < |ws| ==> ws[k].text != [] }

  lemma EndOfOneMore(ws: seq<Word>, k: nat)
    requires k < |ws|
    ensures TextOf(ws[..k + 1]) == TextOf(ws[..k]) + (ws[k].gap + ws[k].text)
    ensures End(ws, k + 1) == Start(ws, k) + |ws[k].text|
  {
    assert ws[..k + 1][..k] == ws[..k];
  }

  lemma {:induction false} EndsGrow(ws: seq<Word>, i: nat, j: nat)
    requires i <= j <= |ws|
    ensures End(ws, i) <= End(ws, j)
    decreases j
  {
    if i < j {
      EndsGrow(ws, i, j - 1);
      EndOfOneMore(ws, j - 1);
    }
  }

  lemma {:induction false} PrefixStays(ws: seq<Word>, k: nat, rest: string)
    requires k <= |ws|
    ensures End(ws, k) <= |Whole(ws, rest)| && Whole(ws, rest)[..End(ws, k)] == TextOf(ws[..k])
    decreases |ws| - k
  {
    if k == |ws| {
      assert ws[..k] == ws;
    } else {
      PrefixStays(ws, k + 1, rest);
      EndOfOneMore(ws, k);
      assert Whole(ws, rest)[..End(ws, k)] == Whole(ws, rest)[..End(ws, k + 1)][..End(ws, k)];
    }
  }

  /** The words from `i` up to `j`, gaps included. */
  function Stretch(ws: seq<Word>, i: nat, j: nat): string
    requires i <= j <= |ws|
    decreases j
  {
    if i == j then [] else Stretch(ws, i, j - 1) + (ws[j - 1].gap + ws[j - 1].text)
  }

  lemma {:induction false} TextByStretch(ws: seq<Word>, i: nat, j: nat)
    requires i <= j <= |ws|
    ensures TextOf(ws[..j]) == TextOf(ws[..i]) + Stretch(ws, i, j)
    decreases j
  {
    hide TextOf;
    if i == j {
      assert TextOf(ws[..i]) + [] == TextOf(ws[..i]);
    } else {
      TextByStretch(ws, i, j - 1);
      EndOfOneMore(ws, j - 1);
      Regroup(TextOf(ws[..i]), Stretch(ws, i, j - 1), ws[j - 1].gap + ws[j - 1].text);
    }
  }

  /** The text between the end of the first `i` words and the start of word `j`, or their end when there is none. */
  function Between(ws: seq<Word>, i: nat, j: nat): string
    requires i <= j <= |ws|
  {
    if j < |ws| then Stretch(ws, i, j) + ws[j].gap else Stretch(ws, i, j)
  }

  /** Where a stretch of text in front of word `j` ends: at its start, or at the end of the last word. */
  function StartOrEnd(ws: seq<Word>, j: nat): nat
    requires j <= |ws|
  {
    if j < |ws| then Start(ws, j) else End(ws, j)
  }

  lemma SliceBetween(ws: seq<Word>, rest: string, i: nat, j: nat)
    requires i <= j <= |ws|
    ensures End(ws, i) <= StartOrEnd(ws, j) <= |Whole(ws, rest)|
    ensures Whole(ws, rest)[End(ws, i)..StartOrEnd(ws, j)] == Between(ws, i, j)
  {
    hide TextOf, Stretch, Whole;
    TextByStretch(ws, i, j);
    if j < |ws| {
      SliceToStart(ws, rest, i, j);
    } else {
      PrefixStays(ws, j, rest);
      EndOfPrefixSlice(Whole(ws, rest), TextOf(ws[..i]), Stretch(ws, i, j));
    }
  }

  lemma SliceToStart(ws: seq<Word>, rest: string, i: nat, j: nat)
    requires i <= j < |ws|
    ensures End(ws, i) <= Start(ws, j) <= |Whole(ws, rest)|
    ensures Whole(ws, rest)[End(ws, i)..Start(ws, j)] == Stretch(ws, i, j) + ws[j].gap
  {
    hide TextOf, Stretch, Whole;
    TextByStretch(ws, i, j);
    EndOfOneMore(ws, j);
    PrefixStays(ws, j + 1, rest);
    FourParts(Whole(ws, rest), TextOf(ws[..i]), Stretch(ws, i, j), ws[j].gap, ws[j].text);
  }

  lemma EndOfPrefixSlice(s: string, a: string, b: string)
    requires |a + b| <= |s| && s[..|a + b|] == a + b
    ensures s[|a|..|a + b|] == b
  {
    assert s[|a|..|a + b|] == s[..|a + b|][|a|..];
  }

  lemma FourParts(s: string, a: string, b: string, c: string, d: string)
    requires |a + b + (c + d)| <= |s| && s[..|a + b + (c + d)|] == a + b + (c + d)
    ensures s[|a|..|a + b| + |c|] == b + c
  {
    assert a + b + (c + d) == a + (b + c) + d;
    SliceOfPrefix(s, a, b + c, d);
  }

  lemma SliceOfPrefix(s: string, a: string, b: string, c: string)
    requires |a + b + c| <= |s| && s[..|a + b + c|] == a + b + c
    ensures s[|a|..|a + b|] == b
  {
    assert s[|a|..|a + b|] == s[..|a + b + c|][|a|..|a + b|];
  }

  lemma {:induction false} SameStretch(ws: seq<Word>, xs: seq<Word>, i: nat, j: nat)
    requires |ws| == |xs| && i <= j <= |ws|
    requires forall k :: i <= k < j ==> ws[k].gap == xs[k].gap && ws[k].text == xs[k].text
    ensures Stretch(ws, i, j) == Stretch(xs, i, j)
    decreases j
  {
    if i < j { SameStretch(ws, xs, i, j - 1); }
  }

  // ---- Tokens in order --------------------------------------------------------------------------

  /** Spans are not empty and do not overlap. */
  predicate Ordered(tokens: seq<L.Token>) {
    && (forall k :: 0 <= k < |tokens| ==> tokens[k].start < tokens[k].end)
    && (forall j, k :: 0 <= j < k < |tokens| ==> tokens[j].end <= tokens[k].start)
  }

  lemma TokensOrdered(ws: seq<Word>)
    requires Solid(ws)
    ensures Ordered(TokensOf(ws))
  {
    var tokens := TokensOf(ws);
    forall k | 0 <= k < |tokens| ensures tokens[k].start < tokens[k].end { EndOfOneMore(ws, k); }
    forall j, k | 0 <= j < k < |tokens| ensures tokens[j].end <= tokens[k].start { EndsGrow(ws, j + 1, k); }
  }

  function EndBefore(tokens: seq<L.Token>, k: nat): nat
    requires k <= |tokens|
  {
    if k == 0 then 0 else tokens[k - 1].end
  }

  predicate LieIn(tokens: seq<L.Token>, source: string) {
    Ordered(tokens) && forall k :: 0 <= k < |tokens| ==> tokens[k].end <= |source|
  }

  /** The words of a tokenized text. */
  function WordsOf(source: string, tokens: seq<L.Token>): (r: seq<Word>)
    requires LieIn(tokens, source)
    ensures |r| == |tokens|
  {
    seq(|tokens|, k requires 0 <= k < |tokens| =>
      var t := tokens[k];
      Word(source[EndBefore(tokens, k)..t.start], source[t.start..t.end], t.kind, t.value, t.depth))
  }

  lemma NoText()
    ensures TextOf([]) == []
  {}

  lemma {:induction false} WordsGiveText(source: string, tokens: seq<L.Token>, k: nat)
    requires LieIn(tokens, source) && k <= |tokens|
    ensures EndBefore(tokens, k) <= |source| && TextOf(WordsOf(source, tokens)[..k]) == source[..EndBefore(tokens, k)]
    decreases k
  {
    hide TextOf;
    NoText();
    if k == 0 {
      assert WordsOf(source, tokens)[..0] == [];
    } else {
      var ws := WordsOf(source, tokens);
      WordsGiveText(source, tokens, k - 1);
      EndOfOneMore(ws, k - 1);
      var a, t := EndBefore(tokens, k - 1), tokens[k - 1];
      assert source[..a] + (source[a..t.start] + source[t.start..t.end]) == source[..t.end];
    }
  }

  lemma TokenBack(source: string, tokens: seq<L.Token>, k: nat)
    requires LieIn(tokens, source) && k < |tokens|
    ensures TokenAt(WordsOf(source, tokens), k) == tokens[k]
  {
    hide TextOf, WordsOf;
    WordOf(source, tokens, k);
    WordsGiveText(source, tokens, k);
    WordsGiveText(source, tokens, k + 1);
  }

  lemma WordOf(source: string, tokens: seq<L.Token>, k: nat)
    requires LieIn(tokens, source) && k < |tokens|
    ensures var w, t := WordsOf(source, tokens)[k], tokens[k];
      && w.kind == t.kind && w.value == t.value && w.depth == t.depth && w.text != []
      && EndBefore(tokens, k) <= t.start && |w.gap| == t.start - EndBefore(tokens, k)
  {}

  /** Every tokenized text is its words and what follows the last one. */
  lemma TextIsWords(source: string, tokens: seq<L.Token>)
    requires LieIn(tokens, source)
    ensures var ws := WordsOf(source, tokens);
      && EndBefore(tokens, |tokens|) <= |source| && Solid(ws) && TokensOf(ws) == tokens
      && TextOf(ws) + source[EndBefore(tokens, |tokens|)..] == source
  {
    hide TextOf, WordsOf, LieIn, TokenAt;
    var ws := WordsOf(source, tokens);
    WordsGiveText(source, tokens, |tokens|);
    assert ws[..|tokens|] == ws;
    forall k | 0 <= k < |tokens| ensures TokenAt(ws, k) == tokens[k] && ws[k].text != [] {
      TokenBack(source, tokens, k);
      WordOf(source, tokens, k);
    }
  }

  // ---- Simple words are read as they are ------------------------------------------------------------

  /** The character behind word `k`, if there is one. */
  function CharBehind(ws: seq<Word>, k: nat): Option<char>
    requires k < |ws| && Solid(ws)
  {
    if k + 1 == |ws| then None
    else if ws[k + 1].gap != [] then Some(ws[k + 1].gap[0])
    else Some(ws[k + 1].text[0])
  }

  /** A text that is one token of its kind when `behind` follows it. */
  predicate IsSimple(w: Word, behind: Option<char>, decode: string -> string) {
    && w.text != []
    && match w.kind
       case Identifier =>
         && IsNameStart(w.text[0]) && (forall k :: 0 <= k < |w.text| ==> IsNamePart(w.text[k]))
         && (behind.Some? ==> !IsNamePart(behind.value)) && w.value == w.text
       case Number =>
         && IsDigit(w.text[0]) && (forall k :: 0 <= k < |w.text| ==> L.IsNumberPart(w.text[k]))
         && (behind.Some? ==> !L.IsNumberPart(behind.value)) && w.value == w.text
       case StringLiteral =>
         && |w.text| >= 2 && w.text[0] == '\'' == w.text[|w.text| - 1]
         && (forall k :: 0 < k < |w.text| - 1 ==> w.text[k] != '\'' && w.text[k] != '\\')
         && w.value == decode(w.text[1..|w.text| - 1])
       case Punctuation => |w.text| == 1 && w.text[0] in "()[]{}.,;:" && w.value == w.text
       case Operator => w.value == w.text && IsSimpleOperator(w.text, behind)
       case _ => false
  }

  /** Operators that are read alone in front of a blank, a digit or a letter. */
  predicate IsSimpleOperator(text: string, behind: Option<char>) {
    && text in ["?", "||", "-"]
    && behind.Some? && (behind.value == ' ' || IsDigit(behind.value) || IsLetter(behind.value))
  }

  predicate AllSimple(ws: seq<Word>, decode: string -> string) {
    && Solid(ws)
    && (forall k :: 0 <= k < |ws| ==> IsSimple(ws[k], CharBehind(ws, k), decode))
    && (forall k, j :: 0 <= k < |ws| && 0 <= j < |ws[k].gap| ==> ws[k].gap[j] == ' ')
  }

  /** The text from `i` on is read as `ls` to its end, whatever stands before it. */
  ghost predicate Reads(s: string, i: nat, ls: seq<L.Lexeme>, decode: string -> string) {
    i <= |s| && forall previous :: L.Lexemes(s, i, previous, decode) == L.Lexing(ls, true)
  }

  lemma ReadsNothing(s: string, decode: string -> string)
    ensures Reads(s, |s|, [], decode)
  {}

  lemma {:induction false} ReadsBlanks(s: string, i: nat, j: nat, ls: seq<L.Lexeme>, decode: string -> string)
    requires i <= j <= |s| && (forall k :: i <= k < j ==> s[k] == ' ') && Reads(s, j, ls, decode)
    ensures Reads(s, i, ls, decode)
    decreases j - i
  {
    if i < j {
      ReadsBlanks(s, i + 1, j, ls, decode);
      forall previous ensures L.Lexemes(s, i, previous, decode) == L.Lexing(ls, true) {
        assert L.PieceAt(s, i, previous, decode) == L.Skip(i + 1);
      }
    }
  }

  lemma ReadsOne(s: string, i: nat, l: L.Lexeme, ls: seq<L.Lexeme>, decode: string -> string)
    requires i < |s| && l.end <= |s| && forall previous :: L.PieceAt(s, i, previous, decode) == L.Found(l)
    requires Reads(s, l.end, ls, decode)
    ensures Reads(s, i, [l] + ls, decode)
  {
    forall previous ensures L.Lexemes(s, i, previous, decode) == L.Lexing([l] + ls, true) {
      assert L.PieceAt(s, i, previous, decode) == L.Found(l);
      L.LexemesStep(s, i, previous, decode);
    }
  }

  /** The word stands at `i`, and `behind` behind it. */
  predicate StandsAt(s: string, i: nat, w: Word, behind: Option<char>) {
    && i + |w.text| <= |s| && s[i..i + |w.text|] == w.text
    && (if i + |w.text| == |s| then behind.None? else behind == Some(s[i + |w.text|]))
  }

  function LexemeOf(w: Word, i: nat): L.Lexeme { L.Lexeme(w.kind, w.value, i, i + |w.text|) }

  lemma CharsOfWord(s: string, i: nat, w: Word)
    requires i + |w.text| <= |s| && s[i..i + |w.text|] == w.text
    ensures forall k :: i <= k < i + |w.text| ==> s[k] == w.text[k - i]
  {
    assert forall k :: i <= k < i + |w.text| ==> s[k] == s[i..i + |w.text|][k - i];
  }

  lemma SlashFirst(s: string, i: nat)
    requires i < |s| && s[i] != '/'
    ensures !StartsWith(s, i, "//") && !StartsWith(s, i, "/*")
  {
    assert i + 2 <= |s| ==> s[i..i + 2][0] == s[i];
    assert "//"[0] == '/' && "/*"[0] == '/';
  }

  lemma NameRead(s: string, i: nat, w: Word, behind: Option<char>, previous: Option<L.Lexeme>, decode: string -> string)
    requires StandsAt(s, i, w, behind) && IsSimple(w, behind, decode) && w.kind in {L.Identifier, L.Number}
    ensures i < |s| && L.PieceAt(s, i, previous, decode) == L.Found(LexemeOf(w, i))
  {
    CharsOfWord(s, i, w);
    SlashFirst(s, i);
    assert !IsSpace(s[i]) && !IsQuote(s[i]);
  }

  lemma {:induction false} QuoteEnds(s: string, i: nat, close: nat)
    requires i <= close < |s| && s[close] == '\'' && forall k :: i <= k < close ==> s[k] != '\'' && s[k] != '\\'
    ensures L.StringEnd(s, i, '\'') == close
    decreases close - i
  {
    if i < close { QuoteEnds(s, i + 1, close); }
  }

  lemma StringRead(s: string, i: nat, w: Word, behind: Option<char>, previous: Option<L.Lexeme>, decode: string -> string)
    requires StandsAt(s, i, w, behind) && IsSimple(w, behind, decode) && w.kind == L.StringLiteral
    ensures i < |s| && L.PieceAt(s, i, previous, decode) == L.Found(LexemeOf(w, i))
  {
    CharsOfWord(s, i, w);
    SlashFirst(s, i);
    QuoteEnds(s, i + 1, i + |w.text| - 1);
    assert s[i + 1..i + |w.text| - 1] == w.text[1..|w.text| - 1];
  }

  lemma {:induction false} NoneMatches(candidates: seq<string>, s: string, i: nat)
    requires L.NonEmpty(candidates) && forall k :: 0 <= k < |candidates| ==> !StartsWith(s, i, candidates[k])
    ensures L.FirstMatch(candidates, s, i) == None
  {
    if candidates != [] { NoneMatches(candidates[1..], s, i); }
  }

  lemma {:induction false} OneMatches(candidates: seq<string>, s: string, i: nat, n: nat)
    requires L.NonEmpty(candidates) && n < |candidates| && StartsWith(s, i, candidates[n])
    requires forall k :: 0 <= k < n ==> !StartsWith(s, i, candidates[k])
    ensures L.FirstMatch(candidates, s, i) == Some(candidates[n])
  {
    if n > 0 { OneMatches(candidates[1..], s, i, n - 1); }
  }

  lemma StartsAlike(s: string, i: nat, pat: string, k: nat)
    requires StartsWith(s, i, pat) && k < |pat|
    ensures s[i + k] == pat[k]
  {
    assert s[i..i + |pat|][k] == s[i + k];
  }

  /** No listed operator starts with a punctuation mark other than a question mark's dot. */
  lemma OperatorStarts(k: nat)
    requires k < |L.OPERATORS|
    ensures L.OPERATORS[k] != [] && L.OPERATORS[k][0] !in "()[]{}.,;:"
    ensures |L.OPERATORS[k]| >= 2 && (L.OPERATORS[k][0] == '-' ==> L.OPERATORS[k][1] in "-=")
    ensures L.OPERATORS[k][0] == '?' ==> L.OPERATORS[k][1] in "?."
    ensures L.OPERATORS[k][0] == '|' ==> (k == 6 && L.OPERATORS[k] == "||=") || (k == 9 && L.OPERATORS[k] == "||")
  {}

  lemma PunctuationMatchesNone(s: string, i: nat)
    requires i < |s| && s[i] in "()[]{}.,;:"
    ensures L.OperatorAt(s, i) == None
  {
    forall k | 0 <= k < |L.OPERATORS| ensures !StartsWith(s, i, L.OPERATORS[k]) {
      OperatorStarts(k);
      if StartsWith(s, i, L.OPERATORS[k]) { StartsAlike(s, i, L.OPERATORS[k], 0); }
    }
    NoneMatches(L.OPERATORS, s, i);
  }

  lemma PunctuationRead(s: string, i: nat, w: Word, behind: Option<char>, previous: Option<L.Lexeme>, decode: string -> string)
    requires StandsAt(s, i, w, behind) && IsSimple(w, behind, decode) && w.kind == L.Punctuation
    ensures i < |s| && L.PieceAt(s, i, previous, decode) == L.Found(LexemeOf(w, i))
  {
    hide L.OperatorAt, L.StringEnd, L.RegexEnd, L.HasPlaceholder, L.CanStartRegex, IndexOf, SkipWhile;
    CharsOfWord(s, i, w);
    SlashFirst(s, i);
    PunctuationMatchesNone(s, i);
    assert !IsSpace(s[i]) && !IsQuote(s[i]) && !IsNameStart(s[i]) && !IsDigit(s[i]);
    hide StartsWith, IsSpace, IsQuote, IsNameStart;
    assert [s[i]] == w.text;
  }

  lemma OperatorRead(s: string, i: nat, w: Word, behind: Option<char>, previous: Option<L.Lexeme>, decode: string -> string)
    requires StandsAt(s, i, w, behind) && IsSimple(w, behind, decode) && w.kind == L.Operator
    ensures i < |s| && L.PieceAt(s, i, previous, decode) == L.Found(LexemeOf(w, i))
  {
    hide L.OperatorAt, L.StringEnd, L.RegexEnd, L.HasPlaceholder, L.CanStartRegex, IndexOf, SkipWhile;
    CharsOfWord(s, i, w);
    SlashFirst(s, i);
    assert !IsSpace(s[i]) && !IsQuote(s[i]) && !IsNameStart(s[i]) && !IsDigit(s[i]);
    if w.text == "||" {
      BarsMatch(s, i);
    } else {
      SignMatchesNone(s, i);
      assert [s[i]] == w.text;
      assert s[i] !in "()[]{}.,;:";
    }
  }

  lemma BarsMatch(s: string, i: nat)
    requires i + 2 < |s| && s[i] == '|' && s[i + 1] == '|' && s[i + 2] != '='
    ensures L.OperatorAt(s, i) == Some("||")
  {
    forall k | 0 <= k < 9 ensures !StartsWith(s, i, L.OPERATORS[k]) {
      OperatorStarts(k);
      if StartsWith(s, i, L.OPERATORS[k]) {
        StartsAlike(s, i, L.OPERATORS[k], 0);
        StartsAlike(s, i, "||=", 2);
      }
    }
    assert s[i..i + 2] == "||";
    OneMatches(L.OPERATORS, s, i, 9);
  }

  lemma SignMatchesNone(s: string, i: nat)
    requires i + 1 < |s| && s[i] in "?-" && (s[i + 1] == ' ' || IsDigit(s[i + 1]) || IsLetter(s[i + 1]))
    ensures L.OperatorAt(s, i) == None
  {
    forall k | 0 <= k < |L.OPERATORS| ensures !StartsWith(s, i, L.OPERATORS[k]) {
      OperatorStarts(k);
      if StartsWith(s, i, L.OPERATORS[k]) {
        StartsAlike(s, i, L.OPERATORS[k], 0);
        StartsAlike(s, i, L.OPERATORS[k], 1);
      }
    }
    NoneMatches(L.OPERATORS, s, i);
  }

  lemma WordRead(s: string, i: nat, w: Word, behind: Option<char>, decode: string -> string)
    requires StandsAt(s, i, w, behind) && IsSimple(w, behind, decode)
    ensures i < |s| && forall previous :: L.PieceAt(s, i, previous, decode) == L.Found(LexemeOf(w, i))
  {
    hide L.PieceAt, StandsAt;
    assert i < |s| by { CharsThere(s, i, w, behind); }
    forall previous ensures L.PieceAt(s, i, previous, decode) == L.Found(LexemeOf(w, i)) {
      match w.kind
      case Identifier => NameRead(s, i, w, behind, previous, decode);
      case Number => NameRead(s, i, w, behind, previous, decode);
      case StringLiteral => StringRead(s, i, w, behind, previous, decode);
      case Punctuation => PunctuationRead(s, i, w, behind, previous, decode);
      case Operator => OperatorRead(s, i, w, behind, previous, decode);
    }
  }

  lemma CharsThere(s: string, i: nat, w: Word, behind: Option<char>)
    requires StandsAt(s, i, w, behind) && w.text != []
    ensures i < |s|
  {}

  lemma WordSlice(ws: seq<Word>, k: nat)
    requires k < |ws|
    ensures Start(ws, k) <= End(ws, k + 1) <= |TextOf(ws)|
    ensures TextOf(ws)[End(ws, k)..Start(ws, k)] == ws[k].gap
    ensures TextOf(ws)[Start(ws, k)..End(ws, k + 1)] == ws[k].text
  {
    hide TextOf;
    var s, front := TextOf(ws), TextOf(ws[..k]);
    assert s + [] == s;
    PrefixStays(ws, k + 1, []);
    EndOfOneMore(ws, k);
    var gap, text := ws[k].gap, ws[k].text;
    assert front + (gap + text) == front + gap + text == (front + gap) + text + [];
    SliceOfPrefix(s, front, gap, text);
    SliceOfPrefix(s, front + gap, text, []);
  }

  lemma NextChar(ws: seq<Word>, k: nat)
    requires k + 1 < |ws| && Solid(ws)
    ensures End(ws, k + 1) < |TextOf(ws)| && CharBehind(ws, k) == Some(TextOf(ws)[End(ws, k + 1)])
  {
    hide TextOf;
    var s := TextOf(ws);
    WordSlice(ws, k + 1);
    EndOfOneMore(ws, k + 1);
    var end, start := End(ws, k + 1), Start(ws, k + 1);
    if ws[k + 1].gap != [] {
      assert s[end] == s[end..start][0];
    } else {
      assert s[start] == s[start..End(ws, k + 2)][0];
    }
  }

  lemma LastWord(ws: seq<Word>)
    requires ws != [] && Solid(ws)
    ensures End(ws, |ws|) == |TextOf(ws)| && CharBehind(ws, |ws| - 1) == None
  {
    assert ws[..|ws|] == ws;
  }

  lemma WordStands(ws: seq<Word>, k: nat)
    requires k < |ws| && Solid(ws)
    ensures StandsAt(TextOf(ws), Start(ws, k), ws[k], CharBehind(ws, k))
  {
    hide TextOf, CharBehind, Start, Solid;
    WordSlice(ws, k);
    EndOfOneMore(ws, k);
    if k + 1 < |ws| { NextChar(ws, k); } else { LastWord(ws); }
  }

  /** The lexemes of the words from `k` on. */
  function LexemesFrom(ws: seq<Word>, k: nat): seq<L.Lexeme>
    requires k <= |ws|
    decreases |ws| - k
  {
    if k == |ws| then [] else [LexemeOf(ws[k], Start(ws, k))] + LexemesFrom(ws, k + 1)
  }

  /** One more word in front of those that are read. */
  lemma WordInFront(ws: seq<Word>, k: nat, decode: string -> string)
    requires k < |ws| && AllSimple(ws, decode)
    requires Reads(TextOf(ws), End(ws, k + 1), LexemesFrom(ws, k + 1), decode)
    ensures Start(ws, k) <= |TextOf(ws)| && Reads(TextOf(ws), Start(ws, k), LexemesFrom(ws, k), decode)
  {
    hide Reads, IsSimple, StandsAt, TextOf, L.PieceAt, CharBehind;
    var s := TextOf(ws);
    WordStands(ws, k);
    WordSlice(ws, k);
    EndOfOneMore(ws, k);
    WordRead(s, Start(ws, k), ws[k], CharBehind(ws, k), decode);
    ReadsOne(s, Start(ws, k), LexemeOf(ws[k], Start(ws, k)), LexemesFrom(ws, k + 1), decode);
  }

  lemma GapInFront(ws: seq<Word>, k: nat, ls: seq<L.Lexeme>, decode: string -> string)
    requires k < |ws| && AllSimple(ws, decode)
    requires Start(ws, k) <= |TextOf(ws)| && Reads(TextOf(ws), Start(ws, k), ls, decode)
    ensures Reads(TextOf(ws), End(ws, k), ls, decode)
  {
    hide Reads, IsSimple, TextOf, CharBehind;
    var s := TextOf(ws);
    WordSlice(ws, k);
    forall j | End(ws, k) <= j < Start(ws, k) ensures s[j] == ' ' {
      assert s[j] == s[End(ws, k)..Start(ws, k)][j - End(ws, k)];
    }
    ReadsBlanks(s, End(ws, k), Start(ws, k), ls, decode);
  }

  lemma {:induction false} WordsRead(ws: seq<Word>, k: nat, decode: string -> string)
    requires k <= |ws| && AllSimple(ws, decode)
    ensures Reads(TextOf(ws), End(ws, k), LexemesFrom(ws, k), decode)
    decreases |ws| - k
  {
    hide Reads, AllSimple, TextOf;
    if k == |ws| {
      assert ws[..k] == ws;
      ReadsNothing(TextOf(ws), decode);
    } else {
      WordsRead(ws, k + 1, decode);
      WordInFront(ws, k, decode);
      GapInFront(ws, k, LexemesFrom(ws, k), decode);
    }
  }

  lemma {:induction false} LexemesOfTokens(ws: seq<Word>, k: nat)
    requires k <= |ws|
    ensures LexemesFrom(ws, k) == L.Bares(TokensOf(ws))[k..]
    decreases |ws| - k
  {
    if k < |ws| {
      LexemesOfTokens(ws, k + 1);
      EndOfOneMore(ws, k);
      assert L.Bares(TokensOf(ws))[k] == LexemeOf(ws[k], Start(ws, k));
    }
  }

  /** Simple words, with their depths recorded, brackets matched and no assignment, are what the tokenizer makes of their text. */
  lemma SimpleWordsAreTokens(ws: seq<Word>, decode: string -> string)
    requires AllSimple(ws, decode) && L.DepthsRecorded(TokensOf(ws)) && L.WellFormed(TokensOf(ws), true)
    ensures L.Tokenized(TextOf(ws), decode, TokensOf(ws), true)
  {
    WordsRead(ws, 0, decode);
    LexemesOfTokens(ws, 0);
    assert Reads(TextOf(ws), 0, L.Bares(TokensOf(ws)), decode);
  }

  // ---- Words and texts correspond -------------------------------------------------------------------

  lemma WordsLie(ws: seq<Word>, rest: string)
    requires Solid(ws)
    ensures LieIn(TokensOf(ws), Whole(ws, rest))
  {
    hide TextOf, Ordered;
    TokensOrdered(ws);
    forall k | 0 <= k < |ws| ensures TokensOf(ws)[k].end <= |Whole(ws, rest)| { PrefixStays(ws, k + 1, rest); }
  }

  lemma SliceInFront(s: string, more: string, a: nat, b: nat)
    requires a <= b <= |s|
    ensures (s + more)[a..b] == s[a..b]
  {}

  lemma EndOfPrefix(ws: seq<Word>, k: nat)
    requires k <= |ws|
    ensures EndBefore(TokensOf(ws), k) == End(ws, k)
  {
    if k == 0 { assert ws[..0] == []; }
  }

  lemma WordBack(ws: seq<Word>, more: string, k: nat)
    requires k < |ws| && LieIn(TokensOf(ws), Whole(ws, more))
    ensures WordsOf(Whole(ws, more), TokensOf(ws))[k] == ws[k]
  {
    hide TextOf, LieIn, Start, End;
    WordSlice(ws, k);
    EndOfPrefix(ws, k);
    EndOfOneMore(ws, k);
    assert End(ws, k) <= Start(ws, k) by { GapInFrontOf(ws, k); }
    SliceInFront(TextOf(ws), more, End(ws, k), Start(ws, k));
    SliceInFront(TextOf(ws), more, Start(ws, k), End(ws, k + 1));
  }

  lemma GapInFrontOf(ws: seq<Word>, k: nat)
    requires k < |ws|
    ensures End(ws, k) <= Start(ws, k)
  {}

  /** The words of a text made of words are these words. */
  lemma WordsBack(ws: seq<Word>, more: string)
    requires Solid(ws)
    ensures LieIn(TokensOf(ws), Whole(ws, more)) && WordsOf(Whole(ws, more), TokensOf(ws)) == ws
  {
    hide TextOf, LieIn, Start, WordsOf, TokensOf;
    WordsLie(ws, more);
    forall k | 0 <= k < |ws| ensures WordsOf(Whole(ws, more), TokensOf(ws))[k] == ws[k] { WordBack(ws, more, k); }
  }

  /** The tokens of every tokenized source lie in it, so it is its words and what follows them. */
  lemma TokenizedLie(source: string, decode: string -> string, tokens: seq<L.Token>, valid: bool)
    requires L.Tokenized(source, decode, tokens, valid)
    ensures LieIn(tokens, source)
  {
    C.TokenSpans(source, decode);
    var ls := L.Lexemes(source, 0, None, decode).lexemes;
    assert forall k :: 0 <= k < |tokens| ==> ls[k] == L.Bare(tokens[k]);
  }
}
