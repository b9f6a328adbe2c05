/**
 Where the literals, names and numbers of scripts/release-safety-migrations.ts end, said
 without following a scan: by which characters are escaped and which stand in a class.
 */
module Literals {
  import opened Options
  import opened JsText
  import opened Lexer

  /** How many backslashes stand directly before `k`, counting none before `from`. */
  function Backslashes(s: string, from: nat, k: nat): nat
    requires from <= k <= |s|
    decreases k
  {
    if k > from && s[k - 1] == '\\' then Backslashes(s, from, k - 1) + 1 else 0
  }

  /** The character at `k` is not escaped. */
  predicate IsPlain(s: string, from: nat, k: nat) {
    from <= k <= |s| && Backslashes(s, from, k) % 2 == 0
  }

  // ---- String literals ----------------------------------------------------------------------

  /** `close` is the first unescaped `quote` from `from` on. */
  predicate IsFirstQuote(s: string, from: nat, close: nat, quote: char) {
    && from <= close < |s| && s[close] == quote && IsPlain(s, from, close)
    && forall k :: from <= k < close && s[k] == quote ==> !IsPlain(s, from, k)
  }

  predicate NoQuote(s: string, from: nat, quote: char) {
    forall k :: from <= k < |s| && s[k] == quote ==> !IsPlain(s, from, k)
  }

  /** An unescaped `${` before `close`. */
  predicate HasPlainPlaceholder(s: string, from: nat, close: nat) {
    exists k :: from <= k < close && k < |s| && IsPlain(s, from, k) && StartsWith(s, k, "${")
  }

  /** Behind a character that is no escaping backslash, and behind an escaped one, the text is unescaped. */
  lemma PlainSteps(s: string, from: nat, i: nat)
    requires i < |s| && IsPlain(s, from, i)
    ensures s[i] != '\\' ==> IsPlain(s, from, i + 1)
    ensures s[i] == '\\' ==> !IsPlain(s, from, i + 1) && (i + 2 <= |s| ==> IsPlain(s, from, i + 2))
  {
    if s[i] == '\\' && i + 2 <= |s| && s[i + 1] == '\\' {
      assert Backslashes(s, from, i + 2) == Backslashes(s, from, i) + 2;
    }
  }

  lemma {:induction false} StringScan(s: string, from: nat, i: nat, quote: char)
    requires quote != '\\' && from <= i && (i <= |s| ==> IsPlain(s, from, i))
    requires forall k :: from <= k < i && k < |s| && s[k] == quote ==> !IsPlain(s, from, k)
    ensures var r := StringEnd(s, i, quote);
      if r < |s| then IsFirstQuote(s, from, r, quote) else NoQuote(s, from, quote)
    decreases |s| - i
  {
    if i < |s| {
      PlainSteps(s, from, i);
      if s[i] == '\\' {
        StringScan(s, from, i + 2, quote);
      } else if s[i] != quote {
        StringScan(s, from, i + 1, quote);
      }
    }
  }

  /** A string literal ends at its first unescaped quote. */
  lemma StringEndsFirst(s: string, from: nat, quote: char)
    requires quote != '\\' && from <= |s|
    ensures var r := StringEnd(s, from, quote);
      if r < |s| then IsFirstQuote(s, from, r, quote) else NoQuote(s, from, quote)
  {
    StringScan(s, from, from, quote);
  }

  lemma {:induction false} PlaceholderScan(s: string, from: nat, i: nat)
    requires from <= i && (i <= |s| ==> IsPlain(s, from, i))
    requires forall k :: from <= k < i && k < |s| && IsPlain(s, from, k) ==> !StartsWith(s, k, "${")
    ensures HasPlaceholder(s, i, '`') <==> HasPlainPlaceholder(s, from, StringEnd(s, i, '`'))
    decreases |s| - i
  {
    if i < |s| {
      PlainSteps(s, from, i);
      assert StartsWith(s, i, "${") ==> s[i] == "${"[0];
      if s[i] == '\\' {
        PlaceholderScan(s, from, i + 2);
      } else if !StartsWith(s, i, "${") && s[i] != '`' {
        PlaceholderScan(s, from, i + 1);
      }
    }
  }

  /** A template is dynamic exactly when an unescaped placeholder opens before its closing quote. */
  lemma PlaceholderIsPlain(s: string, from: nat)
    requires from <= |s|
    ensures HasPlaceholder(s, from, '`') <==> HasPlainPlaceholder(s, from, StringEnd(s, from, '`'))
  {
    PlaceholderScan(s, from, from);
  }

  // ---- Regular expressions ---------------------------------------------------------------------

  /** The last unescaped bracket before `k` opens a character class. */
  predicate InClass(s: string, from: nat, k: nat) {
    exists j :: from <= j < k && j < |s| && OpensClass(s, from, j) && forall m :: j < m < k && m < |s| ==> !ClosesClass(s, from, m)
  }

  predicate OpensClass(s: string, from: nat, j: nat)
    requires j < |s|
  {
    s[j] == '[' && IsPlain(s, from, j)
  }

  predicate ClosesClass(s: string, from: nat, m: nat)
    requires m < |s|
  {
    s[m] == ']' && IsPlain(s, from, m)
  }

  /** An unescaped slash outside a class, or an unescaped line break, ends a regular expression. */
  predicate EndsRegex(s: string, from: nat, k: nat) {
    k < |s| && IsPlain(s, from, k) && ((s[k] == '/' && !InClass(s, from, k)) || s[k] == '\n')
  }

  predicate IsFirstEnd(s: string, from: nat, close: nat) {
    EndsRegex(s, from, close) && forall k :: from <= k < close ==> !EndsRegex(s, from, k)
  }

  /** One unescaped character further on, or two over an escape. */
  lemma ClassSteps(s: string, from: nat, i: nat)
    requires i < |s| && IsPlain(s, from, i)
    ensures s[i] != '\\' ==> (InClass(s, from, i + 1) <==> s[i] != ']' && (s[i] == '[' || InClass(s, from, i)))
    ensures s[i] == '\\' ==> (InClass(s, from, i + 2) <==> InClass(s, from, i))
  {
    PlainSteps(s, from, i);
    if s[i] == '\\' {
      NoBracket(s, from, i, i + 1);
      if i + 1 < |s| { NoBracket(s, from, i + 1, i + 2); } else { BeyondTheText(s, from, i + 1); }
    } else if s[i] == '[' {
      assert OpensClass(s, from, i);
    } else if s[i] == ']' {
      assert ClosesClass(s, from, i);
    } else {
      NoBracket(s, from, i, i + 1);
    }
  }

  lemma NoBracket(s: string, from: nat, i: nat, next: nat)
    requires i < |s| && next == i + 1 && !OpensClass(s, from, i) && !ClosesClass(s, from, i)
    ensures InClass(s, from, next) <==> InClass(s, from, i)
  {
    if InClass(s, from, i) {
      var j :| from <= j < i && OpensClass(s, from, j) && forall m :: j < m < i && m < |s| ==> !ClosesClass(s, from, m);
      assert forall m :: j < m < next && m < |s| ==> !ClosesClass(s, from, m);
    }
  }

  lemma BeyondTheText(s: string, from: nat, i: nat)
    requires i >= |s|
    ensures InClass(s, from, i + 1) <==> InClass(s, from, i)
  {
    if InClass(s, from, i) {
      var j :| from <= j < i && j < |s| && OpensClass(s, from, j) && forall m :: j < m < i && m < |s| ==> !ClosesClass(s, from, m);
      assert forall m :: j < m < i + 1 && m < |s| ==> !ClosesClass(s, from, m);
    }
  }

  lemma {:induction false} RegexScan(s: string, from: nat, i: nat)
    requires from <= i && (i <= |s| ==> IsPlain(s, from, i))
    requires forall k :: from <= k < i && k < |s| ==> !EndsRegex(s, from, k)
    ensures var r := RegexEnd(s, i, InClass(s, from, i));
      if r < |s| then IsFirstEnd(s, from, r) else forall k :: from <= k < |s| ==> !EndsRegex(s, from, k)
    decreases |s| - i
  {
    if i < |s| {
      PlainSteps(s, from, i);
      ClassSteps(s, from, i);
      if s[i] == '\\' {
        assert !EndsRegex(s, from, i) && !EndsRegex(s, from, i + 1);
        RegexScan(s, from, i + 2);
      } else if !EndsRegex(s, from, i) {
        RegexScan(s, from, i + 1);
      }
    }
  }

  /** The search for the end of a regular expression stops at the first character that ends it. */
  lemma RegexEndsFirst(s: string, from: nat)
    requires from <= |s|
    ensures var r := RegexEnd(s, from, false);
      if r < |s| then IsFirstEnd(s, from, r) else forall k :: from <= k < |s| ==> !EndsRegex(s, from, k)
  {
    assert !InClass(s, from, from);
    RegexScan(s, from, from);
  }

  // ---- Tokens ---------------------------------------------------------------------------------

  /** A longest stretch of characters of one kind. */
  predicate IsRun(s: string, lo: nat, hi: nat, more: char -> bool) {
    && lo <= hi <= |s| && (forall k :: lo <= k < hi ==> more(s[k])) && (hi < |s| ==> !more(s[hi]))
  }

  /** What a token of its kind looks like in the text; `decode` resolves the escapes of a string body. */
  predicate Faithful(s: string, l: Lexeme, decode: string -> string)
    requires l.start < l.end <= |s|
  {
    match l.kind
    case StringLiteral => IsQuoted(s, l, decode) && s[l.start] != '`'
    case Template => IsQuoted(s, l, decode) && s[l.start] == '`' && !HasPlainPlaceholder(s, l.start + 1, l.end - 1)
    case DynamicTemplate => IsQuoted(s, l, decode) && s[l.start] == '`' && HasPlainPlaceholder(s, l.start + 1, l.end - 1)
    case Identifier => IsNameStart(s[l.start]) && IsRun(s, l.start + 1, l.end, IsNamePart) && l.value == s[l.start..l.end]
    case Number => IsDigit(s[l.start]) && IsRun(s, l.start + 1, l.end, IsNumberPart) && l.value == s[l.start..l.end]
    case Regex => IsRegex(s, l) && l.value == s[l.start..l.end]
    case _ => l == SymbolAt(s, l.start)
  }

  predicate IsQuoted(s: string, l: Lexeme, decode: string -> string)
    requires l.start < l.end <= |s|
  {
    && l.start + 2 <= l.end && IsQuote(s[l.start]) && IsFirstQuote(s, l.start + 1, l.end - 1, s[l.start])
    && l.value == decode(s[l.start + 1..l.end - 1])
  }

  /** A slash, the text up to the first slash that ends it, and letters. */
  predicate IsRegex(s: string, l: Lexeme)
    requires l.start < l.end <= |s|
  {
    s[l.start] == '/' && exists close ::
      l.start < close < l.end && IsFirstEnd(s, l.start + 1, close) && s[close] == '/' && IsRun(s, close + 1, l.end, IsLetter)
  }

  /** Whatever the tokenizer finds at a position is what a token of its kind looks like. */
  lemma FoundIsFaithful(s: string, i: nat, previous: Option<Lexeme>, decode: string -> string)
    requires i < |s| && PieceAt(s, i, previous, decode).Found?
    ensures Faithful(s, PieceAt(s, i, previous, decode).lexeme, decode)
  {
    hide StringEnd, RegexEnd, HasPlaceholder, IsFirstQuote, HasPlainPlaceholder, IsFirstEnd;
    var l := PieceAt(s, i, previous, decode).lexeme;
    if IsQuote(s[i]) {
      StringEndsFirst(s, i + 1, s[i]);
      if s[i] == '`' { PlaceholderIsPlain(s, i + 1); }
    } else if l.kind == Regex {
      RegexEndsFirst(s, i + 1);
    }
  }

  // ---- Which piece starts where -----------------------------------------------------------------

  /** The operators of more than one character. */
  predicate IsListed(op: string) {
    op in {"===", "!==", ">>>", "**=", "??=", "&&=", "||=", "=>", "??", "||", "&&", "?.", "==", "!=", "<=", ">=",
      "++", "--", "**", "+=", "-=", "*=", "/=", "<<", ">>"}
  }

  /** Behind what a slash starts a regular expression: nothing, an operator, an opening or separating mark, or a word that takes an operand. */
  predicate TakesRegex(previous: Option<Lexeme>) {
    || previous.None?
    || previous.value.kind == Operator
    || (previous.value.kind == Punctuation && previous.value.value in {"(", "[", "{", ",", ";", ":"})
    || (previous.value.kind == Identifier && previous.value.value in {"case", "delete", "return", "throw", "typeof", "void"})
  }

  lemma ListedExactly(op: string)
    ensures IsListed(op) <==> op in OPERATORS
  {}

  predicate Shrinks(candidates: seq<string>) { forall a, b :: 0 <= a < b < |candidates| ==> |candidates[b]| <= |candidates[a]| }

  lemma {:induction false} FirstIsLongest(candidates: seq<string>, s: string, i: nat)
    requires NonEmpty(candidates) && Shrinks(candidates)
    ensures var r := FirstMatch(candidates, s, i);
      if r.Some? then r.value in candidates && forall k :: 0 <= k < |candidates| && StartsWith(s, i, candidates[k]) ==> |candidates[k]| <= |r.value|
      else forall k :: 0 <= k < |candidates| ==> !StartsWith(s, i, candidates[k])
  {
    hide StartsWith;
    if candidates != [] {
      FirstIsLongest(candidates[1..], s, i);
      assert forall k :: 0 < k < |candidates| ==> candidates[k] == candidates[1..][k - 1];
    }
  }

  lemma OperatorsShrink()
    ensures NonEmpty(OPERATORS) && Shrinks(OPERATORS)
  {
    forall k | 0 <= k < |OPERATORS| ensures |OPERATORS[k]| == if k < 7 then 3 else 2 { Lengths(k); }
  }

  lemma Lengths(k: nat)
    requires k < |OPERATORS|
    ensures |OPERATORS[k]| == if k < 7 then 3 else 2
  {}

  lemma LongestOperator(s: string, i: nat)
    ensures var r := OperatorAt(s, i);
      if r.Some? then IsListed(r.value) && forall op :: IsListed(op) && StartsWith(s, i, op) ==> |op| <= |r.value|
      else forall op :: IsListed(op) ==> !StartsWith(s, i, op)
  {
    hide StartsWith, IsListed, NonEmpty, Shrinks, FirstMatch;
    OperatorsShrink();
    FirstIsLongest(OPERATORS, s, i);
    var r := OperatorAt(s, i);
    if r.Some? { ListedExactly(r.value); }
    forall op | IsListed(op) ensures exists k :: 0 <= k < |OPERATORS| && OPERATORS[k] == op { ListedExactly(op); }
  }

  /** A symbol is the longest listed operator at its position, and one character when there is none. */
  lemma SymbolIsLongest(s: string, i: nat)
    requires i < |s|
    ensures var l := SymbolAt(s, i);
      && (IsListed(l.value) || |l.value| == 1)
      && (forall op :: IsListed(op) && StartsWith(s, i, op) ==> |op| <= |l.value|)
      && (l.kind == Punctuation <==> |l.value| == 1 && l.value[0] in {'(', ')', '[', ']', '{', '}', '.', ',', ';', ':'})
  {
    hide StartsWith, IsListed, OperatorAt;
    LongestOperator(s, i);
    var r := OperatorAt(s, i);
    if r.Some? { LongListed(r.value); }
  }

  lemma LongListed(op: string)
    requires IsListed(op)
    ensures |op| >= 2
  {}

  /** The first character decides what stands at a position; a slash is a comment, a regular expression or an operator by what is around it. */
  lemma KindExactly(s: string, i: nat, previous: Option<Lexeme>, decode: string -> string)
    requires i < |s|
    ensures var c, piece := s[i], PieceAt(s, i, previous, decode);
      var comment := StartsWith(s, i, "//") || StartsWith(s, i, "/*");
      && (piece.Skip? ==> IsSpace(c) || comment)
      && (IsSpace(c) || StartsWith(s, i, "//") ==> piece.Skip?)
      && (piece.Unterminated? ==> c in {'"', '\'', '`'} || (c == '/' && (StartsWith(s, i, "/*") || TakesRegex(previous))))
      && (piece.Found? ==>
            var kind := piece.lexeme.kind;
            && !IsSpace(c) && !comment
            && (kind in {StringLiteral, Template, DynamicTemplate} <==> c in {'"', '\'', '`'})
            && (kind == Identifier <==> 'a' <= c <= 'z' || 'A' <= c <= 'Z' || c == '_' || c == '$')
            && (kind == Number <==> '0' <= c <= '9')
            && (kind == Regex <==> c == '/' && TakesRegex(previous)))
  {
    hide StringEnd, RegexEnd, HasPlaceholder, IndexOf, SkipWhile, OperatorAt;
  }

  /** Text that cannot be read: a string without its quote, a block comment without its end, or a regular expression without its slash. */
  lemma UnterminatedExactly(s: string, i: nat, previous: Option<Lexeme>, decode: string -> string)
    requires i < |s|
    ensures PieceAt(s, i, previous, decode).Unterminated? <==>
      || (s[i] in {'"', '\'', '`'} && NoQuote(s, i + 1, s[i]))
      || (StartsWith(s, i, "/*") && forall k: nat :: i + 2 <= k ==> !StartsWith(s, k, "*/"))
      || (s[i] == '/' && !StartsWith(s, i, "//") && !StartsWith(s, i, "/*") && TakesRegex(previous)
          && forall close: nat :: i < close < |s| && IsFirstEnd(s, i + 1, close) ==> s[close] == '\n')
  {
    hide StringEnd, RegexEnd, HasPlaceholder, IsFirstQuote, NoQuote, IsFirstEnd, SkipWhile, OperatorAt;
    SlashesFirst(s, i);
    if s[i] in {'"', '\'', '`'} {
      StringEndsFirst(s, i + 1, s[i]);
      QuoteOrNone(s, i + 1, s[i]);
    } else if s[i] == '/' && !StartsWith(s, i, "//") && !StartsWith(s, i, "/*") && TakesRegex(previous) {
      RegexEndsFirst(s, i + 1);
      FirstEndIs(s, i + 1);
    }
  }

  lemma SlashesFirst(s: string, i: nat)
    requires i < |s|
    ensures StartsWith(s, i, "//") || StartsWith(s, i, "/*") ==> s[i] == '/'
  {
    if i + 2 <= |s| { assert s[i..i + 2][0] == s[i]; }
    assert "//"[0] == '/' && "/*"[0] == '/';
  }

  lemma QuoteOrNone(s: string, from: nat, quote: char)
    ensures forall close :: IsFirstQuote(s, from, close, quote) ==> !NoQuote(s, from, quote)
  {}

  lemma FirstEndIs(s: string, from: nat)
    ensures forall a: nat, b: nat :: a < |s| && b < |s| && IsFirstEnd(s, from, a) && IsFirstEnd(s, from, b) ==> a == b
    ensures forall a: nat :: IsFirstEnd(s, from, a) ==> from <= a < |s| && (s[a] == '/' || s[a] == '\n')
    ensures forall a: nat :: (forall k :: from <= k < |s| ==> !EndsRegex(s, from, k)) ==> !IsFirstEnd(s, from, a)
  {
  }
}
