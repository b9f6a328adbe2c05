/**
 What a scalar on one line means to examples/upgrade-automation/scripts/bump-target.py: where
 it ends, what it says in each of its three styles, and how a replacement is written.
 */
module ScalarMeaning {
  import opened Options
  import opened YamlScalar
  import opened YamlLines
  import J = JsonText

  // ---- White space -----------------------------------------------------------------------------

  lemma SpacesListed(c: char)
    ensures IsSpace(c) <==> c in {'\t', '\n', '\U{0B}', '\U{0C}', '\r', '\U{1C}', '\U{1D}', '\U{1E}', '\U{1F}', ' ', '\U{85}', '\U{A0}',
      '\U{1680}', '\U{2000}', '\U{2001}', '\U{2002}', '\U{2003}', '\U{2004}', '\U{2005}', '\U{2006}', '\U{2007}', '\U{2008}',
      '\U{2009}', '\U{200A}', '\U{2028}', '\U{2029}', '\U{202F}', '\U{205F}', '\U{3000}'}
  {
    assert c == (c as int) as char;
  }

  // ---- JSON strings -----------------------------------------------------------------------------

  ghost predicate IsHex(c: char, d: int) {
    0 <= d < 16 && (c == "0123456789abcdef"[d] || c == "0123456789ABCDEF"[d])
  }

  /** Four digits that spell a number. */
  ghost predicate IsNumber(u: string, n: int) {
    && |u| == 4
    && exists a, b, c, d :: IsHex(u[0], a) && IsHex(u[1], b) && IsHex(u[2], c) && IsHex(u[3], d) && n == a * 0x1000 + b * 0x100 + c * 0x10 + d
  }

  ghost predicate IsEscape(u: string, n: int) { |u| == 6 && u[0] == '\\' && u[1] == 'u' && IsNumber(u[2..], n) }

  /** Two escapes that spell a character outside the basic plane. */
  ghost predicate IsPair(u: string, c: char, high: int, low: int) {
    && |u| == 12 && IsEscape(u[..6], high) && IsEscape(u[6..], low)
    && 0xD800 <= high < 0xDC00 && 0xDC00 <= low < 0xE000
    && c as int == 0x1_0000 + (high - 0xD800) * 0x400 + (low - 0xDC00)
  }

  ghost predicate IsAnyPair(u: string, c: char) { exists high, low :: IsPair(u, c, high, low) }

  /** How a JSON string may spell a character: as itself, by one of eight letters, or by its number. */
  ghost predicate IsUnit(u: string, c: char) {
    || (u == [c] && c >= ' ' && c !in {'"', '\\'})
    || (|u| == 2 && u[0] == '\\'
        && (u[1], c) in {('"', '"'), ('\\', '\\'), ('/', '/'), ('n', '\n'), ('r', '\r'), ('t', '\t'), ('f', '\U{0C}'), ('b', '\U{08}')})
    || IsEscape(u, c as int)
    || IsAnyPair(u, c)
  }

  /** Units for the characters of the text, one after the other, and the closing quote. */
  ghost predicate IsBody(s: string, text: string)
    decreases |text|
  {
    if text == [] then s == "\"" else exists n: nat :: StartsWithUnit(s, n, text)
  }

  ghost predicate StartsWithUnit(s: string, n: nat, text: string)
    requires text != []
    decreases |text|, 0
  {
    n <= |s| && IsUnit(s[..n], text[0]) && IsBody(s[n..], text[1..])
  }

  lemma HexExactly(c: char, d: nat)
    ensures IsHex(c, d) <==> J.HexValue(c) == Some(d)
  {}

  lemma HexIsUnique(c: char, d: int)
    ensures IsHex(c, d) ==> J.HexValue(c) == Some(d)
  {
    if 0 <= d { HexExactly(c, d); }
  }

  lemma FourDigits(s: string, i: nat)
    requires i + 4 <= |s|
    ensures var a, b, c, d := J.HexValue(s[i]), J.HexValue(s[i + 1]), J.HexValue(s[i + 2]), J.HexValue(s[i + 3]);
      J.ReadHex(s, i, 4) ==
        if a.Some? && b.Some? && c.Some? && d.Some? then Some(a.value * 0x1000 + b.value * 0x100 + c.value * 0x10 + d.value) else None
  {
    hide J.HexValue;
    assert J.ReadHex(s, i, 0) == Some(0);
    assert J.ReadHex(s, i, 1) == J.HexValue(s[i]);
    var two := J.ReadHex(s, i, 2);
    var three := J.ReadHex(s, i, 3);
  }

  lemma NumberExactly(s: string, i: nat, n: nat)
    requires i + 4 <= |s|
    ensures J.ReadHex(s, i, 4) == Some(n) <==> IsNumber(s[i..i + 4], n)
  {
    hide J.HexValue, IsHex, J.ReadHex;
    FourDigits(s, i);
    var u := s[i..i + 4];
    assert u[0] == s[i] && u[1] == s[i + 1] && u[2] == s[i + 2] && u[3] == s[i + 3];
    forall c: char, d: int ensures IsHex(c, d) ==> J.HexValue(c) == Some(d) { HexIsUnique(c, d); }
    forall k | 0 <= k < 4 && J.HexValue(u[k]).Some? ensures IsHex(u[k], J.HexValue(u[k]).value) { HexExactly(u[k], J.HexValue(u[k]).value); }
  }

  lemma EscapeExactly(s: string, i: nat, n: nat)
    requires i + 6 <= |s| && s[i] == '\\' && s[i + 1] == 'u'
    ensures IsEscape(s[i..i + 6], n) <==> J.ReadHex(s, i + 2, 4) == Some(n)
  {
    hide IsNumber, J.ReadHex;
    NumberExactly(s, i + 2, n);
    assert s[i..i + 6][2..] == s[i + 2..i + 6];
  }

  lemma EscapeIsNat(u: string, n: int)
    ensures IsEscape(u, n) ==> n >= 0
  {}

  /** A character that is not escaped. */
  lemma PlainUnit(s: string, i: nat, c: char, next: nat)
    requires i < |s| && s[i] != '\\'
    ensures s[i] != '"' && J.ReadUnit(s, i) == Some(J.Step(c, next)) <==> i <= next <= |s| && IsUnit(s[i..next], c)
  {
    hide IsEscape;
    if i <= next <= |s| {
      var u := s[i..next];
      if u != [] { assert u[0] == s[i]; }
      EscapeStarts(u, c as int);
      forall high, low ensures !IsPair(u, c, high, low) { PairStarts(u, c, high, low); }
      if next == i + 1 { assert u == [s[i]]; }
    }
  }

  lemma EscapeStarts(u: string, n: int)
    ensures IsEscape(u, n) ==> |u| == 6 && u[0] == '\\' && u[1] == 'u'
  {}

  lemma PairStarts(u: string, c: char, high: int, low: int)
    ensures IsPair(u, c, high, low) ==> |u| == 12 && u[0] == '\\' && u[1] == 'u' && u[6] == '\\' && u[7] == 'u'
  {
    if IsPair(u, c, high, low) { assert u[0] == u[..6][0] && u[1] == u[..6][1] && u[6] == u[6..][0] && u[7] == u[6..][1]; }
  }

  /** A character spelled by a letter. */
  lemma LetterUnit(s: string, i: nat, c: char, next: nat)
    requires i < |s| && s[i] == '\\' && (i + 1 < |s| ==> s[i + 1] != 'u')
    ensures J.ReadUnit(s, i) == Some(J.Step(c, next)) <==> i <= next <= |s| && IsUnit(s[i..next], c)
  {
    hide IsEscape;
    if i <= next <= |s| {
      var u := s[i..next];
      if |u| >= 2 { assert u[0] == s[i] && u[1] == s[i + 1]; }
      if u != [] { assert u[0] == s[i]; }
      EscapeStarts(u, c as int);
      forall high, low ensures !IsPair(u, c, high, low) { PairStarts(u, c, high, low); }
    }
  }

  /** A character spelled by one number. */
  lemma OneNumber(s: string, i: nat, c: char)
    requires i + 6 <= |s| && s[i] == '\\' && s[i + 1] == 'u'
    ensures J.ReadUnicode(s, i) == Some(J.Step(c, i + 6)) <==> IsEscape(s[i..i + 6], c as int)
  {
    hide IsEscape, J.ReadHex;
    EscapeExactly(s, i, c as nat);
  }

  /** A character spelled by two. */
  lemma TwoNumbers(s: string, i: nat, c: char)
    requires i + 12 <= |s| && s[i] == '\\' && s[i + 1] == 'u'
    ensures J.ReadUnicode(s, i) == Some(J.Step(c, i + 12)) <==> IsAnyPair(s[i..i + 12], c)
  {
    hide IsEscape, IsPair, J.ReadHex;
    SecondEscape(s, i, c);
    assert s[i + 6..i + 8] == [s[i + 6], s[i + 7]];
    var u, high, low := s[i..i + 12], J.ReadHex(s, i + 2, 4), J.ReadHex(s, i + 8, 4);
    if high.Some? && low.Some? {
      EscapeExactly(s, i, high.value);
      assert IsPair(u, c, high.value, low.value) <==> J.ReadUnicode(s, i) == Some(J.Step(c, i + 12));
    }
    forall h, l | IsPair(u, c, h, l) ensures high == Some(h) && low == Some(l) {
      EscapeIsNat(s[i..i + 6], h);
      if h >= 0 { EscapeExactly(s, i, h); }
    }
  }

  /** A character spelled by its number. */
  lemma NumberUnit(s: string, i: nat, c: char, next: nat)
    requires i + 1 < |s| && s[i] == '\\' && s[i + 1] == 'u'
    ensures J.ReadUnicode(s, i) == Some(J.Step(c, next)) <==>
      || (next == i + 6 <= |s| && IsEscape(s[i..next], c as int))
      || (next == i + 12 <= |s| && IsAnyPair(s[i..next], c))
  {
    hide IsEscape, IsAnyPair, J.ReadHex;
    if next == i + 6 <= |s| { OneNumber(s, i, c); }
    if next == i + 12 <= |s| { TwoNumbers(s, i, c); }
  }

  lemma SecondEscape(s: string, i: nat, c: char)
    requires i + 12 <= |s|
    ensures var u := s[i..i + 12];
      forall high, low :: IsPair(u, c, high, low) <==>
        IsEscape(s[i..i + 6], high) && s[i + 6] == '\\' && s[i + 7] == 'u' && J.ReadHex(s, i + 8, 4).Some? && low == J.ReadHex(s, i + 8, 4).value
        && 0xD800 <= high < 0xDC00 && 0xDC00 <= low < 0xE000 && c as int == 0x1_0000 + (high - 0xD800) * 0x400 + (low - 0xDC00)
  {
    hide J.ReadHex, IsEscape;
    var u := s[i..i + 12];
    assert u[..6] == s[i..i + 6] && u[6..] == s[i + 6..i + 12];
    EscapeStarts(u[6..], 0);
    forall low: int ensures IsEscape(u[6..], low) ==> low >= 0 && u[6..][0] == '\\' && u[6..][1] == 'u' {
      EscapeIsNat(u[6..], low);
      EscapeStarts(u[6..], low);
    }
    assert u[6..][0] == s[i + 6] && u[6..][1] == s[i + 7];
    if s[i + 6] == '\\' && s[i + 7] == 'u' {
      forall low: nat ensures IsEscape(u[6..], low) <==> J.ReadHex(s, i + 8, 4) == Some(low) { EscapeExactly(s, i + 6, low); }
    }
  }

  lemma NoOtherUnit(u: string, c: char)
    requires |u| >= 2 && u[0] == '\\' && u[1] == 'u'
    ensures IsUnit(u, c) <==> IsEscape(u, c as int) || IsAnyPair(u, c)
  {
    hide IsEscape, IsPair;
  }

  lemma UnitIsLong(u: string, c: char)
    ensures IsUnit(u, c) ==> u != [] && (u[0] == '\\' ==> |u| >= 2)
  {
    hide IsNumber;
    forall high, low ensures IsPair(u, c, high, low) ==> |u| >= 2 { PairStarts(u, c, high, low); }
  }

  /** What the reader takes at a position is exactly a unit that stands there. */
  lemma UnitExactly(s: string, i: nat, c: char, next: nat)
    requires i < |s|
    ensures s[i] != '"' && J.ReadUnit(s, i) == Some(J.Step(c, next)) <==> i <= next <= |s| && IsUnit(s[i..next], c)
  {
    hide IsUnit, IsPair, IsEscape, J.ReadHex;
    if s[i] != '\\' {
      PlainUnit(s, i, c, next);
    } else if i + 1 < |s| && s[i + 1] == 'u' {
      NumberUnit(s, i, c, next);
      if i <= next <= |s| {
        var u := s[i..next];
        UnitIsLong(u, c);
        if u != [] { assert u[0] == s[i]; }
        if |u| >= 2 {
          assert u[1] == s[i + 1];
          NoOtherUnit(u, c);
          EscapeStarts(u, c as int);
          forall high, low ensures IsPair(u, c, high, low) ==> |u| == 12 { PairStarts(u, c, high, low); }
        } else {
          EscapeStarts(u, c as int);
          forall high, low ensures IsPair(u, c, high, low) ==> |u| == 12 { PairStarts(u, c, high, low); }
        }
      }
      assert J.ReadUnit(s, i) == J.ReadUnicode(s, i);
    } else {
      LetterUnit(s, i, c, next);
    }
  }

  /** The reader takes exactly the bodies of strings. */
  lemma {:induction false} BodyExactly(s: string, i: nat, text: string)
    requires i <= |s|
    ensures J.ReadUnits(s, i) == Some(text) <==> IsBody(s[i..], text)
    decreases |s| - i, 1
  {
    hide J.ReadUnit, IsUnit;
    var rest := s[i..];
    if i == |s| {
      forall n: nat | text != [] ensures !StartsWithUnit(rest, n, text) { NothingStarts(n, text); }
    } else if text == [] {
      assert rest == [s[i]] + s[i + 1..];
    } else {
      BodyStep(s, i, text);
    }
  }

  lemma NothingStarts(n: nat, text: string)
    requires text != []
    ensures !StartsWithUnit("", n, text)
  {
    UnitIsLong("", text[0]);
  }

  lemma {:induction false} BodyStep(s: string, i: nat, text: string)
    requires i < |s| && text != []
    ensures J.ReadUnits(s, i) == Some(text) <==> IsBody(s[i..], text)
    decreases |s| - i, 0
  {
    hide J.ReadUnit, IsUnit;
    var rest, step := s[i..], J.ReadUnit(s, i);
    if s[i] != '"' && step.Some? {
      var n := step.value.next - i;
      UnitExactly(s, i, step.value.c, step.value.next);
      assert rest[..n] == s[i..i + n] && rest[n..] == s[i + n..];
      BodyExactly(s, i + n, text[1..]);
      assert [text[0]] + text[1..] == text;
      if J.ReadUnits(s, i) == Some(text) { assert StartsWithUnit(rest, n, text); }
    }
    if n: nat :| StartsWithUnit(rest, n, text) {
      assert rest[..n] == s[i..i + n] && rest[n..] == s[i + n..];
      UnitExactly(s, i, text[0], i + n);
    }
  }

  /** A literal is read as a text exactly when it spells it, unit by unit, between its quotes. */
  lemma LoadsExactly(literal: string, text: string)
    ensures J.Loads(literal) == Some(text) <==> literal != "" && literal[0] == '"' && IsBody(literal[1..], text)
  {
    if literal != "" { BodyExactly(literal, 1, text); }
  }

  /** How a character is written: itself when it is printable ASCII, else by a letter if there is one, else by its number in small digits. */
  lemma WrittenUnit(c: char)
    ensures IsUnit(J.Unit(c), c)
    ensures |J.Unit(c)| == 1 <==> ' ' <= c <= '~' && c !in {'"', '\\'}
    ensures |J.Unit(c)| == 2 <==> c in {'"', '\\', '\n', '\r', '\t', '\U{0C}', '\U{08}'}
    ensures forall k :: 2 <= k < |J.Unit(c)| ==> J.Unit(c)[k] in "0123456789abcdef\\u"
  {
    hide IsUnit, J.ReadUnit;
    var u := J.Unit(c);
    assert u[0..|u|] == u;
    J.ReadWrittenUnit(c, u, 0);
    UnitExactly(u, 0, c, |u|);
    UnitDigits(c);
  }

  lemma DigitListed(c: char)
    requires J.IsHexDigit(c)
    ensures c in "0123456789abcdef\\u"
  {
    if '0' <= c <= '9' {
      assert c == "0123456789abcdef\\u"[c as int - '0' as int];
    } else {
      assert c == "0123456789abcdef\\u"[10 + c as int - 'a' as int];
    }
  }

  lemma UnitDigits(c: char)
    ensures forall k :: 2 <= k < |J.Unit(c)| ==> J.Unit(c)[k] in "0123456789abcdef\\u"
  {
    hide J.HexDigits, J.IsHexDigit;
    var n := c as nat;
    forall d: char | J.IsHexDigit(d) ensures d in "0123456789abcdef\\u" { DigitListed(d); }
    if n < 0x1_0000 {
      J.HexDigitsAreHex(n, 4);
    } else {
      var v := n - 0x1_0000;
      J.HexDigitsAreHex(0xD800 + v / 0x400, 4);
      J.HexDigitsAreHex(0xDC00 + v % 0x400, 4);
    }
  }

  // ---- Where a quoted scalar ends -----------------------------------------------------------------

  /** Directly before position `i`, but behind the first character, stand exactly `n` times `c`. */
  ghost predicate IsRun(s: string, i: nat, c: char, n: nat) {
    n < i <= |s| && (forall k :: i - n <= k < i ==> s[k] == c) && (i - n == 1 || s[i - n - 1] != c)
  }

  ghost predicate HasEvenRun(s: string, i: nat, c: char) { exists m: nat :: IsRun(s, i, c, 2 * m) }

  /** A quote closes: in single quotes the last of an odd run, in double quotes one behind an even run of backslashes. */
  ghost predicate Closes(s: string, c: nat) {
    && 1 <= c < |s| && s[c] == s[0]
    && if s[0] == '\'' then HasEvenRun(s, c, '\'') && (c + 1 < |s| ==> s[c + 1] != '\'') else HasEvenRun(s, c, '\\')
  }

  ghost predicate ClosesFirst(s: string, c: nat) { Closes(s, c) && forall j: nat :: j < c ==> !Closes(s, j) }

  ghost function Run(s: string, i: nat, c: char): nat
    requires 1 <= i <= |s|
  {
    if i > 1 && s[i - 1] == c then Run(s, i - 1, c) + 1 else 0
  }

  lemma {:induction false} RunExactly(s: string, i: nat, c: char, n: nat)
    requires 1 <= i <= |s|
    ensures IsRun(s, i, c, n) <==> Run(s, i, c) == n
  {
    if i > 1 && s[i - 1] == c {
      if n > 0 { RunExactly(s, i - 1, c, n - 1); }
    }
  }

  lemma EvenRunExactly(s: string, i: nat, c: char)
    requires 1 <= i <= |s|
    ensures HasEvenRun(s, i, c) <==> Run(s, i, c) % 2 == 0
  {
    hide IsRun;
    var n := Run(s, i, c);
    forall m: nat ensures IsRun(s, i, c, 2 * m) <==> n == 2 * m { RunExactly(s, i, c, 2 * m); }
    if n % 2 == 0 {
      assert n == 2 * (n / 2);
      assert IsRun(s, i, c, 2 * (n / 2));
    }
  }

  lemma {:induction false} RunOfBackslashes(s: string, i: nat)
    requires 1 <= i <= |s| && s[0] != '\\'
    ensures Backslashes(s, i) == Run(s, i, '\\')
  {
    if i > 1 { RunOfBackslashes(s, i - 1); }
  }

  predicate IsQuoted(s: string) { s != "" && s[0] in {'"', '\''} }

  lemma ClosesExactly(s: string, c: nat)
    requires IsQuoted(s)
    ensures Closes(s, c) <==>
      && 1 <= c < |s| && s[c] == s[0] && !IsInner(s, c, s[0]) && (s[0] == '\'' ==> Run(s, c, '\'') % 2 == 0)
  {
    if 1 <= c < |s| {
      EvenRunExactly(s, c, '\'');
      EvenRunExactly(s, c, '\\');
      RunOfBackslashes(s, c);
    }
  }

  /** What the search from `end` finds is the first quote there that closes; otherwise it runs off the end or fails. */
  ghost predicate SearchIs(s: string, end: nat, r: Option<nat>) {
    && (r.Some? && r.value < |s| ==> Closes(s, r.value) && forall j: nat :: end <= j < r.value ==> !Closes(s, j))
    && (r.None? || r.value >= |s| ==> forall j: nat :: end <= j ==> !Closes(s, j))
    && (r.Some? && r.value >= |s| ==> r.value == |s| && (end < |s| ==> s[|s| - 1] == s[0]))
    && (r.None? ==> s == "" || s[|s| - 1] != s[0])
  }

  lemma FoundFirst(s: string, end: nat)
    requires IsQuoted(s) && 1 <= end < |s|
    ensures var q := Find(s, end, s[0]);
      && (q.None? ==> (forall j: nat :: end <= j ==> !Closes(s, j)) && s[|s| - 1] != s[0])
      && (q.Some? ==> forall j: nat :: end <= j < q.value ==> !Closes(s, j))
  {}

  lemma {:induction false} DoubleSearch(s: string, end: nat)
    requires IsQuoted(s) && s[0] == '"' && 1 <= end <= |s|
    ensures SearchIs(s, end, ClosingQuote(s, end, '"'))
    decreases |s| - end
  {
    hide Closes;
    if end == |s| {
      NoneBeyond(s);
    } else {
      FoundFirst(s, end);
      var q := Find(s, end, '"');
      if q.Some? {
        ClosesExactly(s, q.value);
        if IsInner(s, q.value, '"') { DoubleSearch(s, q.value + 1); }
      }
    }
  }

  lemma NoneBeyond(s: string)
    ensures forall j: nat :: |s| <= j ==> !Closes(s, j)
  {}

  /** Up to the next quote from a position behind an even run the run there is even. */
  lemma EvenAtNext(s: string, end: nat)
    requires IsQuoted(s) && s[0] == '\'' && 1 <= end < |s| && Run(s, end, '\'') % 2 == 0 && Find(s, end, '\'').Some?
    ensures Run(s, Find(s, end, '\'').value, '\'') % 2 == 0
  {}

  lemma {:induction false} SingleSearch(s: string, end: nat)
    requires IsQuoted(s) && s[0] == '\'' && 1 <= end <= |s| && Run(s, end, '\'') % 2 == 0
    ensures SearchIs(s, end, ClosingQuote(s, end, '\''))
    decreases |s| - end
  {
    hide Closes;
    if end == |s| {
      NoneBeyond(s);
    } else {
      FoundFirst(s, end);
      var q := Find(s, end, '\'');
      if q.Some? {
        EvenAtNext(s, end);
        ClosesExactly(s, q.value);
        if IsInner(s, q.value, '\'') {
          ClosesExactly(s, q.value + 1);
          SingleSearch(s, q.value + 2);
        }
      }
    }
  }

  lemma SearchExactly(s: string)
    requires IsQuoted(s)
    ensures SearchIs(s, 1, ClosingQuote(s, 1, s[0]))
  {
    hide SearchIs, ClosingQuote;
    if s[0] == '"' { DoubleSearch(s, 1); } else { SingleSearch(s, 1); }
  }

  // ---- What a scalar says -----------------------------------------------------------------------------

  /** No quote closes, and the text does not end in one. */
  ghost predicate IsUnended(s: string) { IsQuoted(s) && (forall c: nat :: !Closes(s, c)) && s[|s| - 1] != s[0] }

  /** The literal reaches to the quote that closes; when none does, it is everything. */
  ghost predicate IsLiteral(s: string, literal: string, trailing: string) {
    && IsQuoted(s) && !IsUnended(s)
    && if exists c: nat :: Closes(s, c) then exists c: nat :: ClosesFirst(s, c) && literal == s[..c + 1] && trailing == s[c + 1..]
       else literal == s && trailing == ""
  }

  /** In double quotes a JSON string; in single quotes the text in which each quote is written twice. */
  ghost predicate IsSaid(s: string, literal: string, value: string) {
    && literal != ""
    && if literal[0] == '"' then IsBody(literal[1..], value)
       else if exists c: nat :: Closes(s, c) then literal == "'" + Double(value) + "'"
       else literal == "'" + Double(value)
  }

  /** White space from `p` on leads to a `#`. */
  ghost predicate LeadsToComment(s: string, p: nat, h: nat) {
    p < h < |s| && s[h] == '#' && forall k :: p <= k < h ==> IsSpace(s[k])
  }

  ghost predicate StartsComment(s: string, p: nat) { exists h: nat :: LeadsToComment(s, p, h) }

  /** The text up to its first comment. */
  ghost predicate IsPlain(s: string, value: string, trailing: string) {
    if exists p: nat :: StartsComment(s, p)
    then s == value + trailing && StartsComment(s, |value|) && forall p: nat :: p < |value| ==> !StartsComment(s, p)
    else value == s && trailing == ""
  }

  /** What the scalar of some text says, in its style, and what follows it. */
  ghost predicate IsScalarOf(s: string, p: Parts) {
    && s != ""
    && if IsQuoted(s) then p.quote == [s[0]] && exists literal :: IsLiteral(s, literal, p.trailing) && IsSaid(s, literal, p.value)
       else p.quote == "" && IsPlain(s, p.value, p.trailing)
  }

  lemma LiteralExactly(s: string) returns (literal: string, trailing: string)
    requires IsQuoted(s) && !IsUnended(s)
    ensures ClosingQuote(s, 1, s[0]).Some?
    ensures var end := ClosingQuote(s, 1, s[0]).value; literal == Literal(s, end) && trailing == Trailing(s, end)
    ensures forall a, b :: IsLiteral(s, a, b) <==> a == literal && b == trailing
  {
    hide Closes;
    UnendedExactly(s);
    SearchExactly(s);
    ClosesBehind(s);
    var end := ClosingQuote(s, 1, s[0]).value;
    literal, trailing := Literal(s, end), Trailing(s, end);
    if end < |s| {
      forall c: nat ensures ClosesFirst(s, c) <==> c == end {}
      assert Closes(s, end);
      forall a, b ensures IsLiteral(s, a, b) <==> a == literal && b == trailing {
        if a == literal && b == trailing { assert ClosesFirst(s, end); }
      }
    } else {
      assert forall c: nat :: !Closes(s, c);
      forall a, b ensures IsLiteral(s, a, b) <==> a == literal && b == trailing {}
    }
  }

  lemma ClosesBehind(s: string)
    ensures forall j: nat :: j < 1 ==> !Closes(s, j)
  {}

  lemma UnendedExactly(s: string)
    requires IsQuoted(s)
    ensures IsUnended(s) <==> ClosingQuote(s, 1, s[0]).None?
  {
    hide Closes;
    SearchExactly(s);
    ClosesBehind(s);
  }

  lemma {:induction false} DoubleEnds(v: string)
    requires v != ""
    ensures Double(v) != "" && Double(v)[|Double(v)| - 1] == v[|v| - 1]
  {
    if |v| > 1 { DoubleEnds(v[1..]); }
  }

  /** Text that is cut inside its last doubled quote. */
  lemma {:induction false} HalveCut(v: string)
    requires v != "" && v[|v| - 1] == '\''
    ensures Double(v) != "" && Halve(Double(v)[..|Double(v)| - 1]) == v
  {
    if |v| > 1 {
      HalveCut(v[1..]);
      DoubleEnds(v[1..]);
      var head, rest := if v[0] == '\'' then "''" else [v[0]], Double(v[1..]);
      assert (head + rest)[..|head + rest| - 1] == head + rest[..|rest| - 1];
      assert (head + rest[..|rest| - 1])[|head|..] == rest[..|rest| - 1];
    } else {
      assert Double(v) == "''" + Double(v[1..]) == "''";
      assert "''"[..1] == "'";
      assert "'"[1..] == "";
    }
  }

  /** Where the search stops, or the end of the text. */
  function Stop(s: string, i: nat): nat
    requires i <= |s| && ClosingQuote(s, i, '\'').Some?
  {
    var end := ClosingQuote(s, i, '\'').value;
    if end < |s| then end else |s|
  }

  lemma DoubleFirst(head: char, v: string)
    ensures Double([head] + v) == Double([head]) + Double(v)
  {
    assert ([head] + v)[1..] == v && [head][1..] == "" && Double("") == "";
  }

  lemma DoubledMore(s: string, i: nat, n: nat, stop: nat, head: char, v: string)
    requires i <= i + n <= stop <= |s|
    requires s[i..i + n] == Double([head]) && s[i + n..stop] == Double(v)
    ensures s[i..stop] == Double([head] + v)
  {
    hide Double;
    DoubleFirst(head, v);
    assert s[i..stop] == s[i..i + n] + s[i + n..stop];
  }

  /** Up to where the search stops each quote is doubled. */
  lemma {:induction false} DoubledUpTo(s: string, i: nat) returns (v: string)
    requires i <= |s| && ClosingQuote(s, i, '\'').Some?
    ensures s[i..Stop(s, i)] == Double(v)
    decreases |s| - i
  {
    v := "";
    if i < |s| && s[i] != '\'' {
      SkipOrdinary(s, i, '\'');
      v := DoubledUpTo(s, i + 1);
      DoubledMore(s, i, 1, Stop(s, i), s[i], v);
      v := [s[i]] + v;
    } else if i < |s| && IsInner(s, i, '\'') {
      v := DoubledUpTo(s, i + 2);
      DoubledMore(s, i, 2, Stop(s, i), '\'', v);
      v := "'" + v;
    }
  }

  lemma SaidInSingle(s: string, literal: string, value: string)
    requires IsQuoted(s) && s[0] == '\'' && ClosingQuote(s, 1, '\'').Some? && literal == Literal(s, ClosingQuote(s, 1, '\'').value)
    ensures IsSaid(s, literal, value) <==> Halve(Inner(literal)) == value
  {
    hide Closes, ClosingQuote, Halve, Double;
    SearchExactly(s);
    ClosesBehind(s);
    var end := ClosingQuote(s, 1, '\'').value;
    var v := DoubledUpTo(s, 1);
    HalveDouble(v);
    HalveDouble(value);
    if end < |s| {
      assert Closes(s, end);
      assert literal == "'" + Double(v) + "'";
      assert ("'" + Double(v) + "'")[1..|literal| - 1] == Double(v);
      assert ("'" + Double(value) + "'")[1..|Double(value)| + 1] == Double(value);
    } else {
      assert forall c: nat :: !Closes(s, c);
      assert s == "'" + Double(v) && ("'" + Double(value))[1..] == Double(value);
      UnclosedInner(s, v);
    }
  }

  lemma UnclosedInner(s: string, v: string)
    requires s == "'" + Double(v) && (|s| > 1 ==> s[|s| - 1] == '\'')
    ensures Halve(Inner(s)) == v
  {
    if v != "" {
      DoubleEnds(v);
      HalveCut(v);
      assert Inner(s) == Double(v)[..|Double(v)| - 1];
    }
  }

  lemma DoubleQuoted(s: string, p: Parts)
    requires IsQuoted(s) && s[0] == '"' && !IsUnended(s)
    ensures QuotedParts(s) == Ok(p) <==> IsScalarOf(s, p)
  {
    hide IsLiteral, IsBody, ClosingQuote, J.Loads;
    var literal, trailing := LiteralExactly(s);
    LoadsExactly(literal, p.value);
    assert IsSaid(s, literal, p.value) <==> J.Loads(literal) == Some(p.value);
    if IsScalarOf(s, p) {
      var a :| IsLiteral(s, a, p.trailing) && IsSaid(s, a, p.value);
      assert a == literal;
    }
    if QuotedParts(s) == Ok(p) { assert IsLiteral(s, literal, p.trailing); }
  }

  lemma SingleQuoted(s: string, p: Parts)
    requires IsQuoted(s) && s[0] == '\'' && !IsUnended(s)
    ensures QuotedParts(s) == Ok(p) <==> IsScalarOf(s, p)
  {
    hide IsLiteral, IsSaid, ClosingQuote, Halve;
    var literal, trailing := LiteralExactly(s);
    SaidInSingle(s, literal, p.value);
    if IsScalarOf(s, p) {
      var a :| IsLiteral(s, a, p.trailing) && IsSaid(s, a, p.value);
      assert a == literal;
    }
    if QuotedParts(s) == Ok(p) { assert IsLiteral(s, literal, p.trailing); }
  }

  lemma CommentStarts(s: string, p: nat)
    requires p < |s|
    ensures StartsComment(s, p) <==> IsSpace(s[p]) && SkipSpace(s, p) < |s| && s[SkipSpace(s, p)] == '#'
  {
    hide IsSpace;
    var n := SkipSpace(s, p);
    assert !IsSpace('#') by { NoSpace(); }
    if IsSpace(s[p]) && n < |s| && s[n] == '#' { assert LeadsToComment(s, p, n); }
  }

  lemma NoSpace()
    ensures !IsSpace('#')
  {}

  lemma {:induction false} CommentExactly(s: string, i: nat)
    ensures var r := CommentAt(s, i);
      && (r.Some? ==> StartsComment(s, r.value) && forall p: nat :: i <= p < r.value ==> !StartsComment(s, p))
      && (r.None? ==> forall p: nat :: i <= p ==> !StartsComment(s, p))
    decreases |s| - i
  {
    hide StartsComment;
    if i < |s| {
      CommentStarts(s, i);
      CommentExactly(s, i + 1);
    } else {
      NoComment(s);
    }
  }

  lemma NoComment(s: string)
    ensures forall p: nat :: |s| <= p ==> !StartsComment(s, p)
  {}

  /** The first comment starts right behind text that is no white space. */
  lemma InkBeforeComment(s: string, p: nat)
    requires s != "" && !IsSpace(s[0]) && StartsComment(s, p) && forall q: nat :: q < p ==> !StartsComment(s, q)
    ensures 0 < p < |s| && RStrip(s[..p]) == s[..p]
  {
    hide IsSpace;
    var h: nat :| LeadsToComment(s, p, h);
    assert p > 0 && IsSpace(s[p - 1]) ==> LeadsToComment(s, p - 1, h);
    assert p > 0 ==> !StartsComment(s, p - 1);
  }

  lemma PlainExactly(s: string, p: Parts)
    requires s != "" && !IsSpace(s[0]) && !IsQuoted(s)
    ensures PlainParts(s) == p <==> IsScalarOf(s, p)
  {
    hide IsSpace, StartsComment, RStrip;
    CommentExactly(s, 0);
    var comment := CommentAt(s, 0);
    if comment.Some? {
      var n := comment.value;
      InkBeforeComment(s, n);
      assert s == s[..n] + s[n..];
      if s == p.value + p.trailing && |p.value| == n { assert p.value == s[..n] && p.trailing == s[n..]; }
    }
  }

  /** Text in one of the three styles, without white space around it. */
  ghost predicate IsScalar(raw: string, p: Parts) { exists s :: IsStripped(raw, s) && IsScalarOf(s, p) }

  /** A scalar is taken apart exactly into what it says. */
  lemma ScalarExactly(raw: string, p: Parts)
    ensures ScalarParts(raw) == Ok(p) <==> IsScalar(raw, p)
  {
    hide IsStripped, IsScalarOf, QuotedParts, PlainParts, IsUnended, Strip;
    var s := Strip(raw);
    StripExactly(raw);
    StripStarts(raw);
    forall t | IsStripped(raw, t) ensures t == s { StripIsUnique(raw, t); }
    if s == "" {
      NothingSaid(p);
    } else if !IsQuoted(s) {
      PlainExactly(s, p);
    } else if IsUnended(s) {
      UnendedSaysNothing(s, p);
    } else if s[0] == '"' {
      DoubleQuoted(s, p);
    } else {
      SingleQuoted(s, p);
    }
  }

  lemma StripStarts(raw: string)
    ensures Strip(raw) != "" ==> !IsSpace(Strip(raw)[0])
  {}

  lemma NothingSaid(p: Parts)
    ensures !IsScalarOf("", p)
  {}

  lemma UnendedSaysNothing(s: string, p: Parts)
    requires IsUnended(s)
    ensures !IsScalarOf(s, p) && QuotedParts(s) == Err(Unterminated)
  {
    UnendedExactly(s);
  }

  /** Why a scalar is refused: nothing there, no end, or no JSON string between double quotes. */
  lemma ScalarFailsExactly(raw: string, e: Error)
    ensures ScalarParts(raw) == Err(e) <==> (forall p :: !IsScalar(raw, p)) && exists s :: IsStripped(raw, s) && IsRefused(s, e)
  {
    hide IsStripped, IsScalar, QuotedParts, PlainParts, IsUnended, Strip;
    var s := Strip(raw);
    StripExactly(raw);
    forall t | IsStripped(raw, t) ensures t == s { StripIsUnique(raw, t); }
    forall p ensures ScalarParts(raw) == Ok(p) <==> IsScalar(raw, p) { ScalarExactly(raw, p); }
    if ScalarParts(raw).Ok? { assert IsScalar(raw, ScalarParts(raw).value); }
    if IsQuoted(s) { RefusedExactly(s); }
  }

  ghost predicate IsRefused(s: string, e: Error) {
    if s == "" then e == NotOnOneLine else if IsUnended(s) then e == Unterminated else e == BadEscape
  }

  lemma RefusedExactly(s: string)
    requires IsQuoted(s)
    ensures QuotedParts(s).Err? ==> QuotedParts(s).error == if IsUnended(s) then Unterminated else BadEscape
  {
    hide ClosingQuote, J.Loads;
    UnendedExactly(s);
  }

  // ---- What is written ----------------------------------------------------------------------------------

  predicate IsToken(s: string) {
    && s != "" && IsLetterOrDigit(s[0])
    && forall k :: 0 <= k < |s| ==> IsLetterOrDigit(s[k]) || s[k] in {'.', '_', '+', '-'}
  }

  predicate IsLetterOrDigit(c: char) { 'a' <= c <= 'z' || 'A' <= c <= 'Z' || '0' <= c <= '9' }

  lemma TokenExactly(s: string)
    ensures IsPlainToken(s) <==> IsToken(s)
  {
    forall c: char ensures c in "._+-" <==> c in {'.', '_', '+', '-'} { MarkListed(c); }
  }

  lemma MarkListed(c: char)
    ensures c in "._+-" <==> c in {'.', '_', '+', '-'}
  {
    assert "._+-"[0] == '.' && "._+-"[1] == '_' && "._+-"[2] == '+' && "._+-"[3] == '-';
  }

  /** The text written for a replacement in a style: a JSON string, the text with its quotes doubled, or the token itself. */
  ghost predicate IsWrittenAs(replacement: string, quote: string, written: string) {
    && '\n' !in replacement && '\r' !in replacement
    && match quote
       case "\"" => written != "" && written[0] == '"' && IsBody(written[1..], replacement)
       case "'" => written == "'" + Double(replacement) + "'"
       case _ => written == replacement && IsToken(replacement)
  }

  /** Why a replacement cannot be written: it has more than one line, or would need quotes. */
  ghost predicate IsUnwritable(replacement: string, quote: string, e: Error) {
    if '\n' in replacement || '\r' in replacement then e == MultiLine
    else e == NotPlain && quote !in {"\"", "'"} && !IsToken(replacement)
  }

  lemma RenderExactly(replacement: string, quote: string, e: Error)
    ensures Render(replacement, quote).Ok? ==> IsWrittenAs(replacement, quote, Render(replacement, quote).value)
    ensures Render(replacement, quote) == Err(e) <==> IsUnwritable(replacement, quote, e)
  {
    hide IsBody, J.Dumps, J.Loads, IsPlainToken, IsToken;
    TokenExactly(replacement);
    J.LoadsDumps(replacement);
    LoadsExactly(J.Dumps(replacement), replacement);
  }
}
