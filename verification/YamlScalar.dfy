/**
 One-line YAML scalars as examples/upgrade-automation/scripts/bump-target.py reads and
 writes them: plain, single-quoted and double-quoted.
 */
module YamlScalar {
  import opened Options
  import JsonText

  datatype Error =
    | NotOnOneLine | Unterminated | BadEscape | Duplicated | NotFound | MultiLine | NotPlain

  // ---- Python text ------------------------------------------------------------------------------

  /** str.isspace, which is also the class \s of Python's re. */
  predicate IsSpace(c: char) {
    var n := c as int;
    || 9 <= n <= 13 || 0x1C <= n <= 0x20 || n == 0x85 || n == 0xA0 || n == 0x1680 || 0x2000 <= n <= 0x200A
    || n == 0x2028 || n == 0x2029 || n == 0x202F || n == 0x205F || n == 0x3000
  }

  /** First position at or after `i` that is not white space. */
  function SkipSpace(s: string, i: nat): (r: nat)
    requires i <= |s|
    ensures i <= r <= |s|
    ensures forall k :: i <= k < r ==> IsSpace(s[k])
    ensures r < |s| ==> !IsSpace(s[r])
    decreases |s| - i
  {
    if i < |s| && IsSpace(s[i]) then SkipSpace(s, i + 1) else i
  }

  function LStrip(s: string): string { s[SkipSpace(s, 0)..] }

  function RStrip(s: string): (r: string)
    ensures r <= s
    ensures r != [] ==> !IsSpace(r[|r| - 1])
    ensures s != [] && !IsSpace(s[|s| - 1]) ==> r == s
    ensures s != [] && !IsSpace(s[0]) ==> r != []
  {
    if s != [] && IsSpace(s[|s| - 1]) then RStrip(s[..|s| - 1]) else s
  }

  function Strip(s: string): (r: string)
    ensures r != [] ==> !IsSpace(r[0]) && !IsSpace(r[|r| - 1])
  {
    RStrip(LStrip(s))
  }

  /** No white space at either end. */
  predicate Trimmed(s: string) { s != [] && !IsSpace(s[0]) && !IsSpace(s[|s| - 1]) }

  lemma StripTrimmed(s: string)
    requires Trimmed(s)
    ensures Strip(s) == s && LStrip(s) == s
  {
    assert SkipSpace(s, 0) == 0;
  }

  /** First position at or after `i` that holds `c`. */
  function Find(s: string, i: nat, c: char): (r: Option<nat>)
    ensures r.Some? ==> i <= r.value < |s| && s[r.value] == c && forall k :: i <= k < r.value ==> s[k] != c
    ensures r.None? ==> forall k :: i <= k < |s| ==> s[k] != c
    decreases |s| - i
  {
    if i >= |s| then None else if s[i] == c then Some(i) else Find(s, i + 1, c)
  }

  /** How many backslashes stand directly before position `i`. */
  function Backslashes(s: string, i: nat): nat
    requires i <= |s|
  {
    if i > 0 && s[i - 1] == '\\' then Backslashes(s, i - 1) + 1 else 0
  }

  // ---- Reading ----------------------------------------------------------------------------------

  /** Is the quote at `i` part of the text rather than its end? */
  predicate IsInner(s: string, i: nat, quote: char)
    requires i < |s|
  {
    if quote == '\'' then i + 1 < |s| && s[i + 1] == '\'' else Backslashes(s, i) % 2 == 1
  }

  /**
   Where the search from `end` stops: at the closing quote, past the end of the text, or
   nowhere (`None`) when no quote is left.
   */
  function ClosingQuote(s: string, end: nat, quote: char): (r: Option<nat>)
    ensures r.Some? ==> end <= r.value && (r.value < |s| ==> s[r.value] == quote && !IsInner(s, r.value, quote))
    decreases |s| - end
  {
    if end >= |s| then Some(end)
    else
      var q := Find(s, end, quote);
      if q.None? then None
      else if !IsInner(s, q.value, quote) then q
      else ClosingQuote(s, q.value + (if quote == '\'' then 2 else 1), quote)
  }

  /** `''` in a single-quoted scalar is one quote. */
  function Halve(s: string): string {
    if s == [] then []
    else if |s| >= 2 && s[0] == '\'' && s[1] == '\'' then ['\''] + Halve(s[2..])
    else [s[0]] + Halve(s[1..])
  }

  /** The first white space that leads up to a `#`. */
  function CommentAt(s: string, i: nat): (r: Option<nat>)
    ensures r.Some? ==> i <= r.value < |s| && IsSpace(s[r.value])
    decreases |s| - i
  {
    if i >= |s| then None
    else if IsSpace(s[i]) && SkipSpace(s, i) < |s| && s[SkipSpace(s, i)] == '#' then Some(i)
    else CommentAt(s, i + 1)
  }

  /** A scalar's value, how it is quoted (`""` when plain), and the text that follows it. */
  datatype Parts = Parts(value: string, quote: string, trailing: string)

  function Literal(s: string, end: nat): string { if end < |s| then s[..end + 1] else s }

  function Trailing(s: string, end: nat): string { if end < |s| then s[end + 1..] else [] }

  /** What stands between the quotes of `literal`. */
  function Inner(literal: string): string { if |literal| >= 2 then literal[1..|literal| - 1] else [] }

  function QuotedParts(s: string): Result<Parts, Error>
    requires s != []
  {
    var quote := s[0];
    var end := ClosingQuote(s, 1, quote);
    if end.None? then Err(Unterminated)
    else
      var literal, trailing := Literal(s, end.value), Trailing(s, end.value);
      if quote == '"' then
        var value := JsonText.Loads(literal);
        if value.None? then Err(BadEscape) else Ok(Parts(value.value, [quote], trailing))
      else Ok(Parts(Halve(Inner(literal)), [quote], trailing))
  }

  function PlainParts(s: string): Parts {
    var comment := CommentAt(s, 0);
    if comment.Some? then Parts(RStrip(s[..comment.value]), "", s[comment.value..]) else Parts(s, "", "")
  }

  function ScalarParts(raw: string): Result<Parts, Error> {
    var s := Strip(raw);
    if s == [] then Err(NotOnOneLine)
    else if s[0] == '"' || s[0] == '\'' then QuotedParts(s)
    else Ok(PlainParts(s))
  }

  method CountBackslashes(s: string, at: nat) returns (backslashes: nat)
    requires at <= |s|
    ensures backslashes == Backslashes(s, at)
  {
    backslashes := 0;
    var cursor := at as int - 1;
    while cursor >= 0 && s[cursor] == '\\'
      invariant -1 <= cursor < at
      invariant backslashes + Backslashes(s, cursor + 1) == Backslashes(s, at)
    {
      backslashes := backslashes + 1;
      cursor := cursor - 1;
    }
  }

  method FindClosingQuote(s: string, quote: char) returns (end: Option<nat>)
    requires s != [] && s[0] == quote && (quote == '"' || quote == '\'')
    ensures end == ClosingQuote(s, 1, quote)
  {
    var at := 1;
    while at < |s|
      invariant ClosingQuote(s, at, quote) == ClosingQuote(s, 1, quote)
      decreases |s| - at
    {
      var next := Find(s, at, quote);
      if next.None? { return None; }
      at := next.value;
      if quote == '\'' && at + 1 < |s| && s[at + 1] == '\'' {
        at := at + 2;
        continue;
      }
      if quote == '"' {
        var backslashes := CountBackslashes(s, at);
        if backslashes % 2 == 1 {
          at := at + 1;
          continue;
        }
      }
      break;
    }
    return Some(at);
  }

  method YamlScalarParts(raw: string) returns (r: Result<Parts, Error>)
    ensures r == ScalarParts(raw)
  {
    var s := Strip(raw);
    if s == [] { return Err(NotOnOneLine); }
    if s[0] == '"' || s[0] == '\'' {
      var quote := s[0];
      var end := FindClosingQuote(s, quote);
      if end.None? { return Err(Unterminated); }
      var literal, trailing := Literal(s, end.value), Trailing(s, end.value);
      if quote == '"' {
        var value := JsonText.Loads(literal);
        return if value.None? then Err(BadEscape) else Ok(Parts(value.value, [quote], trailing));
      }
      return Ok(Parts(Halve(Inner(literal)), [quote], trailing));
    }
    return Ok(PlainParts(s));
  }

  // ---- Writing ----------------------------------------------------------------------------------

  function Double(s: string): string {
    if s == [] then []
    else (if s[0] == '\'' then "''" else [s[0]]) + Double(s[1..])
  }

  predicate IsAlphanumeric(c: char) { 'a' <= c <= 'z' || 'A' <= c <= 'Z' || '0' <= c <= '9' }

  /** A token that needs no quotes anywhere. */
  predicate IsPlainToken(s: string) {
    && s != [] && IsAlphanumeric(s[0])
    && forall k :: 0 <= k < |s| ==> IsAlphanumeric(s[k]) || s[k] in "._+-"
  }

  predicate IsOneLine(s: string) { '\n' !in s && '\r' !in s }

  /** The replacement in the style of the scalar it replaces. */
  function Render(replacement: string, quote: string): Result<string, Error> {
    if !IsOneLine(replacement) then Err(MultiLine)
    else if quote == "\"" then Ok(JsonText.Dumps(replacement))
    else if quote == "'" then Ok("'" + Double(replacement) + "'")
    else if IsPlainToken(replacement) then Ok(replacement)
    else Err(NotPlain)
  }

  // ---- What is written reads back -----------------------------------------------------------------

  lemma {:induction false} HalveDouble(s: string)
    ensures Halve(Double(s)) == s
  {
    if s != [] {
      HalveDouble(s[1..]);
      var d := Double(s);
      if s[0] == '\'' {
        assert d[2..] == Double(s[1..]);
      } else {
        assert d[1..] == Double(s[1..]);
      }
    }
  }

  /** What the text from `i` on starts with and goes on with. */
  lemma SplitAt(s: string, i: nat, head: string, tail: string)
    requires i <= |s| && s[i..] == head + tail
    ensures i + |head| + |tail| == |s|
    ensures s[i..i + |head|] == head && s[i + |head|..] == tail
    ensures head != [] ==> s[i] == head[0]
    ensures |head| == 2 ==> s[i + 1] == head[1]
  {
    assert |s[i..]| == |s| - i;
    assert s[i..i + |head|] == s[i..][..|head|] == head;
    assert s[i + |head|..] == s[i..][|head|..] == tail;
    if head != [] { assert s[i] == s[i..][0]; }
    if |head| == 2 { assert s[i + 1] == s[i..][1]; }
  }

  /** The search skips every doubled quote and stops at the closing one. */
  lemma {:induction false} SingleQuoteEnds(text: string, rest: string, s: string, i: nat)
    requires i <= |s| && s[i..] == Double(text) + rest
    requires rest != [] && rest[0] == '\'' && (|rest| > 1 ==> rest[1] != '\'')
    ensures ClosingQuote(s, i, '\'') == Some(i + |Double(text)|)
    decreases |text|
  {
    if text == [] {
      SplitAt(s, i, rest[..1], rest[1..]);
      if |rest| > 1 { SplitAt(s, i, rest[..2], rest[2..]); }
    } else {
      var head := if text[0] == '\'' then "''" else [text[0]];
      assert Double(text) + rest == head + (Double(text[1..]) + rest);
      SplitAt(s, i, head, Double(text[1..]) + rest);
      SingleQuoteEnds(text[1..], rest, s, i + |head|);
      if text[0] != '\'' {
        SkipOrdinary(s, i, '\'');
      }
    }
  }

  lemma SkipOrdinary(s: string, i: nat, quote: char)
    requires i < |s| && s[i] != quote
    requires i + 1 < |s|
    ensures ClosingQuote(s, i, quote) == ClosingQuote(s, i + 1, quote)
  {
    assert Find(s, i, quote) == Find(s, i + 1, quote);
  }

  /** A part that leaves the parity of backslashes even, and whose quotes are escaped. */
  predicate Sealed(u: string) {
    u != [] && (if |u| == 2 then u[0] == '\\' else '"' !in u && u[|u| - 1] != '\\')
  }

  lemma UnitSealed(c: char)
    ensures Sealed(JsonText.Unit(c))
  {
    UnitText(c);
  }

  lemma {:induction false} UnitsSealed(text: string)
    ensures forall u :: u in JsonText.UnitList(text) ==> Sealed(u)
  {
    if text != [] {
      UnitSealed(text[0]);
      UnitsSealed(text[1..]);
    }
  }

  /** Units that are not two-character escapes hold no quote and do not end in a backslash. */
  lemma UnitText(c: char)
    ensures var u := JsonText.Unit(c);
      |u| != 2 ==> '"' !in u && u[|u| - 1] != '\\'
  {
    var n := c as nat;
    if n < 0x1_0000 {
      JsonText.HexDigitsAreHex(n, 4);
    } else {
      var v := n - 0x1_0000;
      JsonText.HexDigitsAreHex(0xD800 + v / 0x400, 4);
      JsonText.HexDigitsAreHex(0xDC00 + v % 0x400, 4);
    }
  }

  lemma SealedKeepsParity(u: string, s: string, i: nat)
    requires JsonText.PartAt(s, i, u) && Sealed(u) && Backslashes(s, i) % 2 == 0
    ensures Backslashes(s, i + |u|) % 2 == 0
    ensures forall k :: i <= k < i + |u| && s[k] == '"' ==> IsInner(s, k, '"')
  {
    assert forall k :: 0 <= k < |u| ==> s[i + k] == s[i..i + |u|][k] == u[k];
    if |u| == 2 {
      assert s[i] == u[0] && s[i + 1] == u[1];
      assert Backslashes(s, i + 1) == Backslashes(s, i) + 1;
    } else {
      var last := i + |u| - 1;
      assert s[last] == u[|u| - 1];
      forall k | i <= k < i + |u| ensures s[k] != '"' { assert s[k] == u[k - i]; }
      assert Backslashes(s, last + 1) == 0;
    }
  }

  /** Passing one part leaves the search where it was. */
  lemma PassPart(u: string, s: string, i: nat)
    requires JsonText.PartAt(s, i, u) && i + |u| < |s| && Sealed(u) && Backslashes(s, i) % 2 == 0
    ensures Backslashes(s, i + |u|) % 2 == 0
    ensures ClosingQuote(s, i, '"') == ClosingQuote(s, i + |u|, '"')
  {
    SealedKeepsParity(u, s, i);
    SkipEscaped(s, i, i + |u|);
  }

  /** The search passes all of a sequence of such parts. */
  lemma {:induction false} PassParts(parts: seq<string>, s: string, i: nat)
    requires JsonText.Spelled(s, i, parts) && i + JsonText.Total(parts) < |s| && Backslashes(s, i) % 2 == 0
    requires forall u :: u in parts ==> Sealed(u)
    ensures ClosingQuote(s, i, '"') == ClosingQuote(s, i + JsonText.Total(parts), '"')
    ensures Backslashes(s, i + JsonText.Total(parts)) % 2 == 0
    decreases |parts|
  {
    hide Backslashes, ClosingQuote, Sealed;
    if parts != [] {
      PassPart(parts[0], s, i);
      PassParts(parts[1..], s, i + |parts[0]|);
    }
  }

  lemma ClosesHere(s: string, i: nat)
    requires i < |s| && s[i] == '"' && Backslashes(s, i) % 2 == 0
    ensures ClosingQuote(s, i, '"') == Some(i)
  {}

  /** The search passes over text whose every quote is escaped. */
  lemma {:induction false} SkipEscaped(s: string, i: nat, j: nat)
    requires i <= j < |s|
    requires forall k :: i <= k < j && s[k] == '"' ==> IsInner(s, k, '"')
    ensures ClosingQuote(s, i, '"') == ClosingQuote(s, j, '"')
    decreases j - i
  {
    if i < j {
      SkipEscaped(s, i + 1, j);
      if s[i] != '"' { SkipOrdinary(s, i, '"'); }
    }
  }

  /** Text that may follow a scalar in this style without being read as part of it. */
  predicate MayFollow(quote: string, trailing: string) {
    && (trailing != [] ==> !IsSpace(trailing[|trailing| - 1]))
    && (quote == "'" && trailing != [] ==> trailing[0] != '\'')
    && (quote == "" && trailing != [] ==>
        IsSpace(trailing[0]) && SkipSpace(trailing, 0) < |trailing| && trailing[SkipSpace(trailing, 0)] == '#')
  }

  predicate IsStyle(quote: string) { quote == "\"" || quote == "'" || quote == "" }

  /** What reading leaves behind a scalar may follow a new scalar in the same style. */
  lemma ReadLeavesTrailing(raw: string)
    requires ScalarParts(raw).Ok?
    ensures var p := ScalarParts(raw).value; IsStyle(p.quote) && MayFollow(p.quote, p.trailing)
  {
    var s := Strip(raw);
    if s[0] == '"' || s[0] == '\'' {
      QuotedLeavesTrailing(s);
    } else {
      PlainLeavesTrailing(s);
    }
  }

  lemma QuotedLeavesTrailing(s: string)
    requires s != [] && (s[0] == '"' || s[0] == '\'') && !IsSpace(s[|s| - 1]) && QuotedParts(s).Ok?
    ensures var p := QuotedParts(s).value; IsStyle(p.quote) && MayFollow(p.quote, p.trailing)
  {
    var end := ClosingQuote(s, 1, s[0]).value;
    var p := QuotedParts(s).value;
    assert p.quote == [s[0]] && p.trailing == Trailing(s, end);
    if end + 1 < |s| {
      assert p.trailing[|p.trailing| - 1] == s[|s| - 1];
      assert p.trailing[0] == s[end + 1];
    }
  }

  lemma PlainLeavesTrailing(s: string)
    requires s != [] && !IsSpace(s[|s| - 1])
    ensures var p := PlainParts(s); IsStyle(p.quote) && MayFollow(p.quote, p.trailing)
  {
    var comment := CommentAt(s, 0);
    if comment.Some? {
      CommentTail(s, 0);
      assert s[comment.value..][|s| - comment.value - 1] == s[|s| - 1];
    }
  }

  lemma {:induction false} CommentTail(s: string, i: nat)
    requires CommentAt(s, i).Some?
    ensures var tail := s[CommentAt(s, i).value..];
      IsSpace(tail[0]) && SkipSpace(tail, 0) < |tail| && tail[SkipSpace(tail, 0)] == '#'
    decreases |s| - i
  {
    if IsSpace(s[i]) && SkipSpace(s, i) < |s| && s[SkipSpace(s, i)] == '#' {
      SkipSpaceShift(s, i, s[i..], 0);
    } else {
      CommentTail(s, i + 1);
    }
  }

  /** Skipping white space only looks at the text from where it starts. */
  lemma {:induction false} SkipSpaceShift(s: string, i: nat, t: string, j: nat)
    requires i <= |s| && j <= |t| && s[i..] == t[j..]
    ensures SkipSpace(s, i) - i == SkipSpace(t, j) - j
    decreases |s| - i
  {
    assert |s[i..]| == |t[j..]|;
    if i < |s| {
      assert s[i] == s[i..][0] == t[j..][0] == t[j];
      assert s[i + 1..] == s[i..][1..] == t[j..][1..] == t[j + 1..];
      SkipSpaceShift(s, i + 1, t, j + 1);
    }
  }

  lemma TrailingIsTail(s: string)
    requires s != []
    ensures (s[0] == '"' || s[0] == '\'') && QuotedParts(s).Ok? ==> IsTail(QuotedParts(s).value.trailing, s)
    ensures IsTail(PlainParts(s).trailing, s)
  {
    if (s[0] == '"' || s[0] == '\'') && QuotedParts(s).Ok? {
      var end := ClosingQuote(s, 1, s[0]).value;
      assert Trailing(s, end) == s[if end < |s| then end + 1 else |s|..];
    }
    var comment := CommentAt(s, 0);
    assert PlainParts(s).trailing == s[if comment.Some? then comment.value else |s|..];
  }

  predicate IsTail(t: string, s: string) { exists k :: 0 <= k <= |s| && t == s[k..] }

  /** What follows a scalar is text of its line. */
  lemma TrailingIsText(raw: string, c: char)
    requires ScalarParts(raw).Ok? && c in ScalarParts(raw).value.trailing
    ensures c in raw
  {
    var s := Strip(raw);
    TrailingIsTail(s);
    assert c in s;
    InStrip(raw, c);
  }

  lemma InStrip(raw: string, c: char)
    requires c in Strip(raw)
    ensures c in raw
  {
    assert Strip(raw) <= LStrip(raw);
    assert c in LStrip(raw);
  }

  lemma {:induction false} UnitsOnOneLine(text: string)
    ensures '\n' !in JsonText.Units(text)
  {
    if text != [] {
      UnitOnOneLine(text[0]);
      UnitsOnOneLine(text[1..]);
    }
  }

  lemma UnitOnOneLine(c: char)
    ensures '\n' !in JsonText.Unit(c)
  {
    var n := c as nat;
    if n < 0x1_0000 {
      JsonText.HexDigitsAreHex(n, 4);
    } else {
      var v := n - 0x1_0000;
      JsonText.HexDigitsAreHex(0xD800 + v / 0x400, 4);
      JsonText.HexDigitsAreHex(0xDC00 + v % 0x400, 4);
    }
  }

  lemma {:induction false} DoubleOnOneLine(text: string)
    requires '\n' !in text
    ensures '\n' !in Double(text)
  {
    if text != [] { DoubleOnOneLine(text[1..]); }
  }

  lemma RenderedOnOneLine(replacement: string, quote: string)
    requires Render(replacement, quote).Ok?
    ensures '\n' !in Render(replacement, quote).value
  {
    UnitsOnOneLine(replacement);
    DoubleOnOneLine(replacement);
  }

  /** A comment after a token without white space starts right behind the token. */
  lemma {:induction false} CommentAfterToken(token: string, trailing: string, i: nat)
    requires i <= |token| && forall k :: 0 <= k < |token| ==> !IsSpace(token[k])
    requires MayFollow("", trailing)
    ensures CommentAt(token + trailing, i) == if trailing == [] then None else Some(|token|)
    decreases |token| - i
  {
    var s := token + trailing;
    if i < |token| {
      CommentAfterToken(token, trailing, i + 1);
    } else if trailing != [] {
      SkipSpaceShift(s, i, trailing, 0);
    }
  }

  /** The written text is trimmed, and starts like its style. */
  lemma RenderedIsTrimmed(replacement: string, quote: string, trailing: string)
    requires IsStyle(quote) && MayFollow(quote, trailing) && Render(replacement, quote).Ok?
    ensures var s := Render(replacement, quote).value + trailing;
      && Trimmed(s)
      && (if quote == "" then IsAlphanumeric(s[0]) else s[0] == quote[0])
  {
    var rendered := Render(replacement, quote).value;
    var s := rendered + trailing;
    assert s[|s| - 1] == if trailing == [] then rendered[|rendered| - 1] else trailing[|trailing| - 1];
    if quote == "" {
      var last := replacement[|replacement| - 1];
      assert IsAlphanumeric(last) || last in "._+-";
    }
  }

  lemma PlainReadsBack(token: string, trailing: string)
    requires IsPlainToken(token) && MayFollow("", trailing)
    ensures PlainParts(token + trailing) == Parts(token, "", trailing)
  {
    var s := token + trailing;
    forall k | 0 <= k < |token| ensures !IsSpace(token[k]) {
      assert IsAlphanumeric(token[k]) || token[k] in "._+-";
    }
    CommentAfterToken(token, trailing, 0);
    assert s[..|token|] == token && s[|token|..] == trailing;
    if trailing == [] { assert s == token; }
  }

  lemma SingleReadsBack(text: string, trailing: string)
    requires MayFollow("'", trailing)
    ensures QuotedParts("'" + Double(text) + "'" + trailing) == Ok(Parts(text, "'", trailing))
  {
    var d := Double(text);
    var literal := "'" + d + "'";
    var s := literal + trailing;
    assert s[1..] == d + ("'" + trailing);
    SingleQuoteEnds(text, "'" + trailing, s, 1);
    LiteralAndTrailing(literal, trailing);
    assert literal[1..|literal| - 1] == d;
    HalveDouble(text);
  }

  /** Written text in quotes, whatever follows it: the search from behind the first quote stops at the second. */
  lemma DumpsEnds(text: string, trailing: string)
    ensures ClosingQuote(JsonText.Dumps(text) + trailing, 1, '"') == Some(|JsonText.Dumps(text)| - 1)
  {
    var s := JsonText.Dumps(text) + trailing;
    assert s[1..] == JsonText.Units(text) + ("\"" + trailing);
    JsonText.UnitsSpell(text, "\"" + trailing, s, 1);
    var parts := JsonText.UnitList(text);
    var end := 1 + JsonText.Total(parts);
    assert s[end..][0] == '"';
    assert |s[end..]| == 1 + |trailing|;
    UnitsSealed(text);
    PassParts(parts, s, 1);
    ClosesHere(s, end);
  }

  lemma DoubleReadsBack(text: string, trailing: string)
    ensures QuotedParts(JsonText.Dumps(text) + trailing) == Ok(Parts(text, "\"", trailing))
  {
    DumpsEnds(text, trailing);
    LiteralAndTrailing(JsonText.Dumps(text), trailing);
    JsonText.LoadsDumps(text);
  }

  lemma LiteralAndTrailing(literal: string, trailing: string)
    requires literal != []
    ensures var s := literal + trailing;
      Literal(s, |literal| - 1) == literal && Trailing(s, |literal| - 1) == trailing
  {
    var s := literal + trailing;
    assert s[..|literal|] == literal && s[|literal|..] == trailing;
  }

  lemma QuotedScalar(s: string)
    requires s != [] && Strip(s) == s && (s[0] == '"' || s[0] == '\'')
    ensures ScalarParts(s) == QuotedParts(s)
  {}

  lemma PlainScalar(s: string)
    requires s != [] && Strip(s) == s && s[0] != '"' && s[0] != '\''
    ensures ScalarParts(s) == Ok(PlainParts(s))
  {}

  /** A rendered replacement, whatever follows it, is read back as itself. */
  lemma RenderedReadsBack(replacement: string, quote: string, trailing: string)
    requires IsStyle(quote) && MayFollow(quote, trailing) && Render(replacement, quote).Ok?
    ensures ScalarParts(Render(replacement, quote).value + trailing) == Ok(Parts(replacement, quote, trailing))
  {
    hide ScalarParts, QuotedParts, PlainParts, Strip, LStrip, Double, JsonText.Dumps, MayFollow;
    RenderedIsTrimmed(replacement, quote, trailing);
    if quote == "" {
      PlainReadsBack(replacement, trailing);
      StripTrimmed(replacement + trailing);
      PlainScalar(replacement + trailing);
    } else if quote == "'" {
      SingleReadsBack(replacement, trailing);
      StripTrimmed("'" + Double(replacement) + "'" + trailing);
      QuotedScalar("'" + Double(replacement) + "'" + trailing);
    } else {
      DoubleReadsBack(replacement, trailing);
      StripTrimmed(JsonText.Dumps(replacement) + trailing);
      QuotedScalar(JsonText.Dumps(replacement) + trailing);
    }
  }
}
