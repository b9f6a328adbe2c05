/**
 JSON strings (section 7 of RFC 8259) as Python's json module writes and reads them: an
 ASCII writer with surrogate pairs for what lies outside the basic plane, and a strict reader.
 */
module JsonText {
  import opened Options
  import opened Sequences

  // ---- Four hexadecimal digits ----------------------------------------------------------------

  function HexDigit(d: nat): char
    requires d < 16
  {
    if d < 10 then '0' + (d as char) else 'a' + ((d - 10) as char)
  }

  function HexValue(c: char): (r: Option<nat>)
    ensures r.Some? ==> r.value < 16
  {
    if '0' <= c <= '9' then Some(c as nat - '0' as nat)
    else if 'a' <= c <= 'f' then Some(c as nat - 'a' as nat + 10)
    else if 'A' <= c <= 'F' then Some(c as nat - 'A' as nat + 10)
    else None
  }

  predicate IsHexDigit(c: char) { '0' <= c <= '9' || 'a' <= c <= 'f' }

  /** The last `count` hexadecimal digits of `n`. */
  function HexDigits(n: nat, count: nat): (r: string)
    ensures |r| == count
  {
    if count == 0 then [] else HexDigits(n / 0x10, count - 1) + [HexDigit(n % 0x10)]
  }

  lemma {:induction false} HexDigitsAreHex(n: nat, count: nat)
    ensures forall k :: 0 <= k < count ==> IsHexDigit(HexDigits(n, count)[k])
  {
    if count > 0 { HexDigitsAreHex(n / 0x10, count - 1); }
  }

  /** The number spelled by the `count` digits at `i`. */
  function ReadHex(s: string, i: nat, count: nat): (r: Option<nat>)
    ensures r.Some? ==> i + count <= |s|
  {
    if i + count > |s| then None
    else if count == 0 then Some(0)
    else
      var front, last := ReadHex(s, i, count - 1), HexValue(s[i + count - 1]);
      if front.None? || last.None? then None else Some(0x10 * front.value + last.value)
  }

  /** How many numbers `count` digits can spell. */
  function Spellable(count: nat): nat { if count == 0 then 1 else 0x10 * Spellable(count - 1) }

  lemma HexDigitValue(d: nat)
    requires d < 16
    ensures HexValue(HexDigit(d)) == Some(d)
  {}

  lemma {:induction false} ReadWrittenHex(n: nat, count: nat, s: string, i: nat)
    requires n < Spellable(count) && i + count <= |s| && s[i..i + count] == HexDigits(n, count)
    ensures ReadHex(s, i, count) == Some(n)
  {
    hide HexDigit, HexValue;
    if count > 0 {
      assert s[i + count - 1] == s[i..i + count][count - 1];
      assert s[i..i + count - 1] == s[i..i + count][..count - 1];
      HexDigitValue(n % 0x10);
      ReadWrittenHex(n / 0x10, count - 1, s, i);
    }
  }

  lemma ReadWrittenHex4(n: nat, s: string, i: nat)
    requires n < 0x1_0000 && i + 4 <= |s| && s[i..i + 4] == HexDigits(n, 4)
    ensures ReadHex(s, i, 4) == Some(n)
  {
    assert Spellable(2) == 0x100;
    assert Spellable(4) == 0x1_0000;
    ReadWrittenHex(n, 4, s, i);
  }

  // ---- Writing ------------------------------------------------------------------------------

  /** How one character is written inside a JSON string. */
  function Unit(c: char): (r: string)
    ensures r != []
  {
    var n := c as nat;
    if c == '"' then "\\\""
    else if c == '\\' then "\\\\"
    else if c == '\n' then "\\n"
    else if c == '\r' then "\\r"
    else if c == '\t' then "\\t"
    else if n == 12 then "\\f"
    else if n == 8 then "\\b"
    else if ' ' <= c <= '~' then [c]
    else if n < 0x1_0000 then "\\u" + HexDigits(n, 4)
    else
      var v := n - 0x1_0000;
      "\\u" + HexDigits(0xD800 + v / 0x400, 4) + ("\\u" + HexDigits(0xDC00 + v % 0x400, 4))
  }

  function Units(s: string): string {
    if s == [] then [] else Unit(s[0]) + Units(s[1..])
  }

  function Dumps(s: string): string { "\"" + Units(s) + "\"" }

  // ---- Reading ------------------------------------------------------------------------------

  datatype Step = Step(c: char, next: nat)

  function CharOf(n: nat, next: nat): Option<Step> {
    if n < 0xD800 || 0xE000 <= n < 0x11_0000 then Some(Step(n as char, next)) else None
  }

  /** The `\uXXXX` escape at `i`, taking a following low surrogate along with a high one. */
  function ReadUnicode(s: string, i: nat): (r: Option<Step>)
    ensures r.Some? ==> i < r.value.next <= |s|
  {
    var n := ReadHex(s, i + 2, 4);
    if n.None? then None
    else if 0xD800 <= n.value < 0xDC00 && i + 8 <= |s| && s[i + 6..i + 8] == "\\u" then
      var m := ReadHex(s, i + 8, 4);
      if m.None? then None
      else if 0xDC00 <= m.value < 0xE000
      then CharOf(0x1_0000 + (n.value - 0xD800) * 0x400 + (m.value - 0xDC00), i + 12)
      else None
    else CharOf(n.value, i + 6)
  }

  /** The character written at `i`; control characters and unknown escapes are errors. */
  function ReadUnit(s: string, i: nat): (r: Option<Step>)
    requires i < |s|
    ensures r.Some? ==> i < r.value.next <= |s|
  {
    if s[i] != '\\' then (if s[i] < ' ' then None else Some(Step(s[i], i + 1)))
    else if i + 1 == |s| then None
    else
      match s[i + 1]
      case '"' => Some(Step('"', i + 2))
      case '\\' => Some(Step('\\', i + 2))
      case '/' => Some(Step('/', i + 2))
      case 'n' => Some(Step('\n', i + 2))
      case 'r' => Some(Step('\r', i + 2))
      case 't' => Some(Step('\t', i + 2))
      case 'f' => Some(Step(12 as char, i + 2))
      case 'b' => Some(Step(8 as char, i + 2))
      case 'u' => ReadUnicode(s, i)
      case _ => None
  }

  /** The text from `i` to the closing quote, which must end the literal. */
  function ReadUnits(s: string, i: nat): Option<string>
    decreases |s| - i
  {
    if i >= |s| then None
    else if s[i] == '"' then (if i + 1 == |s| then Some([]) else None)
    else
      var step := ReadUnit(s, i);
      if step.None? then None
      else
        var rest := ReadUnits(s, step.value.next);
        if rest.None? then None else Some([step.value.c] + rest.value)
  }

  /** A literal that starts with a quote, read as one JSON string. */
  function Loads(literal: string): Option<string> {
    if literal == [] || literal[0] != '"' then None else ReadUnits(literal, 1)
  }

  // ---- Round trip ---------------------------------------------------------------------------

  lemma SliceOfSlice(s: string, i: nat, n: nat, a: nat, b: nat)
    requires a <= b <= n && i + n <= |s|
    ensures s[i..i + n][a..b] == s[i + a..i + b]
  {
    var whole, part := s[i..i + n][a..b], s[i + a..i + b];
    assert |whole| == |part|;
    assert forall k :: 0 <= k < |part| ==> whole[k] == part[k];
  }

  /** Two escapes that spell a surrogate pair. */
  lemma ReadPair(s: string, i: nat, high: nat, low: nat)
    requires i + 12 <= |s| && s[i] == '\\' && s[i + 1] == 'u' && s[i + 6..i + 8] == "\\u"
    requires ReadHex(s, i + 2, 4) == Some(high) && ReadHex(s, i + 8, 4) == Some(low)
    requires 0xD800 <= high < 0xDC00 && 0xDC00 <= low < 0xE000
    ensures ReadUnit(s, i) == CharOf(0x1_0000 + (high - 0xD800) * 0x400 + (low - 0xDC00), i + 12)
  {
    hide ReadHex, CharOf;
  }

  lemma UnitOfAstral(c: char)
    requires 0x1_0000 <= c as nat
    ensures var v, u := c as nat - 0x1_0000, Unit(c);
      && |u| == 12 && u[0] == '\\' && u[1] == 'u' && u[6..8] == "\\u"
      && u[2..6] == HexDigits(0xD800 + v / 0x400, 4) && u[8..12] == HexDigits(0xDC00 + v % 0x400, 4)
  {
    hide HexDigits;
  }

  lemma ReadAstral(c: char, s: string, i: nat)
    requires 0x1_0000 <= c as nat
    requires i + 12 <= |s| && s[i..i + 12] == Unit(c)
    ensures ReadUnit(s, i) == Some(Step(c, i + 12))
  {
    var v := c as nat - 0x1_0000;
    var high, low := 0xD800 + v / 0x400, 0xDC00 + v % 0x400;
    hide Unit, HexDigits, ReadHex, ReadUnit;
    UnitOfAstral(c);
    var u := s[i..i + 12];
    assert s[i] == u[0] && s[i + 1] == u[1];
    SliceOfSlice(s, i, 12, 2, 6);
    SliceOfSlice(s, i, 12, 6, 8);
    SliceOfSlice(s, i, 12, 8, 12);
    ReadWrittenHex4(high, s, i + 2);
    ReadWrittenHex4(low, s, i + 8);
    ReadPair(s, i, high, low);
    assert v == v / 0x400 * 0x400 + v % 0x400;
  }

  lemma ReadEscaped(c: char, s: string, i: nat)
    requires c as nat < 0x1_0000 && Unit(c) == "\\u" + HexDigits(c as nat, 4)
    requires i + 6 <= |s| && s[i..i + 6] == Unit(c)
    ensures ReadUnit(s, i) == Some(Step(c, i + 6))
  {
    var u := s[i..i + 6];
    assert u[0] == '\\' && u[1] == 'u' && u[2..6] == HexDigits(c as nat, 4);
    assert s[i] == u[0] && s[i + 1] == u[1] && s[i + 2..i + 6] == u[2..6];
    ReadWrittenHex4(c as nat, s, i + 2);
  }

  lemma ReadWrittenUnit(c: char, s: string, i: nat)
    requires i + |Unit(c)| <= |s| && s[i..i + |Unit(c)|] == Unit(c)
    ensures s[i] != '"' && ReadUnit(s, i) == Some(Step(c, i + |Unit(c)|))
  {
    var u := Unit(c);
    assert s[i] == s[i..i + |u|][0];
    if |u| > 1 { assert s[i + 1] == s[i..i + |u|][1]; }
    if 0x1_0000 <= c as nat {
      ReadAstral(c, s, i);
    } else if |u| > 2 {
      ReadEscaped(c, s, i);
    }
  }

  function UnitList(text: string): seq<string> { if text == [] then [] else [Unit(text[0])] + UnitList(text[1..]) }

  /** How many characters the parts take together. */
  function Total(parts: seq<string>): nat { if parts == [] then 0 else |parts[0]| + Total(parts[1..]) }

  predicate PartAt(s: string, i: nat, part: string) { i + |part| <= |s| && s[i..i + |part|] == part }

  /** The parts stand at `i`, one after the other. */
  predicate Spelled(s: string, i: nat, parts: seq<string>)
    decreases |parts|
  {
    i <= |s| && (parts != [] ==> PartAt(s, i, parts[0]) && Spelled(s, i + |parts[0]|, parts[1..]))
  }

  /** A part at the start of the text from `i` on, and what is left behind it. */
  lemma FirstPart(part: string, more: string, s: string, i: nat)
    requires i <= |s| && s[i..] == part + more
    ensures i + |part| <= |s| && s[i..i + |part|] == part && s[i + |part|..] == more
  {
    assert |s[i..]| == |s| - i;
    assert s[i..i + |part|] == s[i..][..|part|];
    assert s[i + |part|..] == s[i..][|part|..];
  }

  lemma NothingSpelled(s: string, i: nat)
    ensures Total([]) == 0 && (Spelled(s, i, []) <==> i <= |s|)
  {}

  lemma {:induction false} UnitsSpell(text: string, rest: string, s: string, i: nat)
    requires i <= |s| && s[i..] == Units(text) + rest
    ensures var parts := UnitList(text);
      Spelled(s, i, parts) && i + Total(parts) <= |s| && s[i + Total(parts)..] == rest
    decreases |text|
  {
    hide Unit, Spelled, Total;
    if text == [] {
      assert Units(text) + rest == rest;
      NothingSpelled(s, i);
    } else {
      var unit, more := Unit(text[0]), Units(text[1..]);
      Regroup(unit, more, rest);
      FirstPart(unit, more + rest, s, i);
      UnitsSpell(text[1..], rest, s, i + |unit|);
      SpelledMore(s, i, unit, UnitList(text[1..]));
    }
  }

  lemma SpelledMore(s: string, i: nat, part: string, parts: seq<string>)
    ensures ([part] + parts)[0] == part && ([part] + parts)[1..] == parts
    ensures Total([part] + parts) == |part| + Total(parts)
    ensures Spelled(s, i, [part] + parts) <==> i <= |s| && PartAt(s, i, part) && Spelled(s, i + |part|, parts)
  {
    assert ([part] + parts)[1..] == parts;
  }

  lemma ReadsOneMore(c: char, s: string, i: nat, next: nat, rest: string)
    requires i < |s| && s[i] != '"' && ReadUnit(s, i) == Some(Step(c, next)) && ReadUnits(s, next) == Some(rest)
    ensures ReadUnits(s, i) == Some([c] + rest)
  {}

  lemma ReadsNothing(s: string, i: nat)
    requires i + 1 == |s| && s[i] == '"'
    ensures ReadUnits(s, i) == Some([])
  {}

  lemma {:induction false} SpelledReads(text: string, s: string, i: nat)
    requires Spelled(s, i, UnitList(text)) && i + Total(UnitList(text)) + 1 == |s| && s[|s| - 1] == '"'
    ensures ReadUnits(s, i) == Some(text)
    decreases |text|
  {
    hide Unit, ReadUnit, ReadUnits, Spelled, Total;
    NothingSpelled(s, i);
    if text == [] {
      ReadsNothing(s, i);
    } else {
      var unit := Unit(text[0]);
      SpelledMore(s, i, unit, UnitList(text[1..]));
      ReadWrittenUnit(text[0], s, i);
      SpelledReads(text[1..], s, i + |unit|);
      ReadsOneMore(text[0], s, i, i + |unit|, text[1..]);
      assert [text[0]] + text[1..] == text;
    }
  }

  /** What is written is read back. */
  lemma LoadsDumps(text: string)
    ensures Loads(Dumps(text)) == Some(text)
  {
    var s := Dumps(text);
    assert s[1..] == Units(text) + "\"";
    UnitsSpell(text, "\"", s, 1);
    assert s[1 + Total(UnitList(text))..][0] == '"';
    SpelledReads(text, s, 1);
  }
}
