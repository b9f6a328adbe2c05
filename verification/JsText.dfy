/** Character classes and text searches with the meaning JavaScript gives them. */
module JsText {
  import opened Options

  /** The JavaScript regular-expression class \s. */
  predicate IsSpace(c: char) {
    var n := c as int;
    || 9 <= n <= 13 || n == 32 || n == 0xA0 || n == 0x1680 || 0x2000 <= n <= 0x200A
    || n == 0x2028 || n == 0x2029 || n == 0x202F || n == 0x205F || n == 0x3000 || n == 0xFEFF
  }

  predicate IsLetter(c: char) { 'a' <= c <= 'z' || 'A' <= c <= 'Z' }

  predicate IsDigit(c: char) { '0' <= c <= '9' }

  predicate IsNameStart(c: char) { IsLetter(c) || c == '_' || c == '$' }

  predicate IsNamePart(c: char) { IsNameStart(c) || IsDigit(c) }

  predicate IsQuote(c: char) { c == '\'' || c == '"' || c == '`' }

  // ---- The classes as lists ---------------------------------------------------------------------

  lemma SpacesListed(c: char)
    ensures IsSpace(c) <==> c in {'\t', '\n', '\U{0B}', '\U{0C}', '\r', ' ', '\U{A0}', '\U{1680}', '\U{2000}', '\U{2001}', '\U{2002}',
      '\U{2003}', '\U{2004}', '\U{2005}', '\U{2006}', '\U{2007}', '\U{2008}', '\U{2009}', '\U{200A}', '\U{2028}', '\U{2029}',
      '\U{202F}', '\U{205F}', '\U{3000}', '\U{FEFF}'}
  {
    var n := c as int;
    assert c == n as char;
  }

  lemma NamePartsListed(c: char)
    ensures IsNamePart(c) <==> 'a' <= c <= 'z' || 'A' <= c <= 'Z' || '0' <= c <= '9' || c in {'_', '$'}
    ensures IsNameStart(c) <==> IsNamePart(c) && !('0' <= c <= '9')
  {}

  lemma QuotesListed(c: char)
    ensures IsQuote(c) <==> c in {'\'', '"', '`'}
  {}

  // ---- Searches -----------------------------------------------------------------------------------

  predicate StartsWith(s: string, i: nat, pat: string) {
    i + |pat| <= |s| && s[i..i + |pat|] == pat
  }

  /** First position at or after `i` where `pat` starts. */
  function IndexOf(s: string, i: nat, pat: string): (r: Option<nat>)
    ensures r.Some? ==> i <= r.value && StartsWith(s, r.value, pat)
    ensures r.Some? ==> forall k :: i <= k < r.value ==> !StartsWith(s, k, pat)
    ensures r.None? ==> forall k :: i <= k <= |s| ==> !StartsWith(s, k, pat)
    decreases |s| - i
  {
    if i > |s| then None
    else if StartsWith(s, i, pat) then Some(i)
    else IndexOf(s, i + 1, pat)
  }

  /** First position at or after `i` whose character is outside `p`, or the end. */
  function SkipWhile(s: string, i: nat, p: char -> bool): (r: nat)
    requires i <= |s|
    ensures i <= r <= |s|
    ensures forall k :: i <= k < r ==> p(s[k])
    ensures r < |s| ==> !p(s[r])
    decreases |s| - i
  {
    if i < |s| && p(s[i]) then SkipWhile(s, i + 1, p) else i
  }

  function TrimStart(s: string): string {
    if s != [] && IsSpace(s[0]) then TrimStart(s[1..]) else s
  }

  function TrimEnd(s: string): string {
    if s != [] && IsSpace(s[|s| - 1]) then TrimEnd(s[..|s| - 1]) else s
  }

  /** String.prototype.trim. */
  function Trim(s: string): string { TrimEnd(TrimStart(s)) }

  /** `r` stands at `a`, white space is all there is around it, and it neither starts nor ends with white space. */
  ghost predicate IsInside(s: string, r: string, a: nat) {
    && a + |r| <= |s| && s[a..a + |r|] == r
    && (forall k :: 0 <= k < a || a + |r| <= k < |s| ==> IsSpace(s[k]))
    && (r != "" ==> !IsSpace(r[0]) && !IsSpace(r[|r| - 1]))
  }

  ghost predicate IsTrimmed(s: string, r: string) { exists a :: IsInside(s, r, a) }

  lemma {:induction false} TrimStartExactly(s: string)
    ensures var r := TrimStart(s); |r| <= |s| && s[|s| - |r|..] == r
    ensures var r := TrimStart(s); (forall k :: 0 <= k < |s| - |r| ==> IsSpace(s[k])) && (r != "" ==> !IsSpace(r[0]))
  {
    hide IsSpace;
    if s != [] && IsSpace(s[0]) {
      TrimStartExactly(s[1..]);
      var r := TrimStart(s);
      assert s[|s| - |r|..] == s[1..][|s| - 1 - |r|..];
      forall k | 0 <= k < |s| - |r| ensures IsSpace(s[k]) { assert k > 0 ==> s[k] == s[1..][k - 1]; }
    }
  }

  lemma {:induction false} TrimEndExactly(s: string)
    ensures var r := TrimEnd(s); |r| <= |s| && s[..|r|] == r
    ensures var r := TrimEnd(s); (forall k :: |r| <= k < |s| ==> IsSpace(s[k])) && (r != "" ==> !IsSpace(r[|r| - 1]))
  {
    hide IsSpace;
    if s != [] && IsSpace(s[|s| - 1]) {
      TrimEndExactly(s[..|s| - 1]);
      var r := TrimEnd(s);
      assert s[..|r|] == s[..|s| - 1][..|r|];
    }
  }

  /** Trimming takes exactly the white space at both ends. */
  lemma TrimExactly(s: string, r: string)
    ensures Trim(s) == r <==> IsTrimmed(s, r)
  {
    hide IsSpace;
    var left := TrimStart(s);
    var t, n := Trim(s), |s| - |left|;
    TrimStartExactly(s);
    TrimEndExactly(left);
    assert s[n..n + |t|] == left[..|t|];
    forall k | n + |t| <= k < |s| ensures IsSpace(s[k]) { assert s[k] == left[k - n]; }
    if t != "" { assert t[0] == left[0]; }
    assert IsInside(s, t, n);
    if a: nat :| IsInside(s, r, a) { InsideIsUnique(s, r, a, t, n); }
  }

  lemma InsideIsUnique(s: string, r: string, a: nat, t: string, b: nat)
    requires IsInside(s, r, a) && IsInside(s, t, b)
    ensures r == t
  {
    hide IsSpace;
    if r != "" { InsideEnds(s, r, a); }
    if t != "" { InsideEnds(s, t, b); }
    if r != "" && t != "" { assert a == b && a + |r| == b + |t|; }
  }

  lemma InsideEnds(s: string, r: string, a: nat)
    requires IsInside(s, r, a) && r != ""
    ensures !IsSpace(s[a]) && !IsSpace(s[a + |r| - 1])
  {
    hide IsSpace;
    assert s[a] == s[a..a + |r|][0] && s[a + |r| - 1] == s[a..a + |r|][|r| - 1];
  }
}
