/**
 What examples/upgrade-automation/scripts/bump-target.py sees of a line: its text, its
 indentation, whether it is blank or a comment, and its key, spacing and value.
 */
module YamlLines {
  import opened Options
  import opened YamlScalar
  import opened YamlEditor

  // ---- The line pattern ---------------------------------------------------------------------------

  ghost predicate IsBlanks(s: string) { forall c :: c in s ==> c == ' ' }

  /** The line is blanks, a key in double quotes, in single quotes or in none, a colon, blanks and a value. */
  ghost predicate IsSplit(s: string, e: Entry) {
    && s == e.indent + e.quote + e.key + e.quote + ":" + e.space + e.value
    && IsBlanks(e.indent) && IsBlanks(e.space)
    && e.quote in {"", "\"", "'"} && e.key != "" && forall c :: c in e.key ==> c !in {'"', '\'', ':'}
  }

  /** With as many blanks in front of the key, and as many in front of the value, as can be. */
  ghost predicate IsLongestSplit(s: string, e: Entry) {
    && IsSplit(s, e) && (e.value != "" ==> e.value[0] != ' ')
    && forall f :: IsSplit(s, f) ==> |f.indent| <= |e.indent|
  }

  lemma {:induction false} KeyEndTo(s: string, i: nat, end: nat)
    requires i <= end <= |s| && (forall k :: i <= k < end ==> IsKeyChar(s[k])) && (end < |s| ==> !IsKeyChar(s[end]))
    ensures KeyEnd(s, i) == end
    decreases end - i
  {
    if i < end { KeyEndTo(s, i + 1, end); }
  }

  /** A key starts at `h.indent` and its colon stands at `h.colon`. */
  ghost predicate IsHead(s: string, h: Head) {
    && h.quote in {"", "\"", "'"} && h.key != "" && (forall c :: c in h.key ==> c !in {'"', '\'', ':'})
    && h.indent + |h.quote| + |h.key| + |h.quote| == h.colon < |s| && s[h.colon] == ':'
    && s[h.indent..h.colon] == h.quote + h.key + h.quote
  }

  lemma HeadIsHead(s: string, i: nat)
    requires i <= |s| && HeadAt(s, i).Some?
    ensures HeadAt(s, i).value.indent == i && IsHead(s, HeadAt(s, i).value)
  {
    var h := HeadAt(s, i).value;
    var end := if IsQuoteAt(s, i) then KeyEnd(s, i + 1) else KeyEnd(s, i);
    if IsQuoteAt(s, i) {
      assert s[i..end + 1] == [s[i]] + s[i + 1..end] + [s[i]];
    } else {
      assert s[i..end] == "" + s[i..end] + "";
    }
  }

  lemma SliceOfSlice(s: string, i: nat, j: nat, a: nat, b: nat)
    requires i <= j <= |s| && a <= b <= j - i
    ensures s[i..j][a..b] == s[i + a..i + b]
  {
    assert forall k :: 0 <= k < b - a ==> s[i..j][a..b][k] == s[i + a..i + b][k];
  }

  /** The key, between its quotes if it has any. */
  lemma KeyStands(s: string, h: Head)
    requires IsHead(s, h)
    ensures var from := h.indent + |h.quote|; from + |h.key| <= |s| && s[from..from + |h.key|] == h.key
    ensures h.quote != "" ==> s[h.indent] == h.quote[0] == s[h.indent + 1 + |h.key|]
  {
    var i, n, m := h.indent, |h.quote|, |h.key|;
    var t := s[i..h.colon];
    SliceOfSlice(s, i, h.colon, n, n + m);
    assert t[n..n + m] == h.key;
    if n == 1 { assert t[0] == h.quote[0] == t[n + m] && t[0] == s[i] && t[n + m] == s[i + n + m]; }
  }

  lemma KeyInLine(s: string, h: Head)
    requires IsHead(s, h)
    ensures var from := h.indent + |h.quote|;
      && from + |h.key| <= |s| && s[from..from + |h.key|] == h.key
      && (forall k :: from <= k < from + |h.key| ==> IsKeyChar(s[k]))
      && (h.quote != "" ==> s[h.indent] == h.quote[0] == s[from + |h.key|])
  {
    KeyStands(s, h);
    var from := h.indent + |h.quote|;
    forall k | from <= k < from + |h.key| ensures IsKeyChar(s[k]) {
      assert s[k] == s[from..from + |h.key|][k - from];
      assert h.key[k - from] in h.key;
    }
  }

  lemma HeadIsFound(s: string, h: Head)
    requires IsHead(s, h)
    ensures h.indent <= |s| && HeadAt(s, h.indent) == Some(h)
  {
    hide KeyEnd;
    KeyInLine(s, h);
    var from := h.indent + |h.quote|;
    KeyEndTo(s, from, from + |h.key|);
    if h.quote == "" { assert s[h.indent] == h.key[0]; }
  }

  /** The indentation found is the longest behind which a key starts. */
  lemma {:induction false} BacktrackIsLongest(s: string, i: nat, h: Head)
    requires i <= |s|
    ensures Backtrack(s, i) == Some(h) <==> h.indent <= i && IsHead(s, h) && forall g :: IsHead(s, g) && g.indent <= i ==> g.indent <= h.indent
    ensures Backtrack(s, i).None? ==> forall g :: IsHead(s, g) ==> g.indent > i
  {
    hide IsHead, HeadAt;
    if HeadAt(s, i).Some? {
      HeadIsHead(s, i);
    } else if i > 0 {
      BacktrackIsLongest(s, i - 1, h);
    }
    forall g | IsHead(s, g) ensures g.indent <= |s| && HeadAt(s, g.indent) == Some(g) { HeadIsFound(s, g); }
  }

  function HeadOf(e: Entry): Head {
    Head(|e.indent|, e.quote, e.key, |e.indent| + |e.quote| + |e.key| + |e.quote|)
  }

  lemma SplitHasHead(s: string, e: Entry)
    requires IsSplit(s, e)
    ensures IsHead(s, HeadOf(e)) && |e.indent| <= SkipBlanks(s, 0) && s[..|e.indent|] == e.indent
  {
    hide SkipBlanks;
    var h, rest := HeadOf(e), e.quote + e.key + e.quote;
    var after := ":" + e.space + e.value;
    assert s == e.indent + rest + after;
    assert s[h.indent..h.colon] == rest && s[h.colon..] == after;
    assert s[h.colon] == after[0] == ':';
    forall k | 0 <= k < |e.indent| ensures s[k] == ' ' {
      assert s[k] == e.indent[k];
      assert e.indent[k] in e.indent;
    }
  }

  lemma BlanksBetween(s: string, a: nat, b: nat)
    requires a <= b <= |s| && forall k :: a <= k < b ==> s[k] == ' '
    ensures IsBlanks(s[a..b])
  {
    forall c | c in s[a..b] ensures c == ' ' { var k :| 0 <= k < b - a && s[a..b][k] == c; }
  }

  lemma EntryIsLine(s: string, h: Head)
    requires IsHead(s, h)
    ensures h.indent <= h.colon < |s| && Print(EntryOf(s, h)) == s
  {
    hide SkipBlanks;
    assert s[..h.colon] == s[..h.indent] + s[h.indent..h.colon];
    assert s[..h.indent] + (h.quote + h.key + h.quote) == s[..h.indent] + h.quote + h.key + h.quote;
    EntryPrints(s, h);
  }

  /** An entry with a given head: the blanks in front of it, and behind its colon the blanks and the value. */
  lemma EntryIsSplit(s: string, h: Head)
    requires IsHead(s, h) && h.indent <= SkipBlanks(s, 0)
    ensures h.indent <= h.colon < |s|
    ensures var e := EntryOf(s, h); IsSplit(s, e) && HeadOf(e) == h && (e.value != "" ==> e.value[0] != ' ')
  {
    hide SkipBlanks, IsBlanks, Print;
    EntryIsLine(s, h);
    PrintIs(EntryOf(s, h));
    BlanksBetween(s, 0, h.indent);
    BlanksBetween(s, h.colon + 1, SkipBlanks(s, h.colon + 1));
    assert s[..h.indent] == s[0..h.indent];
  }

  lemma PrintIs(e: Entry)
    ensures Print(e) == e.indent + e.quote + e.key + e.quote + ":" + e.space + e.value
  {}

  /** Two entries of a line with the same indentation are the same, when neither value starts with a blank. */
  lemma SplitIsUnique(s: string, e: Entry, f: Entry)
    requires IsSplit(s, e) && IsSplit(s, f) && |e.indent| == |f.indent|
    requires (e.value != "" ==> e.value[0] != ' ') && (f.value != "" ==> f.value[0] != ' ')
    ensures e == f
  {
    hide IsHead, SkipBlanks, HeadAt;
    SplitHasHead(s, e);
    SplitHasHead(s, f);
    HeadIsFound(s, HeadOf(e));
    HeadIsFound(s, HeadOf(f));
    assert HeadOf(e) == HeadOf(f);
    SameValue(s, e, |Before(e)|);
    SameValue(s, f, |Before(f)|);
  }

  lemma SameValue(s: string, e: Entry, n: nat)
    requires IsSplit(s, e) && n == |Before(e)| && (e.value != "" ==> e.value[0] != ' ')
    ensures var c := HeadOf(e).colon; c < |s| && SkipBlanks(s, c + 1) == n && e.space == s[c + 1..n] && e.value == s[n..]
  {
    hide SkipBlanks;
    var c := HeadOf(e).colon;
    var head := e.indent + e.quote + e.key + e.quote;
    assert s == head + ":" + e.space + e.value;
    assert s == (head + ":") + e.space + e.value;
    assert s[c + 1..n] == e.space && s[n..] == e.value;
    forall k | c + 1 <= k < n ensures s[k] == ' ' {
      assert s[k] == e.space[k - c - 1];
      assert e.space[k - c - 1] in e.space;
    }
    if n < |s| { assert s[n] == e.value[0]; }
    SkipBlanksTo(s, c + 1, n);
  }

  /** A line is taken apart exactly into its longest split, unless the value holds a line break. */
  lemma MatchExactly(s: string, e: Entry)
    ensures MatchLine(s) == Some(e) <==> IsLongestSplit(s, e) && '\n' !in e.value
  {
    hide IsHead, SkipBlanks, HeadAt, Backtrack, IsSplit;
    var n := SkipBlanks(s, 0);
    if MatchLine(s).Some? {
      var h := Backtrack(s, n).value;
      BacktrackIsLongest(s, n, h);
      EntryIsSplit(s, h);
      var found := EntryOf(s, h);
      forall f | IsSplit(s, f) ensures |f.indent| <= |found.indent| { SplitHasHead(s, f); }
      assert IsLongestSplit(s, found);
    }
    if IsLongestSplit(s, e) {
      SplitHasHead(s, e);
      var h := HeadOf(e);
      forall g | IsHead(s, g) && g.indent <= n ensures g.indent <= h.indent {
        EntryIsSplit(s, g);
        assert IsSplit(s, EntryOf(s, g));
      }
      BacktrackIsLongest(s, n, h);
      EntryIsSplit(s, h);
      SplitIsUnique(s, e, EntryOf(s, h));
    }
    if MatchLine(s).Some? && IsLongestSplit(s, e) {
      SplitIsUnique(s, e, MatchLine(s).value);
    }
  }

  // ---- The row of a line ------------------------------------------------------------------------------

  /** The line without the line breaks at its end. */
  ghost predicate IsContent(line: string, content: string) {
    && content <= line && (forall k :: |content| <= k < |line| ==> line[k] == '\n')
    && (content != "" ==> content[|content| - 1] != '\n')
  }

  /** White space up to `n`, and none there. */
  ghost predicate StartsAt(s: string, n: nat) {
    n <= |s| && (forall k :: 0 <= k < n ==> IsSpace(s[k])) && (n < |s| ==> !IsSpace(s[n]))
  }

  /** `r` is `s` without the white space at both ends. */
  ghost predicate IsStripped(s: string, r: string) {
    && (r == "" ==> forall k :: 0 <= k < |s| ==> IsSpace(s[k]))
    && (r != "" ==> !IsSpace(r[0]) && !IsSpace(r[|r| - 1]) && exists a: nat :: StandsAlone(s, r, a))
  }

  /** `r` stands at `a`, with only white space around it. */
  ghost predicate StandsAlone(s: string, r: string, a: nat) {
    && a + |r| <= |s| && s[a..a + |r|] == r
    && (forall k :: 0 <= k < a ==> IsSpace(s[k])) && forall k :: a + |r| <= k < |s| ==> IsSpace(s[k])
  }

  /** `>` or `|`, and digits and signs behind it. */
  ghost predicate IsMarker(s: string) {
    s != "" && s[0] in {'>', '|'} && forall k :: 1 <= k < |s| ==> s[k] in "0123456789+-"
  }

  ghost predicate IsValueOf(raw: string, value: Value) {
    exists text :: IsStripped(raw, text)
      && (value.BlockScalar? <==> IsMarker(text)) && (value.Nothing? <==> text == "")
      && (value.Scalar? ==> value.parts == ScalarParts(raw))
  }

  /** A line that does not start with a `#` and is taken apart into key and value. */
  ghost predicate IsKeyed(content: string, indentation: nat, k: Keyed) {
    && !(indentation < |content| && content[indentation] == '#')
    && IsLongestSplit(content, k.entry) && '\n' !in k.entry.value
    && IsStripped(k.entry.key, k.key) && IsValueOf(k.entry.value, k.value)
  }

  /** The row says of the line what stands there. */
  ghost predicate RowMeans(line: string, row: Row) {
    exists content :: IsContent(line, content)
      && (row.blank <==> forall k :: 0 <= k < |content| ==> IsSpace(content[k]))
      && StartsAt(content, row.indentation)
      && (row.keyed.Some? ==> IsKeyed(content, row.indentation, row.keyed.value))
      && (row.keyed.None? ==> forall k :: !IsKeyed(content, row.indentation, k))
  }

  lemma {:induction false} ContentExactly(line: string)
    ensures IsContent(line, Content(line))
  {
    if line != [] && line[|line| - 1] == '\n' { ContentExactly(line[..|line| - 1]); }
  }

  lemma {:induction false} RStripExactly(s: string)
    ensures var r := RStrip(s); r <= s && forall k :: |r| <= k < |s| ==> IsSpace(s[k])
  {
    if s != [] && IsSpace(s[|s| - 1]) { RStripExactly(s[..|s| - 1]); }
  }

  lemma StripExactly(s: string)
    ensures IsStripped(s, Strip(s))
  {
    hide SkipSpace, RStrip;
    var n := SkipSpace(s, 0);
    var left := LStrip(s);
    RStripExactly(left);
    var r := Strip(s);
    assert forall k :: 0 <= k < |left| ==> left[k] == s[n + k];
    if r != "" {
      assert s[n..n + |r|] == r;
      forall k | n + |r| <= k < |s| ensures IsSpace(s[k]) { assert s[k] == left[k - n]; }
      assert StandsAlone(s, r, n);
    }
  }

  lemma StripIsUnique(s: string, r: string)
    requires IsStripped(s, r)
    ensures r == Strip(s)
  {
    StripExactly(s);
    StrippedIsUnique(s, r, Strip(s));
  }

  lemma StrippedIsUnique(s: string, r: string, t: string)
    requires IsStripped(s, r) && IsStripped(s, t)
    ensures r == t
  {
    if r != "" { InkIsLeft(s, r); }
    if t != "" { InkIsLeft(s, t); }
    if r != "" && t != "" {
      var a: nat :| StandsAlone(s, r, a);
      var b: nat :| StandsAlone(s, t, b);
      Ends(s, r, a);
      Ends(s, t, b);
      assert a == b && a + |r| == b + |t|;
    }
  }

  lemma InkIsLeft(s: string, r: string)
    requires IsStripped(s, r) && r != ""
    ensures exists k :: 0 <= k < |s| && !IsSpace(s[k])
  {
    var a: nat :| StandsAlone(s, r, a);
    Ends(s, r, a);
  }

  lemma Ends(s: string, r: string, a: nat)
    requires StandsAlone(s, r, a) && r != "" && !IsSpace(r[0]) && !IsSpace(r[|r| - 1])
    ensures !IsSpace(s[a]) && !IsSpace(s[a + |r| - 1])
  {
    assert s[a] == s[a..a + |r|][0] && s[a + |r| - 1] == s[a..a + |r|][|r| - 1];
  }

  lemma MarkerExactly(s: string)
    ensures IsBlockMarker(s) <==> IsMarker(s)
  {
    forall c: char ensures '0' <= c <= '9' || c == '+' || c == '-' <==> c in "0123456789+-" {
      if '0' <= c <= '9' { assert c == "0123456789+-"[c as int - '0' as int]; }
      assert "0123456789+-"[10] == '+' && "0123456789+-"[11] == '-';
    }
  }

  lemma ValueExactly(raw: string, value: Value)
    ensures ValueOf(raw) == value <==> IsValueOf(raw, value)
  {
    hide ScalarParts, IsBlockMarker, IsMarker;
    StripExactly(raw);
    MarkerExactly(Strip(raw));
    assert !IsMarker("") by { NoMarker(); }
    forall text | IsStripped(raw, text) ensures text == Strip(raw) { StripIsUnique(raw, text); }
  }

  lemma NoMarker()
    ensures !IsMarker("")
  {}

  lemma IndentationExactly(content: string)
    ensures StartsAt(content, Indentation(content))
    ensures var n := Indentation(content); IsComment(content) <==> n < |content| && content[n] == '#'
  {
    hide SkipSpace;
    assert |LStrip(content)| == |content| - SkipSpace(content, 0);
  }

  /** A line is seen as what stands there. */
  lemma RowExactly(line: string)
    ensures RowMeans(line, RowOf(line))
  {
    hide ValueOf, IsValueOf, MatchLine, IsLongestSplit, IsContent, IsStripped, StartsAt, Strip, IsComment, Indentation;
    var content, row := Content(line), RowOf(line);
    ContentExactly(line);
    IndentationExactly(content);
    BlankExactly(content);
    forall e { MatchExactly(content, e); }
    if row.keyed.Some? {
      var k := row.keyed.value;
      StripExactly(k.entry.key);
      ValueExactly(k.entry.value, k.value);
    }
  }

  lemma BlankExactly(content: string)
    ensures Strip(content) == [] <==> forall k :: 0 <= k < |content| ==> IsSpace(content[k])
  {
    StripExactly(content);
    if Strip(content) != [] {
      var a: nat :| StandsAlone(content, Strip(content), a);
      Ends(content, Strip(content), a);
    }
  }
}
