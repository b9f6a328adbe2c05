/**
 The line-level YAML editor of examples/upgrade-automation/scripts/bump-target.py: finds
 the value at a dotted path by indentation alone, and replaces it in place.
 */
module YamlEditor {
  import opened Options
  import opened YamlScalar

  // ---- One line -----------------------------------------------------------------------------------

  /** `key: value` taken apart; printed back to back these fields are the line. */
  datatype Entry = Entry(indent: string, quote: string, key: string, space: string, value: string)

  predicate IsKeyChar(c: char) { c != '"' && c != '\'' && c != ':' }

  function KeyEnd(s: string, i: nat): (r: nat)
    requires i <= |s|
    ensures i <= r <= |s|
    ensures forall k :: i <= k < r ==> IsKeyChar(s[k])
    ensures r < |s| ==> !IsKeyChar(s[r])
    decreases |s| - i
  {
    if i < |s| && IsKeyChar(s[i]) then KeyEnd(s, i + 1) else i
  }

  function SkipBlanks(s: string, i: nat): (r: nat)
    requires i <= |s|
    ensures i <= r <= |s|
    ensures forall k :: i <= k < r ==> s[k] == ' '
    ensures r < |s| ==> s[r] != ' '
    decreases |s| - i
  {
    if i < |s| && s[i] == ' ' then SkipBlanks(s, i + 1) else i
  }

  predicate IsQuoteAt(s: string, i: nat) { i < |s| && (s[i] == '"' || s[i] == '\'') }

  /** The key after an indentation of `i`, with its quotes, and the position of its colon. */
  datatype Head = Head(indent: nat, quote: string, key: string, colon: nat)

  function HeadAt(s: string, i: nat): (r: Option<Head>)
    requires i <= |s|
    ensures r.Some? ==>
      (r.value.indent == i && r.value.colon < |s| && s[r.value.colon] == ':'
       && s[..r.value.colon] == s[..i] + r.value.quote + r.value.key + r.value.quote)
  {
    if IsQuoteAt(s, i) then
      var end := KeyEnd(s, i + 1);
      if end > i + 1 && end + 1 < |s| && s[end] == s[i] && s[end + 1] == ':' then
        assert s[..end + 1] == s[..i] + [s[i]] + s[i + 1..end] + [s[i]];
        Some(Head(i, [s[i]], s[i + 1..end], end + 1))
      else None
    else
      var end := KeyEnd(s, i);
      if end > i && end < |s| && s[end] == ':' then
        assert s[..end] == s[..i] + "" + s[i..end] + "";
        Some(Head(i, "", s[i..end], end))
      else None
  }

  /** The greedy indentation gives blanks back one at a time until a key fits. */
  function Backtrack(s: string, i: nat): Option<Head>
    requires i <= |s|
  {
    var head := HeadAt(s, i);
    if head.Some? || i == 0 then head else Backtrack(s, i - 1)
  }

  function EntryOf(s: string, head: Head): Entry
    requires head.indent <= head.colon < |s|
  {
    var end := SkipBlanks(s, head.colon + 1);
    Entry(s[..head.indent], head.quote, head.key, s[head.colon + 1..end], s[end..])
  }

  /** The line pattern: indentation, optionally quoted key, colon, blanks, and a value up to the end. */
  function MatchLine(s: string): Option<Entry> {
    var head := Backtrack(s, SkipBlanks(s, 0));
    if head.None? then None
    else
      BacktrackShape(s, SkipBlanks(s, 0));
      var entry := EntryOf(s, head.value);
      if '\n' in entry.value then None else Some(entry)
  }

  lemma BacktrackShape(s: string, i: nat)
    requires i <= |s| && Backtrack(s, i).Some?
    ensures var h := Backtrack(s, i).value;
      h.indent <= i && h.indent <= h.colon < |s| && s[h.colon] == ':' && HeadAt(s, h.indent) == Some(h)
  {}

  function Print(e: Entry): string {
    e.indent + e.quote + e.key + e.quote + ":" + e.space + e.value
  }

  // ---- The pattern only looks at the line up to the colon --------------------------------------------

  lemma {:induction false} KeyEndLocal(s: string, t: string, c: nat, i: nat)
    requires i <= c < |s| && c < |t| && s[..c + 1] == t[..c + 1] && s[c] == ':'
    ensures KeyEnd(s, i) == KeyEnd(t, i) <= c
    decreases c - i
  {
    assert s[i] == s[..c + 1][i] == t[..c + 1][i] == t[i];
    if i < c { KeyEndLocal(s, t, c, i + 1); }
  }

  lemma {:induction false} SkipBlanksLocal(s: string, t: string, c: nat, i: nat)
    requires i <= c < |s| && c < |t| && s[..c + 1] == t[..c + 1] && s[c] == ':'
    ensures SkipBlanks(s, i) == SkipBlanks(t, i) <= c
    decreases c - i
  {
    assert s[i] == s[..c + 1][i] == t[..c + 1][i] == t[i];
    if i < c { SkipBlanksLocal(s, t, c, i + 1); }
  }

  /** A key that ends at colon `c` or before is found alike in any line with the same text up to `c`. */
  lemma HeadLocal(s: string, t: string, c: nat, i: nat)
    requires i <= c < |s| && c < |t| && s[..c + 1] == t[..c + 1] && s[c] == ':'
    requires HeadAt(s, i).Some? ==> HeadAt(s, i).value.colon <= c
    requires HeadAt(t, i).Some? ==> HeadAt(t, i).value.colon <= c
    ensures HeadAt(s, i) == HeadAt(t, i)
  {
    hide KeyEnd, SkipBlanks;
    SameUpTo(s, t, c);
    if IsQuoteAt(s, i) {
      KeyEndLocal(s, t, c, i + 1);
      SliceAgree(s, t, c + 1, i + 1, KeyEnd(s, i + 1));
    } else {
      KeyEndLocal(s, t, c, i);
      SliceAgree(s, t, c + 1, i, KeyEnd(s, i));
    }
  }

  lemma SameUpTo(s: string, t: string, c: nat)
    requires c < |s| && c < |t| && s[..c + 1] == t[..c + 1]
    ensures forall k :: 0 <= k <= c ==> s[k] == t[k]
  {
    assert forall k :: 0 <= k <= c ==> s[k] == s[..c + 1][k] && t[k] == t[..c + 1][k];
  }

  /** No key reaches past the first colon behind its first character. */
  lemma HeadStopsAtColon(s: string, c: nat, i: nat)
    requires i <= c < |s| && s[c] == ':' && HeadAt(s, i).Some?
    ensures HeadAt(s, i).value.colon <= c
  {
    if IsQuoteAt(s, i) {
      KeyEndLocal(s, s, c, i + 1);
    } else {
      KeyEndLocal(s, s, c, i);
    }
  }

  lemma {:induction false} BacktrackLocal(s: string, t: string, c: nat, i: nat)
    requires i <= c < |s| && c < |t| && s[..c + 1] == t[..c + 1] && s[c] == ':'
    ensures Backtrack(s, i) == Backtrack(t, i)
    decreases i
  {
    assert t[c] == t[..c + 1][c] == s[..c + 1][c];
    if HeadAt(s, i).Some? { HeadStopsAtColon(s, c, i); }
    if HeadAt(t, i).Some? { HeadStopsAtColon(t, c, i); }
    HeadLocal(s, t, c, i);
    if i > 0 { BacktrackLocal(s, t, c, i - 1); }
  }

  lemma CutAtColon(s: string, c: nat, end: nat)
    requires c < end <= |s| && s[c] == ':'
    ensures s[..c] + ":" + s[c + 1..end] + s[end..] == s
  {
    assert s[..c] + ":" == s[..c + 1];
    assert s[..c + 1] + s[c + 1..end] == s[..end];
    assert s[..end] + s[end..] == s;
  }

  lemma EntryPrints(s: string, h: Head)
    requires h.indent <= h.colon < |s| && s[h.colon] == ':'
    requires s[..h.colon] == s[..h.indent] + h.quote + h.key + h.quote
    ensures Print(EntryOf(s, h)) == s
  {
    CutAtColon(s, h.colon, SkipBlanks(s, h.colon + 1));
  }

  /** A matched line is the print of its entry. */
  lemma MatchPrints(s: string)
    requires MatchLine(s).Some?
    ensures Print(MatchLine(s).value) == s
    ensures var e := MatchLine(s).value; e.value != [] ==> e.value[0] != ' '
  {
    BacktrackShape(s, SkipBlanks(s, 0));
    EntryPrints(s, Backtrack(s, SkipBlanks(s, 0)).value);
  }

  /** Everything of an entry but its value. */
  function Before(e: Entry): string { e.indent + e.quote + e.key + e.quote + ":" + e.space }

  lemma {:induction false} SkipBlanksTo(s: string, i: nat, end: nat)
    requires i <= end <= |s| && (forall k :: i <= k < end ==> s[k] == ' ') && (end < |s| ==> s[end] != ' ')
    ensures SkipBlanks(s, i) == end
    decreases end - i
  {
    if i < end { SkipBlanksTo(s, i + 1, end); }
  }

  /** Two lines that agree up to the value of the first. */
  lemma AgreeUpTo(e: Entry, value: string, end: nat)
    requires |Before(e)| == end
    ensures var s, t := Print(e), Print(e.(value := value));
      s[..end] == t[..end] && t[end..] == value && forall k :: 0 <= k < end ==> s[k] == t[k]
  {
    var s, t := Print(e), Print(e.(value := value));
    assert s == Before(e) + e.value && t == Before(e) + value;
    assert s[..end] == Before(e) == t[..end];
    forall k | 0 <= k < end ensures s[k] == t[k] { assert s[k] == s[..end][k]; }
  }

  /** Replacing the value of a matched line leaves its key, indentation and spacing as matched. */
  lemma MatchReplaced(s: string, value: string)
    requires MatchLine(s).Some? && value != [] && value[0] != ' ' && '\n' !in value
    ensures var e := MatchLine(s).value; MatchLine(Print(e.(value := value))) == Some(e.(value := value))
  {
    MatchPrints(s);
    var e := MatchLine(s).value;
    BacktrackShape(s, SkipBlanks(s, 0));
    var h := Backtrack(s, SkipBlanks(s, 0)).value;
    var end := SkipBlanks(s, h.colon + 1);
    var t := Print(e.(value := value));
    assert |Before(e)| == |s| - |e.value| == end;
    AgreeUpTo(e, value, end);
    SliceAgree(s, t, end, 0, h.colon + 1);
    SkipBlanksLocal(s, t, h.colon, 0);
    BacktrackLocal(s, t, h.colon, SkipBlanks(s, 0));
    assert t[end] == t[end..][0];
    SkipBlanksTo(t, h.colon + 1, end);
    SliceAgree(s, t, end, 0, h.indent);
    SliceAgree(s, t, end, h.colon + 1, end);
  }

  lemma SliceAgree(s: string, t: string, end: nat, a: nat, b: nat)
    requires a <= b <= end <= |s| && end <= |t| && s[..end] == t[..end]
    ensures s[a..b] == t[a..b]
  {
    assert s[a..b] == s[..end][a..b] && t[a..b] == t[..end][a..b];
  }

  // ---- What the scan sees of a line ------------------------------------------------------------------

  function Content(line: string): string {
    if line != [] && line[|line| - 1] == '\n' then Content(line[..|line| - 1]) else line
  }

  function Ending(line: string): string { if line != [] && line[|line| - 1] == '\n' then "\n" else "" }

  function Indentation(content: string): nat { |content| - |LStrip(content)| }

  predicate IsComment(content: string) { LStrip(content) != [] && LStrip(content)[0] == '#' }

  predicate IsBlockMarker(s: string) {
    s != [] && s[0] in ">|" && forall k :: 1 <= k < |s| ==> '0' <= s[k] <= '9' || s[k] == '+' || s[k] == '-'
  }

  datatype Value = BlockScalar | Nothing | Scalar(parts: Result<Parts, Error>)

  datatype Keyed = Keyed(entry: Entry, key: string, value: Value)

  /** A line as the scan sees it; `keyed` is missing for comments and lines without a key. */
  datatype Row = Row(blank: bool, indentation: nat, keyed: Option<Keyed>)

  function ValueOf(raw: string): Value {
    if IsBlockMarker(Strip(raw)) then BlockScalar
    else if Strip(raw) == [] then Nothing
    else Scalar(ScalarParts(raw))
  }

  function RowOf(line: string): Row {
    var content := Content(line);
    var entry := if IsComment(content) then None else MatchLine(content);
    Row(Strip(content) == [], Indentation(content),
        if entry.None? then None
        else Some(Keyed(entry.value, Strip(entry.value.key), ValueOf(entry.value.value))))
  }

  function RowsOf(lines: seq<string>): (r: seq<Row>)
    ensures |r| == |lines|
  {
    seq(|lines|, k requires 0 <= k < |lines| => RowOf(lines[k]))
  }

  // ---- The scan --------------------------------------------------------------------------------------

  datatype Frame = Frame(indent: nat, key: string)

  datatype Found = Found(index: nat, entry: Entry, parts: Parts)

  /** The enclosing keys, the indentation of an open block scalar, and the match so far. */
  datatype State = State(stack: seq<Frame>, block: Option<nat>, found: Option<Found>)

  const START := State([], None, None)

  function Pop(stack: seq<Frame>, indent: nat): seq<Frame> {
    if stack != [] && indent <= stack[|stack| - 1].indent then Pop(stack[..|stack| - 1], indent) else stack
  }

  function Keys(stack: seq<Frame>): seq<string> {
    seq(|stack|, k requires 0 <= k < |stack| => stack[k].key)
  }

  /** The path of a key below `stack`. */
  function PathOf(stack: seq<Frame>, k: Keyed): seq<string> { Keys(Pop(stack, |k.entry.indent|)) + [k.key] }

  /** Does an open block scalar swallow this line? */
  predicate InBlock(st: State, row: Row) {
    st.block.Some? && (row.blank || row.indentation > st.block.value)
  }

  /** How a key off the wanted path moves the scan. */
  function Pass(st: State, k: Keyed): State {
    var stack := Pop(st.stack, |k.entry.indent|);
    match k.value
    case BlockScalar => State(stack, Some(|k.entry.indent|), st.found)
    case Nothing => State(stack + [Frame(|k.entry.indent|, k.key)], None, st.found)
    case Scalar(_) => State(stack, None, st.found)
  }

  /** How the key at the wanted path moves the scan. */
  function Hit(st: State, index: nat, k: Keyed): Result<State, Error> {
    match k.value
    case BlockScalar => Err(NotOnOneLine)
    case Nothing => Err(NotOnOneLine)
    case Scalar(parts) =>
      if parts.Err? then Err(parts.error)
      else if st.found.Some? then Err(Duplicated)
      else Ok(State(Pop(st.stack, |k.entry.indent|), None, Some(Found(index, k.entry, parts.value))))
  }

  function Turn(st: State, index: nat, k: Keyed, keys: seq<string>): Result<State, Error> {
    if PathOf(st.stack, k) == keys then Hit(st, index, k) else Ok(Pass(st, k))
  }

  function Visit(st: State, index: nat, row: Row, keys: seq<string>): Result<State, Error> {
    if InBlock(st, row) then Ok(st)
    else if row.keyed.None? then Ok(st.(block := None))
    else Turn(st, index, row.keyed.value, keys)
  }

  /** The scan after the first `k` lines. */
  function Scan(rows: seq<Row>, keys: seq<string>, k: nat): Result<State, Error>
    requires k <= |rows|
  {
    if k == 0 then Ok(START)
    else
      var before := Scan(rows, keys, k - 1);
      if before.Err? then before else Visit(before.value, k - 1, rows[k - 1], keys)
  }

  function Lookup(rows: seq<Row>, keys: seq<string>): Result<Found, Error> {
    var end := Scan(rows, keys, |rows|);
    if end.Err? then Err(end.error)
    else if end.value.found.None? then Err(NotFound)
    else Ok(end.value.found.value)
  }

  /** The value at a path. */
  function Read(lines: seq<string>, keys: seq<string>): Result<string, Error> {
    var found := Lookup(RowsOf(lines), keys);
    if found.Err? then Err(found.error) else Ok(found.value.parts.value)
  }

  function NewLine(line: string, found: Found, rendered: string): string {
    Print(found.entry.(value := rendered + found.parts.trailing)) + Ending(line)
  }

  /** The lines with the value at a path replaced. */
  function Written(lines: seq<string>, keys: seq<string>, replacement: string): Result<seq<string>, Error> {
    var found := Lookup(RowsOf(lines), keys);
    if found.Err? then Err(found.error)
    else
      var rendered := Render(replacement, found.value.parts.quote);
      if rendered.Err? then Err(rendered.error)
      else
        LookupIsRow(RowsOf(lines), keys);
        var index := found.value.index;
        Ok(lines[index := NewLine(lines[index], found.value, rendered.value)])
  }

  // ---- Facts about the scan ----------------------------------------------------------------------------

  /** What was found is the scalar of the line it was found on. */
  predicate IsRow(rows: seq<Row>, found: Found) {
    && found.index < |rows|
    && rows[found.index].keyed.Some?
    && rows[found.index].keyed.value.entry == found.entry
    && rows[found.index].keyed.value.value == Scalar(Ok(found.parts))
  }

  lemma {:induction false} FoundIsRow(rows: seq<Row>, keys: seq<string>, k: nat)
    requires k <= |rows| && Scan(rows, keys, k).Ok? && Scan(rows, keys, k).value.found.Some?
    ensures IsRow(rows, Scan(rows, keys, k).value.found.value)
    ensures Scan(rows, keys, k).value.found.value.index < k
  {
    if Scan(rows, keys, k - 1).value.found.Some? { FoundIsRow(rows, keys, k - 1); }
  }

  lemma LookupIsRow(rows: seq<Row>, keys: seq<string>)
    requires Lookup(rows, keys).Ok?
    ensures IsRow(rows, Lookup(rows, keys).value)
  {
    FoundIsRow(rows, keys, |rows|);
  }

  /** `row'` is `row` with another scalar as its value, read as `parts`. */
  predicate SameButScalar(row: Row, row': Row, e: Entry, parts: Parts) {
    && row.keyed.Some? && row.keyed.value.value.Scalar?
    && row'.keyed == Some(Keyed(e, row.keyed.value.key, Scalar(Ok(parts))))
    && |e.indent| == |row.keyed.value.entry.indent|
    && row'.blank == row.blank && row'.indentation == row.indentation
  }

  // ---- Writing then reading, on rows -----------------------------------------------------------------------

  lemma {:induction false} ScanSamePrefix(rows: seq<Row>, rows': seq<Row>, keys: seq<string>, k: nat)
    requires k <= |rows| && k <= |rows'| && rows[..k] == rows'[..k]
    ensures Scan(rows, keys, k) == Scan(rows', keys, k)
  {
    if k > 0 {
      assert rows[..k - 1] == rows[..k][..k - 1] && rows'[..k - 1] == rows'[..k][..k - 1];
      assert rows[k - 1] == rows[..k][k - 1] && rows'[k - 1] == rows'[..k][k - 1];
      ScanSamePrefix(rows, rows', keys, k - 1);
    }
  }

  lemma VisitsAgree(a: State, b: State, index: nat, row: Row, p: seq<string>, q: seq<string>)
    requires a.stack == b.stack && a.block == b.block
    requires Visit(a, index, row, p).Ok? && Visit(b, index, row, q).Ok?
    ensures Visit(a, index, row, p).value.stack == Visit(b, index, row, q).value.stack
    ensures Visit(a, index, row, p).value.block == Visit(b, index, row, q).value.block
  {}

  /** Scans for two paths walk through the same enclosing keys as long as neither fails. */
  lemma {:induction false} ScansAgree(rows: seq<Row>, p: seq<string>, q: seq<string>, k: nat)
    requires k <= |rows| && Scan(rows, p, k).Ok? && Scan(rows, q, k).Ok?
    ensures Scan(rows, p, k).value.stack == Scan(rows, q, k).value.stack
    ensures Scan(rows, p, k).value.block == Scan(rows, q, k).value.block
  {
    if k > 0 {
      ScansAgree(rows, p, q, k - 1);
      VisitsAgree(Scan(rows, p, k - 1).value, Scan(rows, q, k - 1).value, k - 1, rows[k - 1], p, q);
    }
  }

  lemma {:induction false} ScanOkBefore(rows: seq<Row>, keys: seq<string>, j: nat, k: nat)
    requires j <= k <= |rows| && Scan(rows, keys, k).Ok?
    ensures Scan(rows, keys, j).Ok?
    decreases k
  {
    if j < k { ScanOkBefore(rows, keys, j, k - 1); }
  }

  /** Where the path was found, the scan stood outside any block, at that path, and had found nothing. */
  ghost predicate FoundHere(rows: seq<Row>, keys: seq<string>, found: Found) {
    && IsRow(rows, found)
    && Scan(rows, keys, found.index).Ok?
    && var st, k := Scan(rows, keys, found.index).value, rows[found.index].keyed.value;
      !InBlock(st, rows[found.index]) && PathOf(st.stack, k) == keys && st.found.None?
  }

  lemma {:induction false} FoundOnce(rows: seq<Row>, keys: seq<string>, k: nat)
    requires k <= |rows| && Scan(rows, keys, k).Ok? && Scan(rows, keys, k).value.found.Some?
    ensures FoundHere(rows, keys, Scan(rows, keys, k).value.found.value)
  {
    if Scan(rows, keys, k - 1).value.found.Some? { FoundOnce(rows, keys, k - 1); }
    FoundIsRow(rows, keys, k);
  }

  /** From the line of the match on, the scan carries that match unchanged. */
  lemma {:induction false} FoundStays(rows: seq<Row>, keys: seq<string>, found: Found, k: nat)
    requires FoundHere(rows, keys, found) && found.index < k <= |rows| && Scan(rows, keys, k).Ok?
    ensures Scan(rows, keys, k).value.found == Some(found)
    decreases k
  {
    if found.index + 1 < k { FoundStays(rows, keys, found, k - 1); }
  }

  /** The rows after the scalar at the wanted path was replaced by one that reads as `parts`. */
  ghost predicate Replaced(rows: seq<Row>, keys: seq<string>, found: Found, rows': seq<Row>, e: Entry, parts: Parts) {
    && FoundHere(rows, keys, found)
    && Scan(rows, keys, |rows|).Ok?
    && |rows'| == |rows|
    && rows' == rows[found.index := rows'[found.index]]
    && SameButScalar(rows[found.index], rows'[found.index], e, parts)
  }

  /** What was found before only matters for finding the path twice. */
  lemma VisitCarries(st: State, index: nat, row: Row, keys: seq<string>, other: Found)
    requires st.found.Some? && Visit(st, index, row, keys).Ok?
    ensures Visit(st.(found := Some(other)), index, row, keys)
      == Ok(Visit(st, index, row, keys).value.(found := Some(other)))
    ensures Visit(st, index, row, keys).value.found == st.found
  {}

  lemma VisitFinds(st: State, index: nat, row: Row, row': Row, keys: seq<string>, e: Entry, parts: Parts)
    requires SameButScalar(row, row', e, parts) && row.keyed.value.value.parts.Ok?
    requires !InBlock(st, row) && PathOf(st.stack, row.keyed.value) == keys && st.found.None?
    ensures Visit(st, index, row, keys).Ok?
    ensures Visit(st, index, row', keys)
      == Ok(Visit(st, index, row, keys).value.(found := Some(Found(index, e, parts))))
  {}

  /** The scan for the written path differs only in what it found. */
  lemma {:induction false} WrittenPathReads(rows: seq<Row>, keys: seq<string>, found: Found, rows': seq<Row>, e: Entry, parts: Parts, k: nat)
    requires Replaced(rows, keys, found, rows', e, parts) && found.index < k <= |rows|
    ensures Scan(rows, keys, k).Ok?
    ensures Scan(rows', keys, k) == Ok(Scan(rows, keys, k).value.(found := Some(Found(found.index, e, parts))))
    decreases k
  {
    ScanOkBefore(rows, keys, k, |rows|);
    ScanOkBefore(rows, keys, k - 1, |rows|);
    if k == found.index + 1 {
      ScanSamePrefix(rows, rows', keys, found.index);
      VisitFinds(Scan(rows, keys, found.index).value, found.index, rows[found.index], rows'[found.index], keys, e, parts);
    } else {
      WrittenPathReads(rows, keys, found, rows', e, parts, k - 1);
      FoundStays(rows, keys, found, k - 1);
      VisitCarries(Scan(rows, keys, k - 1).value, k - 1, rows[k - 1], keys, Found(found.index, e, parts));
    }
  }

  /** The scan for any other path does not notice. */
  lemma {:induction false} OtherPathReads(rows: seq<Row>, keys: seq<string>, found: Found, rows': seq<Row>, e: Entry, parts: Parts, path: seq<string>, k: nat)
    requires Replaced(rows, keys, found, rows', e, parts) && path != keys && k <= |rows|
    ensures Scan(rows', path, k) == Scan(rows, path, k)
    decreases k
  {
    if k <= found.index {
      ScanSamePrefix(rows, rows', path, k);
    } else {
      OtherPathReads(rows, keys, found, rows', e, parts, path, k - 1);
      if k == found.index + 1 && Scan(rows, path, k - 1).Ok? {
        ScansAgree(rows, path, keys, k - 1);
      }
    }
  }

  // ---- Writing then reading, on lines ------------------------------------------------------------------------

  lemma ContentOfPrinted(text: string, line: string)
    requires text != [] && text[|text| - 1] != '\n'
    ensures Content(text + Ending(line)) == text
  {
    if Ending(line) == "\n" {
      assert (text + "\n")[..|text|] == text;
    } else {
      assert text + "" == text;
    }
  }

  /** Blanks at the start of a line, and what follows them, do not depend on what stands after its colon. */
  lemma LineStartLocal(s: string, t: string, c: nat)
    requires c < |s| && c < |t| && s[..c + 1] == t[..c + 1] && s[c] == ':'
    ensures Indentation(s) == Indentation(t) && IsComment(s) == IsComment(t)
    ensures Strip(s) != [] && Strip(t) != []
  {
    SkipSpaceLocal(s, t, c, 0);
    var n := SkipSpace(s, 0);
    assert s[n] == s[..c + 1][n] == t[..c + 1][n] == t[n];
    assert LStrip(s)[0] == s[n] && LStrip(t)[0] == t[n];
  }

  lemma {:induction false} SkipSpaceLocal(s: string, t: string, c: nat, i: nat)
    requires i <= c < |s| && c < |t| && s[..c + 1] == t[..c + 1] && s[c] == ':'
    ensures SkipSpace(s, i) == SkipSpace(t, i) <= c
    decreases c - i
  {
    assert s[i] == s[..c + 1][i] == t[..c + 1][i] == t[i];
    if i < c { SkipSpaceLocal(s, t, c, i + 1); }
  }

  /** Where the colon of a printed entry stands. */
  lemma ColonOf(e: Entry)
    ensures var c := |e.indent + e.quote + e.key + e.quote|; c < |Print(e)| && Print(e)[c] == ':'
    ensures forall value :: Print(e)[..|Before(e)|] == Print(e.(value := value))[..|Before(e)|] == Before(e)
  {
    var head := e.indent + e.quote + e.key + e.quote;
    assert Before(e) == head + ":" + e.space;
    assert Print(e) == Before(e) + e.value;
    assert Before(e)[|head|] == ':';
    forall value ensures Print(e)[..|Before(e)|] == Print(e.(value := value))[..|Before(e)|] == Before(e) {
      assert Print(e.(value := value)) == Before(e) + value;
    }
  }

  lemma ReplacedLineStart(e: Entry, value: string)
    ensures var s, t := Print(e), Print(e.(value := value));
      && Indentation(s) == Indentation(t) && IsComment(s) == IsComment(t)
      && Strip(s) != [] && Strip(t) != []
  {
    ColonOf(e);
    var s, t := Print(e), Print(e.(value := value));
    var c := |e.indent + e.quote + e.key + e.quote|;
    assert |Before(e)| == c + 1 + |e.space|;
    assert s[..|Before(e)|] == t[..|Before(e)|];
    SliceAgree(s, t, |Before(e)|, 0, c + 1);
    LineStartLocal(s, t, c);
  }

  /** A value that starts like a scalar and has no white space around it is one. */
  lemma TrimmedValue(v: string)
    requires Trimmed(v) && v[0] != '>' && v[0] != '|'
    ensures ValueOf(v) == Scalar(ScalarParts(v))
  {
    StripTrimmed(v);
  }

  lemma OneLineValue(e: Entry, p: Parts, replacement: string)
    requires ScalarParts(e.value) == Ok(p) && '\n' !in e.value && Render(replacement, p.quote).Ok?
    ensures '\n' !in Render(replacement, p.quote).value + p.trailing
  {
    RenderedOnOneLine(replacement, p.quote);
    if '\n' in p.trailing { TrailingIsText(e.value, '\n'); }
  }

  /** What a replacement puts in the place of the old value. */
  lemma NewValue(e: Entry, p: Parts, replacement: string)
    requires ScalarParts(e.value) == Ok(p) && '\n' !in e.value && Render(replacement, p.quote).Ok?
    ensures var v := Render(replacement, p.quote).value + p.trailing;
      && Trimmed(v) && '\n' !in v && v[0] != ' ' && v[|v| - 1] != '\n'
      && ValueOf(v) == Scalar(Ok(Parts(replacement, p.quote, p.trailing)))
  {
    ReadLeavesTrailing(e.value);
    RenderedIsTrimmed(replacement, p.quote, p.trailing);
    RenderedReadsBack(replacement, p.quote, p.trailing);
    OneLineValue(e, p, replacement);
    TrimmedValue(Render(replacement, p.quote).value + p.trailing);
  }

  /** The row of a line whose value was replaced by `v`. */
  lemma RowReplaced(line: string, v: string)
    requires RowOf(line).keyed.Some?
    requires Trimmed(v) && '\n' !in v && v[0] != ' ' && v[|v| - 1] != '\n'
    ensures var row, e := RowOf(line), RowOf(line).keyed.value.entry.(value := v);
      RowOf(Print(e) + Ending(line)) ==
        Row(row.blank, row.indentation, Some(Keyed(e, row.keyed.value.key, ValueOf(v))))
  {
    var was := RowOf(line).keyed.value.entry;
    var e := was.(value := v);
    MatchPrints(Content(line));
    MatchReplaced(Content(line), v);
    PrintEnds(e);
    ContentOfPrinted(Print(e), line);
    ReplacedLineStart(was, v);
  }

  lemma PrintEnds(e: Entry)
    requires e.value != []
    ensures Print(e) != [] && Print(e)[|Print(e)| - 1] == e.value[|e.value| - 1]
  {
    assert Print(e) == Before(e) + e.value;
  }

  /** The rewritten line is the same row with the replacement as its scalar. */
  lemma NewRow(line: string, found: Found, replacement: string)
    requires RowOf(line).keyed.Some? && RowOf(line).keyed.value.entry == found.entry
    requires RowOf(line).keyed.value.value == Scalar(Ok(found.parts))
    requires Render(replacement, found.parts.quote).Ok?
    ensures var rendered := Render(replacement, found.parts.quote).value;
      SameButScalar(RowOf(line), RowOf(NewLine(line, found, rendered)),
                    found.entry.(value := rendered + found.parts.trailing),
                    Parts(replacement, found.parts.quote, found.parts.trailing))
  {
    EntryValue(line);
    NewValue(found.entry, found.parts, replacement);
    RowReplaced(line, Render(replacement, found.parts.quote).value + found.parts.trailing);
  }

  lemma EntryValue(line: string)
    requires RowOf(line).keyed.Some? && RowOf(line).keyed.value.value.Scalar?
    ensures var k := RowOf(line).keyed.value; '\n' !in k.entry.value && k.value == Scalar(ScalarParts(k.entry.value))
  {}

  /** `lines'` is `lines` with only line `index` rewritten. */
  predicate OnlyLineChanged(lines: seq<string>, lines': seq<string>, index: nat) {
    |lines'| == |lines| && index < |lines| && lines' == lines[index := lines'[index]]
  }

  lemma RowsReplaced(lines: seq<string>, index: nat, line: string)
    requires index < |lines|
    ensures RowsOf(lines[index := line]) == RowsOf(lines)[index := RowOf(line)]
  {}

  /** Writing replaces the scalar of the row that was found. */
  lemma WriteReplaces(lines: seq<string>, keys: seq<string>, replacement: string)
    requires Written(lines, keys, replacement).Ok?
    ensures var f := Lookup(RowsOf(lines), keys).value;
      var parts := Parts(replacement, f.parts.quote, f.parts.trailing);
      && OnlyLineChanged(lines, Written(lines, keys, replacement).value, f.index)
      && exists e :: Replaced(RowsOf(lines), keys, f, RowsOf(Written(lines, keys, replacement).value), e, parts)
  {
    var rows, found := RowsOf(lines), Lookup(RowsOf(lines), keys).value;
    LookupIsRow(rows, keys);
    FoundOnce(rows, keys, |rows|);
    var rendered := Render(replacement, found.parts.quote).value;
    var line := NewLine(lines[found.index], found, rendered);
    NewRow(lines[found.index], found, replacement);
    RowsReplaced(lines, found.index, line);
    assert Replaced(rows, keys, found, RowsOf(lines[found.index := line]),
                    found.entry.(value := rendered + found.parts.trailing),
                    Parts(replacement, found.parts.quote, found.parts.trailing));
  }

  lemma ReplacedReads(rows: seq<Row>, keys: seq<string>, found: Found, rows': seq<Row>, e: Entry, parts: Parts)
    requires Replaced(rows, keys, found, rows', e, parts)
    ensures Lookup(rows', keys) == Ok(Found(found.index, e, parts))
    ensures forall path :: path != keys ==> Lookup(rows', path) == Lookup(rows, path)
  {
    WrittenPathReads(rows, keys, found, rows', e, parts, |rows|);
    forall path | path != keys ensures Lookup(rows', path) == Lookup(rows, path) {
      OtherPathReads(rows, keys, found, rows', e, parts, path, |rows|);
    }
  }

  /**
   Write then read: the written path reads as the replacement, every other path reads as
   before, errors included, and only one line changes.
   */
  lemma WriteThenRead(lines: seq<string>, keys: seq<string>, replacement: string)
    requires Written(lines, keys, replacement).Ok?
    ensures var lines' := Written(lines, keys, replacement).value;
      && Read(lines', keys) == Ok(replacement)
      && (forall path :: path != keys ==> Read(lines', path) == Read(lines, path))
      && exists index :: OnlyLineChanged(lines, lines', index)
  {
    var lines' := Written(lines, keys, replacement).value;
    var found := Lookup(RowsOf(lines), keys).value;
    WriteReplaces(lines, keys, replacement);
    var parts := Parts(replacement, found.parts.quote, found.parts.trailing);
    var e :| Replaced(RowsOf(lines), keys, found, RowsOf(lines'), e, parts);
    ReplacedReads(RowsOf(lines), keys, found, RowsOf(lines'), e, parts);
  }

  // ---- The editor ---------------------------------------------------------------------------------------------

  method PopFrames(stack: seq<Frame>, indent: nat) returns (r: seq<Frame>)
    ensures r == Pop(stack, indent)
  {
    r := stack;
    while r != [] && indent <= r[|r| - 1].indent
      invariant Pop(r, indent) == Pop(stack, indent)
    {
      r := r[..|r| - 1];
    }
  }

  method VisitEntry(st: State, index: nat, e: Entry, keys: seq<string>) returns (r: Result<State, Error>)
    ensures r == Turn(st, index, Keyed(e, Strip(e.key), ValueOf(e.value)), keys)
  {
    var indent := |e.indent|;
    var stack := PopFrames(st.stack, indent);
    var key := Strip(e.key);
    if Keys(stack) + [key] == keys {
      if IsBlockMarker(Strip(e.value)) { return Err(NotOnOneLine); }
      var parts := YamlScalarParts(e.value);
      if parts.Err? { return Err(parts.error); }
      if st.found.Some? { return Err(Duplicated); }
      return Ok(State(stack, None, Some(Found(index, e, parts.value))));
    }
    if IsBlockMarker(Strip(e.value)) { return Ok(State(stack, Some(indent), st.found)); }
    if Strip(e.value) == [] { return Ok(State(stack + [Frame(indent, key)], None, st.found)); }
    return Ok(State(stack, None, st.found));
  }

  method VisitLine(st: State, index: nat, line: string, keys: seq<string>) returns (r: Result<State, Error>)
    ensures r == Visit(st, index, RowOf(line), keys)
  {
    var content := Content(line);
    if st.block.Some? && (Strip(content) == [] || Indentation(content) > st.block.value) { return Ok(st); }
    if IsComment(content) { return Ok(st.(block := None)); }
    var entry := MatchLine(content);
    if entry.None? { return Ok(st.(block := None)); }
    r := VisitEntry(st, index, entry.value, keys);
  }

  /** Each row is what the scan sees of its line. */
  ghost predicate AreRows(lines: seq<string>, rows: seq<Row>) {
    |rows| == |lines| && forall k :: 0 <= k < |lines| ==> IsRowOf(lines[k], rows[k])
  }

  ghost predicate IsRowOf(line: string, row: Row) { row == RowOf(line) }

  method VisitRow(st: State, index: nat, line: string, ghost row: Row, keys: seq<string>)
    returns (r: Result<State, Error>)
    requires IsRowOf(line, row)
    ensures r == Visit(st, index, row, keys)
  {
    r := VisitLine(st, index, line, keys);
  }

  method ScanLines(lines: array<string>, ghost rows: seq<Row>, keys: seq<string>) returns (r: Result<State, Error>)
    requires AreRows(lines[..], rows)
    ensures r == Scan(rows, keys, |rows|)
  {
    hide IsRowOf, Visit;
    var st := START;
    for index := 0 to lines.Length
      invariant Scan(rows, keys, index) == Ok(st)
    {
      assert IsRowOf(lines[..][index], rows[index]);
      r := VisitRow(st, index, lines[index], rows[index], keys);
      if r.Err? {
        ErrorStays(rows, keys, index + 1, lines.Length);
        return;
      }
      st := r.value;
    }
    return Ok(st);
  }

  /**
   Finds the value at `keys` and, when given a replacement, writes it over that value in
   place. On any error the lines are left alone.
   */
  method FindYamlValue(lines: array<string>, keys: seq<string>, replacement: Option<string>)
    returns (r: Result<string, Error>)
    modifies lines
    ensures replacement.None? ==> r == Read(old(lines[..]), keys) && lines[..] == old(lines[..])
    ensures replacement.Some? ==>
      match Written(old(lines[..]), keys, replacement.value)
      case Ok(after) => r == Read(old(lines[..]), keys) && lines[..] == after
      case Err(e) => r == Err(e) && lines[..] == old(lines[..])
  {
    var end := ScanLines(lines, RowsOf(lines[..]), keys);
    if end.Err? { return Err(end.error); }
    if end.value.found.None? { return Err(NotFound); }
    var found := end.value.found.value;
    LookupIsRow(RowsOf(lines[..]), keys);
    if replacement.Some? {
      var rendered := Render(replacement.value, found.parts.quote);
      if rendered.Err? { return Err(rendered.error); }
      lines[found.index] := NewLine(lines[found.index], found, rendered.value);
    }
    return Ok(found.parts.value);
  }

  lemma {:induction false} ErrorStays(rows: seq<Row>, keys: seq<string>, j: nat, k: nat)
    requires j <= k <= |rows| && Scan(rows, keys, j).Err?
    ensures Scan(rows, keys, k) == Scan(rows, keys, j)
    decreases k
  {
    if j < k { ErrorStays(rows, keys, j, k - 1); }
  }
}
