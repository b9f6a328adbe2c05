/**
 Which value a dotted path names in the lines that
 examples/upgrade-automation/scripts/bump-target.py reads, by indentation alone: a key is
 enclosed by the keys above it that open a level and are indented less, and were not left.
 */
module YamlPaths {
  import opened Options
  import opened YamlScalar
  import opened YamlEditor

  // ---- Rows that are seen -----------------------------------------------------------------------

  function Indent(row: Row): nat { if row.keyed.Some? then |row.keyed.value.entry.indent| else 0 }

  /** Blank, or indented further than `indent`. */
  predicate IsDeeper(row: Row, indent: nat) { row.blank || row.indentation > indent }

  /** Row `k` is text of the block scalar at `b`: it and all rows since are blank or indented further than the key of the block. */
  ghost predicate IsTextOf(rows: seq<Row>, b: nat, k: nat)
    requires k < |rows|
    decreases k, 0
  {
    b < k && OpensBlock(rows, b) && forall j :: b < j <= k ==> IsDeeper(rows[j], Indent(rows[b]))
  }

  ghost predicate IsBlockText(rows: seq<Row>, k: nat)
    requires k < |rows|
    decreases k, 1
  {
    exists b: nat :: IsTextOf(rows, b, k)
  }

  /** A line `key: value` outside block scalars. */
  ghost predicate IsKeyRow(rows: seq<Row>, k: nat)
    requires k < |rows|
    decreases k, 2
  {
    rows[k].keyed.Some? && !IsBlockText(rows, k)
  }

  ghost predicate OpensBlock(rows: seq<Row>, k: nat)
    requires k < |rows|
    decreases k, 3
  {
    IsKeyRow(rows, k) && rows[k].keyed.value.value.BlockScalar?
  }

  /** A key without a value. */
  ghost predicate OpensLevel(rows: seq<Row>, k: nat)
    requires k < |rows|
  {
    IsKeyRow(rows, k) && rows[k].keyed.value.value.Nothing?
  }

  /** Row `j` opened a level, and no key since is indented as little as its own. */
  ghost predicate IsOpen(rows: seq<Row>, j: nat, k: nat)
    requires k <= |rows|
  {
    j < k && OpensLevel(rows, j) && forall m :: j < m < k && IsKeyRow(rows, m) ==> Indent(rows[j]) < Indent(rows[m])
  }

  /** The keys that enclose the key of row `k`: those open above it that are indented less. */
  ghost predicate Encloses(rows: seq<Row>, j: nat, k: nat)
    requires k < |rows|
  {
    IsOpen(rows, j, k) && Indent(rows[j]) < Indent(rows[k])
  }

  function KeysOf(rows: seq<Row>, js: seq<nat>): seq<string> {
    seq(|js|, i requires 0 <= i < |js| =>
      if js[i] < |rows| && rows[js[i]].keyed.Some? then rows[js[i]].keyed.value.key else "")
  }

  /** The path of the key of row `k`: the enclosing keys from the outside in, and then its own. */
  ghost predicate IsAt(rows: seq<Row>, k: nat, path: seq<string>) {
    k < |rows| && IsKeyRow(rows, k) && exists js :: Enclosed(rows, k, js) && path == KeysOf(rows, js) + [rows[k].keyed.value.key]
  }

  ghost predicate Enclosed(rows: seq<Row>, k: nat, js: seq<nat>)
    requires k < |rows|
  {
    (forall a, b :: 0 <= a < b < |js| ==> js[a] < js[b]) && forall j :: j in js <==> Encloses(rows, j, k)
  }

  // ---- The scan stands where the rows say ---------------------------------------------------------

  /** The open rows, from the outside in, are what is on the stack. */
  ghost predicate StackIs(rows: seq<Row>, k: nat, stack: seq<Frame>, js: seq<nat>)
    requires k <= |rows|
  {
    && |js| == |stack|
    && (forall a, b :: 0 <= a < b < |js| ==> js[a] < js[b] && stack[a].indent < stack[b].indent)
    && (forall j :: j in js <==> IsOpen(rows, j, k))
    && forall i :: 0 <= i < |js| ==> js[i] < k && stack[i] == FrameOf(rows[js[i]])
  }

  function FrameOf(row: Row): Frame { Frame(Indent(row), if row.keyed.Some? then row.keyed.value.key else "") }

  /** A block scalar is open before row `k`. */
  ghost predicate BlockOpen(rows: seq<Row>, k: nat, b: nat)
    requires k <= |rows|
  {
    b < k && OpensBlock(rows, b) && forall j :: b < j < k ==> IsDeeper(rows[j], Indent(rows[b]))
  }

  ghost predicate BlockIs(rows: seq<Row>, k: nat, block: Option<nat>)
    requires k <= |rows|
  {
    && (block.Some? ==> exists b: nat :: BlockOpen(rows, k, b) && block == Some(Indent(rows[b])))
    && (block.None? ==> forall b: nat :: !BlockOpen(rows, k, b))
  }

  /** A row that an open block scalar does not end is its text. */
  lemma TextOfOpen(rows: seq<Row>, k: nat, b: nat)
    requires k < |rows|
    ensures IsTextOf(rows, b, k) <==> BlockOpen(rows, k, b) && IsDeeper(rows[k], Indent(rows[b]))
  {}

  lemma BlockIsNoText(rows: seq<Row>, a: nat, b: nat)
    requires b < |rows| && OpensBlock(rows, b)
    ensures !IsTextOf(rows, a, b)
  {
    assert IsKeyRow(rows, b) && !IsBlockText(rows, b);
  }

  /** One block is open at a time: the key of another would be text of the first. */
  lemma OneBlock(rows: seq<Row>, k: nat, a: nat, b: nat)
    requires k <= |rows| && BlockOpen(rows, k, a) && BlockOpen(rows, k, b)
    ensures a == b
  {
    if a < b {
      BlockIsNoText(rows, a, b);
    } else if b < a {
      BlockIsNoText(rows, b, a);
    }
  }

  lemma TextHasBlock(rows: seq<Row>, k: nat) returns (b: nat)
    requires k < |rows| && IsBlockText(rows, k)
    ensures IsTextOf(rows, b, k)
  {
    b :| IsTextOf(rows, b, k);
  }

  lemma SwallowedExactly(rows: seq<Row>, k: nat, st: State)
    requires k < |rows| && BlockIs(rows, k, st.block)
    ensures InBlock(st, rows[k]) <==> IsBlockText(rows, k)
  {
    if st.block.Some? {
      var b: nat :| BlockOpen(rows, k, b) && st.block == Some(Indent(rows[b]));
      TextOfOpen(rows, k, b);
      if IsBlockText(rows, k) {
        var a := TextHasBlock(rows, k);
        TextOfOpen(rows, k, a);
        OneBlock(rows, k, a, b);
      }
    } else if IsBlockText(rows, k) {
      var a := TextHasBlock(rows, k);
      TextOfOpen(rows, k, a);
    }
  }

  lemma OpenLonger(rows: seq<Row>, k: nat, b: nat)
    requires k < |rows|
    ensures BlockOpen(rows, k + 1, b) <==>
      if b == k then OpensBlock(rows, k) else BlockOpen(rows, k, b) && IsDeeper(rows[k], Indent(rows[b]))
  {}

  /** What a row leaves open. */
  lemma BlockStep(rows: seq<Row>, k: nat, before: Option<nat>, after: Option<nat>)
    requires k < |rows| && BlockIs(rows, k, before)
    requires after ==
      if IsBlockText(rows, k) then before
      else if OpensBlock(rows, k) then Some(Indent(rows[k])) else None
    ensures BlockIs(rows, k + 1, after)
  {
    if IsBlockText(rows, k) {
      var a := TextHasBlock(rows, k);
      TextOfOpen(rows, k, a);
      OpenLonger(rows, k, a);
      if before.Some? {
        var b: nat :| BlockOpen(rows, k, b) && before == Some(Indent(rows[b]));
        OneBlock(rows, k, a, b);
      }
    } else if OpensBlock(rows, k) {
      OpenLonger(rows, k, k);
    } else {
      var next := k + 1;
      forall b: nat ensures !BlockOpen(rows, next, b) {
        OpenLonger(rows, k, b);
        TextOfOpen(rows, k, b);
      }
    }
  }

  // ---- The stack -----------------------------------------------------------------------------------

  /** A key row closes what is open and not indented less than itself. */
  lemma OpenAfter(rows: seq<Row>, k: nat, j: nat)
    requires k < |rows|
    ensures IsOpen(rows, j, k + 1) <==>
      if j == k then OpensLevel(rows, k) else IsOpen(rows, j, k) && (IsKeyRow(rows, k) ==> Indent(rows[j]) < Indent(rows[k]))
  {}

  /** Popping leaves the frames that are indented less, which are the first ones. */
  lemma {:induction false} PopKeeps(stack: seq<Frame>, indent: nat)
    requires forall a, b :: 0 <= a < b < |stack| ==> stack[a].indent < stack[b].indent
    ensures Pop(stack, indent) <= stack
    ensures forall i :: 0 <= i < |stack| ==> (i < |Pop(stack, indent)| <==> stack[i].indent < indent)
  {
    if stack != [] && indent <= stack[|stack| - 1].indent { PopKeeps(stack[..|stack| - 1], indent); }
  }

  /** The rows of the frames that popping leaves are those that enclose the key. */
  lemma PoppedEncloses(rows: seq<Row>, k: nat, stack: seq<Frame>, js: seq<nat>)
    requires k < |rows| && StackIs(rows, k, stack, js)
    ensures var n := |Pop(stack, Indent(rows[k]))|;
      n <= |js| && Enclosed(rows, k, js[..n]) && Pop(stack, Indent(rows[k])) == stack[..n]
  {
    hide IsOpen;
    PopKeeps(stack, Indent(rows[k]));
    var n := |Pop(stack, Indent(rows[k]))|;
    forall j: nat ensures j in js[..n] <==> Encloses(rows, j, k) {
      if j in js {
        var i :| 0 <= i < |js| && js[i] == j;
        assert stack[i] == FrameOf(rows[j]);
        assert j in js[..n] <==> i < n;
      }
    }
  }

  lemma PathExactly(rows: seq<Row>, k: nat, stack: seq<Frame>, js: seq<nat>, path: seq<string>)
    requires k < |rows| && IsKeyRow(rows, k) && StackIs(rows, k, stack, js)
    ensures IsAt(rows, k, path) <==> path == PathOf(stack, rows[k].keyed.value)
  {
    hide IsOpen, Pop, Enclosed;
    PoppedEncloses(rows, k, stack, js);
    var n := |Pop(stack, Indent(rows[k]))|;
    assert Enclosed(rows, k, js[..n]) && KeysOf(rows, js[..n]) == Keys(stack[..n]);
    forall list | Enclosed(rows, k, list) ensures list == js[..n] { SameRows(rows, k, list, js[..n]); }
  }

  lemma SameRows(rows: seq<Row>, k: nat, a: seq<nat>, b: seq<nat>)
    requires k < |rows| && Enclosed(rows, k, a) && Enclosed(rows, k, b)
    ensures a == b
  {
    SameMembers(a, b);
  }

  lemma FirstIsMember(a: seq<nat>)
    ensures a == [] || a[0] in a
  {}

  /** Ascending lists with the same members are the same. */
  lemma {:induction false} SameMembers(a: seq<nat>, b: seq<nat>)
    requires (forall i, j :: 0 <= i < j < |a| ==> a[i] < a[j]) && (forall i, j :: 0 <= i < j < |b| ==> b[i] < b[j])
    requires forall x :: x in a <==> x in b
    ensures a == b
  {
    if a == [] {
      FirstIsMember(b);
    } else if b == [] {
      FirstIsMember(a);
    } else {
      assert a[0] in b && b[0] in a;
      assert a[0] == b[0];
      forall x ensures x in a[1..] <==> x in b[1..] {
        assert x in a[1..] <==> x in a && x != a[0];
        assert x in b[1..] <==> x in b && x != b[0];
      }
      SameMembers(a[1..], b[1..]);
      assert a == [a[0]] + a[1..] && b == [b[0]] + b[1..];
    }
  }

  // ---- The scan follows the rows -----------------------------------------------------------------------

  lemma StackUnchanged(rows: seq<Row>, k: nat, stack: seq<Frame>, js: seq<nat>)
    requires k < |rows| && !IsKeyRow(rows, k) && StackIs(rows, k, stack, js)
    ensures StackIs(rows, k + 1, stack, js)
  {
    hide IsOpen, IsKeyRow;
    forall j: nat ensures j in js <==> IsOpen(rows, j, k + 1) { OpenAfter(rows, k, j); }
  }

  /** What passing a key leaves open: the keys that enclose it, and itself when it opens a level. */
  lemma StackAfterKey(rows: seq<Row>, k: nat, stack: seq<Frame>, js: seq<nat>) returns (is': seq<nat>)
    requires k < |rows| && IsKeyRow(rows, k) && StackIs(rows, k, stack, js)
    ensures var kept := Pop(stack, Indent(rows[k]));
      StackIs(rows, k + 1, if rows[k].keyed.value.value.Nothing? then kept + [FrameOf(rows[k])] else kept, is')
  {
    hide IsOpen, Pop;
    PoppedEncloses(rows, k, stack, js);
    var kept := Pop(stack, Indent(rows[k]));
    PopKeeps(stack, Indent(rows[k]));
    var n := |kept|;
    is' := if OpensLevel(rows, k) then js[..n] + [k] else js[..n];
    forall j: nat ensures j in is' <==> IsOpen(rows, j, k + 1) { OpenAfter(rows, k, j); }
  }

  /** While the scan does not fail it stands where the rows say, whatever it looks for. */
  lemma {:induction false} Stands(rows: seq<Row>, keys: seq<string>, k: nat) returns (js: seq<nat>)
    requires k <= |rows| && Scan(rows, keys, k).Ok?
    ensures var st := Scan(rows, keys, k).value; StackIs(rows, k, st.stack, js) && BlockIs(rows, k, st.block)
  {
    hide StackIs, BlockIs, IsBlockText, Pop;
    if k == 0 {
      js := [];
      NothingOpen(rows);
    } else {
      var before := Stands(rows, keys, k - 1);
      var st := Scan(rows, keys, k - 1).value;
      SwallowedExactly(rows, k - 1, st);
      BlockStep(rows, k - 1, st.block, Scan(rows, keys, k).value.block);
      if IsKeyRow(rows, k - 1) {
        js := StackAfterKey(rows, k - 1, st.stack, before);
      } else {
        js := before;
        StackUnchanged(rows, k - 1, st.stack, before);
      }
    }
  }

  lemma NothingOpen(rows: seq<Row>)
    ensures StackIs(rows, 0, [], []) && BlockIs(rows, 0, None)
  {}

  // ---- What is read ---------------------------------------------------------------------------------------

  /** What keeps the value of a key from being read. */
  function Obstacle(row: Row): Option<Error> {
    if row.keyed.None? then None
    else
      match row.keyed.value.value
      case BlockScalar => Some(NotOnOneLine)
      case Nothing => Some(NotOnOneLine)
      case Scalar(parts) => if parts.Err? then Some(parts.error) else None
  }

  /** At most one key before row `k` is at the path, and its value can be read. */
  ghost predicate OneReadable(rows: seq<Row>, k: nat, keys: seq<string>) {
    && (forall i :: 0 <= i < k && IsAt(rows, i, keys) ==> Obstacle(rows[i]).None?)
    && (forall i, j :: 0 <= i < k && 0 <= j < k && IsAt(rows, i, keys) && IsAt(rows, j, keys) ==> i == j)
  }

  /** The first row that keeps the path from being read: one at the path without a readable value, or a second one at the path. */
  ghost predicate FailsAt(rows: seq<Row>, k: nat, keys: seq<string>, e: Error) {
    && IsAt(rows, k, keys) && OneReadable(rows, k, keys)
    && if Obstacle(rows[k]).Some? then e == Obstacle(rows[k]).value
       else e == Duplicated && exists i :: 0 <= i < k && IsAt(rows, i, keys)
  }

  /** What the scan found in the first `k` rows is the one row at the path. */
  ghost predicate FindsAt(rows: seq<Row>, k: nat, keys: seq<string>, found: Option<Found>) {
    && OneReadable(rows, k, keys)
    && (found.None? ==> forall i :: 0 <= i < k ==> !IsAt(rows, i, keys))
    && (found.Some? ==> found.value.index < k && IsAt(rows, found.value.index, keys) && IsRow(rows, found.value))
  }

  /** One more row, seen or not, and at the path or not. */
  lemma VisitExactly(rows: seq<Row>, keys: seq<string>, k: nat)
    requires k < |rows| && Scan(rows, keys, k).Ok?
    ensures var st := Scan(rows, keys, k).value;
      Scan(rows, keys, k + 1) ==
        if IsBlockText(rows, k) then Ok(st)
        else if rows[k].keyed.None? then Ok(st.(block := None))
        else if IsAt(rows, k, keys) then Hit(st, k, rows[k].keyed.value) else Ok(Pass(st, rows[k].keyed.value))
    ensures IsAt(rows, k, keys) ==> IsKeyRow(rows, k)
  {
    hide StackIs, BlockIs, IsBlockText, Hit, Pass, PathOf;
    var st := Scan(rows, keys, k).value;
    var js := Stands(rows, keys, k);
    SwallowedExactly(rows, k, st);
    if IsKeyRow(rows, k) { PathExactly(rows, k, st.stack, js, keys); }
  }

  lemma {:induction false} ScanFinds(rows: seq<Row>, keys: seq<string>, k: nat)
    requires k <= |rows|
    ensures Scan(rows, keys, k).Ok? ==> FindsAt(rows, k, keys, Scan(rows, keys, k).value.found)
    ensures Scan(rows, keys, k).Err? ==> exists j :: 0 <= j < k && FailsAt(rows, j, keys, Scan(rows, keys, k).error)
  {
    hide IsAt, IsBlockText, IsKeyRow, Pop;
    if k > 0 {
      ScanFinds(rows, keys, k - 1);
      if Scan(rows, keys, k - 1).Ok? {
        VisitExactly(rows, keys, k - 1);
        NextFinds(rows, keys, k - 1);
      }
    }
  }

  lemma NextFinds(rows: seq<Row>, keys: seq<string>, k: nat)
    requires k < |rows| && Scan(rows, keys, k).Ok? && FindsAt(rows, k, keys, Scan(rows, keys, k).value.found)
    ensures Scan(rows, keys, k + 1).Ok? ==> FindsAt(rows, k + 1, keys, Scan(rows, keys, k + 1).value.found)
    ensures Scan(rows, keys, k + 1).Err? ==> FailsAt(rows, k, keys, Scan(rows, keys, k + 1).error)
  {
    hide IsAt, IsBlockText, Pop, Scan;
    VisitExactly(rows, keys, k);
  }

  /** A path is not kept from being read by two rows. */
  lemma FailureIsUnique(rows: seq<Row>, keys: seq<string>, j: nat, e: Error, k: nat, f: Error)
    requires FailsAt(rows, j, keys, e) && FailsAt(rows, k, keys, f)
    ensures e == f
  {
    hide IsAt;
  }

  lemma NoFailure(rows: seq<Row>, keys: seq<string>, found: Option<Found>, k: nat, e: Error)
    requires FindsAt(rows, |rows|, keys, found)
    ensures !FailsAt(rows, k, keys, e)
  {
    hide IsAt;
    if IsAt(rows, k, keys) { AtIsRow(rows, k, keys); }
  }

  /** Row `k` is the one row at the path, and holds the value. */
  ghost predicate IsTheOne(rows: seq<Row>, k: nat, keys: seq<string>, value: string) {
    IsAt(rows, k, keys) && Holds(rows, k, value) && forall j :: IsAt(rows, j, keys) ==> j == k
  }

  lemma FoundIsTheOne(rows: seq<Row>, keys: seq<string>, found: Found, k: nat, value: string)
    requires FindsAt(rows, |rows|, keys, Some(found))
    ensures IsTheOne(rows, k, keys, value) <==> k == found.index && value == found.parts.value
  {
    hide IsAt;
    forall j: nat | IsAt(rows, j, keys) ensures j < |rows| { AtIsRow(rows, j, keys); }
  }

  lemma FailureLeavesNone(rows: seq<Row>, keys: seq<string>, j: nat, e: Error, k: nat, value: string)
    requires FailsAt(rows, j, keys, e)
    ensures !IsTheOne(rows, k, keys, value)
  {
    hide IsAt;
    if IsAt(rows, k, keys) { AtIsRow(rows, k, keys); }
  }

  /** The path is read off the one row that is at it: the value of its scalar. */
  lemma ReadExactly(lines: seq<string>, keys: seq<string>, value: string)
    ensures Read(lines, keys) == Ok(value) <==> exists k :: IsTheOne(RowsOf(lines), k, keys, value)
  {
    hide IsAt, Scan, IsTheOne, FindsAt, FailsAt;
    var rows := RowsOf(lines);
    var end := Scan(rows, keys, |rows|);
    ScanFinds(rows, keys, |rows|);
    if end.Err? {
      var j :| 0 <= j < |rows| && FailsAt(rows, j, keys, end.error);
      forall k: nat ensures !IsTheOne(rows, k, keys, value) { FailureLeavesNone(rows, keys, j, end.error, k, value); }
    } else if end.value.found.Some? {
      var found := end.value.found.value;
      forall k: nat ensures IsTheOne(rows, k, keys, value) <==> k == found.index && value == found.parts.value {
        FoundIsTheOne(rows, keys, found, k, value);
      }
      assert IsTheOne(rows, found.index, keys, value) <==> value == found.parts.value;
    } else {
      forall k: nat ensures !IsTheOne(rows, k, keys, value) { NoneIsTheOne(rows, keys, k, value); }
    }
  }

  lemma NoneIsTheOne(rows: seq<Row>, keys: seq<string>, k: nat, value: string)
    requires FindsAt(rows, |rows|, keys, None)
    ensures !IsTheOne(rows, k, keys, value)
  {
    hide IsAt;
    if IsAt(rows, k, keys) { AtIsRow(rows, k, keys); }
  }

  /** The value of the key of row `k`. */
  ghost predicate Holds(rows: seq<Row>, k: nat, value: string) {
    && k < |rows| && rows[k].keyed.Some? && rows[k].keyed.value.value.Scalar?
    && rows[k].keyed.value.value.parts.Ok? && rows[k].keyed.value.value.parts.value.value == value
  }

  lemma AtIsRow(rows: seq<Row>, k: nat, keys: seq<string>)
    requires IsAt(rows, k, keys)
    ensures k < |rows| && rows[k].keyed.Some?
  {}

  /** Reading fails when no row is at the path, or where the first row stands that keeps it from being read. */
  lemma ReadFailsExactly(lines: seq<string>, keys: seq<string>, e: Error)
    ensures Read(lines, keys) == Err(e) <==>
      var rows := RowsOf(lines);
      (e == NotFound && forall k :: !IsAt(rows, k, keys)) || exists k :: FailsAt(rows, k, keys, e)
  {
    hide IsAt, Scan, FailsAt, FindsAt;
    var rows := RowsOf(lines);
    ScanFinds(rows, keys, |rows|);
    var end := Scan(rows, keys, |rows|);
    forall k: nat, f | FailsAt(rows, k, keys, f) ensures k < |rows| && IsAt(rows, k, keys) { FailureIsRow(rows, k, keys, f); }
    forall k: nat | IsAt(rows, k, keys) ensures k < |rows| { AtIsRow(rows, k, keys); }
    if end.Err? {
      var j :| 0 <= j < |rows| && FailsAt(rows, j, keys, end.error);
      forall k: nat, f | FailsAt(rows, k, keys, f) ensures f == end.error { FailureIsUnique(rows, keys, j, end.error, k, f); }
    } else {
      forall k: nat, f ensures !FailsAt(rows, k, keys, f) { NoFailure(rows, keys, end.value.found, k, f); }
      FoundOrNone(rows, keys, end.value.found);
    }
  }

  lemma FailureIsRow(rows: seq<Row>, k: nat, keys: seq<string>, e: Error)
    requires FailsAt(rows, k, keys, e)
    ensures k < |rows| && IsAt(rows, k, keys)
  {}

  lemma FoundOrNone(rows: seq<Row>, keys: seq<string>, found: Option<Found>)
    requires FindsAt(rows, |rows|, keys, found)
    ensures found.None? <==> forall k: nat :: k < |rows| ==> !IsAt(rows, k, keys)
  {
    hide IsAt;
  }
}
