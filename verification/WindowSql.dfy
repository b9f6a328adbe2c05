/**
 Window-function templates as SQL text, from
 packages/backend/src/tableCalculationTemplateQueryCompiler.ts, with the identifier guard
 of packages/backend/src/queryCompiler.ts. The text is judged by a reader of delimited
 identifiers (section 5.2 of ISO/IEC 9075-2): what was printed is what is read.
 */
module WindowSql {
  import opened Options
  import Decimal
  import JsText

  datatype WindowFunction = RowNumber | PercentRank | CumeDist | Rank | Sum | Avg | Count | Min | Max

  datatype Direction = Asc | Desc

  datatype OrderKey = OrderKey(fieldId: string, order: Option<Direction>)

  datatype Boundary =
    | UnboundedPreceding | Preceding(offset: Option<int>) | CurrentRow
    | Following(offset: Option<int>) | UnboundedFollowing

  datatype FrameType = Rows | Range

  datatype Frame = Frame(frameType: FrameType, start: Option<Boundary>, end: Boundary)

  datatype Template = Template(
    windowFunction: WindowFunction, fieldId: Option<string>, orderBy: seq<OrderKey>,
    partitionBy: seq<string>, frame: Option<Frame>)

  datatype Error = MissingField | MissingOffset | UnsafeIdentifier | UnknownReference

  // ---- The guard ----------------------------------------------------------------------------------

  /** No dialect's quote character and no backslash. */
  predicate IsSafeIdentifier(s: string) { '"' !in s && '`' !in s && '\\' !in s }

  function References(t: Template): seq<string> {
    (if t.fieldId.Some? then [t.fieldId.value] else [])
    + seq(|t.orderBy|, k requires 0 <= k < |t.orderBy| => t.orderBy[k].fieldId)
    + t.partitionBy
  }

  function CheckReference(reference: string, known: set<string>): Option<Error> {
    if !IsSafeIdentifier(reference) then Some(UnsafeIdentifier)
    else if reference !in known then Some(UnknownReference)
    else None
  }

  /** No quote character of any dialect and no backslash stands in it. */
  predicate IsQuotable(s: string) { forall c :: c in s ==> c !in {'"', '`', '\\'} }

  /** The first reference that cannot be quoted or is not known, and which of the two it is. */
  predicate IsFirstFailure(references: seq<string>, known: set<string>, k: nat, error: Option<Error>)
    requires k < |references|
  {
    && (forall j :: 0 <= j < k ==> IsQuotable(references[j]) && references[j] in known)
    && if !IsQuotable(references[k]) then error == Some(UnsafeIdentifier)
       else references[k] !in known && error == Some(UnknownReference)
  }

  /** Every reference is a safe identifier. */
  predicate AreSafe(t: Template) {
    forall k :: 0 <= k < |References(t)| ==> IsQuotable(References(t)[k])
  }

  predicate AreKnown(t: Template, known: set<string>) {
    forall k :: 0 <= k < |References(t)| ==> References(t)[k] in known
  }

  /** No error exactly on safe references to known fields; otherwise the error of the first reference that fails. */
  method AssertKnownReferences(t: Template, known: set<string>) returns (r: Option<Error>)
    ensures r.None? <==> AreSafe(t) && AreKnown(t, known)
    ensures r.Some? ==> exists k :: 0 <= k < |References(t)| && IsFirstFailure(References(t), known, k, r)
  {
    var references := References(t);
    for k := 0 to |references|
      invariant forall j :: 0 <= j < k ==> IsQuotable(references[j]) && references[j] in known
    {
      r := CheckReference(references[k], known);
      if r.Some? {
        assert IsFirstFailure(references, known, k, r);
        return;
      }
    }
    return None;
  }

  lemma SafeParts(t: Template)
    requires AreSafe(t)
    ensures t.fieldId.Some? ==> IsQuotable(t.fieldId.value)
    ensures forall k :: 0 <= k < |t.orderBy| ==> IsQuotable(t.orderBy[k].fieldId)
    ensures forall k :: 0 <= k < |t.partitionBy| ==> IsQuotable(t.partitionBy[k])
  {
    var refs := References(t);
    var n := if t.fieldId.Some? then 1 else 0;
    if t.fieldId.Some? { assert refs[0] == t.fieldId.value; }
    forall k | 0 <= k < |t.orderBy| ensures IsQuotable(t.orderBy[k].fieldId) {
      assert refs[n + k] == t.orderBy[k].fieldId;
    }
    forall k | 0 <= k < |t.partitionBy| ensures IsQuotable(t.partitionBy[k]) {
      assert refs[n + |t.orderBy| + k] == t.partitionBy[k];
    }
  }

  // ---- Printing -----------------------------------------------------------------------------------

  predicate NeedsField(f: WindowFunction) { f.Sum? || f.Avg? || f.Count? || f.Min? || f.Max? }

  function FunctionName(f: WindowFunction): string {
    match f
    case RowNumber => "ROW_NUMBER"
    case PercentRank => "PERCENT_RANK"
    case CumeDist => "CUME_DIST"
    case Rank => "RANK"
    case Sum => "SUM"
    case Avg => "AVG"
    case Count => "COUNT"
    case Min => "MIN"
    case Max => "MAX"
  }

  function Quoted(s: string, q: char): string { [q] + s + [q] }

  function Join(parts: seq<string>, separator: string): string {
    if parts == [] then []
    else if |parts| == 1 then parts[0]
    else parts[0] + (separator + Join(parts[1..], separator))
  }

  /** Custom bin dimensions are ordered by their order column. */
  function OrderColumn(fieldId: string, bins: set<string>): string {
    if fieldId in bins then fieldId + "_order" else fieldId
  }

  /** Descending only when asked for. */
  function DirectionOf(k: OrderKey): Direction { if k.order == Some(Desc) then Desc else Asc }

  function DirectionName(d: Direction): string { if d == Desc then "DESC" else "ASC" }

  datatype Ordered = Ordered(column: string, direction: Direction)

  function OrderedBy(t: Template, bins: set<string>): seq<Ordered> {
    seq(|t.orderBy|, k requires 0 <= k < |t.orderBy| =>
      Ordered(OrderColumn(t.orderBy[k].fieldId, bins), DirectionOf(t.orderBy[k])))
  }

  function PrintOrdered(o: Ordered, q: char): string { Quoted(o.column, q) + (" " + DirectionName(o.direction)) }

  function QuotedAll(names: seq<string>, q: char): seq<string> {
    seq(|names|, k requires 0 <= k < |names| => Quoted(names[k], q))
  }

  function OrderedAll(order: seq<Ordered>, q: char): seq<string> {
    seq(|order|, k requires 0 <= k < |order| => PrintOrdered(order[k], q))
  }

  function ShowInt(n: int): string { if n < 0 then "-" + Decimal.Show(-n) else Decimal.Show(n) }

  /** An offset is written in decimal digits, without zeros in front, and with a sign exactly when it is negative. */
  lemma OffsetSpelled(n: int)
    ensures var s := ShowInt(n);
      && s != [] && (s[0] == '-' <==> n < 0)
      && var digits := if n < 0 then s[1..] else s;
        digits != [] && (forall k :: 0 <= k < |digits| ==> '0' <= digits[k] <= '9') && (digits[0] == '0' ==> digits == "0")
  {
    Decimal.NoLeadingZero(if n < 0 then -n else n);
  }

  function PrintBoundary(b: Boundary): Result<string, Error> {
    match b
    case UnboundedPreceding => Ok("UNBOUNDED PRECEDING")
    case UnboundedFollowing => Ok("UNBOUNDED FOLLOWING")
    case CurrentRow => Ok("CURRENT ROW")
    case Preceding(offset) => if offset.None? then Err(MissingOffset) else Ok(ShowInt(offset.value) + " PRECEDING")
    case Following(offset) => if offset.None? then Err(MissingOffset) else Ok(ShowInt(offset.value) + " FOLLOWING")
  }

  function FrameTypeName(f: FrameType): string { if f == Rows then "ROWS" else "RANGE" }

  function PrintFrame(f: Frame): Result<string, Error> {
    var end := PrintBoundary(f.end);
    if f.start.Some? then
      var start := PrintBoundary(f.start.value);
      if start.Err? then start
      else if end.Err? then end
      else Ok(FrameTypeName(f.frameType) + (" BETWEEN " + (start.value + (" AND " + end.value))))
    else if end.Err? then end
    else Ok(FrameTypeName(f.frameType) + (" " + end.value))
  }

  function PrintCall(t: Template, q: char): Result<string, Error> {
    var name := FunctionName(t.windowFunction);
    if !NeedsField(t.windowFunction) then Ok(name + "()")
    else if t.fieldId.None? || t.fieldId.value == "" then Err(MissingField)
    else Ok(name + ("(" + (Quoted(t.fieldId.value, q) + ")")))
  }

  function PartitionPart(names: seq<string>, q: char): seq<string> {
    if names == [] then [] else ["PARTITION BY " + Join(QuotedAll(names, q), ", ")]
  }

  function OrderPart(order: seq<Ordered>, q: char): seq<string> {
    if order == [] then [] else ["ORDER BY " + Join(OrderedAll(order, q), ", ")]
  }

  /** The SQL of a window-function template. */
  function Compile(t: Template, q: char, bins: set<string>): Result<string, Error> {
    var call := PrintCall(t, q);
    if call.Err? then call
    else
      var frame := if t.frame.Some? then PrintFrame(t.frame.value) else Ok("");
      if frame.Err? then frame
      else
        var parts := PartitionPart(t.partitionBy, q) + OrderPart(OrderedBy(t, bins), q)
          + (if t.frame.Some? then [frame.value] else []);
        Ok(call.value + (" OVER (" + (Join(parts, " ") + ")")))
  }

  method CompileWindowFunctionTemplate(t: Template, q: char, bins: set<string>) returns (r: Result<string, Error>)
    ensures r == Compile(t, q, bins)
  {
    var functionName := FunctionName(t.windowFunction);
    var functionCall := functionName + "()";
    if NeedsField(t.windowFunction) {
      if t.fieldId.None? || t.fieldId.value == "" { return Err(MissingField); }
      functionCall := functionName + ("(" + (Quoted(t.fieldId.value, q) + ")"));
    }
    var overParts: seq<string> := [];
    if |t.partitionBy| > 0 {
      overParts := overParts + ["PARTITION BY " + Join(QuotedAll(t.partitionBy, q), ", ")];
    }
    if |t.orderBy| > 0 {
      overParts := overParts + ["ORDER BY " + Join(OrderedAll(OrderedBy(t, bins), q), ", ")];
    }
    assert overParts == PartitionPart(t.partitionBy, q) + OrderPart(OrderedBy(t, bins), q);
    if t.frame.Some? {
      var frame := PrintFrame(t.frame.value);
      if frame.Err? { return Err(frame.error); }
      overParts := overParts + [frame.value];
    } else {
      assert overParts + [] == overParts;
    }
    return Ok(functionCall + (" OVER (" + (Join(overParts, " ") + ")")));
  }

  // ---- Reading --------------------------------------------------------------------------------------

  /** A value read off the front of a text, and the text behind it. */
  datatype Parsed<+T> = Parsed(value: T, rest: string)

  predicate Starts(s: string, word: string) { word <= s }

  /** Drops `word` from the front. */
  function Expect(s: string, word: string): Option<string> {
    if Starts(s, word) then Some(s[|word|..]) else None
  }

  /** The characters of a delimited identifier up to its closing quote; a doubled quote is one character. */
  function ReadBody(s: string, q: char): (r: Option<Parsed<string>>)
    ensures r.Some? ==> |r.value.rest| < |s|
  {
    if s == [] then None
    else if s[0] != q then
      var tail := ReadBody(s[1..], q);
      if tail.None? then None else Some(Parsed([s[0]] + tail.value.value, tail.value.rest))
    else if |s| >= 2 && s[1] == q then
      var tail := ReadBody(s[2..], q);
      if tail.None? then None else Some(Parsed([q] + tail.value.value, tail.value.rest))
    else Some(Parsed([], s[1..]))
  }

  function ReadIdentifier(s: string, q: char): (r: Option<Parsed<string>>)
    ensures r.Some? ==> |r.value.rest| < |s|
  {
    if s == [] || s[0] != q then None else ReadBody(s[1..], q)
  }

  /** Identifiers separated by `, `. */
  function ReadNames(s: string, q: char): (r: Option<Parsed<seq<string>>>)
    decreases |s|
  {
    var first := ReadIdentifier(s, q);
    if first.None? then None
    else
      var more := Expect(first.value.rest, ", ");
      if more.None? then Some(Parsed([first.value.value], first.value.rest))
      else
        var tail := ReadNames(more.value, q);
        if tail.None? then None else Some(Parsed([first.value.value] + tail.value.value, tail.value.rest))
  }

  function ReadDirection(s: string): (r: Option<Parsed<Direction>>)
    ensures r.Some? ==> |r.value.rest| < |s|
  {
    if Starts(s, " DESC") then Some(Parsed(Desc, s[5..]))
    else if Starts(s, " ASC") then Some(Parsed(Asc, s[4..]))
    else None
  }

  function ReadOrdered(s: string, q: char): (r: Option<Parsed<Ordered>>)
    ensures r.Some? ==> |r.value.rest| < |s|
  {
    var column := ReadIdentifier(s, q);
    if column.None? then None
    else
      var direction := ReadDirection(column.value.rest);
      if direction.None? then None
      else Some(Parsed(Ordered(column.value.value, direction.value.value), direction.value.rest))
  }

  function ReadOrder(s: string, q: char): (r: Option<Parsed<seq<Ordered>>>)
    decreases |s|
  {
    var first := ReadOrdered(s, q);
    if first.None? then None
    else
      var more := Expect(first.value.rest, ", ");
      if more.None? then Some(Parsed([first.value.value], first.value.rest))
      else
        var tail := ReadOrder(more.value, q);
        if tail.None? then None else Some(Parsed([first.value.value] + tail.value.value, tail.value.rest))
  }

  function DigitsEnd(s: string, i: nat): (r: nat)
    requires i <= |s|
    ensures i <= r <= |s| && forall k :: i <= k < r ==> JsText.IsDigit(s[k])
    ensures r < |s| ==> !JsText.IsDigit(s[r])
    decreases |s| - i
  {
    if i < |s| && JsText.IsDigit(s[i]) then DigitsEnd(s, i + 1) else i
  }

  function ReadNat(s: string): Option<Parsed<int>> {
    var end := DigitsEnd(s, 0);
    if end == 0 then None else Some(Parsed(Decimal.Read(s[..end]), s[end..]))
  }

  function ReadInt(s: string): Option<Parsed<int>> {
    if s != [] && s[0] == '-' then
      var n := ReadNat(s[1..]);
      if n.None? then None else Some(Parsed(-n.value.value, n.value.rest))
    else ReadNat(s)
  }

  function ReadOffset(s: string): Option<Parsed<Boundary>> {
    var n := ReadInt(s);
    if n.None? then None
    else if Starts(n.value.rest, " PRECEDING") then Some(Parsed(Preceding(Some(n.value.value)), n.value.rest[10..]))
    else if Starts(n.value.rest, " FOLLOWING") then Some(Parsed(Following(Some(n.value.value)), n.value.rest[10..]))
    else None
  }

  function ReadBoundary(s: string): Option<Parsed<Boundary>> {
    if Starts(s, "UNBOUNDED PRECEDING") then Some(Parsed(UnboundedPreceding, s[19..]))
    else if Starts(s, "UNBOUNDED FOLLOWING") then Some(Parsed(UnboundedFollowing, s[19..]))
    else if Starts(s, "CURRENT ROW") then Some(Parsed(CurrentRow, s[11..]))
    else ReadOffset(s)
  }

  function ReadExtent(t: FrameType, s: string): Option<Parsed<Frame>> {
    if Starts(s, " BETWEEN ") then
      var start := ReadBoundary(s[9..]);
      if start.None? || !Starts(start.value.rest, " AND ") then None
      else
        var end := ReadBoundary(start.value.rest[5..]);
        if end.None? then None
        else Some(Parsed(Frame(t, Some(start.value.value), end.value.value), end.value.rest))
    else if Starts(s, " ") then
      var end := ReadBoundary(s[1..]);
      if end.None? then None else Some(Parsed(Frame(t, None, end.value.value), end.value.rest))
    else None
  }

  function ReadFrame(s: string): Option<Parsed<Frame>> {
    if Starts(s, "ROWS") then ReadExtent(Rows, s[4..])
    else if Starts(s, "RANGE") then ReadExtent(Range, s[5..])
    else None
  }

  /** A clause may be followed by another one after a blank. */
  function Gap(s: string): string { if Starts(s, " ") then s[1..] else s }

  function ReadPartitionBy(s: string, q: char): Option<Parsed<seq<string>>> {
    if Starts(s, "PARTITION BY ") then ReadNames(s[13..], q) else Some(Parsed([], s))
  }

  function ReadOrderBy(s: string, q: char): Option<Parsed<seq<Ordered>>> {
    if Starts(s, "ORDER BY ") then ReadOrder(s[9..], q) else Some(Parsed([], s))
  }

  function ReadFrameClause(s: string): Option<Parsed<Option<Frame>>> {
    if Starts(s, "R") then
      var f := ReadFrame(s);
      if f.None? then None else Some(Parsed(Some(f.value.value), f.value.rest))
    else Some(Parsed(None, s))
  }

  datatype Window = Window(partition: seq<string>, order: seq<Ordered>, frame: Option<Frame>)

  function ReadWindow(s: string, q: char): Option<Window> {
    var partition := ReadPartitionBy(s, q);
    if partition.None? then None
    else
      var order := ReadOrderBy(Gap(partition.value.rest), q);
      if order.None? then None
      else
        var frame := ReadFrameClause(Gap(order.value.rest));
        if frame.None? || frame.value.rest != ")" then None
        else Some(Window(partition.value.value, order.value.value, frame.value.value))
  }

  /** What starts a call of each function. */
  const FUNCTIONS: seq<(string, WindowFunction)> := [
    ("ROW_NUMBER(", RowNumber), ("PERCENT_RANK(", PercentRank), ("CUME_DIST(", CumeDist), ("RANK(", Rank),
    ("SUM(", Sum), ("AVG(", Avg), ("COUNT(", Count), ("MIN(", Min), ("MAX(", Max)]

  /** The function whose name and opening bracket start the text. */
  function ReadFunction(s: string, candidates: seq<(string, WindowFunction)>): Option<Parsed<WindowFunction>> {
    if candidates == [] then None
    else
      var head := candidates[0].0;
      if Starts(s, head) then Some(Parsed(candidates[0].1, s[|head|..])) else ReadFunction(s, candidates[1..])
  }

  /** An argument in brackets, if there is one. */
  function ReadArgument(s: string, q: char): Option<Parsed<Option<string>>> {
    if Starts(s, ")") then Some(Parsed(None, s[1..]))
    else
      var field := ReadIdentifier(s, q);
      if field.None? || !Starts(field.value.rest, ")") then None
      else Some(Parsed(Some(field.value.value), field.value.rest[1..]))
  }

  datatype Reading = Reading(windowFunction: WindowFunction, field: Option<string>, window: Window)

  /** Reads a whole window-function call back. */
  function Read(s: string, q: char): Option<Reading> {
    var f := ReadFunction(s, FUNCTIONS);
    if f.None? then None
    else
      var argument := ReadArgument(f.value.rest, q);
      if argument.None? || !Starts(argument.value.rest, " OVER (") then None
      else
        var window := ReadWindow(argument.value.rest[7..], q);
        if window.None? then None else Some(Reading(f.value.value, argument.value.value, window.value))
  }

  // ---- Reading what was printed ---------------------------------------------------------------------

  lemma Front(word: string, rest: string)
    ensures Starts(word + rest, word) && (word + rest)[|word|..] == rest
  {}

  /** Text that may stand behind an identifier. */
  predicate Closed(rest: string, q: char) { rest != [] ==> rest[0] != q }

  lemma {:induction false} BodyReads(name: string, q: char, rest: string)
    requires q !in name && Closed(rest, q)
    ensures ReadBody(name + ([q] + rest), q) == Some(Parsed(name, rest))
  {
    var s := name + ([q] + rest);
    if name == [] {
      assert s == [q] + rest;
      assert s[1..] == rest;
    } else {
      BodyReads(name[1..], q, rest);
      assert s[1..] == name[1..] + ([q] + rest);
      assert [name[0]] + name[1..] == name;
    }
  }

  lemma IdentifierReads(name: string, q: char, rest: string)
    requires q !in name && Closed(rest, q)
    ensures ReadIdentifier(Quoted(name, q) + rest, q) == Some(Parsed(name, rest))
  {
    BodyReads(name, q, rest);
    assert (Quoted(name, q) + rest)[1..] == name + ([q] + rest);
  }

  /** Text that ends a list of identifiers in double or single back quotes. */
  predicate EndsList(rest: string, q: char) { Closed(rest, q) && !Starts(rest, ", ") }

  predicate IsQuoteChar(q: char) { q == '"' || q == '`' }

  /** A list of at least two parts is its first part, a separator, and the list of the others. */
  lemma JoinCons(parts: seq<string>, separator: string, rest: string)
    requires |parts| > 1
    ensures Join(parts, separator) + rest == parts[0] + (separator + (Join(parts[1..], separator) + rest))
  {
    var tail := Join(parts[1..], separator);
    assert parts[0] + (separator + tail) + rest == parts[0] + (separator + (tail + rest));
  }

  lemma SeparatorIsNoQuote(more: string, q: char)
    requires IsQuoteChar(q)
    ensures Closed(", " + more, q) && Expect(", " + more, ", ") == Some(more)
  {
    Front(", ", more);
    assert (", " + more)[0] == ',';
  }

  lemma NamesReadCons(name: string, q: char, more: string, names: seq<string>, rest: string)
    requires IsQuoteChar(q) && q !in name && ReadNames(more, q) == Some(Parsed(names, rest))
    ensures ReadNames(Quoted(name, q) + (", " + more), q) == Some(Parsed([name] + names, rest))
  {
    SeparatorIsNoQuote(more, q);
    IdentifierReads(name, q, ", " + more);
  }

  lemma NamesReadOne(name: string, q: char, rest: string)
    requires q !in name && EndsList(rest, q)
    ensures ReadNames(Quoted(name, q) + rest, q) == Some(Parsed([name], rest))
  {
    IdentifierReads(name, q, rest);
  }

  lemma {:induction false} NamesRead(names: seq<string>, q: char, rest: string)
    requires names != [] && IsQuoteChar(q) && EndsList(rest, q)
    requires forall k :: 0 <= k < |names| ==> q !in names[k]
    ensures ReadNames(Join(QuotedAll(names, q), ", ") + rest, q) == Some(Parsed(names, rest))
  {
    var printed := QuotedAll(names, q);
    if |names| == 1 {
      NamesReadOne(names[0], q, rest);
      assert names == [names[0]];
    } else {
      assert printed[1..] == QuotedAll(names[1..], q);
      NamesRead(names[1..], q, rest);
      JoinCons(printed, ", ", rest);
      NamesReadCons(names[0], q, Join(printed[1..], ", ") + rest, names[1..], rest);
      assert [names[0]] + names[1..] == names;
    }
  }

  lemma DirectionReads(d: Direction, rest: string)
    ensures ReadDirection(" " + DirectionName(d) + rest) == Some(Parsed(d, rest))
  {
    if d == Desc {
      Front(" DESC", rest);
      assert " " + "DESC" == " DESC";
    } else {
      Front(" ASC", rest);
      assert " " + "ASC" == " ASC";
      assert (" ASC" + rest)[1] == 'A';
    }
  }

  lemma OrderedReads(o: Ordered, q: char, rest: string)
    requires q !in o.column && IsQuoteChar(q)
    ensures ReadOrdered(PrintOrdered(o, q) + rest, q) == Some(Parsed(o, rest))
  {
    var behind := " " + DirectionName(o.direction) + rest;
    assert PrintOrdered(o, q) + rest == Quoted(o.column, q) + behind;
    IdentifierReads(o.column, q, behind);
    DirectionReads(o.direction, rest);
  }

  lemma OrderReadsCons(o: Ordered, q: char, more: string, order: seq<Ordered>, rest: string)
    requires IsQuoteChar(q) && q !in o.column && ReadOrder(more, q) == Some(Parsed(order, rest))
    ensures ReadOrder(PrintOrdered(o, q) + (", " + more), q) == Some(Parsed([o] + order, rest))
  {
    SeparatorIsNoQuote(more, q);
    OrderedReads(o, q, ", " + more);
  }

  lemma OrderReadsOne(o: Ordered, q: char, rest: string)
    requires IsQuoteChar(q) && q !in o.column && EndsList(rest, q)
    ensures ReadOrder(PrintOrdered(o, q) + rest, q) == Some(Parsed([o], rest))
  {
    OrderedReads(o, q, rest);
  }

  lemma OrderReadsMore(order: seq<Ordered>, q: char, rest: string)
    requires |order| > 1 && IsQuoteChar(q) && q !in order[0].column
    requires ReadOrder(Join(OrderedAll(order[1..], q), ", ") + rest, q) == Some(Parsed(order[1..], rest))
    ensures ReadOrder(Join(OrderedAll(order, q), ", ") + rest, q) == Some(Parsed(order, rest))
  {
    var printed := OrderedAll(order, q);
    assert printed[1..] == OrderedAll(order[1..], q);
    JoinCons(printed, ", ", rest);
    OrderReadsCons(order[0], q, Join(printed[1..], ", ") + rest, order[1..], rest);
    assert [order[0]] + order[1..] == order;
  }

  lemma {:induction false} OrderReads(order: seq<Ordered>, q: char, rest: string)
    requires order != [] && IsQuoteChar(q) && EndsList(rest, q)
    requires forall k :: 0 <= k < |order| ==> q !in order[k].column
    ensures ReadOrder(Join(OrderedAll(order, q), ", ") + rest, q) == Some(Parsed(order, rest))
  {
    if |order| == 1 {
      OrderReadsOne(order[0], q, rest);
      assert order == [order[0]];
    } else {
      OrderReads(order[1..], q, rest);
      OrderReadsMore(order, q, rest);
    }
  }

  lemma {:induction false} DigitsEndAt(s: string, i: nat, end: nat)
    requires i <= end <= |s| && (forall k :: i <= k < end ==> JsText.IsDigit(s[k]))
    requires end < |s| ==> !JsText.IsDigit(s[end])
    ensures DigitsEnd(s, i) == end
    decreases end - i
  {
    if i < end { DigitsEndAt(s, i + 1, end); }
  }

  lemma NatReads(n: nat, rest: string)
    requires rest != [] ==> !JsText.IsDigit(rest[0])
    ensures ReadNat(Decimal.Show(n) + rest) == Some(Parsed(n, rest))
  {
    var digits := Decimal.Show(n);
    DigitsEndAt(digits + rest, 0, |digits|);
    assert (digits + rest)[..|digits|] == digits && (digits + rest)[|digits|..] == rest;
    Decimal.ReadShow(n);
  }

  lemma MinusReads(digits: string, n: int, rest: string)
    requires ReadNat(digits) == Some(Parsed(n, rest))
    ensures ReadInt("-" + digits) == Some(Parsed(-n, rest))
  {
    assert ("-" + digits)[1..] == digits;
  }

  lemma PlainReads(digits: string)
    requires digits != [] && JsText.IsDigit(digits[0])
    ensures ReadInt(digits) == ReadNat(digits)
  {}

  lemma IntReads(n: int, rest: string)
    requires rest != [] ==> !JsText.IsDigit(rest[0])
    ensures ReadInt(ShowInt(n) + rest) == Some(Parsed(n, rest))
  {
    if n < 0 {
      var digits := Decimal.Show(-n);
      NatReads(-n, rest);
      MinusReads(digits + rest, -n, rest);
      assert "-" + digits + rest == "-" + (digits + rest);
    } else {
      var digits := Decimal.Show(n);
      NatReads(n, rest);
      assert (digits + rest)[0] == digits[0];
      PlainReads(digits + rest);
    }
  }

  lemma NumbersAreOffsets(s: string)
    requires s != [] && (s[0] == '-' || JsText.IsDigit(s[0]))
    ensures ReadBoundary(s) == ReadOffset(s)
  {
    assert "UNBOUNDED PRECEDING"[0] == 'U' && "UNBOUNDED FOLLOWING"[0] == 'U' && "CURRENT ROW"[0] == 'C';
  }

  lemma PrecedingReads(s: string, n: int, rest: string)
    requires ReadInt(s) == Some(Parsed(n, " PRECEDING" + rest))
    ensures ReadOffset(s) == Some(Parsed(Preceding(Some(n)), rest))
  {
    Front(" PRECEDING", rest);
  }

  lemma FollowingReads(s: string, n: int, rest: string)
    requires ReadInt(s) == Some(Parsed(n, " FOLLOWING" + rest))
    ensures ReadOffset(s) == Some(Parsed(Following(Some(n)), rest))
  {
    Front(" FOLLOWING", rest);
    assert (" FOLLOWING" + rest)[1] == 'F' && " PRECEDING"[1] == 'P';
  }

  lemma NumberStart(n: int)
    ensures ShowInt(n) != [] && (ShowInt(n)[0] == '-' || JsText.IsDigit(ShowInt(n)[0]))
  {}

  lemma OffsetReads(n: int, rest: string)
    ensures ReadBoundary(ShowInt(n) + " PRECEDING" + rest) == Some(Parsed(Preceding(Some(n)), rest))
    ensures ReadBoundary(ShowInt(n) + " FOLLOWING" + rest) == Some(Parsed(Following(Some(n)), rest))
  {
    NumberStart(n);
    var digits := ShowInt(n);
    UnitReads(digits, n, " PRECEDING", rest);
    PrecedingReads(digits + " PRECEDING" + rest, n, rest);
    UnitReads(digits, n, " FOLLOWING", rest);
    FollowingReads(digits + " FOLLOWING" + rest, n, rest);
  }

  lemma UnitReads(digits: string, n: int, word: string, rest: string)
    requires digits == ShowInt(n) && word != [] && word[0] == ' '
    requires digits != [] && (digits[0] == '-' || JsText.IsDigit(digits[0]))
    ensures ReadInt(digits + word + rest) == Some(Parsed(n, word + rest))
    ensures ReadBoundary(digits + word + rest) == ReadOffset(digits + word + rest)
  {
    assert digits + word + rest == digits + (word + rest);
    IntReads(n, word + rest);
    NumbersAreOffsets(digits + word + rest);
  }

  lemma BoundaryReads(b: Boundary, rest: string)
    requires PrintBoundary(b).Ok?
    ensures ReadBoundary(PrintBoundary(b).value + rest) == Some(Parsed(b, rest))
  {
    var s := PrintBoundary(b).value;
    Front(s, rest);
    match b
    case UnboundedPreceding =>
    case UnboundedFollowing => assert (s + rest)[10] == 'F';
    case CurrentRow => assert (s + rest)[0] == 'C';
    case Preceding(offset) => OffsetReads(offset.value, rest);
    case Following(offset) => OffsetReads(offset.value, rest);
  }

  lemma BoundaryStart(b: Boundary)
    requires PrintBoundary(b).Ok?
    ensures PrintBoundary(b).value != [] && PrintBoundary(b).value[0] != 'B'
  {
    match b
    case Preceding(offset) => assert ShowInt(offset.value)[0] == '-' || JsText.IsDigit(ShowInt(offset.value)[0]);
    case Following(offset) => assert ShowInt(offset.value)[0] == '-' || JsText.IsDigit(ShowInt(offset.value)[0]);
    case _ =>
  }

  lemma BetweenReads(t: FrameType, start: Boundary, end: Boundary, a: string, b: string, rest: string)
    requires ReadBoundary(a + (" AND " + (b + rest))) == Some(Parsed(start, " AND " + (b + rest)))
    requires ReadBoundary(b + rest) == Some(Parsed(end, rest))
    ensures ReadExtent(t, " BETWEEN " + (a + (" AND " + b)) + rest) == Some(Parsed(Frame(t, Some(start), end), rest))
  {
    hide ReadBoundary;
    var behind := " AND " + (b + rest);
    assert " BETWEEN " + (a + (" AND " + b)) + rest == " BETWEEN " + (a + behind);
    Front(" BETWEEN ", a + behind);
    Front(" AND ", b + rest);
  }

  lemma NotBetween(text: string)
    requires text != [] && text[0] != 'B'
    ensures !Starts(" " + text, " BETWEEN ") && Starts(" " + text, " ") && (" " + text)[1..] == text
  {
    Front(" ", text);
    assert (" " + text)[1] == text[0] && " BETWEEN "[1] == 'B';
  }

  lemma SingleReads(t: FrameType, end: Boundary, text: string, rest: string)
    requires text != [] && text[0] != 'B' && ReadBoundary(text + rest) == Some(Parsed(end, rest))
    ensures ReadExtent(t, " " + text + rest) == Some(Parsed(Frame(t, None, end), rest))
  {
    assert " " + text + rest == " " + (text + rest);
    NotBetween(text + rest);
  }

  lemma FrameReads(f: Frame, rest: string)
    requires PrintFrame(f).Ok?
    ensures ReadFrame(PrintFrame(f).value + rest) == Some(Parsed(f, rest))
    ensures Starts(PrintFrame(f).value, "R")
  {
    var name := FrameTypeName(f.frameType);
    var extent := PrintFrame(f).value[|name|..];
    assert PrintFrame(f).value == name + extent;
    assert PrintFrame(f).value + rest == name + (extent + rest);
    Front(name, extent + rest);
    if f.frameType == Range { assert (name + (extent + rest))[1] == 'A'; }
    if f.start.Some? {
      var a, b := PrintBoundary(f.start.value).value, PrintBoundary(f.end).value;
      BoundaryReads(f.start.value, " AND " + (b + rest));
      BoundaryReads(f.end, rest);
      BetweenReads(f.frameType, f.start.value, f.end, a, b, rest);
    } else {
      BoundaryReads(f.end, rest);
      BoundaryStart(f.end);
      SingleReads(f.frameType, f.end, PrintBoundary(f.end).value, rest);
    }
  }

  // ---- The window's clauses -----------------------------------------------------------------------

  /** The clauses between `OVER (` and its closing bracket. */
  function Lay(parts: seq<string>): string { Join(parts, " ") + ")" }

  function Behind(parts: seq<string>): string { if parts == [] then ")" else " " + Lay(parts) }

  lemma LayCons(part: string, parts: seq<string>)
    ensures Lay([part] + parts) == part + Behind(parts)
  {
    assert ([part] + parts)[1..] == parts;
    if parts != [] { assert part + (" " + Join(parts, " ")) + ")" == part + (" " + (Join(parts, " ") + ")")); }
  }

  lemma GapBehind(parts: seq<string>)
    ensures Gap(Behind(parts)) == Lay(parts)
  {
    if parts == [] {
      assert Lay(parts) == ")";
      assert ")"[0] != ' ';
    } else {
      Front(" ", Lay(parts));
    }
  }

  lemma BehindEndsList(parts: seq<string>, q: char)
    requires IsQuoteChar(q)
    ensures EndsList(Behind(parts), q)
  {
    assert Behind(parts)[0] == ')' || Behind(parts)[0] == ' ';
    assert ", "[0] == ',';
  }

  /** The first letters of the clauses, from which the reader tells them apart. */
  predicate OpensWith(s: string, letters: set<char>) { s != [] && s[0] in letters }

  function FramePart(f: Option<Frame>): seq<string>
    requires f.Some? ==> PrintFrame(f.value).Ok?
  {
    if f.Some? then [PrintFrame(f.value).value] else []
  }

  lemma FrameClauseReads(f: Option<Frame>)
    requires f.Some? ==> PrintFrame(f.value).Ok?
    ensures OpensWith(Lay(FramePart(f)), {'R', ')'})
    ensures ReadFrameClause(Lay(FramePart(f))) == Some(Parsed(f, ")"))
  {
    if f.Some? {
      var printed := PrintFrame(f.value).value;
      FrameReads(f.value, ")");
      LayCons(printed, []);
      assert [printed] + [] == [printed];
      FrameTextReads(f.value, printed + ")");
    } else {
      assert Lay(FramePart(f)) == ")";
      assert "R"[0] == 'R';
    }
  }

  lemma FrameTextReads(f: Frame, s: string)
    requires s != [] && s[0] == 'R' && ReadFrame(s) == Some(Parsed(f, ")"))
    ensures ReadFrameClause(s) == Some(Parsed(Some(f), ")"))
  {
    assert "R" == s[..1];
  }

  lemma OrderTextReads(s: string, names: string, q: char)
    requires s == "ORDER BY " + names
    ensures ReadOrderBy(s, q) == ReadOrder(names, q) && OpensWith(s, {'O'})
  {
    Front("ORDER BY ", names);
  }

  lemma NoOrderReads(s: string, q: char)
    requires OpensWith(s, {'R', ')'})
    ensures ReadOrderBy(s, q) == Some(Parsed([], s)) && Gap(s) == s
  {
    assert "ORDER BY "[0] == 'O' && " "[0] == ' ';
  }

  /** The text reads as these order columns, with `lay` left after the gap. */
  predicate OrderFound(s: string, q: char, order: seq<Ordered>, lay: string) {
    && ReadOrderBy(s, q).Some?
    && ReadOrderBy(s, q).value.value == order
    && Gap(ReadOrderBy(s, q).value.rest) == lay
  }

  lemma OrderTextFound(order: seq<Ordered>, keys: string, behind: string, lay: string, q: char)
    requires ReadOrder(keys + behind, q) == Some(Parsed(order, behind)) && Gap(behind) == lay
    ensures OrderFound("ORDER BY " + keys + behind, q, order, lay)
    ensures OpensWith("ORDER BY " + keys + behind, {'O'})
  {
    var s := "ORDER BY " + keys + behind;
    assert s == "ORDER BY " + (keys + behind);
    OrderTextReads(s, keys + behind, q);
  }

  lemma OrderClauseReads(order: seq<Ordered>, parts: seq<string>, q: char)
    requires IsQuoteChar(q) && (forall k :: 0 <= k < |order| ==> q !in order[k].column)
    requires OpensWith(Lay(parts), {'R', ')'})
    ensures OpensWith(Lay(OrderPart(order, q) + parts), {'O', 'R', ')'})
    ensures OrderFound(Lay(OrderPart(order, q) + parts), q, order, Lay(parts))
  {
    if order == [] {
      assert [] + parts == parts;
      NoOrderReads(Lay(parts), q);
    } else {
      var keys := Join(OrderedAll(order, q), ", ");
      LayCons("ORDER BY " + keys, parts);
      BehindEndsList(parts, q);
      OrderReads(order, q, Behind(parts));
      GapBehind(parts);
      OrderTextFound(order, keys, Behind(parts), Lay(parts), q);
    }
  }

  lemma PartitionTextReads(s: string, names: string, q: char)
    requires s == "PARTITION BY " + names
    ensures ReadPartitionBy(s, q) == ReadNames(names, q)
  {
    Front("PARTITION BY ", names);
  }

  lemma NoPartitionReads(s: string, q: char)
    requires OpensWith(s, {'O', 'R', ')'})
    ensures ReadPartitionBy(s, q) == Some(Parsed([], s)) && Gap(s) == s
  {
    assert "PARTITION BY "[0] == 'P' && " "[0] == ' ';
  }

  /** The text reads as these partition columns, with `lay` left after the gap. */
  predicate PartitionFound(s: string, q: char, names: seq<string>, lay: string) {
    && ReadPartitionBy(s, q).Some?
    && ReadPartitionBy(s, q).value.value == names
    && Gap(ReadPartitionBy(s, q).value.rest) == lay
  }

  lemma PartitionTextFound(names: seq<string>, list: string, behind: string, lay: string, q: char)
    requires ReadNames(list + behind, q) == Some(Parsed(names, behind)) && Gap(behind) == lay
    ensures PartitionFound("PARTITION BY " + list + behind, q, names, lay)
  {
    var s := "PARTITION BY " + list + behind;
    assert s == "PARTITION BY " + (list + behind);
    PartitionTextReads(s, list + behind, q);
  }

  lemma PartitionClauseReads(names: seq<string>, parts: seq<string>, q: char)
    requires IsQuoteChar(q) && (forall k :: 0 <= k < |names| ==> q !in names[k])
    requires OpensWith(Lay(parts), {'O', 'R', ')'})
    ensures PartitionFound(Lay(PartitionPart(names, q) + parts), q, names, Lay(parts))
  {
    if names == [] {
      assert [] + parts == parts;
      NoPartitionReads(Lay(parts), q);
    } else {
      var list := Join(QuotedAll(names, q), ", ");
      LayCons("PARTITION BY " + list, parts);
      BehindEndsList(parts, q);
      NamesRead(names, q, Behind(parts));
      GapBehind(parts);
      PartitionTextFound(names, list, Behind(parts), Lay(parts), q);
    }
  }

  lemma WindowReads(names: seq<string>, order: seq<Ordered>, frame: Option<Frame>, q: char)
    requires IsQuoteChar(q) && (frame.Some? ==> PrintFrame(frame.value).Ok?)
    requires forall k :: 0 <= k < |names| ==> q !in names[k]
    requires forall k :: 0 <= k < |order| ==> q !in order[k].column
    ensures ReadWindow(Lay(PartitionPart(names, q) + (OrderPart(order, q) + FramePart(frame))), q)
      == Some(Window(names, order, frame))
  {
    var last := FramePart(frame);
    FrameClauseReads(frame);
    OrderClauseReads(order, last, q);
    PartitionClauseReads(names, OrderPart(order, q) + last, q);
  }

  // ---- The call ---------------------------------------------------------------------------------------

  /** Four letters tell the functions apart. */
  lemma NamesApart(k: nat, j: nat)
    requires k < |FUNCTIONS| && j < |FUNCTIONS| && FUNCTIONS[k].0[..4] == FUNCTIONS[j].0[..4]
    ensures k == j
  {
    var a, b := FUNCTIONS[k].0, FUNCTIONS[j].0;
    assert a[..4][0] == b[..4][0] && a[..4][1] == b[..4][1] && a[..4][2] == b[..4][2];
  }

  lemma NameListed(f: WindowFunction) returns (k: nat)
    ensures k < |FUNCTIONS| && FUNCTIONS[k].0 == FunctionName(f) + "(" && FUNCTIONS[k].1 == f
  {
    k := match f
      case RowNumber => 0
      case PercentRank => 1
      case CumeDist => 2
      case Rank => 3
      case Sum => 4
      case Avg => 5
      case Count => 6
      case Min => 7
      case Max => 8;
  }

  /** Four letters tell the entries of a list apart. */
  ghost predicate AreApart(list: seq<(string, WindowFunction)>) {
    && (forall k :: 0 <= k < |list| ==> |list[k].0| >= 4)
    && forall j, k :: 0 <= j < |list| && 0 <= k < |list| && list[j].0[..4] == list[k].0[..4] ==> j == k
  }

  lemma FunctionsApart()
    ensures AreApart(FUNCTIONS)
  {
    var list := FUNCTIONS;
    forall j: nat, k: nat | j < |list| && k < |list| && list[j].0[..4] == list[k].0[..4] ensures j == k { NamesApart(j, k); }
  }

  lemma StartsAlike(a: string, rest: string, b: string)
    requires |a| >= 4 && |b| >= 4
    ensures Starts(a + rest, b) ==> a[..4] == b[..4]
  {
    if Starts(a + rest, b) { assert (a + rest)[..4] == (a + rest)[..|b|][..4]; }
  }

  lemma {:induction false} ReadsFrom(list: seq<(string, WindowFunction)>, k: nat, i: nat, rest: string)
    requires i <= k < |list| && AreApart(list)
    ensures ReadFunction(list[k].0 + rest, list[i..]) == Some(Parsed(list[k].1, rest))
    decreases k - i
  {
    var s := list[k].0 + rest;
    Front(list[k].0, rest);
    assert list[i..][0] == list[i] && list[i..][1..] == list[i + 1..];
    if i < k {
      StartsAlike(list[k].0, rest, list[i].0);
      ReadsFrom(list, k, i + 1, rest);
    }
  }

  lemma FunctionReads(k: nat, rest: string)
    requires k < |FUNCTIONS|
    ensures ReadFunction(FUNCTIONS[k].0 + rest, FUNCTIONS) == Some(Parsed(FUNCTIONS[k].1, rest))
  {
    var list := FUNCTIONS;
    FunctionsApart();
    ReadsFrom(list, k, 0, rest);
    assert list[0..] == list;
  }

  lemma ArgumentReads(field: string, q: char, rest: string)
    requires IsQuoteChar(q) && q !in field
    ensures ReadArgument(Quoted(field, q) + (")" + rest), q) == Some(Parsed(Some(field), rest))
  {
    IdentifierReads(field, q, ")" + rest);
    assert (Quoted(field, q) + (")" + rest))[0] == q;
    assert ")"[0] == ')';
    Front(")", rest);
  }

  lemma NoArgumentReads(q: char, rest: string)
    ensures ReadArgument(")" + rest, q) == Some(Parsed(None, rest))
  {
    Front(")", rest);
  }

  /** The argument the template's function takes. */
  function Argument(t: Template): Option<string> {
    if t.windowFunction in {Sum, Avg, Count, Min, Max} then t.fieldId else None
  }

  function ArgumentText(field: Option<string>, q: char): string {
    if field.Some? then Quoted(field.value, q) + ")" else ")"
  }

  lemma CallIsNameAndArgument(t: Template, q: char)
    requires PrintCall(t, q).Ok?
    ensures PrintCall(t, q).value == FunctionName(t.windowFunction) + "(" + ArgumentText(Argument(t), q)
  {
    var name := FunctionName(t.windowFunction);
    if NeedsField(t.windowFunction) {
      assert name + ("(" + (Quoted(t.fieldId.value, q) + ")")) == name + "(" + (Quoted(t.fieldId.value, q) + ")");
    } else {
      assert name + "()" == name + "(" + ")";
    }
  }

  lemma PartsRead(s: string, q: char, f: WindowFunction, field: Option<string>, inside: string, argument: string)
    requires ReadFunction(s, FUNCTIONS) == Some(Parsed(f, argument))
    requires ReadArgument(argument, q) == Some(Parsed(field, " OVER (" + inside))
    requires ReadWindow(inside, q).Some?
    ensures Read(s, q) == Some(Reading(f, field, ReadWindow(inside, q).value))
  {
    Front(" OVER (", inside);
  }

  lemma ArgumentTextReads(field: Option<string>, q: char, over: string)
    requires IsQuoteChar(q) && (field.Some? ==> q !in field.value)
    ensures ReadArgument(ArgumentText(field, q) + over, q) == Some(Parsed(field, over))
  {
    if field.Some? {
      ArgumentReads(field.value, q, over);
      assert Quoted(field.value, q) + ")" + over == Quoted(field.value, q) + (")" + over);
    } else {
      NoArgumentReads(q, over);
    }
  }

  lemma CallReads(f: WindowFunction, field: Option<string>, inside: string, q: char)
    requires IsQuoteChar(q) && (field.Some? ==> q !in field.value) && ReadWindow(inside, q).Some?
    ensures Read(FunctionName(f) + "(" + ArgumentText(field, q) + (" OVER (" + inside), q)
      == Some(Reading(f, field, ReadWindow(inside, q).value))
  {
    hide Read, ReadFunction, ReadArgument, ReadWindow, ArgumentText, FunctionName;
    var over := " OVER (" + inside;
    var argument := ArgumentText(field, q) + over;
    var s := FunctionName(f) + "(" + argument;
    assert FunctionName(f) + "(" + ArgumentText(field, q) + over == s;
    var k := NameListed(f);
    FunctionReads(k, argument);
    assert FUNCTIONS[0..] == FUNCTIONS;
    ArgumentTextReads(field, q, over);
    PartsRead(s, q, f, field, inside, argument);
  }

  /**
   The window that a template describes: its partition columns, its order columns, where a bin
   dimension's is its id followed by `_order`, descending exactly when asked for, and its frame.
   */
  ghost predicate IsWindowOf(w: Window, t: Template, bins: set<string>) {
    && w.partition == t.partitionBy && w.frame == t.frame && |w.order| == |t.orderBy|
    && forall k :: 0 <= k < |t.orderBy| ==> IsOrderOf(w.order[k], t.orderBy[k], bins)
  }

  ghost predicate IsOrderOf(o: Ordered, key: OrderKey, bins: set<string>) {
    && (key.fieldId in bins ==> o.column == key.fieldId + "_order")
    && (key.fieldId !in bins ==> o.column == key.fieldId)
    && (o.direction == Desc <==> key.order == Some(Desc))
  }

  lemma WindowIsUnique(v: Window, w: Window, t: Template, bins: set<string>)
    requires IsWindowOf(v, t, bins) && IsWindowOf(w, t, bins)
    ensures v == w
  {
    forall k | 0 <= k < |v.order| ensures v.order[k] == w.order[k] {
      assert IsOrderOf(v.order[k], t.orderBy[k], bins) && IsOrderOf(w.order[k], t.orderBy[k], bins);
    }
  }

  lemma OrderColumnsSafe(t: Template, bins: set<string>, q: char)
    requires AreSafe(t) && IsQuoteChar(q)
    ensures forall k :: 0 <= k < |OrderedBy(t, bins)| ==> q !in OrderedBy(t, bins)[k].column
  {
    SafeParts(t);
    assert q !in "_order";
  }

  /**
   The text compiled from a template whose references pass the guard is read back as exactly
   its function, field, partition columns, order columns and directions, and frame.
   */
  lemma CompiledReadsBack(t: Template, q: char, bins: set<string>)
    requires AreSafe(t) && IsQuoteChar(q) && Compile(t, q, bins).Ok?
    ensures var reading := Read(Compile(t, q, bins).value, q);
      && reading.Some? && reading.value.windowFunction == t.windowFunction && reading.value.field == Argument(t)
      && IsWindowOf(reading.value.window, t, bins)
  {
    hide Read, ReadWindow, Join, References, PrintCall, PrintFrame;
    SafeParts(t);
    OrderColumnsSafe(t, bins, q);
    var order := OrderedBy(t, bins);
    WindowReads(t.partitionBy, order, t.frame, q);
    var parts := PartitionPart(t.partitionBy, q) + OrderPart(order, q) + FramePart(t.frame);
    assert parts == PartitionPart(t.partitionBy, q) + (OrderPart(order, q) + FramePart(t.frame));
    CallIsNameAndArgument(t, q);
    CallReads(t.windowFunction, Argument(t), Lay(parts), q);
  }

  /** A template is refused exactly when its function lacks its field, or else a boundary of its frame lacks its offset. */
  lemma CompileFailsExactly(t: Template, q: char, bins: set<string>)
    ensures Compile(t, q, bins) == Err(MissingField) <==> LacksField(t)
    ensures Compile(t, q, bins) == Err(MissingOffset) <==> !LacksField(t) && LacksOffset(t)
    ensures Compile(t, q, bins).Ok? <==> !LacksField(t) && !LacksOffset(t)
  {
    hide Join, PartitionPart, OrderPart, OrderedBy, Quoted, ShowInt, FunctionName, FrameTypeName;
  }

  ghost predicate LacksField(t: Template) {
    t.windowFunction in {Sum, Avg, Count, Min, Max} && t.fieldId in {None, Some("")}
  }

  ghost predicate LacksOffset(t: Template) {
    t.frame.Some? && (t.frame.value.end in {Preceding(None), Following(None)}
      || t.frame.value.start in {Some(Preceding(None)), Some(Following(None))})
  }

  /** Templates that compile to the same text mean the same call. */
  lemma SameTextSameCall(t: Template, u: Template, q: char, bins: set<string>)
    requires AreSafe(t) && AreSafe(u) && IsQuoteChar(q)
    requires Compile(t, q, bins).Ok? && Compile(t, q, bins) == Compile(u, q, bins)
    ensures t.windowFunction == u.windowFunction && Argument(t) == Argument(u)
    ensures forall w :: IsWindowOf(w, t, bins) <==> IsWindowOf(w, u, bins)
  {
    hide Read, Compile;
    CompiledReadsBack(t, q, bins);
    CompiledReadsBack(u, q, bins);
    var w := Read(Compile(t, q, bins).value, q).value.window;
    forall v ensures IsWindowOf(v, t, bins) <==> IsWindowOf(v, u, bins) {
      if IsWindowOf(v, t, bins) { WindowIsUnique(v, w, t, bins); }
      if IsWindowOf(v, u, bins) { WindowIsUnique(v, w, u, bins); }
    }
  }
}
