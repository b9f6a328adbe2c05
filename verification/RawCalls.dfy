/**
 Finding `.raw(...)` calls in scripts/sql-migration-lint.ts: the text is masked, calls and
 their closing brackets are located outside string literals in the masked text, and the
 argument is then cut from the original.
 */
module RawCalls {
  import opened Options
  import opened JsText
  import opened CommentMask

  // ---- Literals as a state machine -----------------------------------------------------------

  /** Where a position stands: in code, in a literal, or right after a backslash in one. */
  datatype Mode = Code | In(quote: char) | Escaped(quote: char)

  function Next(m: Mode, c: char): Mode {
    match m
    case Code => if IsQuote(c) then In(c) else Code
    case In(q) => if c == '\\' then Escaped(q) else if c == q then Code else m
    case Escaped(q) => In(q)
  }

  /** The mode of position `k` when `from` is in code. */
  function ModeAt(s: string, from: nat, k: nat): Mode
    requires from <= k <= |s|
    decreases k
  {
    if k == from then Code else Next(ModeAt(s, from, k - 1), s[k - 1])
  }

  lemma {:induction false} ModeFromCode(s: string, from: nat, mid: nat, k: nat)
    requires from <= mid <= k <= |s| && ModeAt(s, from, mid) == Code
    ensures ModeAt(s, from, k) == ModeAt(s, mid, k)
    decreases k
  {
    if mid < k { ModeFromCode(s, from, mid, k - 1); }
  }

  lemma {:induction false} StaysCode(s: string, from: nat, k: nat)
    requires from <= k <= |s| && forall j :: from <= j < k ==> !IsQuote(s[j])
    ensures ModeAt(s, from, k) == Code
    decreases k
  {
    if from < k { StaysCode(s, from, k - 1); }
  }

  // ---- Matching delimiters -----------------------------------------------------------------------

  /** How far `open` outnumbers `close` in the code between `from` and `k`. */
  function Net(s: string, from: nat, k: nat, open: char, close: char): int
    requires from <= k <= |s|
    decreases k
  {
    if k == from then 0
    else
      Net(s, from, k - 1, open, close)
      + (if ModeAt(s, from, k - 1) != Code then 0
         else if s[k - 1] == open then 1 else if s[k - 1] == close then -1 else 0)
  }

  /** A `close` in the code at `j` brings the count back to zero. */
  predicate Balances(s: string, from: nat, j: nat, open: char, close: char) {
    && from <= j < |s| && ModeAt(s, from, j) == Code && s[j] == close
    && Net(s, from, j + 1, open, close) == 0
  }

  /** The first position that balances. */
  predicate IsMatch(s: string, from: nat, r: Option<nat>, open: char, close: char) {
    match r
    case Some(j) => Balances(s, from, j, open, close) && forall k :: from <= k < j ==> !Balances(s, from, k, open, close)
    case None => forall k :: from <= k < |s| ==> !Balances(s, from, k, open, close)
  }

  function MatchFrom(s: string, from: nat, k: nat, open: char, close: char): (r: Option<nat>)
    requires from <= k <= |s|
    ensures r.Some? ==> k <= r.value && Balances(s, from, r.value, open, close)
    ensures r.Some? ==> forall j :: k <= j < r.value ==> !Balances(s, from, j, open, close)
    ensures r.None? ==> forall j :: k <= j < |s| ==> !Balances(s, from, j, open, close)
    decreases |s| - k
  {
    if k == |s| then None
    else if Balances(s, from, k, open, close) then Some(k)
    else MatchFrom(s, from, k + 1, open, close)
  }

  function Matching(s: string, from: nat, open: char, close: char): (r: Option<nat>)
    requires from <= |s|
    ensures IsMatch(s, from, r, open, close)
  {
    MatchFrom(s, from, from, open, close)
  }

  lemma MatchUnique(s: string, from: nat, a: Option<nat>, b: Option<nat>, open: char, close: char)
    requires IsMatch(s, from, a, open, close) && IsMatch(s, from, b, open, close)
    ensures a == b
  {}

  method MatchingDelimiter(s: string, start: nat, open: char, close: char) returns (r: Option<nat>)
    requires start <= |s| && open != close && !IsQuote(open) && !IsQuote(close)
    ensures r == Matching(s, start, open, close)
  {
    var depth := 0;
    var quote: Option<char> := None;
    var index := start;
    while index < |s|
      invariant start <= index <= |s| + 1
      invariant index <= |s| ==> ModeAt(s, start, index) == if quote.Some? then In(quote.value) else Code
      invariant index <= |s| ==> depth == Net(s, start, index, open, close)
      invariant forall k :: start <= k < index && k < |s| ==> !Balances(s, start, k, open, close)
    {
      var c := s[index];
      if quote.Some? {
        if c == '\\' {
          assert ModeAt(s, start, index + 1) == Escaped(quote.value);
          index := index + 1;
        } else if c == quote.value {
          quote := None;
        }
      } else if IsQuote(c) {
        quote := Some(c);
      } else {
        if c == open { depth := depth + 1; }
        if c == close {
          depth := depth - 1;
          if depth == 0 {
            MatchUnique(s, start, Some(index), Matching(s, start, open, close), open, close);
            return Some(index);
          }
        }
      }
      index := index + 1;
    }
    MatchUnique(s, start, None, Matching(s, start, open, close), open, close);
    return None;
  }

  /** Behind a matched closing delimiter the text is in code again. */
  lemma CodeAfterMatch(s: string, from: nat, open: char, close: char)
    requires from <= |s| && Matching(s, from, open, close).Some? && !IsQuote(close)
    ensures ModeAt(s, from, Matching(s, from, open, close).value + 1) == Code
  {}

  // ---- Raw calls ---------------------------------------------------------------------------------

  function SkipSpace(s: string, i: nat): (r: nat)
    requires i <= |s|
    ensures i <= r <= |s|
    ensures forall k :: i <= k < r ==> IsSpace(s[k])
  {
    SkipWhile(s, i, IsSpace)
  }

  predicate CharAt(s: string, i: nat, c: char) { i < |s| && s[i] == c }

  /** Past the type arguments that may stand at `i`. */
  function SkipTypeArguments(m: string, i: nat): (r: Option<nat>)
    requires i <= |m|
    ensures r.Some? ==> i <= r.value <= |m|
  {
    if CharAt(m, i, '<') then
      var close := Matching(m, i, '<', '>');
      if close.None? then None else Some(SkipSpace(m, close.value + 1))
    else Some(i)
  }

  /** Where the argument list opens when `.raw`, perhaps with type arguments, stands at `i`. */
  function ArgumentsAt(m: string, i: nat): (r: Option<nat>)
    ensures r.Some? ==> i + 3 < r.value < |m| && CharAt(m, r.value, '(')
  {
    if !CharAt(m, i, '.') then None
    else
      var name := SkipSpace(m, i + 1);
      if !StartsWith(m, name, "raw") || (name + 3 < |m| && IsNamePart(m[name + 3])) then None
      else
        var open := SkipTypeArguments(m, SkipSpace(m, name + 3));
        if open.Some? && CharAt(m, open.value, '(') then open else None
  }

  /** The positions of the brackets around the arguments of the raw call at `i`. */
  function CallAt(m: string, i: nat): (r: Option<(nat, nat)>)
    ensures r.Some? ==> i + 3 < r.value.0 < r.value.1 < |m|
  {
    var open := ArgumentsAt(m, i);
    if open.None? then None
    else
      var close := Matching(m, open.value, '(', ')');
      if close.None? then None
      else
        assert Net(m, open.value, open.value + 1, '(', ')') == 1;
        Some((open.value, close.value))
  }

  datatype Call = Call(index: nat, open: nat, end: nat, argument: string)

  /** A call is a raw call of the masked code, and its argument is the original text in its brackets. */
  predicate IsCall(source: string, m: string, c: Call) {
    && c.index < |m| && |m| == |source|
    && ModeAt(m, 0, c.index) == Code
    && CallAt(m, c.index) == Some((c.open, c.end))
    && c.argument == Trim(source[c.open + 1..c.end])
  }

  /** Calls in order, none reaching into the next. */
  predicate Apart(calls: seq<Call>) {
    forall j, k :: 0 <= j < k < |calls| ==> calls[j].end < calls[k].index
  }

  predicate Within(calls: seq<Call>, p: nat) {
    exists k :: 0 <= k < |calls| && calls[k].index <= p <= calls[k].end
  }

  /** Every raw call in the code before `limit` is listed or lies inside a listed one. */
  predicate CoversUpTo(m: string, calls: seq<Call>, limit: nat) {
    forall p :: 0 <= p < limit && p < |m| && ModeAt(m, 0, p) == Code && CallAt(m, p).Some? ==> Within(calls, p)
  }

  lemma PlainText(m: string, i: nat, name: nat)
    requires i + 1 <= name && StartsWith(m, name, "raw")
    ensures m[name] == 'r' && m[name + 1] == 'a' && m[name + 2] == 'w'
  {
    assert m[name] == m[name..name + 3][0] && m[name + 1] == m[name..name + 3][1] && m[name + 2] == m[name..name + 3][2];
  }

  lemma SpacesAreNotQuotes()
    ensures forall c :: IsSpace(c) ==> !IsQuote(c)
  {}

  lemma {:induction false} ModesCompose(s: string, from: nat, mid: nat, k: nat)
    requires from <= mid <= k <= |s| && ModeAt(s, from, mid) == Code && ModeAt(s, mid, k) == Code
    ensures ModeAt(s, from, k) == Code
  {
    ModeFromCode(s, from, mid, k);
  }

  /** From the dot of a raw call to its opening bracket the text stays in code. */
  lemma CodeUpToArguments(m: string, i: nat)
    requires ArgumentsAt(m, i).Some?
    ensures ModeAt(m, i, ArgumentsAt(m, i).value) == Code
  {
    hide ModeAt, Matching, IsNamePart;
    SpacesAreNotQuotes();
    var name := SkipSpace(m, i + 1);
    PlainText(m, i, name);
    var after := SkipSpace(m, name + 3);
    StaysCode(m, i, after);
    var open := ArgumentsAt(m, i).value;
    if CharAt(m, after, '<') {
      var close := Matching(m, after, '<', '>').value;
      CodeAfterMatch(m, after, '<', '>');
      ModesCompose(m, i, after, close + 1);
      StaysCode(m, close + 1, open);
      ModesCompose(m, i, close + 1, open);
    }
  }

  /** Behind a whole raw call the text is in code. */
  lemma CodeAfterCall(m: string, i: nat)
    requires i < |m| && ModeAt(m, 0, i) == Code && CallAt(m, i).Some?
    ensures ModeAt(m, 0, CallAt(m, i).value.1 + 1) == Code
  {
    var (open, end) := CallAt(m, i).value;
    CodeUpToArguments(m, i);
    CodeAfterMatch(m, open, '(', ')');
    ModesCompose(m, i, open, end + 1);
    ModesCompose(m, 0, i, end + 1);
  }

  method FindArguments(m: string, index: nat) returns (r: Option<nat>)
    requires CharAt(m, index, '.')
    ensures r == ArgumentsAt(m, index)
  {
    var cursor := SkipSpace(m, index + 1);
    if !StartsWith(m, cursor, "raw") || (cursor + 3 < |m| && IsNamePart(m[cursor + 3])) { return None; }
    cursor := SkipSpace(m, cursor + 3);
    if CharAt(m, cursor, '<') {
      var genericEnd := MatchingDelimiter(m, cursor, '<', '>');
      if genericEnd.None? { return None; }
      cursor := SkipSpace(m, genericEnd.value + 1);
    }
    if !CharAt(m, cursor, '(') { return None; }
    return Some(cursor);
  }

  method FindCall(m: string, index: nat) returns (r: Option<(nat, nat)>)
    requires CharAt(m, index, '.')
    ensures r == CallAt(m, index)
  {
    var open := FindArguments(m, index);
    if open.None? { return None; }
    var end := MatchingDelimiter(m, open.value, '(', ')');
    if end.None? { return None; }
    return Some((open.value, end.value));
  }

  lemma CoversCall(m: string, calls: seq<Call>, c: Call, index: nat)
    requires CoversUpTo(m, calls, index) && c.index == index
    ensures CoversUpTo(m, calls + [c], c.end + 1)
  {
    var all := calls + [c];
    forall p | 0 <= p < c.end + 1 && p < |m| && ModeAt(m, 0, p) == Code && CallAt(m, p).Some?
      ensures Within(all, p)
    {
      if p < index {
        var k :| 0 <= k < |calls| && calls[k].index <= p <= calls[k].end;
        assert all[k] == calls[k];
      } else {
        assert all[|calls|] == c;
      }
    }
  }

  /** All calls are raw calls that end before `index`, in order, and none before it is missed. */
  ghost predicate Listed(source: string, m: string, calls: seq<Call>, index: nat) {
    && (forall k :: 0 <= k < |calls| ==> IsCall(source, m, calls[k]) && calls[k].end < index)
    && Apart(calls)
    && CoversUpTo(m, calls, index)
  }

  /** The mode that the scan's `quote` variable stands for. */
  predicate InMode(m: string, index: nat, quote: Option<char>) {
    index <= |m| ==> ModeAt(m, 0, index) == if quote.Some? then In(quote.value) else Code
  }

  lemma ListedOneMore(source: string, m: string, calls: seq<Call>, index: nat)
    requires Listed(source, m, calls, index)
    requires index < |m| ==> ModeAt(m, 0, index) != Code || CallAt(m, index).None?
    ensures Listed(source, m, calls, index + 1)
  {}

  lemma ApartMore(calls: seq<Call>, c: Call)
    requires Apart(calls) && forall k :: 0 <= k < |calls| ==> calls[k].end < c.index
    ensures Apart(calls + [c])
  {}

  lemma ListedCall(source: string, m: string, calls: seq<Call>, c: Call)
    requires Listed(source, m, calls, c.index) && IsCall(source, m, c)
    ensures Listed(source, m, calls + [c], c.end + 1)
  {
    CoversCall(m, calls, c, c.index);
    ApartMore(calls, c);
    assert c.index < c.end;
    forall k | 0 <= k < |calls + [c]| ensures IsCall(source, m, (calls + [c])[k]) && (calls + [c])[k].end < c.end + 1 {}
  }

  /** One step inside a literal. */
  method SkipInLiteral(m: string, index: nat, quote: char) returns (index': nat, quote': Option<char>)
    requires index < |m| && ModeAt(m, 0, index) == In(quote)
    ensures index < index' <= index + 2 && index' <= |m| + 1 && InMode(m, index', quote')
    ensures index' == index + 2 && index + 1 < |m| ==> ModeAt(m, 0, index + 1) != Code
  {
    index', quote' := index, Some(quote);
    if m[index] == '\\' {
      assert ModeAt(m, 0, index + 1) == Escaped(quote);
      index' := index' + 1;
    } else if m[index] == quote {
      quote' := None;
    }
    index' := index' + 1;
  }

  /** The raw call at a position in code, if there is one; the scan goes on in code behind it. */
  method CallFrom(source: string, m: string, index: nat) returns (r: Option<Call>)
    requires index < |m| && |m| == |source| && ModeAt(m, 0, index) == Code
    ensures r.None? ==> CallAt(m, index).None?
    ensures r.Some? ==> IsCall(source, m, r.value) && r.value.index == index
    ensures r.Some? ==> index < r.value.end < |m| && ModeAt(m, 0, r.value.end + 1) == Code
  {
    if m[index] != '.' { return None; }
    var call := FindCall(m, index);
    if call.None? { return None; }
    var (open, end) := call.value;
    CodeAfterCall(m, index);
    return Some(Call(index, open, end, Trim(source[open + 1..end])));
  }

  /** One step of the scan outside literals. */
  method ScanCode(source: string, m: string, calls: seq<Call>, index: nat)
    returns (calls': seq<Call>, index': nat, quote': Option<char>)
    requires index < |m| && |m| == |source| && ModeAt(m, 0, index) == Code && Listed(source, m, calls, index)
    ensures index < index' <= |m| + 1 && InMode(m, index', quote') && Listed(source, m, calls', index')
  {
    hide Listed;
    calls', index', quote' := calls, index + 1, None;
    if IsQuote(m[index]) {
      ListedOneMore(source, m, calls, index);
      quote' := Some(m[index]);
      return;
    }
    var call := CallFrom(source, m, index);
    if call.None? {
      ListedOneMore(source, m, calls, index);
      return;
    }
    ListedCall(source, m, calls, call.value);
    calls' := calls + [call.value];
    index' := call.value.end + 1;
  }

  /** One step of the scan in a literal. */
  method ScanLiteral(source: string, m: string, calls: seq<Call>, index: nat, quote: char)
    returns (index': nat, quote': Option<char>)
    requires index < |m| && ModeAt(m, 0, index) == In(quote) && Listed(source, m, calls, index)
    ensures index < index' <= |m| + 1 && InMode(m, index', quote') && Listed(source, m, calls, index')
  {
    ListedOneMore(source, m, calls, index);
    index', quote' := SkipInLiteral(m, index, quote);
    if index' == index + 2 { ListedOneMore(source, m, calls, index + 1); }
  }

  // ---- The calls of the original ------------------------------------------------------------------

  predicate CodeAt(s: string, k: nat) { k < |s| && SpotAt(s, k) == InCode }

  /** How far `open` outnumbers `close` in the code of the original between `from` and `k`. */
  function CodeNet(s: string, from: nat, k: nat, open: char, close: char): int
    requires from <= k <= |s|
    decreases k
  {
    if k == from then 0
    else
      CodeNet(s, from, k - 1, open, close)
      + (if !CodeAt(s, k - 1) then 0 else if s[k - 1] == open then 1 else if s[k - 1] == close then -1 else 0)
  }

  predicate CodeBalances(s: string, from: nat, j: nat, open: char, close: char) {
    from <= j < |s| && CodeAt(s, j) && s[j] == close && CodeNet(s, from, j + 1, open, close) == 0
  }

  /** `j` is the first `close` in code that brings the count back to zero. */
  predicate IsPartner(s: string, from: nat, j: nat, open: char, close: char) {
    CodeBalances(s, from, j, open, close) && forall k :: from <= k < j ==> !CodeBalances(s, from, k, open, close)
  }

  /** Comments and white space. */
  predicate GapAt(s: string, k: nat)
    requires k < |s|
  {
    InComment(s, k) || IsSpace(s[k])
  }

  /** What stands between `from` and `to` is comments and white space, and no more of it follows. */
  predicate IsGap(s: string, from: nat, to: nat) {
    from <= to <= |s| && (forall k :: from <= k < to ==> GapAt(s, k)) && (to < |s| ==> !GapAt(s, to))
  }

  /** The word `raw` in code, with nothing of a longer name behind it. */
  predicate NameAt(s: string, k: nat) {
    && CodeAt(s, k) && CodeAt(s, k + 1) && CodeAt(s, k + 2)
    && s[k] == 'r' && s[k + 1] == 'a' && s[k + 2] == 'w'
    && !(k + 3 < |s| && !InComment(s, k + 3) && IsNamePart(s[k + 3]))
  }

  /** From `after` type arguments, if there are any, and a gap lead to `open`. */
  ghost predicate TypeArgumentsLead(s: string, after: nat, open: nat) {
    if after < |s| && CodeAt(s, after) && s[after] == '<'
    then exists close: nat :: IsPartner(s, after, close, '<', '>') && IsGap(s, close + 1, open)
    else open == after
  }

  /** The name and the type arguments of a raw call lead from its dot to its bracket. */
  ghost predicate Leads(s: string, dot: nat, name: nat, after: nat, open: nat) {
    IsGap(s, dot + 1, name) && NameAt(s, name) && IsGap(s, name + 3, after) && TypeArgumentsLead(s, after, open)
  }

  /**
   A raw call of the original: in code, a dot, the name, perhaps type arguments, and the
   argument list from its bracket to that bracket's partner. Comments and blanks may stand between.
   */
  ghost predicate IsRawCall(s: string, dot: nat, open: nat, end: nat) {
    && CodeAt(s, dot) && s[dot] == '.'
    && (exists name: nat, after: nat :: Leads(s, dot, name, after, open))
    && CodeAt(s, open) && s[open] == '('
    && IsPartner(s, open, end, '(', ')')
  }

  /** The mode of masked text at a character of the original. */
  function ModeOf(spot: Spot): Mode {
    match spot
    case InLiteral(q) => In(q)
    case EscapedIn(q) => Escaped(q)
    case _ => Code
  }

  /** A step over what the masked text shows of a character is the original's step. */
  lemma NextModes(s: string, k: nat, before: Spot)
    requires 0 < k < |s|
    ensures Next(ModeOf(before), if IsComment(before) then BlankChar(s[k - 1]) else s[k - 1]) == ModeOf(NextSpot(s, k, before))
  {}

  /** Reading the masked text, literals stand where they stand in the original, and comments are code. */
  lemma {:induction false} MaskedModes(s: string, k: nat)
    requires k < |s|
    ensures |Mask(s)| == |s| && ModeAt(Mask(s), 0, k) == ModeOf(SpotAt(s, k))
  {
    hide Mask, NextSpot, Next;
    MaskKeepsPositions(s);
    if k > 0 {
      MaskedModes(s, k - 1);
      NextModes(s, k, SpotAt(s, k - 1));
    } else {
      FirstSpot(s);
    }
  }

  lemma FirstSpot(s: string)
    requires s != []
    ensures ModeOf(SpotAt(s, 0)) == Code
  {}

  /** A character that is no blank stands in the code of the masked text where it stands in the original's. */
  lemma MaskedCode(s: string, k: nat, c: char)
    requires k < |s| && !IsSpace(c)
    ensures |Mask(s)| == |s|
    ensures ModeAt(Mask(s), 0, k) == Code && Mask(s)[k] == c <==> CodeAt(s, k) && s[k] == c
  {
    MaskKeepsPositions(s);
    MaskedModes(s, k);
  }

  /** The mode counted from a position in code is the mode counted from the start. */
  predicate FromCode(m: string, from: nat) { from <= |m| && ModeAt(m, 0, from) == Code }

  lemma {:induction false} MaskedNet(s: string, from: nat, k: nat, open: char, close: char)
    requires |Mask(s)| == |s| && from <= k <= |s| && FromCode(Mask(s), from) && !IsSpace(open) && !IsSpace(close)
    ensures Net(Mask(s), from, k, open, close) == CodeNet(s, from, k, open, close)
    decreases k
  {
    if from < k {
      MaskedNet(s, from, k - 1, open, close);
      ModeFromCode(Mask(s), 0, from, k - 1);
      MaskedCode(s, k - 1, open);
      MaskedCode(s, k - 1, close);
    }
  }

  lemma MaskedBalance(s: string, from: nat, j: nat, open: char, close: char)
    requires |Mask(s)| == |s| && FromCode(Mask(s), from) && !IsSpace(open) && !IsSpace(close)
    ensures Balances(Mask(s), from, j, open, close) <==> CodeBalances(s, from, j, open, close)
  {
    if from <= j < |s| {
      MaskedNet(s, from, j + 1, open, close);
      ModeFromCode(Mask(s), 0, from, j);
      MaskedCode(s, j, close);
    }
  }

  /** Matching in the masked text finds exactly the partner in the original. */
  lemma MaskedPartner(s: string, from: nat, j: nat, open: char, close: char)
    requires |Mask(s)| == |s| && FromCode(Mask(s), from) && !IsSpace(open) && !IsSpace(close)
    ensures Matching(Mask(s), from, open, close) == Some(j) <==> IsPartner(s, from, j, open, close)
  {
    forall k: nat ensures Balances(Mask(s), from, k, open, close) <==> CodeBalances(s, from, k, open, close) {
      MaskedBalance(s, from, k, open, close);
    }
    if IsPartner(s, from, j, open, close) {
      MatchUnique(Mask(s), from, Some(j), Matching(Mask(s), from, open, close), open, close);
    }
  }

  lemma GapUnique(s: string, from: nat, a: nat, b: nat)
    ensures IsGap(s, from, a) && IsGap(s, from, b) ==> a == b
  {}

  lemma MaskedGap(s: string, from: nat, to: nat)
    requires |Mask(s)| == |s| && from <= |s|
    ensures SkipSpace(Mask(s), from) == to <==> IsGap(s, from, to)
  {
    MaskKeepsPositions(s);
    var end := SkipSpace(Mask(s), from);
    forall k | from <= k < |s| ensures IsSpace(Mask(s)[k]) == GapAt(s, k) {
      assert InComment(s, k) ==> IsSpace(BlankChar(s[k]));
    }
    assert IsGap(s, from, end);
    GapUnique(s, from, to, end);
  }

  /** `raw` as three characters. */
  lemma StartsWithRaw(t: string, k: nat)
    ensures StartsWith(t, k, "raw") <==> k + 3 <= |t| && t[k] == 'r' && t[k + 1] == 'a' && t[k + 2] == 'w'
  {
    if k + 3 <= |t| { assert t[k..k + 3] == [t[k], t[k + 1], t[k + 2]]; }
  }

  lemma CodeBehind(m: string, k: nat, c: char)
    requires FromCode(m, k) && CharAt(m, k, c) && !IsQuote(c)
    ensures FromCode(m, k + 1)
  {}

  lemma NoNameBehind(s: string, k: nat)
    requires |Mask(s)| == |s|
    ensures k < |s| && IsNamePart(Mask(s)[k]) <==> k < |s| && !InComment(s, k) && IsNamePart(s[k])
  {
    MaskKeepsPositions(s);
  }

  lemma MaskedName(s: string, k: nat)
    requires |Mask(s)| == |s| && FromCode(Mask(s), k)
    ensures StartsWith(Mask(s), k, "raw") && !(k + 3 < |s| && IsNamePart(Mask(s)[k + 3])) <==> NameAt(s, k)
  {
    StartsWithRaw(Mask(s), k);
    NoNameBehind(s, k + 3);
    if k + 3 <= |s| {
      MaskedCode(s, k, 'r');
      MaskedCode(s, k + 1, 'a');
      MaskedCode(s, k + 2, 'w');
      if StartsWith(Mask(s), k, "raw") {
        CodeBehind(Mask(s), k, 'r');
        CodeBehind(Mask(s), k + 1, 'a');
      }
    }
  }

  lemma MaskedTypeArguments(s: string, after: nat, open: nat)
    requires |Mask(s)| == |s| && FromCode(Mask(s), after)
    ensures SkipTypeArguments(Mask(s), after) == Some(open) <==> TypeArgumentsLead(s, after, open)
  {
    if after < |s| { MaskedCode(s, after, '<'); }
    forall close: nat
      ensures Matching(Mask(s), after, '<', '>') == Some(close) <==> IsPartner(s, after, close, '<', '>')
    {
      MaskedPartner(s, after, close, '<', '>');
    }
    var close := Matching(Mask(s), after, '<', '>');
    if close.Some? { MaskedGap(s, close.value + 1, open); }
    if after < |s| && CodeAt(s, after) && s[after] == '<' && TypeArgumentsLead(s, after, open) {
      var partner: nat :| IsPartner(s, after, partner, '<', '>') && IsGap(s, partner + 1, open);
      assert close == Some(partner);
    }
  }

  /** Past the dot and the name of a raw member the text is in code. */
  lemma CodeAfterName(m: string, i: nat)
    requires FromCode(m, i) && CharAt(m, i, '.') && StartsWith(m, SkipSpace(m, i + 1), "raw")
    ensures FromCode(m, SkipSpace(m, SkipSpace(m, i + 1) + 3))
  {
    SpacesAreNotQuotes();
    var name := SkipSpace(m, i + 1);
    PlainText(m, i, name);
    var after := SkipSpace(m, name + 3);
    StaysCode(m, i, after);
    ModesCompose(m, 0, i, after);
  }

  lemma CodeAfterDot(m: string, i: nat)
    requires FromCode(m, i) && CharAt(m, i, '.')
    ensures FromCode(m, SkipSpace(m, i + 1))
  {
    SpacesAreNotQuotes();
    StaysCode(m, i, SkipSpace(m, i + 1));
    ModesCompose(m, 0, i, SkipSpace(m, i + 1));
  }

  /** A raw call of masked code, part by part. */
  predicate HasParts(m: string, dot: nat, open: nat) {
    && CharAt(m, dot, '.')
    && var name := SkipSpace(m, dot + 1);
      && StartsWith(m, name, "raw") && !(name + 3 < |m| && IsNamePart(m[name + 3]))
      && SkipTypeArguments(m, SkipSpace(m, name + 3)) == Some(open) && CharAt(m, open, '(')
  }

  lemma ArgumentsParts(m: string, dot: nat, open: nat)
    ensures HasParts(m, dot, open) <==> ArgumentsAt(m, dot) == Some(open)
  {
    hide SkipTypeArguments;
  }

  lemma MaskedLeads(s: string, dot: nat, name: nat, after: nat, open: nat)
    requires |Mask(s)| == |s| && FromCode(Mask(s), dot) && CharAt(Mask(s), dot, '.')
    requires CodeAt(s, open) && s[open] == '(' && Leads(s, dot, name, after, open)
    ensures HasParts(Mask(s), dot, open)
  {
    hide SkipTypeArguments, NameAt, TypeArgumentsLead, ModeAt, FromCode, Mask, IsGap, IsNamePart, SpotAt;
    MaskedGap(s, dot + 1, name);
    CodeAfterDot(Mask(s), dot);
    MaskedName(s, name);
    MaskedGap(s, name + 3, after);
    CodeAfterName(Mask(s), dot);
    MaskedTypeArguments(s, after, open);
    MaskedCode(s, open, '(');
  }

  lemma MaskedArguments(s: string, dot: nat, open: nat)
    requires |Mask(s)| == |s| && FromCode(Mask(s), dot) && ArgumentsAt(Mask(s), dot) == Some(open)
    ensures exists name: nat, after: nat :: Leads(s, dot, name, after, open)
  {
    hide ArgumentsAt, SkipTypeArguments, NameAt, TypeArgumentsLead, ModeAt, FromCode, Mask, IsGap, IsNamePart, SpotAt;
    var m := Mask(s);
    ArgumentsParts(m, dot, open);
    var name := SkipSpace(m, dot + 1);
    var after := SkipSpace(m, name + 3);
    MaskedGap(s, dot + 1, name);
    CodeAfterDot(m, dot);
    MaskedName(s, name);
    MaskedGap(s, name + 3, after);
    CodeAfterName(m, dot);
    MaskedTypeArguments(s, after, open);
    assert Leads(s, dot, name, after, open);
  }

  lemma MaskedBracket(s: string, dot: nat, open: nat)
    requires |Mask(s)| == |s| && FromCode(Mask(s), dot) && ArgumentsAt(Mask(s), dot) == Some(open)
    ensures FromCode(Mask(s), open) && CodeAt(s, open) && s[open] == '('
  {
    CodeUpToArguments(Mask(s), dot);
    ModesCompose(Mask(s), 0, dot, open);
    MaskedCode(s, open, '(');
  }

  /** The calls of the masked code are the raw calls of the original. */
  lemma MaskedCalls(s: string, dot: nat, open: nat, end: nat)
    requires dot < |s| && |Mask(s)| == |s|
    ensures ModeAt(Mask(s), 0, dot) == Code && CallAt(Mask(s), dot) == Some((open, end)) <==> IsRawCall(s, dot, open, end)
  {
    MaskedCode(s, dot, '.');
    if ModeAt(Mask(s), 0, dot) == Code && CallAt(Mask(s), dot) == Some((open, end)) {
      MaskedArguments(s, dot, open);
      MaskedBracket(s, dot, open);
      MaskedPartner(s, open, end, '(', ')');
    }
    if IsRawCall(s, dot, open, end) {
      var name: nat, after: nat :| Leads(s, dot, name, after, open);
      MaskedLeads(s, dot, name, after, open);
      ArgumentsParts(Mask(s), dot, open);
      MaskedCode(s, open, '(');
      MaskedPartner(s, open, end, '(', ')');
    }
  }

  /** The call is one of the original, with the original text in its brackets. */
  ghost predicate IsCallOf(source: string, c: Call) {
    IsRawCall(source, c.index, c.open, c.end) && IsTrimmed(source[c.open + 1..c.end], c.argument)
  }

  lemma ListedIsCall(source: string, c: Call)
    requires |Mask(source)| == |source| && IsCall(source, Mask(source), c)
    ensures IsCallOf(source, c)
  {
    hide IsRawCall, CallAt, ModeAt, Mask, Trim, IsTrimmed;
    MaskedCalls(source, c.index, c.open, c.end);
    TrimExactly(source[c.open + 1..c.end], c.argument);
  }

  lemma ListedCalls(source: string, calls: seq<Call>)
    requires |Mask(source)| == |source| && Listed(source, Mask(source), calls, |source| + 1)
    ensures forall k :: 0 <= k < |calls| ==> IsCallOf(source, calls[k])
    ensures forall dot: nat, open: nat, end: nat :: IsRawCall(source, dot, open, end) ==> Within(calls, dot)
  {
    hide IsRawCall, CallAt, ModeAt, Mask, IsCall, IsCallOf, Within;
    forall k | 0 <= k < |calls| ensures IsCallOf(source, calls[k]) {
      assert IsCall(source, Mask(source), calls[k]);
      ListedIsCall(source, calls[k]);
    }
    forall dot: nat, open: nat, end: nat | IsRawCall(source, dot, open, end) ensures Within(calls, dot) {
      RawCallStarts(source, dot, open, end);
      MaskedCalls(source, dot, open, end);
    }
  }

  lemma RawCallStarts(source: string, dot: nat, open: nat, end: nat)
    requires IsRawCall(source, dot, open, end)
    ensures dot < |source|
  {}

  /**
   The raw calls of a source, in order and disjoint: exactly the raw calls of its code, each
   with the text between its bracket and that bracket's partner, except those inside another's brackets.
   */
  method FindRawCalls(source: string) returns (calls: seq<Call>)
    ensures forall k :: 0 <= k < |calls| ==> IsCallOf(source, calls[k])
    ensures Apart(calls)
    ensures forall dot: nat, open: nat, end: nat :: IsRawCall(source, dot, open, end) ==> Within(calls, dot)
  {
    var m := MaskComments(source);
    MaskKeepsPositions(source);
    calls := [];
    var index := 0;
    var quote: Option<char> := None;
    while index < |m|
      invariant index <= |m| + 1
      invariant InMode(m, index, quote)
      invariant Listed(source, m, calls, index)
      decreases |m| + 1 - index
    {
      if quote.Some? {
        index, quote := ScanLiteral(source, m, calls, index, quote.value);
      } else {
        calls, index, quote := ScanCode(source, m, calls, index);
      }
    }
    if index == |m| { ListedOneMore(source, m, calls, index); }
    ListedCalls(source, calls);
  }
}
