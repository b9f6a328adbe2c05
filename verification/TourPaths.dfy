/**
 Click paths of walkthrough markers, from scripts/scope-tours/lib.ts: how a path is read
 from an attribute, and how it unfolds into steps that lose none of its hops.
 */
module TourPaths {
  import opened Options
  import opened JsText
  import opened Sequences

  /** A control on a path; an optional one may or may not be on the page. */
  datatype Hop = Hop(selector: string, optional: bool)

  // ---- Reading a path ------------------------------------------------------------------------

  const ARROW := " >> "

  /** `value.split(" >> ")`. */
  function Split(value: string): (r: seq<string>)
    ensures r != []
    decreases |value|
  {
    var at := IndexOf(value, 0, ARROW);
    if at.None? then [value] else [value[..at.value]] + Split(value[at.value + |ARROW|..])
  }

  function HopOf(part: string): Hop {
    if part != [] && part[|part| - 1] == '?' then Hop(part[..|part| - 1], true) else Hop(part, false)
  }

  function HopsOf(parts: seq<string>): seq<Hop> {
    if parts == [] then [] else [HopOf(Trim(parts[0]))] + HopsOf(parts[1..])
  }

  /** No attribute and an empty one are the empty path. */
  function ParsePath(value: Option<string>): seq<Hop> {
    if value.None? || value.value == "" then [] else HopsOf(Split(value.value))
  }

  /** The parts with a separator between each two are the text, and no separator starts before the end of a part. */
  ghost predicate IsCut(value: string, parts: seq<string>) {
    && parts != []
    && if |parts| == 1 then value == parts[0] && forall k: nat :: !StartsWith(value, k, " >> ")
       else
         && value == parts[0] + (" >> " + Behind(value, |parts[0]| + 4))
         && (forall k: nat :: k < |parts[0]| ==> !StartsWith(value, k, " >> "))
         && IsCut(Behind(value, |parts[0]| + 4), parts[1..])
  }

  function Behind(value: string, n: nat): string { if n <= |value| then value[n..] else "" }

  lemma CutNowhere(value: string)
    requires forall k: nat :: !StartsWith(value, k, " >> ")
    ensures IsCut(value, [value])
  {}

  lemma CutInFront(value: string, n: nat, parts: seq<string>)
    requires n + 4 <= |value| && value == value[..n] + (" >> " + value[n + 4..])
    requires (forall k: nat :: k < n ==> !StartsWith(value, k, " >> ")) && IsCut(value[n + 4..], parts)
    ensures IsCut(value, [value[..n]] + parts)
  {
    hide StartsWith;
    assert ([value[..n]] + parts)[1..] == parts;
  }

  lemma {:induction false} SplitExactly(value: string)
    ensures IsCut(value, Split(value))
    decreases |value|
  {
    hide StartsWith, IndexOf, IsCut;
    var at := IndexOf(value, 0, ARROW);
    if at.Some? {
      ArrowStands(value, at.value);
      SplitExactly(value[at.value + 4..]);
      CutInFront(value, at.value, Split(value[at.value + 4..]));
    } else {
      forall k: nat ensures !StartsWith(value, k, " >> ") { NoArrowBehind(value, k); }
      CutNowhere(value);
    }
  }

  lemma ArrowStands(value: string, k: nat)
    requires StartsWith(value, k, ARROW)
    ensures k + 4 <= |value| && value == value[..k] + (" >> " + value[k + 4..])
  {
    assert value == value[..k] + (value[k..k + 4] + value[k + 4..]);
  }

  lemma NoArrowBehind(value: string, k: nat)
    ensures k > |value| ==> !StartsWith(value, k, " >> ")
  {}

  /** The part without white space around it, and without a question mark at its end, which makes it optional. */
  ghost predicate IsHopOf(part: string, h: Hop) {
    && IsTrimmed(part, if h.optional then h.selector + "?" else h.selector)
    && (!h.optional ==> h.selector == "" || h.selector[|h.selector| - 1] != '?')
  }

  /** What an attribute reads as: the hops of its parts, or no hop at all without one or with an empty one. */
  lemma ParseExactly(value: Option<string>)
    ensures value in {None, Some("")} ==> ParsePath(value) == []
    ensures value !in {None, Some("")} ==> exists parts :: IsCut(value.value, parts) && AreHopsOf(parts, ParsePath(value))
  {
    if value !in {None, Some("")} {
      SplitExactly(value.value);
      HopsExactly(Split(value.value));
    }
  }

  ghost predicate AreHopsOf(parts: seq<string>, path: seq<Hop>) {
    |path| == |parts| && forall k :: 0 <= k < |parts| ==> IsHopOf(parts[k], path[k])
  }

  lemma {:induction false} HopsExactly(parts: seq<string>)
    ensures AreHopsOf(parts, HopsOf(parts))
  {
    hide IsHopOf, HopOf, Trim;
    if parts != [] {
      HopsExactly(parts[1..]);
      HopExactly(parts[0]);
      var hops := HopsOf(parts);
      assert forall k :: 1 <= k < |parts| ==> parts[k] == parts[1..][k - 1] && hops[k] == hops[1..][k - 1];
    }
  }

  lemma HopExactly(part: string)
    ensures IsHopOf(part, HopOf(Trim(part)))
  {
    var text := Trim(part);
    TrimExactly(part, text);
    var h := HopOf(text);
    if h.optional { assert text == text[..|text| - 1] + "?"; }
    assert text == if h.optional then h.selector + "?" else h.selector;
  }

  function PrintHop(h: Hop): string { if h.optional then h.selector + "?" else h.selector }

  function PrintPath(path: seq<Hop>): string {
    if path == [] then []
    else if |path| == 1 then PrintHop(path[0])
    else PrintHop(path[0]) + (ARROW + PrintPath(path[1..]))
  }

  /** A hop that can be written down: trimmed, without a separator, and required only without a question mark. */
  predicate Printable(h: Hop) {
    var s := PrintHop(h);
    && Trim(s) == s
    && (forall k :: 0 <= k < |s| ==> !StartsWith(s, k, ARROW))
    && (!h.optional && s != [] ==> s[|s| - 1] != '?')
  }

  /** With the blank of a separator behind it, the end of the text would be a separator itself. */
  predicate EndsLikeArrow(s: string) { |s| >= 3 && s[|s| - 3..] == ARROW[..3] }

  predicate AllPrintable(path: seq<Hop>) {
    && (forall k :: 0 <= k < |path| ==> Printable(path[k]))
    && (forall k :: 0 <= k < |path| - 1 ==> !EndsLikeArrow(PrintHop(path[k])))
  }

  lemma HopReads(h: Hop)
    requires Printable(h)
    ensures HopOf(Trim(PrintHop(h))) == h
  {
    if h.optional { assert (h.selector + "?")[..|h.selector|] == h.selector; }
  }

  lemma {:induction false} TrimStartShortens(s: string)
    ensures |TrimStart(s)| <= |s| && (|TrimStart(s)| == |s| ==> TrimStart(s) == s)
  {
    if s != [] && IsSpace(s[0]) { TrimStartShortens(s[1..]); }
  }

  lemma {:induction false} TrimEndShortens(s: string)
    ensures |TrimEnd(s)| <= |s| && (|TrimEnd(s)| == |s| ==> s == [] || !IsSpace(s[|s| - 1]))
  {
    if s != [] && IsSpace(s[|s| - 1]) { TrimEndShortens(s[..|s| - 1]); }
  }

  lemma TrimmedEndsInInk(s: string)
    requires Trim(s) == s && s != []
    ensures !IsSpace(s[|s| - 1])
  {
    TrimStartShortens(s);
    TrimEndShortens(TrimStart(s));
  }

  lemma ArrowAt(s: string, k: nat)
    ensures StartsWith(s, k, ARROW) <==> k + 4 <= |s| && s[k] == ' ' && s[k + 1] == '>' && s[k + 2] == '>' && s[k + 3] == ' '
  {
    if k + 4 <= |s| { assert s[k..k + 4] == [s[k], s[k + 1], s[k + 2], s[k + 3]]; }
  }

  lemma ArrowInFront(rest: string)
    requires ARROW <= rest
    ensures rest != [] && rest[0] == ' '
  {}

  lemma EndOfArrow(part: string)
    requires |part| >= 3 && part[|part| - 3] == ' ' && part[|part| - 2] == '>' && part[|part| - 1] == '>'
    ensures EndsLikeArrow(part)
  {
    assert part[|part| - 3..] == [part[|part| - 3], part[|part| - 2], part[|part| - 1]];
  }

  /** No separator starts inside a printed hop. */
  lemma NoArrowInside(part: string, rest: string, k: nat)
    requires Trim(part) == part && (forall j :: 0 <= j < |part| ==> !StartsWith(part, j, ARROW))
    requires rest == [] || (ARROW <= rest && !EndsLikeArrow(part))
    requires k < |part|
    ensures !StartsWith(part + rest, k, ARROW)
  {
    hide StartsWith, EndsLikeArrow, Trim;
    ArrowAt(part + rest, k);
    ArrowAt(part, k);
    TrimmedEndsInInk(part);
    if rest != [] {
      ArrowInFront(rest);
      if k + 3 == |part| && part[k] == ' ' && part[k + 1] == '>' && part[k + 2] == '>' { EndOfArrow(part); }
    }
  }

  lemma SplitLast(part: string)
    requires Trim(part) == part && forall j :: 0 <= j < |part| ==> !StartsWith(part, j, ARROW)
    ensures Split(part) == [part]
  {
    var at := IndexOf(part, 0, ARROW);
    if at.Some? { ArrowAt(part, at.value); }
  }

  lemma SplitFirst(part: string, rest: string)
    requires Trim(part) == part && (forall j :: 0 <= j < |part| ==> !StartsWith(part, j, ARROW)) && !EndsLikeArrow(part)
    ensures Split(part + (ARROW + rest)) == [part] + Split(rest)
  {
    var s := part + (ARROW + rest);
    assert s[|part|..|part| + 4] == ARROW;
    assert StartsWith(s, |part|, ARROW);
    var at := IndexOf(s, 0, ARROW).value;
    if at < |part| { NoArrowInside(part, ARROW + rest, at); }
    assert at == |part|;
    assert s[..at] == part && s[at + 4..] == rest;
  }

  /** A printed path is read back as it was; only a lone hop without any text is not there to be read. */
  lemma {:induction false} PathReadsBack(path: seq<Hop>)
    requires AllPrintable(path) && (|path| == 1 ==> PrintHop(path[0]) != [])
    ensures ParsePath(Some(PrintPath(path))) == path
  {
    if path != [] { SplitPrinted(path); }
  }

  lemma {:induction false} SplitPrinted(path: seq<Hop>)
    requires AllPrintable(path) && path != []
    ensures HopsOf(Split(PrintPath(path))) == path
  {
    hide Split, HopOf, Trim, IndexOf;
    HopReads(path[0]);
    var part := PrintHop(path[0]);
    if |path| == 1 {
      SplitLast(part);
      assert HopsOf([part]) == [HopOf(Trim(part))];
    } else {
      SplitPrinted(path[1..]);
      SplitFirst(part, PrintPath(path[1..]));
      var parts := Split(PrintPath(path[1..]));
      assert ([part] + parts)[1..] == parts;
    }
  }

  // ---- Steps ------------------------------------------------------------------------------------

  /** A step on a control, with the controls it can fall back to and its detours; or a look taken on the way. */
  datatype Step = Control(target: string, via: seq<string>, detour: seq<string>) | Look(target: string)

  function Required(path: seq<Hop>): seq<string> {
    if path == [] then []
    else Required(path[..|path| - 1]) + (if path[|path| - 1].optional then [] else [path[|path| - 1].selector])
  }

  /** The optional hops behind the last required one. */
  function TrailingHops(path: seq<Hop>): seq<Hop> {
    if path == [] || !path[|path| - 1].optional then [] else TrailingHops(path[..|path| - 1]) + [path[|path| - 1]]
  }

  method Trailing(path: seq<Hop>) returns (pending: seq<Hop>)
    ensures pending == TrailingHops(path)
  {
    pending := [];
    for k := 0 to |path|
      invariant pending == TrailingHops(path[..k])
    {
      assert path[..k + 1][..k] == path[..k];
      if path[k].optional { pending := pending + [path[k]]; } else { pending := []; }
    }
    assert path[..|path|] == path;
  }

  function Selectors(hops: seq<Hop>): (r: seq<string>)
    ensures |r| == |hops|
  {
    seq(|hops|, k requires 0 <= k < |hops| => hops[k].selector)
  }

  function Looks(targets: seq<string>): seq<Step> {
    seq(|targets|, k requires 0 <= k < |targets| => Look(targets[k]))
  }

  /** The steps of a path: one for each required hop, with the optional hops before it as its detours. */
  function StepsOf(path: seq<Hop>, looksAfter: string -> seq<string>): seq<Step> {
    if path == [] then []
    else
      var n := |path| - 1;
      var hop := path[n];
      StepsOf(path[..n], looksAfter)
      + (if hop.optional then []
         else [Control(hop.selector, Required(path[..n]), Selectors(TrailingHops(path[..n])))] + Looks(looksAfter(hop.selector)))
  }

  method PathSteps(path: seq<Hop>, looksAfter: string -> seq<string>) returns (steps: seq<Step>)
    ensures steps == StepsOf(path, looksAfter)
  {
    var pending: seq<Hop> := [];
    steps := [];
    for k := 0 to |path|
      invariant steps == StepsOf(path[..k], looksAfter) && pending == TrailingHops(path[..k])
    {
      assert path[..k + 1][..k] == path[..k];
      var hop := path[k];
      if hop.optional {
        pending := pending + [hop];
      } else {
        steps := steps + ([Control(hop.selector, Required(path[..k]), Selectors(pending))] + Looks(looksAfter(hop.selector)));
        pending := [];
      }
    }
    assert path[..|path|] == path;
  }

  // ---- No hop is lost --------------------------------------------------------------------------------

  function Detours(selectors: seq<string>): seq<Hop> {
    seq(|selectors|, k requires 0 <= k < |selectors| => Hop(selectors[k], true))
  }

  /** The hops a learner passes: each step's detours, then its control. */
  function Walked(steps: seq<Step>): seq<Hop> {
    if steps == [] then []
    else
      var n := |steps| - 1;
      Walked(steps[..n]) + Passed(steps[n])
  }

  function Passed(step: Step): seq<Hop> {
    if step.Look? then [] else Detours(step.detour) + [Hop(step.target, false)]
  }

  lemma {:induction false} WalkedJoins(a: seq<Step>, b: seq<Step>)
    ensures Walked(a + b) == Walked(a) + Walked(b)
  {
    if b == [] {
      assert a + b == a;
    } else {
      var front, last := b[..|b| - 1], b[|b| - 1];
      WalkedJoins(a, front);
      WalkedSnoc(front, last);
      WalkedSnoc(a + front, last);
      SplitLastOf(a, b);
      Regroup(Walked(a), Walked(front), Passed(last));
    }
  }

  lemma SplitLastOf(a: seq<Step>, b: seq<Step>)
    requires b != []
    ensures a + b == (a + b[..|b| - 1]) + [b[|b| - 1]] && b == b[..|b| - 1] + [b[|b| - 1]]
  {}

  lemma WalkedSnoc(steps: seq<Step>, step: Step)
    ensures Walked(steps + [step]) == Walked(steps) + Passed(step)
  {
    assert (steps + [step])[..|steps|] == steps;
  }

  lemma {:induction false} LooksWalkNowhere(steps: seq<Step>)
    requires forall k :: 0 <= k < |steps| ==> steps[k].Look?
    ensures Walked(steps) == []
  {
    if steps != [] { LooksWalkNowhere(steps[..|steps| - 1]); }
  }

  lemma {:induction false} TrailingOptional(path: seq<Hop>)
    ensures Detours(Selectors(TrailingHops(path))) == TrailingHops(path)
    ensures TrailingHops(path) == [] <==> !EndsOptional(path)
  {
    if path != [] && path[|path| - 1].optional { TrailingOptional(path[..|path| - 1]); }
  }

  lemma StepWalks(hop: Hop, via: seq<string>, pending: seq<Hop>, looks: seq<string>)
    requires !hop.optional && Detours(Selectors(pending)) == pending
    ensures Walked([Control(hop.selector, via, Selectors(pending))] + Looks(looks)) == pending + [hop]
  {
    hide Walked;
    OwnStepWalks(hop.selector, via, pending);
    WalkedJoins([Control(hop.selector, via, Selectors(pending))], Looks(looks));
    LooksWalkNowhere(Looks(looks));
  }

  /** A step that takes up the detours left over completes the hops before it. */
  lemma TakesUp(before: seq<Step>, more: seq<Step>, pending: seq<Hop>, hop: Hop, front: seq<Hop>)
    requires Walked(before) + pending == front && Walked(more) == pending + [hop]
    ensures Walked(before + more) == front + [hop]
  {
    WalkedJoins(before, more);
    assert Walked(before) + (pending + [hop]) == (Walked(before) + pending) + [hop];
  }

  /** One more required hop is walked by its step, which takes up the detours left over. */
  lemma RequiredHopIsWalked(front: seq<Hop>, hop: Hop, looksAfter: string -> seq<string>)
    requires !hop.optional && Walked(StepsOf(front, looksAfter)) + TrailingHops(front) == front
    ensures Walked(StepsOf(front + [hop], looksAfter)) == front + [hop]
  {
    var pending, looks := TrailingHops(front), looksAfter(hop.selector);
    TrailingOptional(front);
    StepWalks(hop, Required(front), pending, looks);
    TakesUp(StepsOf(front, looksAfter), [Control(hop.selector, Required(front), Selectors(pending))] + Looks(looks),
      pending, hop, front);
    assert (front + [hop])[..|front|] == front;
  }

  /** The steps of a path, followed by its trailing detours, walk the path. */
  lemma {:induction false} PathIsWalked(path: seq<Hop>, looksAfter: string -> seq<string>)
    ensures Walked(StepsOf(path, looksAfter)) + TrailingHops(path) == path
  {
    if path != [] {
      var front, hop := path[..|path| - 1], path[|path| - 1];
      PathIsWalked(front, looksAfter);
      assert path == front + [hop];
      if hop.optional {
        assert StepsOf(path, looksAfter) == StepsOf(front, looksAfter);
        Regroup(Walked(StepsOf(front, looksAfter)), TrailingHops(front), [hop]);
      } else {
        RequiredHopIsWalked(front, hop, looksAfter);
      }
    }
  }

  /** The controls of the steps before a step. */
  function Targets(steps: seq<Step>): seq<string> {
    if steps == [] then []
    else Targets(steps[..|steps| - 1]) + (if steps[|steps| - 1].Look? then [] else [steps[|steps| - 1].target])
  }

  /** Every step falls back to exactly the controls of the steps before it. */
  predicate FallsBack(steps: seq<Step>) {
    forall k :: 0 <= k < |steps| && steps[k].Control? ==> steps[k].via == Targets(steps[..k])
  }

  lemma {:induction false} LooksHaveNoTargets(steps: seq<Step>, looks: seq<Step>)
    requires forall k :: 0 <= k < |looks| ==> looks[k].Look?
    ensures Targets(steps + looks) == Targets(steps)
  {
    if looks == [] {
      assert steps + looks == steps;
    } else {
      var n := |looks| - 1;
      LooksHaveNoTargets(steps, looks[..n]);
      assert (steps + looks)[..|steps + looks| - 1] == steps + looks[..n];
    }
  }

  lemma FallsBackGrows(steps: seq<Step>, target: string, detour: seq<string>, looks: seq<string>)
    requires FallsBack(steps)
    ensures FallsBack(steps + ([Control(target, Targets(steps), detour)] + Looks(looks)))
    ensures Targets(steps + ([Control(target, Targets(steps), detour)] + Looks(looks))) == Targets(steps) + [target]
  {
    var step := Control(target, Targets(steps), detour);
    var all := steps + ([step] + Looks(looks));
    assert all == (steps + [step]) + Looks(looks);
    LooksHaveNoTargets(steps + [step], Looks(looks));
    assert (steps + [step])[..|steps|] == steps;
    forall k | 0 <= k < |all| && all[k].Control? ensures all[k].via == Targets(all[..k]) {
      if k < |steps| {
        assert all[..k] == steps[..k] && all[k] == steps[k];
      } else {
        assert k == |steps| && all[..k] == steps;
      }
    }
  }

  lemma {:induction false} StepsFallBack(path: seq<Hop>, looksAfter: string -> seq<string>)
    ensures FallsBack(StepsOf(path, looksAfter)) && Targets(StepsOf(path, looksAfter)) == Required(path)
  {
    if path != [] {
      var n := |path| - 1;
      StepsFallBack(path[..n], looksAfter);
      if path[n].optional {
        assert StepsOf(path, looksAfter) == StepsOf(path[..n], looksAfter);
      } else {
        FallsBackGrows(StepsOf(path[..n], looksAfter), path[n].selector, Selectors(TrailingHops(path[..n])),
          looksAfter(path[n].selector));
      }
    }
  }

  // ---- Where the looks stand ---------------------------------------------------------------------------

  /** Behind control `k` stand its looks, in order, and then the next control or nothing. */
  predicate LooksStandAt(steps: seq<Step>, looksAfter: string -> seq<string>, k: nat)
    requires k < |steps| && steps[k].Control?
  {
    var end := k + 1 + |looksAfter(steps[k].target)|;
    && end <= |steps|
    && steps[k + 1..end] == Looks(looksAfter(steps[k].target))
    && (end < |steps| ==> steps[end].Control?)
  }

  /** The first step is a control, and every control is followed by exactly its looks. */
  predicate LooksStand(steps: seq<Step>, looksAfter: string -> seq<string>) {
    && (steps != [] ==> steps[0].Control?)
    && forall k :: 0 <= k < |steps| && steps[k].Control? ==> LooksStandAt(steps, looksAfter, k)
  }

  lemma StillStands(steps: seq<Step>, more: seq<Step>, looksAfter: string -> seq<string>, k: nat)
    requires k < |steps| && steps[k].Control? && LooksStandAt(steps, looksAfter, k) && more != [] && more[0].Control?
    ensures LooksStandAt(steps + more, looksAfter, k)
  {
    hide Looks;
    var end := k + 1 + |looksAfter(steps[k].target)|;
    assert (steps + more)[k + 1..end] == steps[k + 1..end];
  }

  lemma LastStands(steps: seq<Step>, step: Step, looksAfter: string -> seq<string>)
    requires step.Control?
    ensures LooksStandAt(steps + ([step] + Looks(looksAfter(step.target))), looksAfter, |steps|)
  {
    var looks := Looks(looksAfter(step.target));
    assert (steps + ([step] + looks))[|steps| + 1..|steps| + 1 + |looks|] == looks;
  }

  lemma LooksStandLonger(steps: seq<Step>, step: Step, looksAfter: string -> seq<string>)
    requires LooksStand(steps, looksAfter) && step.Control?
    ensures LooksStand(steps + ([step] + Looks(looksAfter(step.target))), looksAfter)
  {
    hide LooksStandAt;
    var more := [step] + Looks(looksAfter(step.target));
    forall k | 0 <= k < |steps + more| && (steps + more)[k].Control? ensures LooksStandAt(steps + more, looksAfter, k) {
      if k < |steps| {
        StillStands(steps, more, looksAfter, k);
      } else {
        LastStands(steps, step, looksAfter);
      }
    }
  }

  /** In the steps of a path each control is followed by exactly the looks taken after it, in order. */
  lemma {:induction false} PathLooksStand(path: seq<Hop>, looksAfter: string -> seq<string>)
    ensures LooksStand(StepsOf(path, looksAfter), looksAfter)
  {
    if path != [] {
      var n := |path| - 1;
      PathLooksStand(path[..n], looksAfter);
      if path[n].optional {
        assert StepsOf(path, looksAfter) == StepsOf(path[..n], looksAfter);
      } else {
        var step := Control(path[n].selector, Required(path[..n]), Selectors(TrailingHops(path[..n])));
        LooksStandLonger(StepsOf(path[..n], looksAfter), step, looksAfter);
      }
    }
  }

  // ---- Markers and walkthroughs -----------------------------------------------------------------------

  datatype Marker = Marker(
    target: string, viaPath: Option<string>, thenPath: Option<string>, returnPath: Option<string>)

  datatype Error = EndsOnOptionalHop

  const HOME := "[data-tour-nav=\"home\"]"

  predicate EndsOptional(path: seq<Hop>) { path != [] && path[|path| - 1].optional }

  /** A path with no step of its own behind it: it may not end on an optional hop. */
  function Closed(value: Option<string>): Result<seq<Hop>, Error> {
    if EndsOptional(ParsePath(value)) then Err(EndsOnOptionalHop) else Ok(ParsePath(value))
  }

  /** The source's test for it: some optional hops are left over. */
  method ClosedPath(value: Option<string>) returns (r: Result<seq<Hop>, Error>)
    ensures if EndsOptional(ParsePath(value)) then r == Err(EndsOnOptionalHop) else r == Ok(ParsePath(value))
  {
    var path := ParsePath(value);
    var pending := Trailing(path);
    TrailingOptional(path);
    if |pending| > 0 { return Err(EndsOnOptionalHop); }
    return Ok(path);
  }

  /** The step on the marked control itself carries the detours its path leaves over. */
  function OwnStep(m: Marker): Step {
    var path := ParsePath(m.viaPath);
    Control(m.target, Required(path), Selectors(TrailingHops(path)))
  }

  function MarkerSteps(m: Marker, looksAfter: string -> seq<string>): Result<seq<Step>, Error> {
    var onward := Closed(m.thenPath);
    if onward.Err? then Err(onward.error)
    else Ok(StepsOf(ParsePath(m.viaPath), looksAfter) + [OwnStep(m)] + StepsOf(onward.value, looksAfter))
  }

  function HomePath(first: Marker): Result<seq<Hop>, Error> {
    if first.returnPath == Some("none") then Ok([])
    else if first.returnPath.Some? && first.returnPath.value != "" then Closed(first.returnPath)
    else Ok(ParsePath(Some(HOME)))
  }

  /** The way back: none when the marker says so, the home button unless it gives a path, and that path if it can be closed. */
  lemma HomeExactly(first: Marker)
    ensures first.returnPath == Some("none") ==> HomePath(first) == Ok([])
    ensures first.returnPath in {None, Some("")} ==> HomePath(first) == Ok([Hop("[data-tour-nav=\"home\"]", false)])
    ensures first.returnPath !in {None, Some(""), Some("none")} ==>
      var path := ParsePath(first.returnPath);
      HomePath(first) == if path != [] && path[|path| - 1].optional then Err(EndsOnOptionalHop) else Ok(path)
  {
    hide ParsePath;
    HomeReads();
  }

  /** The steps of the markers, one marker after the other. */
  function AllMarkerSteps(markers: seq<Marker>, looksAfter: string -> seq<string>): Result<seq<Step>, Error> {
    if markers == [] then Ok([])
    else
      var n := |markers| - 1;
      var front := AllMarkerSteps(markers[..n], looksAfter);
      var last := MarkerSteps(markers[n], looksAfter);
      if front.Err? then front else if last.Err? then last else Ok(front.value + last.value)
  }

  /** A whole walkthrough: its markers, the way back, the result, and further looks at it. */
  function TourSteps(markers: seq<Marker>, looksAfter: string -> seq<string>, resultLooks: seq<string>): Result<seq<Step>, Error>
    requires markers != []
  {
    var steps := AllMarkerSteps(markers, looksAfter);
    var home := HomePath(markers[0]);
    if steps.Err? then steps
    else if home.Err? then Err(home.error)
    else Ok(steps.value + StepsOf(home.value, looksAfter) + [Control(markers[0].target, Required(home.value), [])] + Looks(resultLooks))
  }

  method BuildSteps(markers: seq<Marker>, looksAfter: string -> seq<string>, resultLooks: seq<string>)
    returns (r: Result<seq<Step>, Error>)
    requires markers != []
    ensures r == TourSteps(markers, looksAfter, resultLooks)
  {
    hide AllMarkerSteps, StepsOf, HomePath;
    var steps := BuildMarkers(markers, looksAfter);
    if steps.Err? { return steps; }
    var homePath := ReturnPath(markers[0]);
    if homePath.Err? { return Err(homePath.error); }
    var home := PathSteps(homePath.value, looksAfter);
    return Ok(steps.value + home + [Control(markers[0].target, Required(homePath.value), [])] + Looks(resultLooks));
  }

  method ReturnPath(first: Marker) returns (r: Result<seq<Hop>, Error>)
    ensures r == HomePath(first)
  {
    if first.returnPath == Some("none") {
      r := Ok([]);
    } else if first.returnPath.Some? && first.returnPath.value != "" {
      r := ClosedPath(first.returnPath);
    } else {
      r := Ok(ParsePath(Some(HOME)));
    }
  }

  method BuildMarker(m: Marker, looksAfter: string -> seq<string>) returns (r: Result<seq<Step>, Error>)
    ensures r == MarkerSteps(m, looksAfter)
  {
    hide StepsOf, TrailingHops, Required;
    var path := ParsePath(m.viaPath);
    var before := PathSteps(path, looksAfter);
    var pending := Trailing(path);
    var onward := ClosedPath(m.thenPath);
    if onward.Err? { return Err(onward.error); }
    var behind := PathSteps(onward.value, looksAfter);
    return Ok(before + [Control(m.target, Required(path), Selectors(pending))] + behind);
  }

  method BuildMarkers(markers: seq<Marker>, looksAfter: string -> seq<string>) returns (r: Result<seq<Step>, Error>)
    ensures r == AllMarkerSteps(markers, looksAfter)
  {
    hide MarkerSteps;
    var steps: seq<Step> := [];
    for k := 0 to |markers|
      invariant AllMarkerSteps(markers[..k], looksAfter) == Ok(steps)
    {
      assert markers[..k + 1][..k] == markers[..k];
      var more := BuildMarker(markers[k], looksAfter);
      if more.Err? {
        FailureStays(markers, looksAfter, k + 1);
        return more;
      }
      steps := steps + more.value;
    }
    assert markers[..|markers|] == markers;
    return Ok(steps);
  }

  lemma FailureStaysOnce(markers: seq<Marker>, looksAfter: string -> seq<string>)
    requires markers != [] && AllMarkerSteps(markers[..|markers| - 1], looksAfter).Err?
    ensures AllMarkerSteps(markers, looksAfter) == AllMarkerSteps(markers[..|markers| - 1], looksAfter)
  {}

  lemma {:induction false} FailureStays(markers: seq<Marker>, looksAfter: string -> seq<string>, k: nat)
    requires k <= |markers| && AllMarkerSteps(markers[..k], looksAfter).Err?
    ensures AllMarkerSteps(markers, looksAfter) == AllMarkerSteps(markers[..k], looksAfter)
    decreases |markers|
  {
    if k == |markers| {
      assert markers[..k] == markers;
    } else {
      var front := markers[..|markers| - 1];
      assert front[..k] == markers[..k];
      FailureStays(front, looksAfter, k);
      FailureStaysOnce(markers, looksAfter);
    }
  }

  /** The hops a marker writes down: its path, its own control, and the clicks behind it. */
  function Written(m: Marker): seq<Hop> {
    ParsePath(m.viaPath) + [Hop(m.target, false)] + ParsePath(m.thenPath)
  }

  function AllWritten(markers: seq<Marker>): seq<Hop> {
    if markers == [] then [] else AllWritten(markers[..|markers| - 1]) + Written(markers[|markers| - 1])
  }

  lemma OwnStepWalks(target: string, via: seq<string>, pending: seq<Hop>)
    requires Detours(Selectors(pending)) == pending
    ensures Walked([Control(target, via, Selectors(pending))]) == pending + [Hop(target, false)]
  {
    var step := Control(target, via, Selectors(pending));
    assert [step][..0] == [];
  }

  /** A closed path's steps walk the whole path. */
  lemma ClosedIsWalked(path: seq<Hop>, looksAfter: string -> seq<string>)
    requires TrailingHops(path) == []
    ensures Walked(StepsOf(path, looksAfter)) == path
  {
    PathIsWalked(path, looksAfter);
    assert Walked(StepsOf(path, looksAfter)) + [] == Walked(StepsOf(path, looksAfter));
  }

  lemma MarkerIsWalked(m: Marker, looksAfter: string -> seq<string>)
    requires MarkerSteps(m, looksAfter).Ok?
    ensures Walked(MarkerSteps(m, looksAfter).value) == Written(m)
  {
    var path, onward := ParsePath(m.viaPath), ParsePath(m.thenPath);
    var before, behind := StepsOf(path, looksAfter), StepsOf(onward, looksAfter);
    PathIsWalked(path, looksAfter);
    TrailingOptional(onward);
    ClosedIsWalked(onward, looksAfter);
    TrailingOptional(path);
    OwnStepWalks(m.target, Required(path), TrailingHops(path));
    TakesUp(before, [OwnStep(m)], TrailingHops(path), Hop(m.target, false), path);
    WalkedJoins(before + [OwnStep(m)], behind);
  }

  lemma {:induction false} MarkersAreWalked(markers: seq<Marker>, looksAfter: string -> seq<string>)
    requires AllMarkerSteps(markers, looksAfter).Ok?
    ensures Walked(AllMarkerSteps(markers, looksAfter).value) == AllWritten(markers)
  {
    if markers != [] {
      var n := |markers| - 1;
      MarkersAreWalked(markers[..n], looksAfter);
      MarkerIsWalked(markers[n], looksAfter);
      WalkedJoins(AllMarkerSteps(markers[..n], looksAfter).value, MarkerSteps(markers[n], looksAfter).value);
    }
  }

  lemma HomeReads()
    ensures ParsePath(Some(HOME)) == [Hop(HOME, false)]
  {
    var hop := Hop(HOME, false);
    assert HOME[0] == '[' && HOME[|HOME| - 1] == ']';
    assert '>' !in HOME;
    hide StartsWith, ParsePath;
    forall k | 0 <= k < |HOME| ensures !StartsWith(HOME, k, ARROW) { ArrowAt(HOME, k); }
    assert Printable([hop][0]);
    assert PrintPath([hop]) == HOME;
    PathReadsBack([hop]);
  }

  lemma HomeIsClosed(first: Marker)
    requires HomePath(first).Ok?
    ensures TrailingHops(HomePath(first).value) == []
  {
    HomeReads();
    TrailingOptional(HomePath(first).value);
  }

  /**
   Going through a whole walkthrough, each step's detours and then its control, passes every
   hop the markers write down, in order, then the way back and the first control again.
   */
  lemma TourIsWalked(markers: seq<Marker>, looksAfter: string -> seq<string>, resultLooks: seq<string>)
    requires markers != [] && TourSteps(markers, looksAfter, resultLooks).Ok?
    ensures Walked(TourSteps(markers, looksAfter, resultLooks).value)
      == AllWritten(markers) + HomePath(markers[0]).value + [Hop(markers[0].target, false)]
  {
    var steps, home := AllMarkerSteps(markers, looksAfter).value, HomePath(markers[0]).value;
    var back, last := StepsOf(home, looksAfter), [Control(markers[0].target, Required(home), [])];
    MarkersAreWalked(markers, looksAfter);
    HomeIsClosed(markers[0]);
    ClosedIsWalked(home, looksAfter);
    LastStepWalks(markers[0].target, Required(home));
    LooksWalkNowhere(Looks(resultLooks));
    WalkedInTurn(steps, back, last, Looks(resultLooks), AllWritten(markers), home, [Hop(markers[0].target, false)]);
  }

  lemma WalkedInTurn(a: seq<Step>, b: seq<Step>, c: seq<Step>, looks: seq<Step>, p: seq<Hop>, q: seq<Hop>, r: seq<Hop>)
    requires Walked(a) == p && Walked(b) == q && Walked(c) == r && Walked(looks) == []
    ensures Walked(a + b + c + looks) == p + q + r
  {
    WalkedJoins(a, b);
    WalkedJoins(a + b, c);
    WalkedJoins(a + b + c, looks);
  }

  lemma LastStepWalks(target: string, via: seq<string>)
    ensures Walked([Control(target, via, [])]) == [Hop(target, false)]
  {
    assert Selectors([]) == [] && Detours([]) == [];
    OwnStepWalks(target, via, []);
  }

  /** The clicks behind the marker's own control end on an optional hop. */
  predicate Fails(m: Marker) { EndsOptional(ParsePath(m.thenPath)) }

  predicate AnyFails(markers: seq<Marker>) { exists k :: 0 <= k < |markers| && Fails(markers[k]) }

  /** A return path that is given, and is not the word for none, ends on an optional hop. */
  predicate ReturnFails(first: Marker) {
    first.returnPath.Some? && first.returnPath.value !in {"none", ""} && EndsOptional(ParsePath(first.returnPath))
  }

  /** A walkthrough is refused exactly when a path that must be closed ends on an optional hop. */
  lemma TourFailsIff(markers: seq<Marker>, looksAfter: string -> seq<string>, resultLooks: seq<string>)
    requires markers != []
    ensures TourSteps(markers, looksAfter, resultLooks).Err? <==> AnyFails(markers) || ReturnFails(markers[0])
  {
    MarkersFailIff(markers, looksAfter);
  }

  lemma {:induction false} MarkersFailIff(markers: seq<Marker>, looksAfter: string -> seq<string>)
    ensures AllMarkerSteps(markers, looksAfter).Err? <==> AnyFails(markers)
  {
    if markers != [] {
      var n := |markers| - 1;
      MarkersFailIff(markers[..n], looksAfter);
      FailsInFront(markers);
      assert MarkerSteps(markers[n], looksAfter).Err? <==> Fails(markers[n]);
    }
  }

  lemma FailsInFront(markers: seq<Marker>)
    requires markers != []
    ensures AnyFails(markers) <==> AnyFails(markers[..|markers| - 1]) || Fails(markers[|markers| - 1])
  {
    var front := markers[..|markers| - 1];
    assert forall k :: 0 <= k < |front| ==> front[k] == markers[k];
  }
}
