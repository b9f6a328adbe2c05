/**
 Finding the partner of a bracket by counting one kind of bracket, and the body
 of the migration's `up` function. Counting one kind is only right because the
 other kinds are balanced in between; that is what is proved here.
 */
module Nesting {
  import opened Options
  import opened Lexer
  import opened TokenSpelling

  /** A punctuation token that is exactly the mark `c`. */
  predicate IsMark(t: Token, c: char) { t.kind == Punctuation && t.value == [c] }

  /** How far `open` outnumbers `close` among the tokens from `lo` up to `hi`. */
  function Net(tokens: seq<Token>, lo: nat, hi: nat, open: char, close: char): int
    requires lo <= hi <= |tokens|
    decreases hi
  {
    if lo == hi then 0
    else
      Net(tokens, lo, hi - 1, open, close)
      + (if IsMark(tokens[hi - 1], open) then 1 else 0)
      - (if IsMark(tokens[hi - 1], close) then 1 else 0)
  }

  /** `j` is the first token from `i` on at which the count is back to zero. */
  predicate FirstReturn(tokens: seq<Token>, i: nat, j: nat, open: char, close: char) {
    && i <= j < |tokens|
    && Net(tokens, i, j + 1, open, close) == 0
    && forall m :: i < m <= j ==> Net(tokens, i, m, open, close) != 0
  }

  /** The same search from a position where `depth` marks are already open. */
  function MatchFrom(tokens: seq<Token>, k: nat, depth: int, open: char, close: char): (r: Option<nat>)
    ensures r.Some? ==> k <= r.value < |tokens|
    decreases |tokens| - k
  {
    if k >= |tokens| then None
    else
      var depth' := depth
        + (if IsMark(tokens[k], open) then 1 else 0)
        - (if IsMark(tokens[k], close) then 1 else 0);
      if depth' == 0 then Some(k) else MatchFrom(tokens, k + 1, depth', open, close)
  }

  function Match(tokens: seq<Token>, i: nat, open: char, close: char): (r: Option<nat>)
    ensures r.Some? ==> i <= r.value < |tokens|
    ensures r.Some? && IsMark(tokens[i], open) && open != close ==> i < r.value
  {
    MatchFrom(tokens, i, 0, open, close)
  }

  method FindMatching(tokens: seq<Token>, openingIndex: nat, opening: char, closing: char)
    returns (r: Option<nat>)
    ensures r == Match(tokens, openingIndex, opening, closing)
  {
    var depth := 0;
    var index := openingIndex;
    while index < |tokens|
      invariant openingIndex <= index
      invariant MatchFrom(tokens, index, depth, opening, closing) == Match(tokens, openingIndex, opening, closing)
    {
      if IsMark(tokens[index], opening) { depth := depth + 1; }
      if IsMark(tokens[index], closing) { depth := depth - 1; }
      if depth == 0 { return Some(index); }
      index := index + 1;
    }
    return None;
  }

  lemma {:induction false} MatchFromIsFirstReturn(tokens: seq<Token>, i: nat, k: nat, open: char, close: char)
    requires i <= k <= |tokens|
    requires forall m :: i < m <= k ==> Net(tokens, i, m, open, close) != 0
    ensures var r := MatchFrom(tokens, k, Net(tokens, i, k, open, close), open, close);
      && (r.Some? ==> FirstReturn(tokens, i, r.value, open, close))
      && (r.None? ==> forall m :: i < m <= |tokens| ==> Net(tokens, i, m, open, close) != 0)
    decreases |tokens| - k
  {
    if k < |tokens| && Net(tokens, i, k + 1, open, close) != 0 {
      MatchFromIsFirstReturn(tokens, i, k + 1, open, close);
    }
  }

  /** The search returns exactly the first position where the count is back to zero. */
  lemma MatchIsFirstReturn(tokens: seq<Token>, i: nat, j: nat, open: char, close: char)
    requires i < |tokens|
    ensures Match(tokens, i, open, close) == Some(j) <==> FirstReturn(tokens, i, j, open, close)
  {
    MatchFromIsFirstReturn(tokens, i, i, open, close);
  }

  // ---- The stack partner -------------------------------------------------------

  function Occurrences(stack: seq<char>, c: char): nat {
    if stack == [] then 0
    else Occurrences(stack[..|stack| - 1], c) + (if stack[|stack| - 1] == c then 1 else 0)
  }

  lemma OccursOnce(stack: seq<char>, c: char)
    requires c in stack
    ensures Occurrences(stack, c) > 0
  {}

  /** The delimiter opened by token `i` stays open up to token `k`. */
  predicate StaysOpen(tokens: seq<Token>, i: nat, k: nat)
    requires i < k <= |tokens|
  {
    forall m :: i < m <= k ==> |Stack(tokens, m)| > |Stack(tokens, i)|
  }

  /** While a delimiter is open, what is below it is untouched and one count tracks its own kind. */
  lemma {:induction false} WhileOpen(tokens: seq<Token>, i: nat, k: nat)
    requires i < k <= |tokens| && Opens(tokens[i]) && Matched(tokens) && StaysOpen(tokens, i, k)
    ensures var open := tokens[i].value[0];
      var before := Stack(tokens, i);
      && before + [open] <= Stack(tokens, k)
      && Net(tokens, i, k, open, ClosingFor(open)) == Occurrences(Stack(tokens, k)[|before|..], open) > 0
    decreases k
  {
    var open := tokens[i].value[0];
    var before := Stack(tokens, i);
    assert tokens[i].value == [open];
    if k == i + 1 {
      assert Stack(tokens, k) == before + [open];
      assert Stack(tokens, k)[|before|..] == [open];
    } else {
      assert StaysOpen(tokens, i, k - 1);
      WhileOpen(tokens, i, k - 1);
      assert MatchedAt(tokens, k - 1);
      assert |Stack(tokens, k)| > |before|;
      OneStep(Stack(tokens, k - 1), tokens[k - 1], before, open);
    }
    assert Stack(tokens, k)[|before|..][0] == open;
    OccursOnce(Stack(tokens, k)[|before|..], open);
  }

  /** One token changes the count of `open` above `before` exactly as the counter does. */
  lemma OneStep(stack: seq<char>, t: Token, before: seq<char>, open: char)
    requires IsOpening(open) && before + [open] <= stack && ClosesInnermost(stack, t)
    requires |After(stack, t)| > |before|
    ensures before + [open] <= After(stack, t)
    ensures Occurrences(After(stack, t)[|before|..], open) == Occurrences(stack[|before|..], open)
      + (if IsMark(t, open) then 1 else 0) - (if IsMark(t, ClosingFor(open)) then 1 else 0)
  {
    var above, above' := stack[|before|..], After(stack, t)[|before|..];
    if Closes(t) {
      assert t.value == [t.value[0]];
      assert above' == above[..|above| - 1];
      assert above[|above| - 1] == OpeningFor(t.value[0]);
    } else if Opens(t) {
      assert t.value == [t.value[0]];
      assert above' == above + [t.value[0]];
      assert above'[..|above'| - 1] == above;
    }
  }

  /** `j` closes what `i` opened: all tokens between are deeper, and the stack is back as it was. */
  predicate IsPartner(tokens: seq<Token>, i: nat, j: nat)
    requires i < |tokens| && Opens(tokens[i])
  {
    && i < j < |tokens|
    && IsMark(tokens[j], ClosingFor(tokens[i].value[0]))
    && tokens[j].depth == tokens[i].depth
    && (forall k :: i < k < j ==> tokens[k].depth > tokens[i].depth)
    && Stack(tokens, j + 1) == Stack(tokens, i)
  }

  /** The token that brings the stack back to where token `i` found it. */
  lemma {:induction false} FindClosing(tokens: seq<Token>, i: nat, k: nat) returns (j: nat)
    requires i < k <= |tokens| && Opens(tokens[i]) && Matched(tokens) && Stack(tokens, |tokens|) == []
    requires StaysOpen(tokens, i, k)
    ensures k <= j < |tokens| && StaysOpen(tokens, i, j) && |Stack(tokens, j + 1)| <= |Stack(tokens, i)|
    decreases |tokens| - k
  {
    if k == |tokens| {
      assert false;
    } else if |Stack(tokens, k + 1)| <= |Stack(tokens, i)| {
      j := k;
    } else {
      j := FindClosing(tokens, i, k + 1);
    }
  }

  /** For tokens the tokenizer calls valid, counting one kind of bracket finds the stack partner. */
  lemma MatchingFindsPartner(tokens: seq<Token>, i: nat) returns (j: nat)
    requires i < |tokens| && Opens(tokens[i])
    requires Matched(tokens) && DepthsRecorded(tokens) && Stack(tokens, |tokens|) == []
    ensures var open := tokens[i].value[0]; Match(tokens, i, open, ClosingFor(open)) == Some(j)
    ensures IsPartner(tokens, i, j) && StaysOpen(tokens, i, j)
  {
    var open := tokens[i].value[0];
    var before := Stack(tokens, i);
    assert Stack(tokens, i + 1) == before + [open];
    j := FindClosing(tokens, i, i + 1);
    WhileOpen(tokens, i, j);
    ClosingStep(tokens, i, j);
    forall m | i < m <= j ensures Net(tokens, i, m, open, ClosingFor(open)) != 0 {
      assert StaysOpen(tokens, i, m);
      WhileOpen(tokens, i, m);
    }
    MatchIsFirstReturn(tokens, i, j, open, ClosingFor(open));
    DeeperInside(tokens, i, j);
  }

  /** The token that closes token `i` is its own kind of bracket, and brings the count to zero. */
  lemma ClosingStep(tokens: seq<Token>, i: nat, j: nat)
    requires i < j < |tokens| && Opens(tokens[i]) && Matched(tokens)
    requires StaysOpen(tokens, i, j) && |Stack(tokens, j + 1)| <= |Stack(tokens, i)|
    ensures var open := tokens[i].value[0];
      && IsMark(tokens[j], ClosingFor(open))
      && Stack(tokens, j + 1) == Stack(tokens, i)
      && Net(tokens, i, j + 1, open, ClosingFor(open)) == 0
  {
    var open := tokens[i].value[0];
    var before := Stack(tokens, i);
    WhileOpen(tokens, i, j);
    assert MatchedAt(tokens, j);
    assert |Stack(tokens, j)| == |before| + 1;
    assert Stack(tokens, j) == before + [open];
    assert Stack(tokens, j)[|before|..] == [open];
    assert Occurrences([open], open) == 1;
    assert tokens[j].value == [tokens[j].value[0]];
  }

  lemma DeeperInside(tokens: seq<Token>, i: nat, j: nat)
    requires i < j < |tokens| && Opens(tokens[i]) && Closes(tokens[j]) && DepthsRecorded(tokens)
    requires StaysOpen(tokens, i, j) && Stack(tokens, j + 1) == Stack(tokens, i)
    ensures tokens[j].depth == tokens[i].depth
    ensures forall k :: i < k < j ==> tokens[k].depth > tokens[i].depth
  {
    assert tokens[i].depth == DepthAt(tokens, i);
    assert tokens[j].depth == DepthAt(tokens, j);
    forall k | i < k < j ensures tokens[k].depth > tokens[i].depth {
      assert tokens[k].depth == DepthAt(tokens, k);
      assert |Stack(tokens, k)| > |Stack(tokens, i)| && |Stack(tokens, k + 1)| > |Stack(tokens, i)|;
    }
  }

  // ---- A slice between partners is balanced ------------------------------------

  /** Reading only the tokens after `i` gives the stack above `i`'s own delimiter. */
  lemma {:induction false} SliceStack(tokens: seq<Token>, i: nat, j: nat, m: nat)
    requires i < j <= |tokens| && Opens(tokens[i]) && Matched(tokens) && StaysOpen(tokens, i, j)
    requires i + 1 + m <= j
    ensures Stack(tokens, i) + [tokens[i].value[0]] + Stack(tokens[i + 1..j], m) == Stack(tokens, i + 1 + m)
    decreases m
  {
    var slice := tokens[i + 1..j];
    if m > 0 {
      SliceStack(tokens, i, j, m - 1);
      var base := Stack(tokens, i) + [tokens[i].value[0]];
      var inner := Stack(slice, m - 1);
      assert slice[m - 1] == tokens[i + m];
      assert |Stack(tokens, i + 1 + m)| > |Stack(tokens, i)|;
      assert Stack(tokens, i + m) == base + inner;
      if Closes(tokens[i + m]) {
        assert inner != [];
        assert base + inner[..|inner| - 1] == (base + inner)[..|base + inner| - 1];
      } else if Opens(tokens[i + m]) {
        assert base + (inner + [tokens[i + m].value[0]]) == (base + inner) + [tokens[i + m].value[0]];
      }
    }
  }

  /** The tokens between a bracket and its partner are themselves well nested. */
  lemma SliceIsBalanced(tokens: seq<Token>, i: nat, j: nat)
    requires i < |tokens| && Opens(tokens[i]) && Matched(tokens)
    requires IsPartner(tokens, i, j) && StaysOpen(tokens, i, j)
    ensures Matched(tokens[i + 1..j]) && Stack(tokens[i + 1..j], j - i - 1) == []
  {
    var slice := tokens[i + 1..j];
    var base := Stack(tokens, i) + [tokens[i].value[0]];
    forall m | 0 <= m < |slice| ensures MatchedAt(slice, m) {
      SliceStack(tokens, i, j, m);
      assert slice[m] == tokens[i + 1 + m];
      assert MatchedAt(tokens, i + 1 + m);
      if Closes(slice[m]) {
        assert |Stack(tokens, i + 2 + m)| > |Stack(tokens, i)|;
        var inner := Stack(slice, m);
        assert (base + inner)[|base + inner| - 1] == inner[|inner| - 1];
      }
    }
    SliceStack(tokens, i, j, j - i - 1);
    ClosingStep(tokens, i, j);
    WhileOpen(tokens, i, j);
    assert |Stack(tokens, j)| == |Stack(tokens, i)| + 1;
  }

  // ---- The body of `up` ------------------------------------------------------------

  predicate IsName(t: Token, name: string) { t.kind == Identifier && t.value == name }

  predicate IsTopLevelUp(t: Token) { t.depth == 0 && IsName(t, "up") }

  predicate IsTopLevelArrow(t: Token) { t.depth == 0 && t.kind == Operator && t.value == "=>" }

  predicate IsTopLevelBrace(t: Token) { t.depth == 0 && IsMark(t, '{') }

  /** Positions of the tokens that satisfy `p`, in order. */
  function Where(tokens: seq<Token>, p: Token -> bool): (r: seq<nat>)
    ensures forall k :: 0 <= k < |r| ==> r[k] < |tokens| && p(tokens[r[k]])
    ensures forall i :: 0 <= i < |tokens| && p(tokens[i]) ==> i in r
  {
    if tokens == [] then []
    else
      var last := |tokens| - 1;
      Where(tokens[..last], p) + (if p(tokens[last]) then [last] else [])
  }

  /** First position after `after` whose token satisfies `p`. */
  function FirstAfter(tokens: seq<Token>, after: nat, p: Token -> bool): (r: Option<nat>)
    ensures r.Some? ==> after < r.value < |tokens| && p(tokens[r.value])
    ensures r.Some? ==> forall k :: after < k < r.value ==> !p(tokens[k])
    ensures r.None? ==> forall k :: after < k < |tokens| ==> !p(tokens[k])
    decreases |tokens| - after
  {
    if after + 1 >= |tokens| then None
    else if p(tokens[after + 1]) then Some(after + 1)
    else FirstAfter(tokens, after + 1, p)
  }

  /** `function up` or `const up` with an arrow somewhere after it at the top level. */
  predicate DeclaresUp(tokens: seq<Token>, up: nat)
    requires up < |tokens|
  {
    && up > 0
    && (IsName(tokens[up - 1], "function")
        || (IsName(tokens[up - 1], "const")
            && FirstAfter(tokens, up, IsTopLevelArrow).Some?))
  }

  function FindUpBody(tokens: seq<Token>): Option<seq<Token>> {
    var ups := Where(tokens, IsTopLevelUp);
    if |ups| != 1 || !DeclaresUp(tokens, ups[0]) then None
    else
      match FirstAfter(tokens, ups[0], IsTopLevelBrace)
      case None => None
      case Some(opening) =>
        var closing := Match(tokens, opening, '{', '}');
        if closing.None? then None
        else Some(tokens[opening + 1..closing.value])
  }

  /** A token sequence that is well nested on its own. */
  predicate Balanced(tokens: seq<Token>) {
    Matched(tokens) && Stack(tokens, |tokens|) == []
  }

  /** There is one top-level `up`, and the body stands from the first top-level brace behind it to that brace's match. */
  lemma UpBodyOpens(tokens: seq<Token>) returns (up: nat, opening: nat)
    requires FindUpBody(tokens).Some?
    ensures up < opening < |tokens|
    ensures forall k :: 0 <= k < |tokens| ==> (IsTopLevelUp(tokens[k]) <==> k == up)
    ensures Opens(tokens[opening]) && tokens[opening].value == "{" && tokens[opening].depth == 0
    ensures Match(tokens, opening, '{', '}').Some?
    ensures FindUpBody(tokens).value == tokens[opening + 1..Match(tokens, opening, '{', '}').value]
  {
    hide IsTopLevelUp, DeclaresUp;
    var ups := Where(tokens, IsTopLevelUp);
    up := ups[0];
    opening := FirstAfter(tokens, up, IsTopLevelBrace).value;
    forall k | 0 <= k < |tokens| ensures IsTopLevelUp(tokens[k]) <==> k == up {
      if IsTopLevelUp(tokens[k]) { assert k in ups; }
    }
  }

  /**
   In a valid source the body of `up` is what stands between the first top-level `{`
   after the one declaration of `up` and that brace's own partner. It is balanced, and
   all of it is nested.
   */
  lemma UpBodyIsTheBlock(tokens: seq<Token>) returns (up: nat, opening: nat, closing: nat)
    requires Balanced(tokens) && DepthsRecorded(tokens)
    requires FindUpBody(tokens).Some?
    ensures var body := FindUpBody(tokens).value;
      && up < opening < closing < |tokens|
      && (forall k :: 0 <= k < |tokens| ==> (IsTopLevelUp(tokens[k]) <==> k == up))
      && Opens(tokens[opening]) && tokens[opening].value == "{" && tokens[opening].depth == 0
      && IsPartner(tokens, opening, closing)
      && body == tokens[opening + 1..closing]
      && Balanced(body)
      && forall k :: 0 <= k < |body| ==> body[k].depth >= 1
  {
    hide Matched, Stack, DepthsRecorded, FindUpBody, IsTopLevelUp;
    up, opening := UpBodyOpens(tokens);
    closing := MatchingFindsPartner(tokens, opening);
    SliceIsBalanced(tokens, opening, closing);
  }

  predicate IsTopLevel(tokens: seq<Token>, k: int) { 0 <= k < |tokens| && tokens[k].depth == 0 }

  /** `up` names the one top-level `up`, behind `function`, or behind `const` with an arrow further on. */
  ghost predicate IsTheUp(tokens: seq<Token>, up: nat) {
    && (forall k :: IsTopLevel(tokens, k) && IsIdentifier(tokens, k, "up") <==> k == up)
    && (|| IsIdentifier(tokens, up - 1, "function")
        || (IsIdentifier(tokens, up - 1, "const")
            && exists k :: up < k && IsTopLevel(tokens, k) && IsOperator(tokens, k, "=>")))
  }

  /** The first top-level brace behind `up`. */
  ghost predicate IsItsBrace(tokens: seq<Token>, up: nat, opening: nat) {
    && up < opening && IsTopLevel(tokens, opening) && IsPunctuation(tokens, opening, "{")
    && forall k :: up < k < opening ==> !(IsTopLevel(tokens, k) && IsPunctuation(tokens, k, "{"))
  }

  /** The body of `up`: what stands between its brace and that brace's own partner. */
  ghost predicate IsUpBody(tokens: seq<Token>, body: seq<Token>) {
    exists up, opening, closing :: IsUpBodyAt(tokens, up, opening, closing, body)
  }

  ghost predicate IsUpBodyAt(tokens: seq<Token>, up: nat, opening: nat, closing: nat, body: seq<Token>) {
    && IsTheUp(tokens, up) && IsItsBrace(tokens, up, opening) && Opens(tokens[opening])
    && IsPartner(tokens, opening, closing) && body == tokens[opening + 1..closing]
  }

  lemma {:induction false} OnlyOne(tokens: seq<Token>, p: Token -> bool, k: nat)
    requires k < |tokens| && forall i :: 0 <= i < |tokens| ==> (p(tokens[i]) <==> i == k)
    ensures Where(tokens, p) == [k]
  {
    var last := |tokens| - 1;
    if k < last {
      OnlyOne(tokens[..last], p, k);
    } else {
      NoneOf(tokens[..last], p);
    }
  }

  lemma NoneOf(tokens: seq<Token>, p: Token -> bool)
    requires forall i :: 0 <= i < |tokens| ==> !p(tokens[i])
    ensures Where(tokens, p) == []
  {}

  lemma TheUp(tokens: seq<Token>, up: nat)
    ensures IsTheUp(tokens, up) <==>
      var ups := Where(tokens, IsTopLevelUp); |ups| == 1 && ups[0] == up && DeclaresUp(tokens, up)
  {
    var ups := Where(tokens, IsTopLevelUp);
    if IsTheUp(tokens, up) {
      assert IsTopLevel(tokens, up) && IsIdentifier(tokens, up, "up");
      forall i | 0 <= i < |tokens| ensures IsTopLevelUp(tokens[i]) <==> i == up {
        assert IsTopLevel(tokens, i) && IsIdentifier(tokens, i, "up") <==> i == up;
      }
      OnlyOne(tokens, IsTopLevelUp, up);
      UpDeclared(tokens, up);
    } else if |ups| == 1 && ups[0] == up && DeclaresUp(tokens, up) {
      UpDeclared(tokens, up);
      forall k ensures IsTopLevel(tokens, k) && IsIdentifier(tokens, k, "up") <==> k == up {
        if 0 <= k < |tokens| && IsTopLevelUp(tokens[k]) { assert k in ups; }
      }
    }
  }

  lemma UpDeclared(tokens: seq<Token>, up: nat)
    requires up < |tokens|
    ensures DeclaresUp(tokens, up) <==>
      || IsIdentifier(tokens, up - 1, "function")
      || (IsIdentifier(tokens, up - 1, "const") && exists k :: up < k && IsTopLevel(tokens, k) && IsOperator(tokens, k, "=>"))
  {
    var arrow := FirstAfter(tokens, up, IsTopLevelArrow);
    if arrow.Some? { assert IsTopLevel(tokens, arrow.value) && IsOperator(tokens, arrow.value, "=>"); }
  }

  lemma ItsBrace(tokens: seq<Token>, up: nat, opening: nat)
    ensures IsItsBrace(tokens, up, opening) <==> FirstAfter(tokens, up, IsTopLevelBrace) == Some(opening)
  {
    var first := FirstAfter(tokens, up, IsTopLevelBrace);
    if IsItsBrace(tokens, up, opening) { assert IsTopLevelBrace(tokens[opening]); }
    if first.Some? { assert IsPunctuation(tokens, first.value, "{"); }
  }

  /** In a valid source the body is found exactly when there is one, and it is that one. */
  lemma UpBodyExactly(tokens: seq<Token>, body: seq<Token>)
    requires Balanced(tokens) && DepthsRecorded(tokens)
    ensures FindUpBody(tokens) == Some(body) <==> IsUpBody(tokens, body)
  {
    hide Matched, Stack, DepthsRecorded, IsTheUp, IsItsBrace, IsPartner, IsTopLevelUp, DeclaresUp;
    if IsUpBody(tokens, body) {
      var up, opening, closing :| IsUpBodyAt(tokens, up, opening, closing, body);
      TheUp(tokens, up);
      ItsBrace(tokens, up, opening);
      var found := MatchingFindsPartner(tokens, opening);
      PartnersAgree(tokens, opening, closing, found);
    }
    if FindUpBody(tokens) == Some(body) {
      var up := Where(tokens, IsTopLevelUp)[0];
      var opening := FirstAfter(tokens, up, IsTopLevelBrace).value;
      TheUp(tokens, up);
      ItsBrace(tokens, up, opening);
      var closing := MatchingFindsPartner(tokens, opening);
      assert IsUpBodyAt(tokens, up, opening, closing, body);
    }
  }

  /** A bracket has one partner: whatever is behind it is at the same depth or further on. */
  lemma PartnersAgree(tokens: seq<Token>, i: nat, j: nat, k: nat)
    requires i < |tokens| && Opens(tokens[i]) && IsPartner(tokens, i, j) && IsPartner(tokens, i, k)
    ensures j == k
  {}

  /** A brace that opens in a valid source always closes, so only the grammar can hide the body. */
  lemma UpBodyFound(tokens: seq<Token>)
    requires Balanced(tokens) && DepthsRecorded(tokens)
    ensures FindUpBody(tokens).Some? <==>
      exists up, k :: IsTheUp(tokens, up) && up < k && IsTopLevel(tokens, k) && IsPunctuation(tokens, k, "{")
  {
    hide IsTheUp, DeclaresUp, IsTopLevelUp;
    forall up: nat { TheUp(tokens, up); }
    if FindUpBody(tokens).Some? {
      var up := Where(tokens, IsTopLevelUp)[0];
      var opening := FirstAfter(tokens, up, IsTopLevelBrace).value;
      assert IsTheUp(tokens, up) && up < opening && IsTopLevel(tokens, opening) && IsPunctuation(tokens, opening, "{");
    }
    if up, k :| IsTheUp(tokens, up) && up < k && IsTopLevel(tokens, k) && IsPunctuation(tokens, k, "{") {
      assert IsTopLevelBrace(tokens[k]);
      var first := FirstAfter(tokens, up, IsTopLevelBrace);
      var closing := MatchingFindsPartner(tokens, first.value);
    }
  }
}
