/**
 What it means for the tokens of scripts/release-safety-migrations.ts to be well nested,
 without a stack: brackets of a kind pair up around token lists that are well nested again.
 */
module Brackets {
  import opened Options
  import opened Lexer
  import opened Nesting
  import opened TokenSpelling

  predicate IsBracket(t: Token) { t.kind == Punctuation && t.value in {"(", ")", "[", "]", "{", "}"} }

  predicate IsPair(a: Token, b: Token) {
    && a.kind == b.kind == Punctuation
    && ((a.value == "(" && b.value == ")") || (a.value == "[" && b.value == "]") || (a.value == "{" && b.value == "}"))
  }

  ghost predicate IsNested(ts: seq<Token>)
    decreases |ts|, 1
  {
    || ts == []
    || (!IsBracket(ts[0]) && IsNested(ts[1..]))
    || exists j :: PairsWith(ts, j)
  }

  /** The first token opens what token `j` closes, and both what is between them and what is behind is well nested. */
  ghost predicate PairsWith(ts: seq<Token>, j: nat)
    decreases |ts|, 0
  {
    0 < j < |ts| && IsPair(ts[0], ts[j]) && IsNested(ts[1..j]) && IsNested(ts[j + 1..])
  }

  /** Nested tokens, what closes the innermost bracket of the stack, and so on until the stack is used up. */
  ghost predicate ClosesAll(stack: seq<char>, ts: seq<Token>)
    decreases |stack|
  {
    if stack == [] then IsNested(ts) else exists j :: ClosesNext(stack, ts, j)
  }

  ghost predicate ClosesNext(stack: seq<char>, ts: seq<Token>, j: nat)
    requires stack != []
    decreases |stack|, 0
  {
    && j < |ts| && IsNested(ts[..j]) && IsCloserOf(ts[j], stack[|stack| - 1])
    && ClosesAll(stack[..|stack| - 1], ts[j + 1..])
  }

  predicate IsCloserOf(t: Token, open: char) {
    t.kind == Punctuation && ((open == '(' && t.value == ")") || (open == '[' && t.value == "]") || (open == '{' && t.value == "}"))
  }

  predicate IsOpenerOf(t: Token, open: char) { t.kind == Punctuation && open in {'(', '[', '{'} && t.value == [open] }

  // ---- One token at a time --------------------------------------------------------------------

  /** What the stack becomes, unless a closer does not fit. */
  function Feed(stack: Option<seq<char>>, t: Token): Option<seq<char>> {
    if stack.None? || !ClosesInnermost(stack.value, t) then None else Some(After(stack.value, t))
  }

  function FeedAll(stack: Option<seq<char>>, ts: seq<Token>): Option<seq<char>>
    decreases |ts|
  {
    if ts == [] then stack else FeedAll(Feed(stack, ts[0]), ts[1..])
  }

  lemma {:induction false} FeedLast(stack: Option<seq<char>>, ts: seq<Token>, t: Token)
    ensures FeedAll(stack, ts + [t]) == Feed(FeedAll(stack, ts), t)
    decreases |ts|
  {
    if ts == [] {
      assert [] + [t] == [t] && [t][1..] == [];
    } else {
      assert (ts + [t])[1..] == ts[1..] + [t];
      FeedLast(Feed(stack, ts[0]), ts[1..], t);
    }
  }

  /** Feeding all tokens is what the stack of the tokenizer does. */
  lemma {:induction false} FeedIsStack(ts: seq<Token>)
    ensures FeedAll(Some([]), ts) == if Matched(ts) then Some(Stack(ts, |ts|)) else None
  {
    if ts != [] {
      var n := |ts| - 1;
      assert ts == ts[..n] + [ts[n]];
      FeedIsStack(ts[..n]);
      FeedLast(Some([]), ts[..n], ts[n]);
      MatchedAppend(ts[..n], ts[n]);
      StackAppend(ts[..n], ts[n]);
    }
  }

  lemma {:induction false} FeedTwice(stack: Option<seq<char>>, a: seq<Token>, b: seq<Token>)
    ensures FeedAll(stack, a + b) == FeedAll(FeedAll(stack, a), b)
    decreases |a|
  {
    if a == [] {
      assert a + b == b;
    } else {
      assert (a + b)[1..] == a[1..] + b;
      FeedTwice(Feed(stack, a[0]), a[1..], b);
    }
  }

  lemma FeedPlain(stack: seq<char>, t: Token)
    requires !IsBracket(t)
    ensures Feed(Some(stack), t) == Some(stack)
  {
    assert !Opens(t) && !Closes(t) by { PlainIsNone(t); }
  }

  lemma PlainIsNone(t: Token)
    ensures Opens(t) || Closes(t) <==> IsBracket(t)
  {
    if |t.value| == 1 { assert t.value == [t.value[0]]; }
  }

  lemma FeedPair(stack: seq<char>, a: Token, b: Token)
    requires IsPair(a, b)
    ensures Feed(Some(stack), a) == Some(stack + [a.value[0]])
    ensures Feed(Some(stack + [a.value[0]]), b) == Some(stack)
  {
    assert (stack + [a.value[0]])[..|stack|] == stack;
  }

  /** Well nested tokens leave any stack as it is. */
  lemma {:induction false} NestedFeeds(ts: seq<Token>, stack: seq<char>)
    requires IsNested(ts)
    ensures FeedAll(Some(stack), ts) == Some(stack)
    decreases |ts|
  {
    hide Feed;
    if ts != [] {
      if !IsBracket(ts[0]) && IsNested(ts[1..]) {
        FeedPlain(stack, ts[0]);
        NestedFeeds(ts[1..], stack);
      } else {
        var j: nat :| PairsWith(ts, j);
        FeedPair(stack, ts[0], ts[j]);
        NestedFeeds(ts[1..j], stack + [ts[0].value[0]]);
        NestedFeeds(ts[j + 1..], stack);
        assert ts[1..] == ts[1..j] + ts[j..] && ts[j..][1..] == ts[j + 1..];
        FeedTwice(Some(stack + [ts[0].value[0]]), ts[1..j], ts[j..]);
      }
    }
  }

  // ---- The other way ----------------------------------------------------------------------------

  lemma NothingNested()
    ensures IsNested([])
  {}

  lemma PlainInFront(t: Token, m: seq<Token>)
    requires !IsBracket(t) && IsNested(m)
    ensures IsNested([t] + m)
  {
    assert ([t] + m)[1..] == m;
  }

  lemma PairInFront(a: Token, inner: seq<Token>, b: Token, m: seq<Token>)
    requires IsPair(a, b) && IsNested(inner) && IsNested(m)
    ensures IsNested([a] + inner + [b] + m)
  {
    var ts, j := [a] + inner + [b] + m, |inner| + 1;
    assert ts[1..j] == inner && ts[j + 1..] == m && ts[j] == b;
    assert PairsWith(ts, j);
  }

  /** Tokens that may stand in front of well nested ones may stand in front of ones that close a stack. */
  lemma FrontCloses(front: seq<Token>, stack: seq<char>, ts: seq<Token>)
    requires (forall m :: IsNested(m) ==> IsNested(front + m)) && ClosesAll(stack, ts)
    ensures ClosesAll(stack, front + ts)
  {
    if stack != [] {
      var j: nat :| ClosesNext(stack, ts, j);
      var all := front + ts;
      assert all[..|front| + j] == front + ts[..j] && all[|front| + j + 1..] == ts[j + 1..];
      assert ClosesNext(stack, all, |front| + j);
    }
  }

  lemma CloserFirst(t: Token, stack: seq<char>, ts: seq<Token>)
    requires stack != [] && IsCloserOf(t, stack[|stack| - 1]) && ClosesAll(stack[..|stack| - 1], ts)
    ensures ClosesAll(stack, [t] + ts)
  {
    NothingNested();
    var all := [t] + ts;
    assert all[..0] == [] && all[1..] == ts;
    assert ClosesNext(stack, all, 0);
  }

  lemma OpenerFirst(t: Token, open: char, stack: seq<char>, ts: seq<Token>)
    requires IsOpenerOf(t, open) && ClosesAll(stack + [open], ts)
    ensures ClosesAll(stack, [t] + ts)
  {
    var more := stack + [open];
    assert more[..|stack|] == stack;
    var j: nat :| ClosesNext(more, ts, j);
    var front := [t] + ts[..j] + [ts[j]];
    forall m | IsNested(m) ensures IsNested(front + m) { PairInFront(t, ts[..j], ts[j], m); }
    FrontCloses(front, stack, ts[j + 1..]);
    assert front + ts[j + 1..] == [t] + ts;
  }

  lemma {:induction false} FedCloses(stack: seq<char>, ts: seq<Token>)
    requires FeedAll(Some(stack), ts) == Some([])
    ensures ClosesAll(stack, ts)
    decreases |ts|
  {
    hide ClosesAll, IsNested;
    if ts == [] {
      NothingNested();
      NothingCloses();
    } else {
      var t, rest := ts[0], ts[1..];
      assert ts == [t] + rest;
      PlainIsNone(t);
      NoneFails(rest);
      var next := Feed(Some(stack), t).value;
      FedCloses(next, rest);
      if !IsBracket(t) {
        FeedPlain(stack, t);
        forall m | IsNested(m) ensures IsNested([t] + m) { PlainInFront(t, m); }
        FrontCloses([t], stack, rest);
      } else if Opens(t) {
        OpenerFirst(t, t.value[0], stack, rest);
      } else {
        CloserFirst(t, stack, rest);
      }
    }
  }

  lemma NothingCloses()
    ensures ClosesAll([], [])
  {}

  lemma {:induction false} NoneFails(ts: seq<Token>)
    ensures FeedAll(None, ts) == None
  {
    if ts != [] { NoneFails(ts[1..]); }
  }

  /** Delimiters are balanced exactly when the tokens are well nested. */
  lemma BalancedExactly(ts: seq<Token>)
    ensures Balanced(ts) <==> IsNested(ts)
  {
    FeedIsStack(ts);
    if IsNested(ts) { NestedFeeds(ts, []); }
    if Balanced(ts) { FedCloses([], ts); }
  }

  /** The text is valid exactly when it was read to its end, its brackets are nested and something stands behind every `=`. */
  lemma ValidExactly(ts: seq<Token>, complete: bool)
    ensures WellFormed(ts, complete) <==>
      && complete && IsNested(ts)
      && forall k :: IsOperator(ts, k, "=") ==>
          k + 1 < |ts| && !(ts[k + 1].kind == Punctuation && ts[k + 1].value in {")", "]", "}", ",", ";"})
  {
    hide Matched, Stack, IsNested;
    BalancedExactly(ts);
    forall k | 0 <= k < |ts|
      ensures !DanglingAssignment(ts, k) <==>
        (IsOperator(ts, k, "=") ==> k + 1 < |ts| && !(ts[k + 1].kind == Punctuation && ts[k + 1].value in {")", "]", "}", ",", ";"})) {}
  }

  // ---- Depth ----------------------------------------------------------------------------------------

  function Openers(ts: seq<Token>, k: nat): nat
    requires k <= |ts|
  {
    if k == 0 then 0 else Openers(ts, k - 1) + (if ts[k - 1].kind == Punctuation && ts[k - 1].value in {"(", "[", "{"} then 1 else 0)
  }

  function Closers(ts: seq<Token>, k: nat): nat
    requires k <= |ts|
  {
    if k == 0 then 0 else Closers(ts, k - 1) + (if ts[k - 1].kind == Punctuation && ts[k - 1].value in {")", "]", "}"} then 1 else 0)
  }

  lemma {:induction false} StackCounts(ts: seq<Token>, k: nat)
    requires k <= |ts| && Matched(ts)
    ensures |Stack(ts, k)| == Openers(ts, k) - Closers(ts, k)
  {
    if k > 0 {
      StackCounts(ts, k - 1);
      assert MatchedAt(ts, k - 1);
      var t := ts[k - 1];
      if |t.value| == 1 { assert t.value == [t.value[0]]; }
    }
  }

  /** A token is as deep as brackets are open around it: those opened before it and not closed before or by it. */
  lemma DepthCounts(ts: seq<Token>, k: nat)
    requires k < |ts| && Matched(ts) && DepthsRecorded(ts)
    ensures ts[k].depth == Openers(ts, k) - Closers(ts, k + 1)
  {
    StackCounts(ts, k);
    StackCounts(ts, k + 1);
    var t := ts[k];
    if |t.value| == 1 { assert t.value == [t.value[0]]; }
  }
}
