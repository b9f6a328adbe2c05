/** Finite directed graphs without cycles: they can be ranked, and every part of one has a sink. */
module Graphs {
  import opened Sequences

  ghost predicate IsWalk<T(!new)>(edge: (T, T) -> bool, p: seq<T>) {
    forall i :: 0 <= i < |p| - 1 ==> edge(p[i], p[i + 1])
  }

  ghost predicate IsCycle<T(!new)>(edge: (T, T) -> bool, nodes: set<T>, p: seq<T>) {
    |p| >= 2 && p[0] == p[|p| - 1] && (forall x :: x in p ==> x in nodes) && IsWalk(edge, p)
  }

  ghost predicate Acyclic<T(!new)>(edge: (T, T) -> bool, nodes: set<T>) {
    forall p :: !IsCycle(edge, nodes, p)
  }

  /** A node of `part` that has no edge into it. */
  ghost predicate IsSink<T(!new)>(edge: (T, T) -> bool, part: set<T>, x: T) {
    x in part && forall y :: y in part ==> !edge(x, y)
  }

  lemma WalkGrows<T(!new)>(edge: (T, T) -> bool, q: seq<T>, y: T)
    requires q != [] && IsWalk(edge, q) && edge(q[|q| - 1], y)
    ensures IsWalk(edge, q + [y])
  {
    var p := q + [y];
    forall i | 0 <= i < |p| - 1 ensures edge(p[i], p[i + 1]) {
      assert i < |q| - 1 ==> edge(q[i], q[i + 1]);
    }
  }

  /** Without a sink a walk can always go on. */
  lemma {:induction false} LongWalk<T(!new)>(edge: (T, T) -> bool, part: set<T>, n: nat) returns (p: seq<T>)
    requires part != {} && forall x :: x in part ==> !IsSink(edge, part, x)
    ensures |p| == n + 1 && (forall x :: x in p ==> x in part) && IsWalk(edge, p)
  {
    if n == 0 {
      var x :| x in part;
      p := [x];
    } else {
      var q := LongWalk(edge, part, n - 1);
      var last := q[|q| - 1];
      assert last in part && !IsSink(edge, part, last);
      var y :| y in part && edge(last, y);
      p := q + [y];
      WalkGrows(edge, q, y);
    }
  }

  lemma CycleInWalk<T(!new)>(edge: (T, T) -> bool, nodes: set<T>, p: seq<T>, i: nat, j: nat)
    requires IsWalk(edge, p) && i < j < |p| && p[i] == p[j] && forall x :: x in p ==> x in nodes
    ensures IsCycle(edge, nodes, p[i..j + 1])
  {
    var cycle := p[i..j + 1];
    forall k | 0 <= k < |cycle| - 1 ensures edge(cycle[k], cycle[k + 1]) {
      assert edge(p[i + k], p[i + k + 1]);
    }
  }

  lemma SinkExists<T(!new)>(edge: (T, T) -> bool, nodes: set<T>, part: set<T>)
    requires Acyclic(edge, nodes) && part <= nodes && part != {}
    ensures exists x :: IsSink(edge, part, x)
  {
    if forall x :: x in part ==> !IsSink(edge, part, x) {
      var p := LongWalk(edge, part, |part|);
      if NoRepeats(p) {
        NoRepeatsFit(p, part);
        assert false;
      }
      var i, j :| 0 <= i < j < |p| && p[i] == p[j];
      CycleInWalk(edge, nodes, p, i, j);
    }
  }

  /** Every edge between ranked nodes leads to a lower rank. */
  ghost predicate Ranks<T(!new)>(edge: (T, T) -> bool, nodes: set<T>, ranks: map<T, nat>) {
    ranks.Keys == nodes && forall x, y :: x in nodes && y in nodes && edge(x, y) ==> ranks[y] < ranks[x]
  }

  ghost predicate Below<T(!new)>(ranks: map<T, nat>, limit: nat) {
    forall x :: x in ranks ==> ranks[x] < limit
  }

  lemma {:induction false} RankingExists<T(!new)>(edge: (T, T) -> bool, all: set<T>, nodes: set<T>) returns (ranks: map<T, nat>)
    requires Acyclic(edge, all) && nodes <= all
    ensures Ranks(edge, nodes, ranks) && Below(ranks, |nodes|)
    decreases |nodes|
  {
    if nodes == {} {
      ranks := map[];
    } else {
      SinkExists(edge, all, nodes);
      var sink :| IsSink(edge, nodes, sink);
      var rest := RankingExists(edge, all, nodes - {sink});
      ranks := map x | x in nodes :: if x == sink then 0 else rest[x] + 1;
      assert |nodes - {sink}| == |nodes| - 1;
    }
  }

  lemma {:induction false} RanksFallAlongWalk<T(!new)>(edge: (T, T) -> bool, nodes: set<T>, ranks: map<T, nat>, p: seq<T>, k: nat)
    requires Ranks(edge, nodes, ranks) && IsWalk(edge, p) && 0 < k < |p| && forall x :: x in p ==> x in nodes
    ensures ranks[p[k]] < ranks[p[0]]
  {
    assert edge(p[k - 1], p[k]);
    if k > 1 { RanksFallAlongWalk(edge, nodes, ranks, p, k - 1); }
  }

  /** A graph can be ranked exactly when it has no cycle. */
  lemma RankedIffAcyclic<T(!new)>(edge: (T, T) -> bool, nodes: set<T>)
    ensures Acyclic(edge, nodes) <==> exists ranks :: Ranks(edge, nodes, ranks)
  {
    if Acyclic(edge, nodes) {
      var ranks := RankingExists(edge, nodes, nodes);
    }
    if ranks :| Ranks(edge, nodes, ranks) {
      forall p ensures !IsCycle(edge, nodes, p) {
        if IsCycle(edge, nodes, p) { RanksFallAlongWalk(edge, nodes, ranks, p, |p| - 1); }
      }
    }
  }
}
