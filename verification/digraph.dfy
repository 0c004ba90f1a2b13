/** Finite directed graphs given by successor sets: cycles, ranks, and how they exclude each other. */
module Digraph {

  type Graph = map<nat, set<nat>>

  /** A walk whose nodes all belong to the graph. */
  ghost predicate IsPath(g: Graph, p: seq<nat>) {
    && |p| > 0
    && (forall k :: 0 <= k < |p| ==> p[k] in g)
    && (forall k, m {:trigger p[k], p[m]} :: 0 <= k && m == k + 1 && m < |p| ==> p[m] in g[p[k]])
  }

  /** A closed walk: its last node leads back to its first. */
  ghost predicate IsCycle(g: Graph, c: seq<nat>) {
    IsPath(g, c) && c[0] in g[c[|c| - 1]]
  }

  ghost predicate Acyclic(g: Graph) {
    forall c: seq<nat> :: !IsCycle(g, c)
  }

  /** Every edge from i that stays inside the graph leads to a lower rank. */
  ghost predicate FallsFrom(g: Graph, r: map<nat, nat>, i: nat)
    requires i in g && i in r
  {
    forall j :: j in g[i] && j in g ==> j in r && r[j] < r[i]
  }

  ghost predicate IsRank(g: Graph, r: map<nat, nat>) {
    && g.Keys <= r.Keys
    && (forall i :: i in g ==> FallsFrom(g, r, i))
  }

  ghost predicate NoExit(g: Graph, s: set<nat>) {
    && s <= g.Keys
    && forall i :: i in s ==> g[i] * s != {}
  }

  lemma {:induction false} Pigeonhole(p: seq<nat>, s: set<nat>) returns (i: nat, j: nat)
    requires |p| > |s|
    requires forall k :: 0 <= k < |p| ==> p[k] in s
    ensures i < j < |p| && p[i] == p[j]
  {
    if k :| 1 <= k < |p| && p[k] == p[0] {
      i, j := 0, k;
    } else {
      var rest := s - {p[0]};
      i, j := Pigeonhole(p[1..], rest);
      i, j := i + 1, j + 1;
    }
  }

  /** A walk of any length can be taken inside a set no node of which can leave it. */
  lemma {:induction false} WalkInside(g: Graph, s: set<nat>, start: nat, n: nat) returns (p: seq<nat>)
    requires NoExit(g, s) && start in s
    ensures |p| == n + 1 && p[0] == start && IsPath(g, p)
    ensures forall k :: 0 <= k < |p| ==> p[k] in s
  {
    if n == 0 {
      p := [start];
    } else {
      var q := WalkInside(g, s, start, n - 1);
      var last := q[|q| - 1];
      var next :| next in g[last] * s;
      p := q + [next];
    }
  }

  /** From every node of such a set a cycle inside the set can be reached. */
  lemma {:induction false} NoExitReachesCycle(g: Graph, s: set<nat>, start: nat) returns (p: seq<nat>, c: seq<nat>)
    requires NoExit(g, s) && start in s
    ensures IsPath(g, p) && p[0] == start && IsCycle(g, c) && p[|p| - 1] == c[0]
    ensures forall k :: 0 <= k < |c| ==> c[k] in s
  {
    var w := WalkInside(g, s, start, |s|);
    var i, j := Pigeonhole(w, s);
    p := w[..i + 1];
    c := w[i..j];
    assert c[|c| - 1] == w[j - 1];
  }

  lemma {:induction false} RankFallsAlong(g: Graph, r: map<nat, nat>, p: seq<nat>)
    requires IsRank(g, r) && IsPath(g, p)
    ensures r[p[|p| - 1]] + |p| <= r[p[0]] + 1
  {
    if |p| > 1 {
      var q := p[..|p| - 1];
      RankFallsAlong(g, r, q);
      assert p[|p| - 1] in g[q[|q| - 1]];
      assert FallsFrom(g, r, q[|q| - 1]);
    }
  }

  lemma RankedIsAcyclic(g: Graph, r: map<nat, nat>)
    requires IsRank(g, r)
    ensures Acyclic(g)
  {
    forall c | IsCycle(g, c) ensures false {
      RankFallsAlong(g, r, c);
    }
  }

  /** Any non-empty set of nodes of an acyclic graph has one with no edge back into the set. */
  lemma SinkOf(g: Graph, left: set<nat>) returns (i: nat)
    requires Acyclic(g) && left != {} && left <= g.Keys
    ensures i in left && g[i] * left == {}
  {
    if NoExit(g, left) {
      var start :| start in left;
      var _, c := NoExitReachesCycle(g, left, start);
      assert false;
    }
    i :| i in left && g[i] * left == {};
  }

  lemma StillFalls(g: Graph, r: map<nat, nat>, bound: nat, i: nat, k: nat, r': map<nat, nat>)
    requires r' == r[i := bound] && i !in r && k in r && k in g && FallsFrom(g, r, k)
    ensures FallsFrom(g, r', k)
  {
  }

  /** What can be left by ranked nodes only is ranked above them all. */
  lemma SinkRanked(g: Graph, r: map<nat, nat>, bound: nat, i: nat, r': map<nat, nat>)
    requires r' == r[i := bound]
    requires r.Keys <= g.Keys && i in g && i !in r
    requires forall j :: j in r ==> r[j] < bound && FallsFrom(g, r, j)
    requires g[i] * (g.Keys - r.Keys) == {}
    ensures forall j :: j in r' ==> r'[j] < bound + 1 && FallsFrom(g, r', j)
    ensures r'.Keys <= g.Keys && |g.Keys - r'.Keys| < |g.Keys - r.Keys|
  {
    hide FallsFrom;
    OneMoreRank(g, r, bound, i, r');
    forall k | k in r' ensures FallsFrom(g, r', k) {
      if k == i {
        SinkFalls(g, r, bound, i, r');
      } else {
        StillFalls(g, r, bound, i, k, r');
      }
    }
    OneLess(g.Keys, r.Keys, i);
  }

  lemma OneMoreRank(g: Graph, r: map<nat, nat>, bound: nat, i: nat, r': map<nat, nat>)
    requires r' == r[i := bound] && r.Keys <= g.Keys && i in g
    requires forall j :: j in r ==> r[j] < bound
    ensures forall j :: j in r' ==> r'[j] < bound + 1
    ensures forall j :: j in r' <==> j == i || j in r
    ensures r'.Keys == r.Keys + {i} && r'.Keys <= g.Keys
  {
  }

  lemma SinkFalls(g: Graph, r: map<nat, nat>, bound: nat, i: nat, r': map<nat, nat>)
    requires r' == r[i := bound] && i in g && i !in r && g[i] * (g.Keys - r.Keys) == {}
    requires forall j :: j in r ==> r[j] < bound
    ensures FallsFrom(g, r', i)
  {
    forall j | j in g[i] && j in g ensures j in r {
      assert j !in g[i] * (g.Keys - r.Keys);
    }
  }

  lemma OneLess(all: set<nat>, some: set<nat>, i: nat)
    requires i in all && i !in some
    ensures |all - (some + {i})| < |all - some|
  {
    assert all - (some + {i}) == all - some - {i};
  }

  /** Ranks the nodes one by one, always one whose successors are all ranked already. */
  lemma {:induction false} ExtendRank(g: Graph, r: map<nat, nat>, bound: nat) returns (full: map<nat, nat>)
    requires Acyclic(g)
    requires r.Keys <= g.Keys
    requires forall i :: i in r ==> r[i] < bound && FallsFrom(g, r, i)
    ensures IsRank(g, full)
    decreases |g.Keys - r.Keys|
  {
    var left := g.Keys - r.Keys;
    if left == {} {
      full := r;
    } else {
      var i := SinkOf(g, left);
      var r' := r[i := bound];
      SinkRanked(g, r, bound, i, r');
      full := ExtendRank(g, r', bound + 1);
    }
  }

  /** A finite graph is acyclic exactly when its nodes can be ranked so that every edge goes down. */
  lemma AcyclicIffRanked(g: Graph)
    ensures Acyclic(g) <==> exists r: map<nat, nat> :: IsRank(g, r)
  {
    if Acyclic(g) {
      var r := ExtendRank(g, map[], 0);
      assert IsRank(g, r);
    } else if r: map<nat, nat> :| IsRank(g, r) {
      RankedIsAcyclic(g, r);
    }
  }
}
