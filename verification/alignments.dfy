/** Resolution of the alignment of every type object (ser/eval.c), over type graphs that may be cyclic. */
module Alignments {
  import opened Collections
  import opened Digraph
  import opened Schema

  /** The alignment a type object asks for by itself. */
  function Base(o: TypeObject): (a: nat)
    ensures a == 1 || a == 2 || a == 4 || a == 8
  {
    match o
    case TypePrimitif(p) => PrimSize(p)
    case TypeArray(SizingMax, size, _, _) => PrimSize(LengthPrim(size))
    case _ => 1
  }

  function TypeGraph(ts: TypeTable): (g: Graph) {
    map t: nat | 0 <= t < |ts| :: set c | c in Children(ts[t])
  }

  ghost predicate Reaches(ts: TypeTable, t: nat, u: nat) {
    exists p: seq<nat> :: IsPath(TypeGraph(ts), p) && p[0] == t && p[|p| - 1] == u
  }

  /** a is the greatest alignment asked for by any type reachable from t. */
  ghost predicate IsAlignment(ts: TypeTable, t: nat, a: nat) {
    && (forall u: nat :: u < |ts| && Reaches(ts, t, u) ==> Base(ts[u]) <= a)
    && exists u: nat :: u < |ts| && Reaches(ts, t, u) && Base(ts[u]) == a
  }

  /** Some type reachable from t asks for at least a. */
  ghost predicate Attained(ts: TypeTable, t: nat, a: nat) {
    exists u: nat :: u < |ts| && Reaches(ts, t, u) && a <= Base(ts[u])
  }

  /** A table of alignments in which 0 stands for an alignment not resolved yet. */
  ghost predicate Resolved(ts: TypeTable, align: seq<nat>) {
    && |align| == |ts|
    && forall t :: 0 <= t < |ts| && align[t] != 0 ==> IsAlignment(ts, t, align[t])
  }

  /** a accounts for every type in done, and for what those types lead to unless it is still in seen. */
  ghost predicate Covers(ts: TypeTable, align: seq<nat>, seen: set<nat>, done: set<nat>, a: nat)
    requires |align| == |ts|
  {
    forall n :: n in done ==> n < |ts| && Base(ts[n]) <= a && ChildrenCovered(ts, align, seen, a, n, |Children(ts[n])|)
  }

  /** The first k children of n are accounted for. */
  ghost predicate ChildrenCovered(ts: TypeTable, align: seq<nat>, seen: set<nat>, a: nat, n: nat, k: nat)
    requires |align| == |ts| && n < |ts|
  {
    && k <= |Children(ts[n])|
    && forall i :: 0 <= i < k ==> var c := Children(ts[n])[i];
       c < |ts| && if align[c] == 0 then c in seen else align[c] <= a
  }

  // ----- reachability

  lemma ReachesItself(ts: TypeTable, t: nat)
    requires t < |ts|
    ensures Reaches(ts, t, t)
  {
    assert IsPath(TypeGraph(ts), [t]);
  }

  lemma SeenSplits(earlier: set<nat>, before: set<nat>, seen: set<nat>, t: nat)
    requires earlier + {t} <= before <= seen
    ensures seen - earlier - {t} == before - earlier - {t} + (seen - before)
  {
  }

  lemma SeenOne(earlier: set<nat>, t: nat)
    ensures earlier + {t} - earlier - {t} == {}
  {
  }

  lemma ReachesThrough(ts: TypeTable, t: nat, c: nat, u: nat)
    requires t < |ts| && c in Children(ts[t]) && Reaches(ts, c, u)
    ensures Reaches(ts, t, u)
  {
    var p :| IsPath(TypeGraph(ts), p) && p[0] == c && p[|p| - 1] == u;
    var q := [t] + p;
    assert IsPath(TypeGraph(ts), q) && q[|q| - 1] == u;
  }

  lemma AttainedThrough(ts: TypeTable, t: nat, c: nat, a: nat)
    requires t < |ts| && c in Children(ts[t]) && Attained(ts, c, a)
    ensures Attained(ts, t, a)
  {
    var u: nat :| u < |ts| && Reaches(ts, c, u) && a <= Base(ts[u]);
    ReachesThrough(ts, t, c, u);
  }

  lemma AttainedHere(ts: TypeTable, t: nat)
    requires t < |ts|
    ensures Attained(ts, t, Base(ts[t]))
  {
    ReachesItself(ts, t);
  }

  lemma SmallerAttained(ts: TypeTable, t: nat, a: nat, b: nat)
    requires Attained(ts, t, a) && b <= a
    ensures Attained(ts, t, b)
  {
    var u: nat :| u < |ts| && Reaches(ts, t, u) && a <= Base(ts[u]);
  }

  // ----- the search

  lemma FewerTypes(ts: TypeTable, before: set<nat>, after: set<nat>, t: nat)
    requires t < |ts| && t !in before && before + {t} <= after
    ensures |TypeGraph(ts).Keys - after| < |TypeGraph(ts).Keys - before|
  {
    FewerLeft(TypeGraph(ts).Keys, before, after, t);
  }

  lemma {:induction false} CoveredAlong(ts: TypeTable, align: seq<nat>, seen: set<nat>, a: nat, p: seq<nat>)
    requires Resolved(ts, align) && Covers(ts, align, seen, seen, a)
    requires IsPath(TypeGraph(ts), p)
    requires if align[p[0]] == 0 then p[0] in seen else align[p[0]] <= a
    ensures Base(ts[p[|p| - 1]]) <= a
    decreases |p|
  {
    var t, u := p[0], p[|p| - 1];
    if align[t] != 0 {
      assert Reaches(ts, t, u);
      assert IsAlignment(ts, t, align[t]);
    } else if |p| > 1 {
      var rest := p[1..];
      assert rest[|rest| - 1] == u;
      assert p[1] in Children(ts[t]);
      assert ChildrenCovered(ts, align, seen, a, t, |Children(ts[t])|);
      CoveredAlong(ts, align, seen, a, rest);
    }
  }

  /** At the end of a search from t the value found is its alignment. */
  lemma SearchFinds(ts: TypeTable, align: seq<nat>, seen: set<nat>, t: nat, a: nat)
    requires Resolved(ts, align) && t < |ts| && align[t] == 0 && t in seen
    requires Covers(ts, align, seen, seen, a) && Attained(ts, t, a)
    ensures IsAlignment(ts, t, a)
  {
    forall u: nat | u < |ts| && Reaches(ts, t, u) ensures Base(ts[u]) <= a {
      var p :| IsPath(TypeGraph(ts), p) && p[0] == t && p[|p| - 1] == u;
      CoveredAlong(ts, align, seen, a, p);
    }
  }

  lemma AlignmentIsUnique(ts: TypeTable, t: nat, a: nat, b: nat)
    requires IsAlignment(ts, t, a) && IsAlignment(ts, t, b)
    ensures a == b
  {
    var u: nat :| u < |ts| && Reaches(ts, t, u) && Base(ts[u]) == a;
    var v: nat :| v < |ts| && Reaches(ts, t, v) && Base(ts[v]) == b;
  }

  lemma NothingCovered(ts: TypeTable, align: seq<nat>, seen: set<nat>, a: nat)
    requires |align| == |ts|
    ensures Covers(ts, align, seen, {}, a)
  {
  }

  lemma NodeCovered(ts: TypeTable, align: seq<nat>, before: set<nat>, seen: set<nat>, t: nat, a: nat)
    requires |align| == |ts| && t < |ts| && Base(ts[t]) <= a
    requires Covers(ts, align, seen, seen - before - {t}, a)
    requires ChildrenCovered(ts, align, seen, a, t, |Children(ts[t])|)
    ensures Covers(ts, align, seen, seen - before, a)
  {
  }

  function Max(a: nat, b: nat): nat {
    if a > b then a else b
  }

  lemma CoversBoth(ts: TypeTable, align: seq<nat>, seen: set<nat>, a: nat, d1: set<nat>, d2: set<nat>)
    requires |align| == |ts| && Covers(ts, align, seen, d1, a) && Covers(ts, align, seen, d2, a)
    ensures Covers(ts, align, seen, d1 + d2, a)
  {
    hide ChildrenCovered;
  }

  /** What a search of one more child of t adds. */
  lemma OneMoreChild(ts: TypeTable, align: seq<nat>, seen: set<nat>, done: set<nat>, a: nat, t: nat, k: nat,
                     seen': set<nat>, r: nat)
    requires WellFormed(ts) && |align| == |ts| && t < |ts| && k < |Children(ts[t])| && seen <= seen'
    requires Covers(ts, align, seen, done, a) && ChildrenCovered(ts, align, seen, a, t, k) && Attained(ts, t, a)
    requires var c := Children(ts[t])[k];
             c < |ts| && Attained(ts, c, r) && if align[c] == 0 then c in seen' else align[c] == r
    requires Covers(ts, align, seen', seen' - seen, r)
    ensures Covers(ts, align, seen', done + (seen' - seen), Max(a, r))
    ensures ChildrenCovered(ts, align, seen', Max(a, r), t, k + 1) && Attained(ts, t, Max(a, r))
  {
    hide Covers, Attained;
    var m, more := Max(a, r), seen' - seen;
    CoversGrows(ts, align, seen, a, done, seen', m);
    CoversGrows(ts, align, seen', r, more, seen', m);
    ChildrenCoveredGrows(ts, align, seen, a, t, k, seen', m);
    CoversBoth(ts, align, seen', m, done, more);
    if r > a {
      AttainedThrough(ts, t, Children(ts[t])[k], r);
    }
  }

  lemma ChildrenCoveredGrows(ts: TypeTable, align: seq<nat>, seen: set<nat>, a: nat, n: nat, k: nat,
                             seen': set<nat>, a': nat)
    requires |align| == |ts| && n < |ts| && seen <= seen' && a <= a'
    requires ChildrenCovered(ts, align, seen, a, n, k)
    ensures ChildrenCovered(ts, align, seen', a', n, k)
  {
  }

  lemma CoversGrows(ts: TypeTable, align: seq<nat>, seen: set<nat>, a: nat, done: set<nat>, seen': set<nat>, a': nat)
    requires |align| == |ts| && seen <= seen' && a <= a' && Covers(ts, align, seen, done, a)
    ensures Covers(ts, align, seen', done, a')
  {
    hide ChildrenCovered;
    forall n | n in done ensures ChildrenCovered(ts, align, seen', a', n, |Children(ts[n])|) {
      ChildrenCoveredGrows(ts, align, seen, a, n, |Children(ts[n])|, seen', a');
    }
  }

  lemma NoChildren(ts: TypeTable, align: seq<nat>, seen: set<nat>, a: nat, t: nat)
    requires |align| == |ts| && t < |ts|
    ensures ChildrenCovered(ts, align, seen, a, t, 0)
  {
  }

  /** A search that went through an array t to its elements. */
  lemma ArrayCovered(ts: TypeTable, align: seq<nat>, before: set<nat>, marked: set<nat>, seen: set<nat>, t: nat, r: nat)
    requires WellFormed(ts) && |align| == |ts| && t < |ts| && ts[t].TypeArray? && ts[t].elem < |ts| && r >= 1
    requires t !in before && marked == before + {t} && marked <= seen
    requires Attained(ts, ts[t].elem, r) && Covers(ts, align, seen, seen - marked, r)
    requires if align[ts[t].elem] == 0 then ts[t].elem in seen else align[ts[t].elem] == r
    ensures Covers(ts, align, seen, seen - before, Max(Base(ts[t]), r)) && Attained(ts, t, Max(Base(ts[t]), r))
  {
    AttainedHere(ts, t);
    OneMoreChild(ts, align, marked, {}, Base(ts[t]), t, 0, seen, r);
    assert seen - before - {t} == {} + (seen - marked);
    NodeCovered(ts, align, before, seen, t, Max(Base(ts[t]), r));
  }

  lemma ResolvedAttained(ts: TypeTable, align: seq<nat>, t: nat)
    requires Resolved(ts, align) && t < |ts| && align[t] != 0
    ensures Attained(ts, t, align[t])
  {
    var u: nat :| u < |ts| && Reaches(ts, t, u) && Base(ts[u]) == align[t];
  }

  lemma FirstStep(ts: TypeTable, p: seq<nat>)
    requires IsPath(TypeGraph(ts), p) && |p| > 1
    ensures p[1] in Children(ts[p[0]])
  {
  }

  lemma PrimAlignment(ts: TypeTable, t: nat)
    requires t < |ts| && ts[t].TypePrimitif?
    ensures IsAlignment(ts, t, PrimSize(ts[t].primitif))
  {
    ReachesItself(ts, t);
    forall u: nat | u < |ts| && Reaches(ts, t, u) ensures u == t {
      var p :| IsPath(TypeGraph(ts), p) && p[0] == t && p[|p| - 1] == u;
      if |p| > 1 {
        FirstStep(ts, p);
        assert false;
      }
    }
  }

  /** The state of resolve_additional_type_info: alignments found so far, and the types seen by one search. */
  class Resolver {
    const ts: TypeTable
    var align: seq<nat>
    var seen: set<nat>

    /** Only primitive types have an alignment from the start. */
    constructor (ts: TypeTable)
      ensures this.ts == ts && seen == {} && Resolved(ts, align)
      ensures forall t :: 0 <= t < |ts| ==> align[t] == if ts[t].TypePrimitif? then PrimSize(ts[t].primitif) else 0
    {
      this.ts := ts;
      seen := {};
      align := seq(|ts|, t requires 0 <= t < |ts| => if ts[t].TypePrimitif? then PrimSize(ts[t].primitif) else 0);
      new;
      forall t: nat | t < |ts| && align[t] != 0 ensures IsAlignment(ts, t, align[t]) {
        PrimAlignment(ts, t);
      }
    }

    method ResolveAlignment(t: nat) returns (res: nat)
      requires WellFormed(ts) && t < |ts| && |align| == |ts| && Resolved(ts, align)
      requires forall p :: 0 <= p < |ts| && ts[p].TypePrimitif? ==> align[p] != 0
      modifies this`seen
      ensures old(seen) <= seen && res >= 1
      ensures if align[t] == 0 then t in seen else res == align[t]
      ensures Attained(ts, t, res)
      ensures Covers(ts, align, seen, seen - old(seen), res)
      decreases |TypeGraph(ts).Keys - seen|
    {
      hide Attained, Covers, ChildrenCovered, Resolved, WellFormed, TypeGraph, PrimSize, LengthPrim;
      if align[t] != 0 {
        ResolvedAttained(ts, align, t);
        NothingCovered(ts, align, seen, align[t]);
        assert seen - old(seen) == {};
        return align[t];
      }
      AttainedHere(ts, t);
      NothingCovered(ts, align, seen, 1);
      assert seen - old(seen) == {};
      if t in seen {
        SmallerAttained(ts, t, Base(ts[t]), 1);
        return 1;
      }
      seen := seen + {t};
      FewerTypes(ts, old(seen), seen, t);

      if ts[t].TypeStruct? {
        NothingCovered(ts, align, seen, 1);
        NoChildren(ts, align, seen, 1, t);
        SeenOne(old(seen), t);
        res := 1;
        var i := 0;
        while i < |ts[t].fields|
          invariant 0 <= i <= |ts[t].fields| && res >= 1
          invariant old(seen) + {t} <= seen && Base(ts[t]) <= res && Attained(ts, t, res)
          invariant Covers(ts, align, seen, seen - old(seen) - {t}, res)
          invariant ChildrenCovered(ts, align, seen, res, t, i)
        {
          ghost var before := seen;
          ChildInTable(ts, t, Children(ts[t])[i]);
          FewerTypes(ts, old(seen), seen, t);
          var r := ResolveAlignment(ts[t].fields[i]);
          OneMoreChild(ts, align, before, before - old(seen) - {t}, res, t, i, seen, r);
          SeenSplits(old(seen), before, seen, t);
          res := Max(res, r);
          i := i + 1;
        }
        NodeCovered(ts, align, old(seen), seen, t, res);
      } else {
        ChildInTable(ts, t, Children(ts[t])[0]);
        ghost var before := seen;
        var r := ResolveAlignment(ts[t].elem);
        ArrayCovered(ts, align, old(seen), before, seen, t, r);
        res := if ts[t].sizing == SizingMax then Max(PrimSize(LengthPrim(ts[t].size)), r) else r;
      }
    }

    /** resolve_additional_type_info: the type objects are resolved in whatever order they were created. */
    method ResolveAll(order: seq<nat>)
      requires WellFormed(ts) && |align| == |ts| && Resolved(ts, align) && seen == {}
      requires forall k :: 0 <= k < |order| ==> order[k] < |ts|
      requires forall p :: 0 <= p < |ts| && ts[p].TypePrimitif? ==> align[p] != 0
      modifies this
      ensures |align| == |ts| && Resolved(ts, align)
      ensures forall k :: 0 <= k < |order| ==> IsAlignment(ts, order[k], align[order[k]])
    {
      hide Attained, Covers, ChildrenCovered, Resolved, WellFormed, IsAlignment;
      var i := 0;
      while i < |order|
        invariant 0 <= i <= |order| && |align| == |ts| && Resolved(ts, align) && seen == {}
        invariant forall p :: 0 <= p < |ts| && ts[p].TypePrimitif? ==> align[p] != 0
        invariant forall k :: 0 <= k < i ==> IsAlignment(ts, order[k], align[order[k]])
      {
        var t: nat := order[i];
        var a := ResolveAlignment(t);
        assert seen - {} == seen;
        StoredAlignment(ts, align, seen, t, a);
        align := align[t := a];
        seen := {};
        i := i + 1;
      }
    }
  }

  lemma StoredAlignment(ts: TypeTable, align: seq<nat>, seen: set<nat>, t: nat, a: nat)
    requires |align| == |ts| && Resolved(ts, align) && t < |ts| && Covers(ts, align, seen, seen, a) && Attained(ts, t, a)
    requires if align[t] == 0 then t in seen else a == align[t]
    ensures Resolved(ts, align[t := a]) && a != 0 && IsAlignment(ts, t, a)
  {
    if align[t] == 0 {
      SearchFinds(ts, align, seen, t, a);
    }
    var u: nat :| u < |ts| && Reaches(ts, t, u) && Base(ts[u]) == a;
  }
}
