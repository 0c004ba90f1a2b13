/** The order in which the C backend defines the structs of a program (ser/codegen.c). */
module Definitions {
  import opened Collections
  import opened Digraph
  import opened Schema

  /** For each struct still to be defined, the structs its definition needs. */
  type Dependencies = map<nat, seq<nat>>

  function GraphOf(deps: Dependencies): (g: Graph) {
    map s | s in deps :: set d | d in deps[s]
  }

  /** s leads to a cycle of needs. */
  ghost predicate LeadsToCycle(g: Graph, s: nat) {
    exists p: seq<nat>, c: seq<nat> :: IsPath(g, p) && p[0] == s && IsCycle(g, c) && p[|p| - 1] == c[0]
  }

  /** Nothing is defined twice, and nothing before the structs it needs. */
  ghost predicate InOrder(g: Graph, defined: seq<nat>) {
    && (forall i :: 0 <= i < |defined| ==> defined[i] in g && g[defined[i]] * g.Keys <= Elements(defined[..i]))
    && Distinct(defined)
  }

  // ----- the needs of a struct

  /** Field arrays are skipped, whatever their sizing; heap arrays are not. */
  function SkipFieldArrays(ts: TypeTable, t: nat): (r: nat)
    requires WellFormed(ts) && t < |ts|
    ensures r < |ts|
    decreases Depths(ts)[t]
  {
    if ts[t].TypeArray? && !ts[t].heap then
      assert InTable(ts, ts[t]) && ts[t].elem in Children(ts[t]);
      SkipFieldArrays(ts, ts[t].elem)
    else t
  }

  ghost predicate Needs(ts: TypeTable, s: nat, d: nat)
    requires WellFormed(ts)
  {
    && IsStruct(ts, s) && IsStruct(ts, d)
    && exists k :: 0 <= k < |ts[s].fields| && ts[s].fields[k] < |ts| && SkipFieldArrays(ts, ts[s].fields[k]) == d
  }

  ghost predicate AreDependencies(ts: TypeTable, deps: Dependencies)
    requires WellFormed(ts)
  {
    && (forall s :: s in deps <==> IsStruct(ts, s))
    && forall s, d :: s in deps ==> (d in deps[s] <==> Needs(ts, s, d))
  }

  lemma {:induction false} SkippedIsStripped(ts: TypeTable, t: nat)
    requires WellFormed(ts) && t < |ts| && IsStruct(ts, SkipFieldArrays(ts, t))
    ensures Strip(ts, t) == SkipFieldArrays(ts, t)
    decreases Depths(ts)[t]
  {
    if ts[t].TypeArray? && !ts[t].heap {
      assert InTable(ts, ts[t]) && ts[t].elem in Children(ts[t]);
      SkippedIsStripped(ts, ts[t].elem);
    }
  }

  /** Every need is a containment the infinite-size check looks at. */
  lemma NeedIsEmbedded(ts: TypeTable, s: nat, d: nat)
    requires WellFormed(ts) && Needs(ts, s, d)
    ensures d in StructGraph(ts)[s]
  {
    var k :| 0 <= k < |ts[s].fields| && ts[s].fields[k] < |ts| && SkipFieldArrays(ts, ts[s].fields[k]) == d;
    SkippedIsStripped(ts, ts[s].fields[k]);
  }

  lemma NeedsAreAcyclic(ts: TypeTable, deps: Dependencies)
    requires WellFormed(ts) && AreDependencies(ts, deps) && Acyclic(StructGraph(ts))
    ensures Acyclic(GraphOf(deps))
  {
    forall c | IsCycle(GraphOf(deps), c) ensures false {
      forall i, j | 0 <= i < |c| && j == (if i + 1 < |c| then i + 1 else 0) ensures c[j] in StructGraph(ts)[c[i]] {
        assert c[j] in GraphOf(deps)[c[i]];
        NeedIsEmbedded(ts, c[i], c[j]);
      }
      assert IsCycle(StructGraph(ts), c);
    }
  }

  method SkipArrays(ts: TypeTable, field: nat) returns (t: nat)
    requires WellFormed(ts) && field < |ts|
    ensures t == SkipFieldArrays(ts, field)
  {
    t := field;
    while ts[t].TypeArray? && !ts[t].heap
      invariant t < |ts| && SkipFieldArrays(ts, t) == SkipFieldArrays(ts, field)
      decreases Depths(ts)[t]
    {
      ChildInTable(ts, t, ts[t].elem);
      t := ts[t].elem;
    }
  }

  /** The first loop of define_structs. */
  method FindDependencies(ts: TypeTable) returns (deps: Dependencies)
    requires WellFormed(ts)
    ensures AreDependencies(ts, deps)
  {
    deps := map[];
    var s: nat := 0;
    while s < |ts|
      invariant 0 <= s <= |ts|
      invariant forall t: nat :: t in deps <==> IsStruct(ts, t) && t < s
      invariant forall t: nat, d: nat :: t in deps ==> (d in deps[t] <==> Needs(ts, t, d))
    {
      if ts[s].TypeStruct? {
        var list := FindNeeds(ts, s);
        deps := deps[s := list];
      }
      s := s + 1;
    }
  }

  method FindNeeds(ts: TypeTable, s: nat) returns (list: seq<nat>)
    requires WellFormed(ts) && IsStruct(ts, s)
    ensures forall d: nat :: d in list <==> Needs(ts, s, d)
  {
    list := [];
    var i := 0;
    while i < |ts[s].fields|
      invariant 0 <= i <= |ts[s].fields|
      invariant forall d: nat ::
                  d in list <==>
                  IsStruct(ts, d) &&
                  exists k :: 0 <= k < i && ts[s].fields[k] < |ts| && SkipFieldArrays(ts, ts[s].fields[k]) == d
    {
      assert ts[s].fields[i] in Children(ts[s]);
      ChildInTable(ts, s, ts[s].fields[i]);
      var t := SkipArrays(ts, ts[s].fields[i]);
      if ts[t].TypeStruct? {
        list := list + [t];
      }
      i := i + 1;
    }
  }

  // ----- the passes

  /** Some order of a set; the hash map and the sort by name decide which. */
  method AnyOrder(s: set<nat>) returns (q: seq<nat>)
    ensures Elements(q) == s && |q| == |s|
    ensures Distinct(q)
  {
    q := [];
    var left := s;
    while left != {}
      invariant Elements(q) + left == s && Elements(q) !! left && |q| + |left| == |s|
      invariant Distinct(q)
      decreases |left|
    {
      hide Elements, Distinct;
      var x :| x in left;
      TakeOne(q, left, x);
      q, left := q + [x], left - {x};
    }
    assert left == {};
  }

  lemma TakeOne(q: seq<nat>, left: set<nat>, x: nat)
    requires Elements(q) !! left && Distinct(q) && x in left
    ensures Elements(q + [x]) + (left - {x}) == Elements(q) + left && Elements(q + [x]) !! left - {x}
    ensures |left - {x}| == |left| - 1 && Distinct(q + [x])
  {
    ElementsOfAppend(q, x);
    assert forall i :: 0 <= i < |q| ==> q[i] in Elements(q);
  }

  /** Between two definitions: those made so far are in order, and the rest is what is left. */
  ghost predicate Partway(all: Dependencies, defined: seq<nat>, left: Dependencies) {
    && left.Keys <= all.Keys && (forall s :: s in left ==> left[s] == all[s])
    && Elements(defined) == all.Keys - left.Keys
    && InOrder(GraphOf(all), defined)
  }

  predicate Ready(left: Dependencies, s: nat) {
    s in left && forall d :: d in left[s] ==> d !in left
  }

  lemma DefineOne(all: Dependencies, defined: seq<nat>, left: Dependencies, s: nat)
    requires Partway(all, defined, left) && Ready(left, s)
    ensures Partway(all, defined + [s], left - {s})
  {
    var more := defined + [s];
    ElementsOfAppend(defined, s);
    forall i | 0 <= i < |more|
      ensures more[i] in all && GraphOf(all)[more[i]] * all.Keys <= Elements(more[..i])
    {
      if i < |defined| {
        assert more[..i] == defined[..i];
      } else {
        assert more[..i] == defined;
      }
    }
    forall i, j | 0 <= i < j < |more| ensures more[i] != more[j] {
      if j == |defined| {
        assert defined[i] in Elements(defined);
      }
    }
  }

  lemma StillReady(left: Dependencies, s: nat, d: nat)
    requires Ready(left, s) && s != d
    ensures Ready(left - {d}, s)
  {
  }

  lemma NothingDefined(all: Dependencies)
    ensures Partway(all, [], all)
  {
  }

  lemma PartwayIs(all: Dependencies, defined: seq<nat>, left: Dependencies)
    requires Partway(all, defined, left)
    ensures InOrder(GraphOf(all), defined) && left.Keys <= all.Keys && Elements(defined) == all.Keys - left.Keys
  {
    hide InOrder;
  }

  /** The structs from number i on are still ready. */
  ghost predicate ReadyFrom(left: Dependencies, toDefine: seq<nat>, i: nat) {
    Distinct(toDefine) && forall k :: i <= k < |toDefine| ==> Ready(left, toDefine[k])
  }

  lemma AreReady(left: Dependencies, ready: set<nat>, toDefine: seq<nat>)
    requires ready == (set s | s in left && Ready(left, s)) && Elements(toDefine) == ready && Distinct(toDefine)
    ensures ReadyFrom(left, toDefine, 0)
    ensures forall s :: s in left && Ready(left, s) ==> s in toDefine
  {
    hide Ready;
    forall k | 0 <= k < |toDefine| ensures Ready(left, toDefine[k]) {
      assert toDefine[k] in Elements(toDefine);
    }
    forall s | s in left && Ready(left, s) ensures s in toDefine {
      assert s in ready;
    }
  }

  lemma ReadyRest(left: Dependencies, toDefine: seq<nat>, i: nat)
    requires ReadyFrom(left, toDefine, i) && i < |toDefine|
    ensures toDefine[i] in left && |left - {toDefine[i]}| == |left| - 1
    ensures ReadyFrom(left - {toDefine[i]}, toDefine, i + 1)
  {
    var s := toDefine[i];
    assert Ready(left, s);
    assert (left - {s}).Keys == left.Keys - {s};
    assert |left| == |left.Keys| && |left - {s}| == |(left - {s}).Keys|;
    forall k | i < k < |toDefine| ensures Ready(left - {s}, toDefine[k]) {
      StillReady(left, toDefine[k], s);
    }
  }

  /** Nothing left is ready, so all that is left leads to a cycle; nothing that was defined does. */
  lemma LeftLeadToCycles(all: Dependencies, defined: seq<nat>, left: Dependencies)
    requires Partway(all, defined, left) && forall s :: s in left ==> !Ready(left, s)
    ensures forall s :: s in all ==> (s in left <==> LeadsToCycle(GraphOf(all), s))
  {
    LeftIsStuck(all, defined, left);
    forall s | s in all ensures s in left <==> LeadsToCycle(GraphOf(all), s) {
      if s in left {
        var p, c := NoExitReachesCycle(GraphOf(all), left.Keys, s);
      } else {
        assert s in Elements(defined);
        DefinedIsSafe(GraphOf(all), defined, s);
      }
    }
  }

  lemma LeftIsStuck(all: Dependencies, defined: seq<nat>, left: Dependencies)
    requires Partway(all, defined, left) && forall s :: s in left ==> !Ready(left, s)
    ensures NoExit(GraphOf(all), left.Keys)
  {
    hide InOrder, GraphOf;
    SameKeys(all);
    forall s | s in left.Keys ensures GraphOf(all)[s] * left.Keys != {} {
      StuckOne(all, left, s);
    }
  }

  lemma SameKeys(all: Dependencies)
    ensures GraphOf(all).Keys == all.Keys
  {
  }

  lemma StuckOne(all: Dependencies, left: Dependencies, s: nat)
    requires s in left && s in all && left[s] == all[s] && !Ready(left, s)
    ensures GraphOf(all)[s] * left.Keys != {}
  {
    var d :| d in left[s] && d in left;
    assert d in GraphOf(all)[s] * left.Keys;
  }

  /** The position in the order is a rank for all that was defined. */
  lemma {:induction false} StaysDefined(g: Graph, defined: seq<nat>, p: seq<nat>) returns (i: nat)
    requires InOrder(g, defined) && IsPath(g, p) && p[0] in defined
    ensures i < |defined| && defined[i] == p[|p| - 1]
    ensures forall j :: 0 <= j < |defined| && defined[j] == p[0] ==> i + |p| <= j + 1
  {
    if |p| == 1 {
      i :| 0 <= i < |defined| && defined[i] == p[0];
    } else {
      var k := StaysDefined(g, defined, p[..|p| - 1]);
      var next := p[|p| - 1];
      assert next in g[p[|p| - 2]] * g.Keys;
      assert next in Elements(defined[..k]);
      i :| 0 <= i < k && defined[i] == next;
    }
  }

  lemma DefinedIsSafe(g: Graph, defined: seq<nat>, s: nat)
    requires InOrder(g, defined) && s in defined
    ensures !LeadsToCycle(g, s)
  {
    forall p, c | IsPath(g, p) && p[0] == s && IsCycle(g, c) && p[|p| - 1] == c[0] ensures false {
      var i := StaysDefined(g, defined, p);
      var around := c + [c[0]];
      assert IsPath(g, around);
      var j := StaysDefined(g, defined, around);
    }
  }

  /** The do-while loop: each pass defines what needs nothing that is still undefined. */
  method DefineStructs(all: Dependencies) returns (defined: seq<nat>, left: Dependencies)
    ensures InOrder(GraphOf(all), defined)
    ensures left.Keys <= all.Keys && Elements(defined) == all.Keys - left.Keys
    ensures forall s :: s in all ==> (s in left <==> LeadsToCycle(GraphOf(all), s))
  {
    hide Partway, Ready, InOrder, LeadsToCycle, GraphOf;
    defined, left := [], all;
    NothingDefined(all);
    var more := true;
    while more
      invariant Partway(all, defined, left)
      invariant !more ==> forall s :: s in left ==> !Ready(left, s)
      decreases |left|, more
    {
      var size := |left|;
      var ready := set s | s in left && Ready(left, s);
      var toDefine := AnyOrder(ready);
      AreReady(left, ready, toDefine);
      var i := 0;
      while i < |toDefine|
        invariant 0 <= i <= |toDefine|
        invariant Partway(all, defined, left) && |left| + i == size
        invariant ReadyFrom(left, toDefine, i)
        invariant i == 0 ==> forall s :: s in left && Ready(left, s) ==> s in toDefine
      {
        DefineOne(all, defined, left, toDefine[i]);
        ReadyRest(left, toDefine, i);
        defined, left := defined + [toDefine[i]], left - {toDefine[i]};
        i := i + 1;
      }
      more := |toDefine| > 0;
    }
    LeftLeadToCycles(all, defined, left);
    PartwayIs(all, defined, left);
  }

  /** With no infinite struct reported every struct is defined, once, after all it embeds. */
  lemma NothingLeft(ts: TypeTable, all: Dependencies, left: set<nat>)
    requires WellFormed(ts) && AreDependencies(ts, all) && Acyclic(StructGraph(ts))
    requires left <= all.Keys && forall s :: s in left ==> LeadsToCycle(GraphOf(all), s)
    ensures left == {}
  {
    NeedsAreAcyclic(ts, all);
  }

}
