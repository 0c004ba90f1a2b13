/** What a struct contains, spelled out chain by chain, and what follows for the check for infinite structs and for the
    order of definitions (ser/eval.c:601-654, ser/codegen.c:93-152). */
module Containment {
  import opened Collections
  import opened Digraph
  import opened Schema
  import opened Alignments
  import opened Layouts
  import opened Emitter
  import opened InfiniteStructs
  import opened Definitions
  import Lengths

  /** c lists types from t to u, each the element of the array before it; and none of these arrays is both on the heap and
      of variable length. */
  ghost predicate IsInside(ts: TypeTable, c: seq<nat>, t: nat, u: nat)
    decreases |c|
  {
    && c != [] && c[0] == t < |ts|
    && if |c| == 1 then t == u
       else ts[t].TypeArray? && (!ts[t].heap || ts[t].sizing == SizingFixed) && IsInside(ts, c[1..], ts[t].elem, u)
  }

  ghost predicate LeadsInside(ts: TypeTable, t: nat, u: nat) {
    exists c: seq<nat> :: IsInside(ts, c, t, u)
  }

  /** The same with arrays none of which is on the heap. */
  ghost predicate IsInPlace(ts: TypeTable, c: seq<nat>, t: nat, u: nat)
    decreases |c|
  {
    && c != [] && c[0] == t < |ts|
    && if |c| == 1 then t == u
       else ts[t].TypeArray? && !ts[t].heap && IsInPlace(ts, c[1..], ts[t].elem, u)
  }

  ghost predicate LeadsInPlace(ts: TypeTable, t: nat, u: nat) {
    exists c: seq<nat> :: IsInPlace(ts, c, t, u)
  }

  // ----- the check for infinite structs

  /** Skipping arrays ends at a struct exactly if a chain leads to it. */
  lemma {:induction false} StripByChain(ts: TypeTable, t: nat, u: nat)
    requires WellFormed(ts) && t < |ts| && IsStruct(ts, u)
    ensures Strip(ts, t) == u <==> LeadsInside(ts, t, u)
    decreases Depths(ts)[t]
  {
    if t == u {
      assert IsInside(ts, [t], t, u);
    } else if ts[t].TypeArray? && (!ts[t].heap || ts[t].sizing == SizingFixed) {
      ChildInTable(ts, t, ts[t].elem);
      StripByChain(ts, ts[t].elem, u);
      StripByChainUp(ts, t, u);
    }
  }

  lemma StripByChainUp(ts: TypeTable, t: nat, u: nat)
    requires t < |ts| && t != u && ts[t].TypeArray? && (!ts[t].heap || ts[t].sizing == SizingFixed)
    ensures LeadsInside(ts, t, u) <==> LeadsInside(ts, ts[t].elem, u)
  {
    if c: seq<nat> :| IsInside(ts, c, ts[t].elem, u) {
      assert ([t] + c)[1..] == c;
      assert IsInside(ts, [t] + c, t, u);
    }
    if c: seq<nat> :| IsInside(ts, c, t, u) {
      assert IsInside(ts, c[1..], ts[t].elem, u);
    }
  }

  /** Field f of struct s holds struct t, for the reports, exactly if a chain leads from the field to t. */
  lemma HoldsByChain(ts: TypeTable, s: nat, f: nat, t: nat)
    requires WellFormed(ts) && IsStruct(ts, s) && IsStruct(ts, t) && f < |ts[s].fields|
    ensures Holds(ts, s, f, t) <==> LeadsInside(ts, ts[s].fields[f], t)
  {
    hide IsInside;
    assert ts[s].fields[f] in Children(ts[s]);
    ChildInTable(ts, s, ts[s].fields[f]);
    StripByChain(ts, ts[s].fields[f], t);
  }

  /** Ranks that fall from a struct to its fields, and from an array to its element unless it is on the heap and of
      variable length. */
  ghost predicate IsRanked(ts: TypeTable, r: seq<nat>) {
    && |r| == |ts|
    && forall t: nat :: t < |ts| ==>
         match ts[t]
         case TypePrimitif(_) => true
         case TypeStruct(fields, _) => forall i :: 0 <= i < |fields| ==> fields[i] < |ts| && r[fields[i]] < r[t]
         case TypeArray(sizing, _, heap, elem) => (heap && sizing == SizingMax) || (elem < |ts| && r[elem] < r[t])
  }

  lemma {:induction false} RankFallsInside(ts: TypeTable, r: seq<nat>, c: seq<nat>, t: nat, u: nat)
    requires IsRanked(ts, r) && IsInside(ts, c, t, u)
    ensures u < |ts| && r[u] <= r[t]
    decreases |c|
  {
    if |c| > 1 {
      RankFallsInside(ts, r, c[1..], ts[t].elem, u);
    }
  }

  lemma RankedGraph(ts: TypeTable, r: seq<nat>)
    requires WellFormed(ts) && IsRanked(ts, r)
    ensures Acyclic(StructGraph(ts))
  {
    hide IsInside, Holds, WellFormed;
    var g := StructGraph(ts);
    var m := map s: nat | 0 <= s < |ts| && IsStruct(ts, s) :: r[s];
    forall s | s in g ensures FallsFrom(g, m, s) {
      forall d | d in g[s] && d in g ensures d in m && m[d] < m[s] {
        EmbeddedByField(ts, s, d);
        var k :| 0 <= k < |ts[s].fields| && ts[s].fields[k] < |ts| && d == Strip(ts, ts[s].fields[k]);
        StripByChain(ts, ts[s].fields[k], d);
        var c: seq<nat> :| IsInside(ts, c, ts[s].fields[k], d);
        RankFallsInside(ts, r, c, ts[s].fields[k], d);
      }
    }
    RankedIsAcyclic(g, m);
  }

  lemma FlatIsRanked(ts: TypeTable, r: seq<nat>)
    requires WellFormed(ts) && IsFlatRank(ts, r)
    ensures IsRanked(ts, r)
  {
    forall t: nat | t < |ts| && ts[t].TypeStruct?
      ensures forall i :: 0 <= i < |ts[t].fields| ==> ts[t].fields[i] < |ts| && r[ts[t].fields[i]] < r[t]
    {
      assert FallsInto(ts, r, t);
      assert forall i :: 0 <= i < |ts[t].fields| ==> ts[t].fields[i] in Children(ts[t]);
    }
    forall t: nat | t < |ts| && ts[t].TypeArray? && !(ts[t].heap && ts[t].sizing == SizingMax)
      ensures ts[t].elem < |ts| && r[ts[t].elem] < r[t]
    {
      assert FallsInto(ts, r, t);
      assert ts[t].elem in Children(ts[t]);
    }
  }

  /** Flattening ends for exactly the programs whose types can be ranked. */
  lemma FiniteIffRanked(ts: TypeTable)
    requires WellFormed(ts)
    ensures Finite(ts) <==> exists r: seq<nat> :: IsRanked(ts, r)
  {
    hide IsRanked, WellFormed, StructGraph, IsFlatRank;
    if Finite(ts) {
      FiniteIsRanked(ts);
      var r: seq<nat> :| IsFlatRank(ts, r);
      FlatIsRanked(ts, r);
    }
    if r: seq<nat> :| IsRanked(ts, r) {
      RankedGraph(ts, r);
    }
  }

  /** And so does the check report nothing for exactly these. */
  lemma NoReportIffRanked(ts: TypeTable, errors: seq<Report>)
    requires WellFormed(ts) && Exact(ts, errors)
    ensures errors == [] <==> exists r: seq<nat> :: IsRanked(ts, r)
  {
    hide IsRanked, WellFormed, StructGraph, Exact;
    FiniteIffRanked(ts);
    NoReportIffAcyclic(ts, errors);
  }

  // ----- all schemas

  lemma AlignmentExists(ts: TypeTable, t: nat) returns (a: nat)
    requires t < |ts|
    ensures IsAlignment(ts, t, a)
  {
    hide Reaches;
    AttainedHere(ts, t);
    a := if Attained(ts, t, 8) then 8 else if Attained(ts, t, 4) then 4 else if Attained(ts, t, 2) then 2 else 1;
    assert Attained(ts, t, a);
    var u: nat :| u < |ts| && Reaches(ts, t, u) && a <= Base(ts[u]);
    forall w: nat | w < |ts| && Reaches(ts, t, w) ensures Base(ts[w]) <= a {
      var b := Base(ts[w]);
      assert Attained(ts, t, b);
    }
  }

  lemma {:induction false} AlignmentsExist(ts: TypeTable, n: nat) returns (align: seq<nat>)
    requires n <= |ts|
    ensures |align| == n && forall t: nat :: t < n ==> IsAlignment(ts, t, align[t])
  {
    hide IsAlignment;
    if n == 0 {
      align := [];
    } else {
      var before := AlignmentsExist(ts, n - 1);
      var a := AlignmentExists(ts, n - 1);
      align := before + [a];
    }
  }

  /** Every schema without infinite structs is compiled to a program, but for arrays of variable length whose elements are
      floats, arrays of a fixed size, or the bodies of messages. */
  lemma EveryProgram(ts: TypeTable, r: seq<nat>) returns (p: Program)
    requires WellFormed(ts) && IsRanked(ts, r)
    requires forall t: nat :: t < |ts| ==>
      match ts[t]
      case TypeArray(SizingMax, _, _, elem) =>
        elem < |ts| &&
        (match ts[elem]
         case TypePrimitif(prim) => prim != F32 && prim != F64
         case TypeArray(sizing, _, _, _) => sizing == SizingMax
         case TypeStruct(_, hasFuncs) => hasFuncs)
      case _ => true
    ensures Valid(p) && p.types == ts
    ensures forall t: nat :: t < |ts| && !(ts[t].TypeArray? && ts[t].sizing == SizingFixed) ==> Emits(p, t)
  {
    hide IsAlignment, IsLayout, IsRanked, WellFormed, StructGraph;
    RankedGraph(ts, r);
    var align := AlignmentsExist(ts, |ts|);
    var layouts := Lengths.LayoutsExist(ts, align, |ts|);
    p := Program(ts, align, layouts);
    forall t: nat | t < |ts| && IsMaxArray(ts[t]) ensures HasCode(ts, ts[t].elem) {
      assert ts[t].elem in Children(ts[t]);
      ChildInTable(ts, t, ts[t].elem);
    }
  }

  // ----- the order of definitions

  lemma {:induction false} SkippedByChain(ts: TypeTable, t: nat, u: nat)
    requires WellFormed(ts) && t < |ts| && IsStruct(ts, u)
    ensures SkipFieldArrays(ts, t) == u <==> LeadsInPlace(ts, t, u)
    decreases Depths(ts)[t]
  {
    if t == u {
      assert IsInPlace(ts, [t], t, u);
    } else if ts[t].TypeArray? && !ts[t].heap {
      ChildInTable(ts, t, ts[t].elem);
      SkippedByChain(ts, ts[t].elem, u);
      SkippedByChainUp(ts, t, u);
    }
  }

  lemma SkippedByChainUp(ts: TypeTable, t: nat, u: nat)
    requires t < |ts| && t != u && ts[t].TypeArray? && !ts[t].heap
    ensures LeadsInPlace(ts, t, u) <==> LeadsInPlace(ts, ts[t].elem, u)
  {
    if c: seq<nat> :| IsInPlace(ts, c, ts[t].elem, u) {
      assert ([t] + c)[1..] == c;
      assert IsInPlace(ts, [t] + c, t, u);
    }
    if c: seq<nat> :| IsInPlace(ts, c, t, u) {
      assert IsInPlace(ts, c[1..], ts[t].elem, u);
    }
  }

  /** In C, the definition of struct s has to come after that of d: some field of s has d in it, in place. */
  ghost predicate HasInPlace(ts: TypeTable, s: nat, d: nat) {
    && IsStruct(ts, s) && IsStruct(ts, d)
    && exists k :: 0 <= k < |ts[s].fields| && LeadsInPlace(ts, ts[s].fields[k], d)
  }

  /** The dependencies found are those, and no others. */
  lemma DependsIffInPlace(ts: TypeTable, deps: Dependencies, s: nat, d: nat)
    requires WellFormed(ts) && AreDependencies(ts, deps)
    ensures s in deps && d in deps[s] <==> HasInPlace(ts, s, d)
  {
    hide LeadsInPlace;
    if IsStruct(ts, s) && IsStruct(ts, d) {
      forall k | 0 <= k < |ts[s].fields|
        ensures ts[s].fields[k] < |ts| && (SkipFieldArrays(ts, ts[s].fields[k]) == d <==> LeadsInPlace(ts, ts[s].fields[k], d))
      {
        assert ts[s].fields[k] in Children(ts[s]);
        ChildInTable(ts, s, ts[s].fields[k]);
        SkippedByChain(ts, ts[s].fields[k], d);
      }
    }
  }

  /** What is defined in order comes after all it has in place. */
  lemma DefinedBefore(ts: TypeTable, deps: Dependencies, defined: seq<nat>, i: nat, d: nat) returns (j: nat)
    requires WellFormed(ts) && AreDependencies(ts, deps) && InOrder(GraphOf(deps), defined)
    requires i < |defined| && HasInPlace(ts, defined[i], d)
    ensures j < i && defined[j] == d
  {
    hide IsInPlace, WellFormed;
    DependsIffInPlace(ts, deps, defined[i], d);
    assert d in GraphOf(deps)[defined[i]] * GraphOf(deps).Keys;
    assert d in Elements(defined[..i]);
    j :| 0 <= j < i && defined[j] == d;
  }

  /** define_structs on a schema that was accepted: every struct once, after all it has in place. */
  method DefineAll(ts: TypeTable) returns (defined: seq<nat>)
    requires Finite(ts)
    ensures forall s :: s in defined <==> IsStruct(ts, s)
    ensures Distinct(defined)
    ensures forall i, d :: 0 <= i < |defined| && HasInPlace(ts, defined[i], d) ==> d in defined[..i]
  {
    hide WellFormed, StructGraph, HasInPlace, Distinct, InOrder, LeadsToCycle, GraphOf, AreDependencies;
    var all := FindDependencies(ts);
    var left;
    defined, left := DefineStructs(all);
    DefinesAll(ts, all, defined, left);
  }

  lemma DefinesAll(ts: TypeTable, all: Dependencies, defined: seq<nat>, left: Dependencies)
    requires Finite(ts) && AreDependencies(ts, all) && InOrder(GraphOf(all), defined)
    requires left.Keys <= all.Keys && Elements(defined) == all.Keys - left.Keys
    requires forall s :: s in all ==> (s in left <==> LeadsToCycle(GraphOf(all), s))
    ensures forall s :: s in defined <==> IsStruct(ts, s)
    ensures Distinct(defined)
    ensures forall i, d :: 0 <= i < |defined| && HasInPlace(ts, defined[i], d) ==> d in defined[..i]
  {
    hide LeadsToCycle, HasInPlace, WellFormed, StructGraph, GraphOf;
    NothingLeft(ts, all, left.Keys);
    forall s ensures s in defined <==> IsStruct(ts, s) {
      assert s in defined <==> s in Elements(defined);
    }
    forall i, d | 0 <= i < |defined| && HasInPlace(ts, defined[i], d) ensures d in defined[..i] {
      var j := DefinedBefore(ts, all, defined, i, d);
      assert defined[..i][j] == d;
    }
  }
}
