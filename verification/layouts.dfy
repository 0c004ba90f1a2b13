/** Flattening of a type into the accessor paths of its leaves (ser/eval.c), and the sorted layout made of them. */
module Layouts {
  import opened Collections
  import opened Digraph
  import opened Schema

  type Path = seq<nat>

  /** A path of field numbers and array indices to a leaf: a scalar of a fixed size, or the elements of an
      array of variable length, whose size is given as 0 in the source. */
  datatype FieldAccessor =
    | FixedField(indices: Path, prim: Prim)
    | ArrayField(indices: Path, elem: nat)
  {
    function Size(): nat {
      if FixedField? then PrimSize(prim) else 0
    }
  }

  // ----- types whose flattening ends

  /** Field arrays and fixed arrays are unfolded in place: ranks fall from a type to what it unfolds to. */
  ghost predicate FallsInto(ts: TypeTable, r: seq<nat>, t: nat)
    requires t < |ts| && |r| == |ts|
  {
    ts[t].TypeStruct? || Unbounded(ts[t]) ==> forall c :: c in Children(ts[t]) ==> c < |ts| && r[c] < r[t]
  }

  ghost predicate IsFlatRank(ts: TypeTable, r: seq<nat>) {
    |r| == |ts| && forall t: nat :: t < |ts| ==> FallsInto(ts, r, t)
  }

  /** The programs the infinite-size check lets through. */
  ghost predicate Finite(ts: TypeTable) {
    WellFormed(ts) && Acyclic(StructGraph(ts))
  }

  /** How many arrays are skipped on the way from t to Strip(ts, t). */
  ghost function Skips(ts: TypeTable, t: nat): nat
    requires WellFormed(ts) && t < |ts|
    decreases Depths(ts)[t]
  {
    if Unbounded(ts[t]) then
      assert InTable(ts, ts[t]) && ts[t].elem in Children(ts[t]);
      1 + Skips(ts, ts[t].elem)
    else 0
  }

  lemma {:induction false} SkipsBelow(ts: TypeTable, t: nat)
    requires WellFormed(ts) && t < |ts|
    ensures Skips(ts, t) <= Depths(ts)[t]
    decreases Depths(ts)[t]
  {
    if Unbounded(ts[t]) {
      assert InTable(ts, ts[t]) && ts[t].elem in Children(ts[t]);
      SkipsBelow(ts, ts[t].elem);
    }
  }

  lemma {:induction false} Bound(s: seq<nat>) returns (b: nat)
    ensures forall i :: 0 <= i < |s| ==> s[i] <= b
  {
    if s == [] {
      b := 0;
    } else {
      var c := Bound(s[1..]);
      b := if s[0] > c then s[0] else c;
      assert forall i :: 0 < i < |s| ==> s[i] == s[1..][i - 1];
    }
  }

  function Weight(n: nat, b: nat): nat {
    n * (b + 1)
  }

  lemma WeightFalls(m: nat, n: nat, b: nat)
    requires m < n
    ensures Weight(m, b) + b < Weight(n, b)
  {
    assert (n - m - 1) * (b + 1) >= 0;
    assert n * (b + 1) == m * (b + 1) + (b + 1) + (n - m - 1) * (b + 1);
  }

  /** Structs first by their rank in the containment graph, then by the arrays around them. */
  ghost function RankOf(ts: TypeTable, r: map<nat, nat>, b: nat, t: nat): nat
    requires WellFormed(ts) && StructGraph(ts).Keys <= r.Keys && t < |ts|
  {
    StructWeight(ts, r, b, Strip(ts, t)) + Skips(ts, t)
  }

  ghost function StructWeight(ts: TypeTable, r: map<nat, nat>, b: nat, s: nat): nat
    requires WellFormed(ts) && StructGraph(ts).Keys <= r.Keys
  {
    if IsStruct(ts, s) then
      assert s in StructGraph(ts);
      Weight(r[s] + 1, b)
    else 0
  }

  lemma FieldFalls(ts: TypeTable, r: map<nat, nat>, b: nat, t: nat, c: nat)
    requires WellFormed(ts) && IsRank(StructGraph(ts), r) && IsStruct(ts, t) && c in ts[t].fields && c < |ts|
    ensures StructWeight(ts, r, b, Strip(ts, c)) + b < StructWeight(ts, r, b, t)
  {
    hide Weight;
    var s := Strip(ts, c);
    assert t in StructGraph(ts);
    if IsStruct(ts, s) {
      var k :| 0 <= k < |ts[t].fields| && ts[t].fields[k] == c;
      assert s in Embedded(ts, t) && s in StructGraph(ts);
      assert FallsFrom(StructGraph(ts), r, t);
      WeightFalls(r[s] + 1, r[t] + 1, b);
    } else {
      WeightFalls(0, r[t] + 1, b);
    }
  }

  lemma RankFalls(ts: TypeTable, r: map<nat, nat>, b: nat, t: nat, c: nat)
    requires WellFormed(ts) && IsRank(StructGraph(ts), r) && t < |ts| && c in Children(ts[t])
    requires ts[t].TypeStruct? || Unbounded(ts[t])
    requires forall u :: 0 <= u < |ts| ==> Depths(ts)[u] <= b
    ensures c < |ts| && RankOf(ts, r, b, c) < RankOf(ts, r, b, t)
  {
    ChildInTable(ts, t, c);
    hide StructWeight, StructGraph, IsRank;
    if ts[t].TypeStruct? {
      SkipsBelow(ts, c);
      FieldFalls(ts, r, b, t, c);
    }
  }

  lemma FiniteIsRanked(ts: TypeTable)
    requires Finite(ts)
    ensures exists r: seq<nat> :: IsFlatRank(ts, r)
  {
    AcyclicIffRanked(StructGraph(ts));
    var m: map<nat, nat> :| IsRank(StructGraph(ts), m);
    var b := Bound(Depths(ts));
    var r := seq(|ts|, t requires 0 <= t < |ts| => RankOf(ts, m, b, t));
    forall t: nat | t < |ts| ensures FallsInto(ts, r, t) {
      if ts[t].TypeStruct? || Unbounded(ts[t]) {
        forall c | c in Children(ts[t]) ensures c < |ts| && r[c] < r[t] {
          RankFalls(ts, m, b, t, c);
        }
      }
    }
    assert IsFlatRank(ts, r);
  }

  ghost function FlatRanks(ts: TypeTable): (r: seq<nat>)
    requires Finite(ts)
    ensures IsFlatRank(ts, r)
  {
    FiniteIsRanked(ts);
    var r: seq<nat> :| IsFlatRank(ts, r);
    r
  }

  // ----- leaves

  predicate IsMaxArray(o: TypeObject) {
    o.TypeArray? && o.sizing.SizingMax?
  }

  /** The types laid out one after the other inside a struct or an array of a fixed size. */
  function Parts(o: TypeObject): seq<nat> {
    match o
    case TypeStruct(fields, _) => fields
    case TypeArray(SizingFixed, size, _, elem) => seq(size, _ => elem)
    case _ => []
  }

  lemma PartFalls(ts: TypeTable, t: nat, i: nat)
    requires Finite(ts) && t < |ts| && i < |Parts(ts[t])|
    ensures Parts(ts[t])[i] < |ts| && FlatRanks(ts)[Parts(ts[t])[i]] < FlatRanks(ts)[t]
  {
    assert FallsInto(ts, FlatRanks(ts), t);
    assert Parts(ts[t])[i] in Children(ts[t]);
  }

  function Under(i: nat, fa: FieldAccessor): FieldAccessor {
    fa.(indices := [i] + fa.indices)
  }

  function AllUnder(i: nat, fs: seq<FieldAccessor>): (r: seq<FieldAccessor>)
    ensures |r| == |fs| && forall k :: 0 <= k < |fs| ==> r[k] == Under(i, fs[k])
  {
    seq(|fs|, k requires 0 <= k < |fs| => Under(i, fs[k]))
  }

  /** All leaves of a type, in the order of declaration. */
  function Leaves(ts: TypeTable, t: nat): seq<FieldAccessor>
    requires Finite(ts) && t < |ts|
    decreases FlatRanks(ts)[t], |Parts(ts[t])| + 1
  {
    if ts[t].TypePrimitif? then [FixedField([], ts[t].primitif)]
    else if IsMaxArray(ts[t]) then [ArrayField([1], ts[t].elem), FixedField([0], LengthPrim(ts[t].size))]
    else LeavesFrom(ts, t, 0)
  }

  function LeavesFrom(ts: TypeTable, t: nat, i: nat): seq<FieldAccessor>
    requires Finite(ts) && t < |ts| && i <= |Parts(ts[t])|
    decreases FlatRanks(ts)[t], |Parts(ts[t])| - i
  {
    if i == |Parts(ts[t])| then []
    else
      PartFalls(ts, t, i);
      AllUnder(i, Leaves(ts, Parts(ts[t])[i])) + LeavesFrom(ts, t, i + 1)
  }

  /** A leaf of what lies inside part i of t, seen from t. */
  ghost predicate IsLeafOfPart(ts: TypeTable, t: nat, i: nat, inner: FieldAccessor)
    requires Finite(ts) && t < |ts|
  {
    i < |Parts(ts[t])| && Parts(ts[t])[i] < |ts| && inner in Leaves(ts, Parts(ts[t])[i])
  }

  lemma {:induction false} LeafFrom(ts: TypeTable, t: nat, i: nat, fa: FieldAccessor) returns (j: nat,
                                    inner: FieldAccessor)
    requires Finite(ts) && t < |ts| && i <= |Parts(ts[t])| && fa in LeavesFrom(ts, t, i)
    ensures i <= j && IsLeafOfPart(ts, t, j, inner) && fa == Under(j, inner)
    decreases |Parts(ts[t])| - i
  {
    PartFalls(ts, t, i);
    var here := AllUnder(i, Leaves(ts, Parts(ts[t])[i]));
    if fa in here {
      var k :| 0 <= k < |here| && here[k] == fa;
      j, inner := i, Leaves(ts, Parts(ts[t])[i])[k];
    } else {
      j, inner := LeafFrom(ts, t, i + 1, fa);
    }
  }

  lemma {:induction false} FromLeaf(ts: TypeTable, t: nat, i: nat, j: nat, inner: FieldAccessor)
    requires Finite(ts) && t < |ts| && i <= j && IsLeafOfPart(ts, t, j, inner)
    ensures Under(j, inner) in LeavesFrom(ts, t, i)
    decreases j - i
  {
    PartFalls(ts, t, i);
    var here := AllUnder(i, Leaves(ts, Parts(ts[t])[i]));
    if i == j {
      var k :| 0 <= k < |Leaves(ts, Parts(ts[t])[i])| && Leaves(ts, Parts(ts[t])[i])[k] == inner;
      assert here[k] == Under(j, inner);
    } else {
      FromLeaf(ts, t, i + 1, j, inner);
    }
  }

  // ----- no leaf lies inside another

  /** The paths part ways before either ends. */
  ghost predicate Apart(p: Path, q: Path) {
    exists k :: 0 <= k < |p| && k < |q| && p[k] != q[k]
  }

  ghost predicate AllApart(fs: seq<FieldAccessor>) {
    forall i, j :: 0 <= i < j < |fs| ==> Apart(fs[i].indices, fs[j].indices)
  }

  lemma ApartUnder(i: nat, p: Path, q: Path)
    requires Apart(p, q)
    ensures Apart([i] + p, [i] + q)
  {
    var k :| 0 <= k < |p| && k < |q| && p[k] != q[k];
    assert ([i] + p)[k + 1] != ([i] + q)[k + 1];
  }

  lemma {:induction false} LeavesAreApart(ts: TypeTable, t: nat)
    requires Finite(ts) && t < |ts|
    ensures AllApart(Leaves(ts, t))
    decreases FlatRanks(ts)[t], |Parts(ts[t])| + 1
  {
    if IsMaxArray(ts[t]) {
      assert Leaves(ts, t)[0].indices[0] != Leaves(ts, t)[1].indices[0];
    } else if !ts[t].TypePrimitif? {
      PartsAreApart(ts, t, 0);
    }
  }

  lemma {:induction false} PartsAreApart(ts: TypeTable, t: nat, i: nat)
    requires Finite(ts) && t < |ts| && i <= |Parts(ts[t])|
    ensures AllApart(LeavesFrom(ts, t, i))
    decreases FlatRanks(ts)[t], |Parts(ts[t])| - i
  {
    hide Finite, AllApart, Apart, Leaves;
    if i == |Parts(ts[t])| {
      NoneApart();
    } else {
      PartFalls(ts, t, i);
      LeavesAreApart(ts, Parts(ts[t])[i]);
      PartsAreApart(ts, t, i + 1);
      var inner, rest := Leaves(ts, Parts(ts[t])[i]), LeavesFrom(ts, t, i + 1);
      forall k | 0 <= k < |rest| ensures rest[k].indices != [] && rest[k].indices[0] > i {
        var n, leaf := LeafFrom(ts, t, i + 1, rest[k]);
      }
      JoinApart(i, inner, rest);
    }
  }

  lemma NoneApart()
    ensures AllApart([])
  {
  }

  lemma JoinApart(i: nat, inner: seq<FieldAccessor>, rest: seq<FieldAccessor>)
    requires AllApart(inner) && AllApart(rest)
    requires forall k :: 0 <= k < |rest| ==> rest[k].indices != [] && rest[k].indices[0] > i
    ensures AllApart(AllUnder(i, inner) + rest)
  {
    var here := AllUnder(i, inner);
    var all: seq<FieldAccessor> := here + rest;
    forall j, k | 0 <= j < k < |all| ensures Apart(all[j].indices, all[k].indices) {
      if k < |here| {
        ApartUnder(i, inner[j].indices, inner[k].indices);
      } else if j < |here| {
        assert here[j].indices[0] != rest[k - |here|].indices[0];
      } else {
        assert Apart(rest[j - |here|].indices, rest[k - |here|].indices);
      }
    }
  }

  // ----- every array of variable length has its length beside it

  function LengthPath(p: Path): Path
    requires p != []
  {
    p[..|p| - 1] + [0]
  }

  /** The type a path leads to. */
  function TypeAt(ts: TypeTable, t: nat, p: Path): nat
    decreases |p|
  {
    if p == [] || t >= |ts| then t
    else match ts[t]
      case TypePrimitif(_) => t
      case TypeArray(_, _, _, elem) => TypeAt(ts, elem, p[1..])
      case TypeStruct(fields, _) => if p[0] < |fields| then TypeAt(ts, fields[p[0]], p[1..]) else t
  }

  /** is_field_accessor_heap_array. */
  function IsHeapArray(ts: TypeTable, t: nat, p: Path): bool
    requires p != []
  {
    var a := TypeAt(ts, t, p[..|p| - 1]);
    a < |ts| && ts[a].TypeArray? && ts[a].heap
  }

  /** An array of a fixed size on the heap: a bare pointer stands for it in what contains it. */
  predicate IsPointer(o: TypeObject) {
    o.TypeArray? && o.sizing.SizingFixed? && o.heap
  }

  function Behind(i: nat, ps: seq<Path>): (r: seq<Path>)
    ensures |r| == |ps| && forall k :: 0 <= k < |ps| ==> r[k] == [i] + ps[k]
  {
    seq(|ps|, k requires 0 <= k < |ps| => [i] + ps[k])
  }

  /** The pointers that an accessor follows on its way. */
  function Via(ts: TypeTable, t: nat, p: Path): seq<Path>
    decreases |p|
  {
    if p == [] || t >= |ts| || p[0] >= |Parts(ts[t])| then []
    else (if IsPointer(ts[t]) then [[]] else []) + Behind(p[0], Via(ts, Parts(ts[t])[p[0]], p[1..]))
  }

  /** fa stands for the elements of an array in ts, and its length is a leaf too. */
  ghost predicate HasLength(ts: TypeTable, t: nat, fa: FieldAccessor, fs: seq<FieldAccessor>) {
    && fa.ArrayField? && fa.indices != [] && fa.indices[|fa.indices| - 1] == 1
    && var a := TypeAt(ts, t, fa.indices[..|fa.indices| - 1]);
       a < |ts| && IsMaxArray(ts[a]) && ts[a].elem == fa.elem
       && FixedField(LengthPath(fa.indices), LengthPrim(ts[a].size)) in fs
  }

  lemma {:induction false} ArraysHaveLengths(ts: TypeTable, t: nat, fa: FieldAccessor)
    requires Finite(ts) && t < |ts| && fa in Leaves(ts, t) && fa.ArrayField?
    ensures HasLength(ts, t, fa, Leaves(ts, t))
    decreases FlatRanks(ts)[t]
  {
    if IsMaxArray(ts[t]) {
      assert fa.indices[..0] == [] && LengthPath(fa.indices) == [0];
      assert Leaves(ts, t)[1] == FixedField([0], LengthPrim(ts[t].size));
    } else {
      hide Finite, LeavesFrom, HasLength, TypeAt;
      var j, inner := LeafFrom(ts, t, 0, fa);
      PartFalls(ts, t, j);
      ArraysHaveLengths(ts, Parts(ts[t])[j], inner);
      LengthUnder(ts, t, j, inner);
    }
  }

  lemma LengthUnder(ts: TypeTable, t: nat, j: nat, inner: FieldAccessor)
    requires Finite(ts) && t < |ts| && j < |Parts(ts[t])| && Parts(ts[t])[j] < |ts|
    requires HasLength(ts, Parts(ts[t])[j], inner, Leaves(ts, Parts(ts[t])[j])) && inner in Leaves(ts, Parts(ts[t])[j])
    ensures HasLength(ts, t, Under(j, inner), Leaves(ts, t))
  {
    hide Finite, Leaves, LeavesFrom;
    var p, q := inner.indices, [j] + inner.indices;
    assert q[..|q| - 1] == [j] + p[..|p| - 1] && LengthPath(q) == [j] + LengthPath(p);
    assert ([j] + p[..|p| - 1])[1..] == p[..|p| - 1];
    var a := TypeAt(ts, Parts(ts[t])[j], p[..|p| - 1]);
    FromLeaf(ts, t, 0, j, FixedField(LengthPath(p), LengthPrim(ts[a].size)));
    PartsOnly(ts, t);
  }

  lemma PartsOnly(ts: TypeTable, t: nat)
    requires Finite(ts) && t < |ts| && Parts(ts[t]) != []
    ensures Leaves(ts, t) == LeavesFrom(ts, t, 0)
  {
  }

  // ----- layouts

  /** The alignment of the type of a field accessor. */
  function FieldAlign(align: seq<nat>, fa: FieldAccessor): nat {
    match fa
    case FixedField(_, prim) => PrimSize(prim)
    case ArrayField(_, elem) => if elem < |align| then align[elem] else 1
  }

  function Compare(align: seq<nat>, fa: FieldAccessor, fb: FieldAccessor): int {
    if fb.Size() != 0 && fa.Size() == 0 then 1
    else if fa.Size() != 0 && fb.Size() == 0 then -1
    else FieldAlign(align, fb) - FieldAlign(align, fa)
  }

  ghost predicate Sorted(align: seq<nat>, fs: seq<FieldAccessor>) {
    forall i, j :: 0 <= i < j < |fs| ==> Compare(align, fs[i], fs[j]) <= 0
  }

  /** Any result qsort may give; it need not keep the order of leaves that compare equal. */
  ghost predicate IsLayout(ts: TypeTable, align: seq<nat>, t: nat, layout: seq<FieldAccessor>)
    requires Finite(ts) && t < |ts|
  {
    multiset(layout) == multiset(Leaves(ts, t)) && Sorted(align, layout)
  }

  /** The number of leaves of a fixed size at the front. */
  function FixedCount(fs: seq<FieldAccessor>): (n: nat)
    ensures n <= |fs| && (n < |fs| ==> fs[n].ArrayField?) && forall i :: 0 <= i < n ==> fs[i].FixedField?
  {
    if fs == [] || fs[0].ArrayField? then 0 else 1 + FixedCount(fs[1..])
  }

  lemma ArraysLast(align: seq<nat>, fs: seq<FieldAccessor>)
    requires Sorted(align, fs)
    ensures forall i :: FixedCount(fs) <= i < |fs| ==> fs[i].ArrayField?
  {
    hide FixedCount, FieldAlign;
    var n := FixedCount(fs);
    forall i | n < i < |fs| ensures fs[i].ArrayField? {
      assert Compare(align, fs[n], fs[i]) <= 0;
    }
  }

  /** Fixed leaves first, and within each part the larger alignments first. */
  lemma LayoutOrder(align: seq<nat>, fs: seq<FieldAccessor>)
    requires Sorted(align, fs)
    ensures forall i :: FixedCount(fs) <= i < |fs| ==> fs[i].ArrayField?
    ensures forall i, j :: 0 <= i < j < FixedCount(fs) || FixedCount(fs) <= i < j < |fs| ==>
              FieldAlign(align, fs[j]) <= FieldAlign(align, fs[i])
  {
    hide FixedCount, FieldAlign;
    ArraysLast(align, fs);
    var n := FixedCount(fs);
    forall i, j | 0 <= i < j < n || n <= i < j < |fs| ensures FieldAlign(align, fs[j]) <= FieldAlign(align, fs[i]) {
      assert Compare(align, fs[i], fs[j]) <= 0;
    }
  }

  /** A layout has exactly the leaves of its type, each once, none inside another. */
  lemma LayoutLeaves(ts: TypeTable, align: seq<nat>, t: nat, layout: seq<FieldAccessor>)
    requires Finite(ts) && t < |ts| && IsLayout(ts, align, t, layout)
    ensures forall fa :: fa in layout <==> fa in Leaves(ts, t)
    ensures |layout| == |Leaves(ts, t)| && AllApart(layout)
  {
    var leaves := Leaves(ts, t);
    assert forall fa :: fa in layout <==> fa in multiset(layout);
    assert forall fa :: fa in leaves <==> fa in multiset(leaves);
    assert |multiset(layout)| == |multiset(leaves)|;
    LeavesAreApart(ts, t);
    hide Leaves, Sorted, Apart;
    forall i, j | 0 <= i < j < |layout| ensures Apart(layout[i].indices, layout[j].indices) {
      StillApart(leaves, layout, i, j);
    }
  }

  lemma StillApart(fs: seq<FieldAccessor>, gs: seq<FieldAccessor>, i: nat, j: nat)
    requires AllApart(fs) && multiset(gs) == multiset(fs) && i < j < |gs|
    ensures Apart(gs[i].indices, gs[j].indices)
  {
    if gs[i] == gs[j] {
      TwiceInMultiset(gs, i, j);
      var k, l := TwiceInSeq(fs, gs[i]);
      assert Apart(fs[k].indices, fs[l].indices);
    } else {
      assert gs[i] in multiset(gs) && gs[j] in multiset(gs);
      var k :| 0 <= k < |fs| && fs[k] == gs[i];
      var l :| 0 <= l < |fs| && fs[l] == gs[j];
      ApartEitherWay(fs, k, l);
    }
  }

  lemma ApartEitherWay(fs: seq<FieldAccessor>, k: nat, l: nat)
    requires AllApart(fs) && k < |fs| && l < |fs| && k != l
    ensures Apart(fs[k].indices, fs[l].indices)
  {
    if l < k {
      assert Apart(fs[l].indices, fs[k].indices);
      var n :| 0 <= n < |fs[l].indices| && n < |fs[k].indices| && fs[l].indices[n] != fs[k].indices[n];
    }
  }

  // ----- the passes of the compiler

  function Rebased(base: Path, fs: seq<FieldAccessor>): (r: seq<FieldAccessor>)
    ensures |r| == |fs|
  {
    seq(|fs|, k requires 0 <= k < |fs| => fs[k].(indices := base + fs[k].indices))
  }

  lemma RebasedParts(base: Path, i: nat, fs: seq<FieldAccessor>, rest: seq<FieldAccessor>)
    ensures Rebased(base, AllUnder(i, fs) + rest) == Rebased(base + [i], fs) + Rebased(base, rest)
  {
    var all := AllUnder(i, fs) + rest;
    forall k | 0 <= k < |fs| ensures Rebased(base, all)[k] == Rebased(base + [i], fs)[k] {
      assert base + ([i] + fs[k].indices) == base + [i] + fs[k].indices;
    }
  }

  lemma NoField(ts: TypeTable, t: nat, base: Path)
    requires Finite(ts) && t < |ts| && !ts[t].TypePrimitif? && !IsMaxArray(ts[t])
    ensures Rebased(base, LeavesFrom(ts, t, 0)) == Rebased(base, Leaves(ts, t))
    ensures Rebased(base, LeavesFrom(ts, t, |Parts(ts[t])|)) == []
  {
  }

  /** Below the last index of the path, set to i, come the leaves of part i. */
  lemma NextField(ts: TypeTable, t: nat, base: Path, i: nat)
    requires Finite(ts) && t < |ts| && i < |Parts(ts[t])|
    ensures Parts(ts[t])[i] < |ts| && FlatRanks(ts)[Parts(ts[t])[i]] < FlatRanks(ts)[t]
    ensures Rebased(base, LeavesFrom(ts, t, i)) ==
            Rebased(base + [i], Leaves(ts, Parts(ts[t])[i])) + Rebased(base, LeavesFrom(ts, t, i + 1))
  {
    hide Rebased, Finite;
    PartFalls(ts, t, i);
    RebasedParts(base, i, Leaves(ts, Parts(ts[t])[i]), LeavesFrom(ts, t, i + 1));
  }

  lemma PushedLeaf(ts: TypeTable, t: nat, base: Path)
    requires Finite(ts) && t < |ts|
    ensures ts[t].TypePrimitif? ==> Rebased(base, Leaves(ts, t)) == [FixedField(base, ts[t].primitif)]
    ensures IsMaxArray(ts[t]) ==>
      Rebased(base, Leaves(ts, t)) ==
      [ArrayField(base + [1], ts[t].elem)] + [FixedField(base + [0], LengthPrim(ts[t].size))]
  {
    assert base + [] == base;
  }

  lemma LastIndex(newBase: Path, base: Path, i: nat)
    requires |newBase| == |base| + 1 && newBase[..|base|] == base
    ensures newBase[|base| := i] == base + [i]
  {
  }

  /** add_fields: pushes the leaves of t, as paths from base. */
  method AddFields(v: seq<FieldAccessor>, ts: TypeTable, t: nat, base: Path) returns (v': seq<FieldAccessor>)
    requires Finite(ts) && t < |ts|
    ensures v' == v + Rebased(base, Leaves(ts, t))
    decreases FlatRanks(ts)[t]
  {
    hide Finite, FallsInto, Leaves, LeavesFrom, Rebased;
    PushedLeaf(ts, t, base);
    v' := v;
    match ts[t] {
      case TypePrimitif(p) =>
        v' := v' + [FixedField(base, p)];
      case TypeStruct(fields, _) =>
        NoField(ts, t, base);
        var newBase: Path := base + [0];
        var i: nat := 0;
        while i < |fields|
          invariant 0 <= i <= |fields| == |Parts(ts[t])| && |newBase| == |base| + 1 && newBase[..|base|] == base
          invariant v' + Rebased(base, LeavesFrom(ts, t, i)) == v + Rebased(base, Leaves(ts, t))
        {
          NextField(ts, t, base, i);
          LastIndex(newBase, base, i);
          newBase := newBase[|base| := i];
          v' := AddFields(v', ts, fields[i], newBase);
          i := i + 1;
        }
      case TypeArray(SizingMax, size, _, elem) =>
        var fa := ArrayField(base + [1], elem);
        var fl := FixedField(base + [0], LengthPrim(size));
        v' := v' + [fa];
        v' := v' + [fl];
      case TypeArray(SizingFixed, size, _, elem) =>
        NoField(ts, t, base);
        var newBase: Path := base + [0];
        var i: nat := 0;
        while i < size
          invariant 0 <= i <= size == |Parts(ts[t])| && |newBase| == |base| + 1 && newBase[..|base|] == base
          invariant v' + Rebased(base, LeavesFrom(ts, t, i)) == v + Rebased(base, Leaves(ts, t))
        {
          NextField(ts, t, base, i);
          LastIndex(newBase, base, i);
          newBase := newBase[|base| := i];
          v' := AddFields(v', ts, elem, newBase);
          i := i + 1;
        }
    }
  }

  /** Stands for qsort: an order of the same fields that the comparison allows. */
  method Sort(align: seq<nat>, fs: seq<FieldAccessor>) returns (sorted: seq<FieldAccessor>)
    ensures multiset(sorted) == multiset(fs) && Sorted(align, sorted)
  {
    sorted := [];
    var i := 0;
    while i < |fs|
      invariant 0 <= i <= |fs| && multiset(sorted) == multiset(fs[..i]) && Sorted(align, sorted)
    {
      hide Sorted;
      sorted := Insert(align, sorted, fs[i]);
      assert fs[..i + 1] == fs[..i] + [fs[i]];
      i := i + 1;
    }
    assert fs[..i] == fs;
  }

  method Insert(align: seq<nat>, fs: seq<FieldAccessor>, fa: FieldAccessor) returns (r: seq<FieldAccessor>)
    requires Sorted(align, fs)
    ensures multiset(r) == multiset(fs) + multiset{fa} && Sorted(align, r)
  {
    var k := |fs|;
    while k > 0 && Compare(align, fs[k - 1], fa) > 0
      invariant 0 <= k <= |fs|
      invariant forall j :: k <= j < |fs| ==> Compare(align, fa, fs[j]) <= 0
    {
      k := k - 1;
    }
    InsertSorted(align, fs, k, fa);
    assert fs == fs[..k] + fs[k..];
    r := fs[..k] + [fa] + fs[k..];
  }

  lemma InsertSorted(align: seq<nat>, fs: seq<FieldAccessor>, k: nat, fa: FieldAccessor)
    requires Sorted(align, fs) && k <= |fs|
    requires k > 0 ==> Compare(align, fs[k - 1], fa) <= 0
    requires forall j :: k <= j < |fs| ==> Compare(align, fa, fs[j]) <= 0
    ensures Sorted(align, fs[..k] + [fa] + fs[k..])
  {
    forall j | 0 <= j < k ensures Compare(align, fs[j], fa) <= 0 {
      assert j < k - 1 ==> Compare(align, fs[j], fs[k - 1]) <= 0;
    }
  }

  method TypeLayout(ts: TypeTable, align: seq<nat>, t: nat) returns (layout: seq<FieldAccessor>)
    requires Finite(ts) && t < |ts|
    ensures IsLayout(ts, align, t, layout)
  {
    var fields := AddFields([], ts, t, []);
    assert fields == Leaves(ts, t) by {
      assert forall k :: 0 <= k < |fields| ==> [] + Leaves(ts, t)[k].indices == Leaves(ts, t)[k].indices;
    }
    layout := Sort(align, fields);
  }

  lemma IsLengthPath(q: Path, p: Path)
    requires p != []
    ensures q == LengthPath(p) <==> |q| == |p| && q[..|q| - 1] == p[..|p| - 1] && q[|q| - 1] == 0
  {
    assert q != [] ==> q == q[..|q| - 1] + [q[|q| - 1]];
    assert LengthPath(p)[..|p| - 1] == p[..|p| - 1] && LengthPath(p)[|p| - 1] == 0;
  }

  /** get_array_length_field_index: the lookup that gives up when there is no length. */
  method LengthFieldIndex(layout: seq<FieldAccessor>, fa: FieldAccessor) returns (index: Option<nat>)
    requires fa.indices != []
    ensures index.Some? ==> index.value < FixedCount(layout) && layout[index.value].indices == LengthPath(fa.indices)
    ensures index.None? ==> forall j :: 0 <= j < FixedCount(layout) ==> layout[j].indices != LengthPath(fa.indices)
  {
    hide LengthPath;
    index := None;
    var j := 0;
    while j < |layout| && layout[j].Size() != 0
      invariant 0 <= j <= FixedCount(layout)
      invariant forall i :: 0 <= i < j ==> layout[i].indices != LengthPath(fa.indices)
    {
      var f := layout[j];
      IsLengthPath(f.indices, fa.indices);
      if |f.indices| == |fa.indices| {
        var equal, k := true, 0;
        while k < |f.indices| - 1
          invariant 0 <= k <= |f.indices| - 1
          invariant equal && f.indices[..k] == fa.indices[..k]
        {
          if f.indices[k] != fa.indices[k] {
            equal := false;
            assert f.indices[..|f.indices| - 1][k] != fa.indices[..|fa.indices| - 1][k];
            break;
          }
          k := k + 1;
        }
        if equal && f.indices[|f.indices| - 1] == 0 {
          return Some(j);
        }
      }
      j := j + 1;
    }
  }

  /** In a layout the lookup finds the length of every array, and no other leaf has that path. */
  lemma LengthIsThere(ts: TypeTable, align: seq<nat>, t: nat, layout: seq<FieldAccessor>, fa: FieldAccessor)
    requires Finite(ts) && t < |ts| && IsLayout(ts, align, t, layout) && fa in layout && fa.ArrayField?
    ensures HasLength(ts, t, fa, layout)
    ensures exists j :: 0 <= j < FixedCount(layout) && layout[j].indices == LengthPath(fa.indices)
    ensures forall i, j :: 0 <= i < j < |layout| && layout[i].indices == LengthPath(fa.indices) ==>
              layout[j].indices != LengthPath(fa.indices)
  {
    LayoutLeaves(ts, align, t, layout);
    ArraysHaveLengths(ts, t, fa);
    LayoutOrder(align, layout);
    var a := TypeAt(ts, t, fa.indices[..|fa.indices| - 1]);
    var j :| 0 <= j < |layout| && layout[j] == FixedField(LengthPath(fa.indices), LengthPrim(ts[a].size));
    forall i, k | 0 <= i < k < |layout| ensures layout[i].indices != layout[k].indices {
      assert Apart(layout[i].indices, layout[k].indices);
    }
  }
}
