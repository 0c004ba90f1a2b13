/** Tables in which every type comes after what it is made of, and how long values are once serialized. */
module Lengths {
  import opened Collections
  import opened Digraph
  import opened Schema
  import opened Alignments
  import opened Layouts
  import opened Machine
  import opened Values
  import opened Emitter
  import opened Plans
  import opened RoundTrips
  import opened Emission

  // ----- tables without forward references

  ghost predicate Backward(ts: TypeTable) {
    forall t: nat :: t < |ts| ==> PointsBack(ts[t], t)
  }

  ghost predicate PointsBack(o: TypeObject, t: nat) {
    (forall c :: c in Children(o) ==> c < t) && (o.TypeArray? ==> o.size < 0x1_0000_0000_0000_0000)
  }

  lemma BackwardIsWellFormed(ts: TypeTable)
    requires Backward(ts)
    ensures WellFormed(ts)
  {
    forall t | 0 <= t < |ts| ensures InTable(ts, ts[t]) {
      assert PointsBack(ts[t], t);
    }
    var d := seq(|ts|, t requires 0 <= t < |ts| => t);
    forall t | 0 <= t < |ts| && ts[t].TypeArray? && ts[t].elem < |ts| ensures d[ts[t].elem] < d[t] {
      assert PointsBack(ts[t], t) && ts[t].elem in Children(ts[t]);
    }
    assert AreDepths(ts, d);
  }

  lemma {:induction false} StripBelow(ts: TypeTable, t: nat)
    requires Backward(ts) && WellFormed(ts) && t < |ts|
    ensures Strip(ts, t) <= t
    decreases t
  {
    if Unbounded(ts[t]) {
      assert PointsBack(ts[t], t) && ts[t].elem in Children(ts[t]);
      StripBelow(ts, ts[t].elem);
    }
  }

  lemma BackwardIsFinite(ts: TypeTable)
    requires Backward(ts)
    ensures Finite(ts)
  {
    BackwardIsWellFormed(ts);
    var g := StructGraph(ts);
    var r: map<nat, nat> := map t | t in g :: t;
    forall i | i in g ensures FallsFrom(g, r, i) {
      assert PointsBack(ts[i], i);
      forall j | j in g[i] && j in g ensures r[j] < r[i] {
        assert forall k :: 0 <= k < |ts[i].fields| ==> ts[i].fields[k] in Children(ts[i]);
        var k :| 0 <= k < |ts[i].fields| && IsStruct(ts, Strip(ts, ts[i].fields[k])) && j == Strip(ts, ts[i].fields[k]);
        StripBelow(ts, ts[i].fields[k]);
      }
    }
    assert IsRank(g, r);
    AcyclicIffRanked(g);
  }

  /** Each alignment is the largest of the type's own and those of its children. */
  ghost predicate IsLocal(ts: TypeTable, align: seq<nat>) {
    |align| == |ts| && forall t: nat :: t < |ts| ==> IsLocalAt(ts, align, t)
  }

  ghost predicate IsLocalAt(ts: TypeTable, align: seq<nat>, t: nat)
    requires t < |ts| == |align|
  {
    && Base(ts[t]) <= align[t] && (forall c :: c in Children(ts[t]) ==> c < |ts| && align[c] <= align[t])
    && (align[t] == Base(ts[t]) || exists c :: c in Children(ts[t]) && align[c] == align[t])
  }

  lemma {:induction false} AlignFallsAlong(ts: TypeTable, align: seq<nat>, p: seq<nat>)
    requires IsLocal(ts, align) && IsPath(TypeGraph(ts), p)
    ensures p[0] < |ts| && p[|p| - 1] < |ts| && align[p[|p| - 1]] <= align[p[0]]
    decreases |p|
  {
    if |p| > 1 {
      assert p[1] in TypeGraph(ts)[p[0]];
      assert IsLocalAt(ts, align, p[0]);
      AlignFallsAlong(ts, align, p[1..]);
    }
  }

  lemma {:induction false} LocalIsAlignment(ts: TypeTable, align: seq<nat>, t: nat)
    requires Backward(ts) && IsLocal(ts, align) && t < |ts|
    ensures IsAlignment(ts, t, align[t])
    decreases t
  {
    hide Base;
    assert IsLocalAt(ts, align, t) && PointsBack(ts[t], t);
    forall u: nat | u < |ts| && Reaches(ts, t, u) ensures Base(ts[u]) <= align[t] {
      var p: seq<nat> :| IsPath(TypeGraph(ts), p) && p[0] == t && p[|p| - 1] == u;
      AlignFallsAlong(ts, align, p);
      assert IsLocalAt(ts, align, u);
    }
    if align[t] == Base(ts[t]) {
      ReachesItself(ts, t);
    } else {
      var c :| c in Children(ts[t]) && align[c] == align[t];
      LocalIsAlignment(ts, align, c);
      var u: nat :| u < |ts| && Reaches(ts, c, u) && Base(ts[u]) == align[c];
      ReachesThrough(ts, t, c, u);
    }
  }

  // ----- a layout always exists

  lemma {:induction false} Position(align: seq<nat>, fs: seq<FieldAccessor>, fa: FieldAccessor, n: nat) returns (k: nat)
    requires Sorted(align, fs) && n <= |fs| && forall j :: n <= j < |fs| ==> Compare(align, fa, fs[j]) <= 0
    ensures k <= |fs| && (k > 0 ==> Compare(align, fs[k - 1], fa) <= 0)
    ensures forall j :: k <= j < |fs| ==> Compare(align, fa, fs[j]) <= 0
    decreases n
  {
    if n == 0 || Compare(align, fs[n - 1], fa) <= 0 {
      k := n;
    } else {
      k := Position(align, fs, fa, n - 1);
    }
  }

  lemma SameElements(s: seq<FieldAccessor>, k: nat, fa: FieldAccessor)
    requires k <= |s|
    ensures multiset(s[..k] + [fa] + s[k..]) == multiset([fa]) + multiset(s)
  {
    assert s == s[..k] + s[k..];
  }

  lemma {:induction false} SortedExists(align: seq<nat>, fs: seq<FieldAccessor>) returns (r: seq<FieldAccessor>)
    ensures multiset(r) == multiset(fs) && Sorted(align, r)
    decreases |fs|
  {
    if fs == [] {
      r := [];
    } else {
      hide Sorted, Compare;
      var s := SortedExists(align, fs[1..]);
      var k := Position(align, s, fs[0], |s|);
      InsertSorted(align, s, k, fs[0]);
      r := s[..k] + [fs[0]] + s[k..];
      SameElements(s, k, fs[0]);
      assert fs == [fs[0]] + fs[1..];
    }
  }

  lemma LayoutExists(ts: TypeTable, align: seq<nat>, t: nat) returns (layout: seq<FieldAccessor>)
    requires Finite(ts) && t < |ts|
    ensures IsLayout(ts, align, t, layout)
  {
    layout := SortedExists(align, Leaves(ts, t));
  }

  lemma {:induction false} LayoutsExist(ts: TypeTable, align: seq<nat>, n: nat) returns (layouts: seq<seq<FieldAccessor>>)
    requires Finite(ts) && n <= |ts|
    ensures |layouts| == n && forall t: nat :: t < n ==> IsLayout(ts, align, t, layouts[t])
  {
    hide Finite, IsLayout;
    if n == 0 {
      layouts := [];
    } else {
      var before := LayoutsExist(ts, align, n - 1);
      var last := LayoutExists(ts, align, n - 1);
      layouts := before + [last];
    }
  }

  // ----- sums over leaves, which do not depend on their order

  function Sum(fs: seq<FieldAccessor>, g: FieldAccessor -> nat): nat {
    if fs == [] then 0 else g(fs[0]) + Sum(fs[1..], g)
  }

  lemma {:induction false} SumBoth(fs: seq<FieldAccessor>, gs: seq<FieldAccessor>, g: FieldAccessor -> nat)
    ensures Sum(fs + gs, g) == Sum(fs, g) + Sum(gs, g)
    decreases |fs|
  {
    if fs == [] {
      assert fs + gs == gs;
    } else {
      assert (fs + gs)[1..] == fs[1..] + gs;
      SumBoth(fs[1..], gs, g);
    }
  }

  lemma WithoutOne(r: seq<FieldAccessor>, x: seq<FieldAccessor>, y: seq<FieldAccessor>, fa: FieldAccessor)
    requires multiset([fa] + r) == multiset(x + ([fa] + y))
    ensures multiset(r) == multiset(x + y)
  {
    assert multiset([fa] + r) == multiset{fa} + multiset(r);
    assert multiset(x + ([fa] + y)) == multiset{fa} + multiset(x + y);
    assert multiset(r) == multiset([fa] + r) - multiset{fa};
  }

  lemma {:induction false} SumPermutes(fs: seq<FieldAccessor>, gs: seq<FieldAccessor>, g: FieldAccessor -> nat)
    requires multiset(fs) == multiset(gs)
    ensures Sum(fs, g) == Sum(gs, g)
    decreases |fs|
  {
    if fs == [] {
      assert |multiset(gs)| == 0;
    } else {
      var fa := fs[0];
      assert fs == [fa] + fs[1..] && fa in multiset(gs);
      var k :| 0 <= k < |gs| && gs[k] == fa;
      var x, y := gs[..k], gs[k + 1..];
      assert gs == x + ([fa] + y);
      WithoutOne(fs[1..], x, y, fa);
      SumPermutes(fs[1..], x + y, g);
      SumBoth(x, [fa] + y, g);
      SumBoth(x, y, g);
      assert ([fa] + y)[1..] == y;
    }
  }

  lemma {:induction false} SumOfSizes(fs: seq<FieldAccessor>)
    ensures TotalSize(fs) == Sum(fs, (fa: FieldAccessor) => fa.Size())
    decreases |fs|
  {
    if fs != [] {
      SumOfSizes(fs[1..]);
    }
  }

  lemma {:induction false} SumOfNothing(fs: seq<FieldAccessor>, g: FieldAccessor -> nat)
    requires forall fa :: fa in fs ==> g(fa) == 0
    ensures Sum(fs, g) == 0
    decreases |fs|
  {
    if fs != [] {
      SumOfNothing(fs[1..], g);
    }
  }

  // ----- the numbers of a shape

  lemma {:induction false} AfterIs(al: CurrentAlignment, fs: seq<FieldAccessor>)
    requires IsPo2(al.align) && al.offset < al.align
    ensures AlignAfter(al, fs) == CurrentAlignment(al.align, (al.offset + TotalSize(fs)) % al.align)
    decreases |fs|
  {
    hide IsPo2;
    AlignIsPositive(al.align);
    if fs == [] {
      SmallRest(al.offset, al.align);
    } else {
      RestIsLess(al.offset + fs[0].Size(), al.align);
      AfterIs(CalignAdd(al, fs[0].Size()), fs[1..]);
      WrapTwice(al.offset + fs[0].Size(), TotalSize(fs[1..]), al.align);
    }
  }

  lemma AlignIsPositive(a: nat)
    requires IsPo2(a)
    ensures a > 0
  {
  }

  lemma SmallRest(x: nat, a: nat)
    requires x < a
    ensures x % a == x
  {
  }

  lemma RestIsLess(x: nat, a: nat)
    requires a > 0
    ensures x % a < a
  {
  }

  lemma WrapTwice(x: nat, y: nat, a: nat)
    requires IsPo2(a)
    ensures (x % a + y) % a == (x + y) % a
  {
    if a == 1 {
    } else if a == 2 {
      SameRest(x % 2 + y, x + y, (x + y) / 2 - x / 2, 2);
    } else if a == 4 {
      SameRest(x % 4 + y, x + y, (x + y) / 4 - x / 4, 4);
    } else {
      SameRest(x % 8 + y, x + y, (x + y) / 8 - x / 8, 8);
    }
  }

  lemma SameRest(m: int, n: int, k: int, a: nat)
    requires a == 2 || a == 4 || a == 8
    requires m == a * k + n % a
    ensures m % a == n % a
  {
    if a == 2 {
      RestOf2(k, n % 2);
    } else if a == 4 {
      RestOf4(k, n % 4);
    } else {
      RestOf8(k, n % 8);
    }
  }

  lemma RestOf2(k: int, r: int)
    requires 0 <= r < 2
    ensures (2 * k + r) % 2 == r
  {
  }

  lemma RestOf4(k: int, r: int)
    requires 0 <= r < 4
    ensures (4 * k + r) % 4 == r
  {
  }

  lemma RestOf8(k: int, r: int)
    requires 0 <= r < 8
    ensures (8 * k + r) % 8 == r
  {
  }

  /** fa is a leaf of a fixed size, and no such leaf is larger. */
  ghost predicate IsLargest(ts: TypeTable, t: nat, fa: FieldAccessor)
    requires Finite(ts) && t < |ts|
  {
    && fa in Leaves(ts, t) && fa.FixedField?
    && forall fb :: fb in Leaves(ts, t) && fb.FixedField? ==> fb.Size() <= fa.Size()
  }

  /** fa is an array among the leaves, and none is aligned more strictly. */
  ghost predicate IsStrictest(ts: TypeTable, align: seq<nat>, t: nat, fa: FieldAccessor)
    requires Finite(ts) && t < |ts|
  {
    && fa in Leaves(ts, t) && fa.ArrayField?
    && forall fb :: fb in Leaves(ts, t) && fb.ArrayField? ==> FieldAlign(align, fb) <= FieldAlign(align, fa)
  }

  /** What sorting makes of the leaves of a type. */
  lemma LayoutSplits(p: Program, t: nat)
    requires Valid(p) && t < |p.types|
    ensures Finite(p.types) && |p.layouts| == |p.types| == |p.align|
    ensures var layout := p.layouts[t];
            var n := FixedCount(layout);
            && multiset(layout) == multiset(Leaves(p.types, t)) && n <= |layout|
            && (forall fa :: fa in layout <==> fa in Leaves(p.types, t))
            && (forall i :: n <= i < |layout| ==> layout[i].ArrayField?)
            && (forall i :: 0 <= i < n ==> layout[i].FixedField? && FieldAlign(p.align, layout[i]) <= FieldAlign(p.align, layout[0]))
            && (forall i :: n <= i < |layout| ==> FieldAlign(p.align, layout[i]) <= FieldAlign(p.align, layout[n]))
  {
    hide Leaves, Finite, FieldAlign;
    LayoutLeaves(p.types, p.align, t, p.layouts[t]);
    LayoutOrder(p.align, p.layouts[t]);
  }

  lemma FirstFixed(p: Program, t: nat, fa: FieldAccessor)
    requires Valid(p) && t < |p.types| && IsLargest(p.types, t, fa)
    ensures var layout := p.layouts[t];
            layout != [] && FixedCount(layout) > 0 && FieldAlign(p.align, layout[0]) == fa.Size()
  {
    hide Valid, Leaves, Finite, FixedCount;
    LayoutSplits(p, t);
    var layout := p.layouts[t];
    assert fa in layout;
    var i :| 0 <= i < |layout| && layout[i] == fa;
    assert layout[0] in layout;
  }

  lemma FirstArray(p: Program, t: nat, fa: FieldAccessor)
    requires Valid(p) && t < |p.types| && IsStrictest(p.types, p.align, t, fa)
    ensures var layout := p.layouts[t];
            FixedCount(layout) < |layout| && FieldAlign(p.align, layout[FixedCount(layout)]) == FieldAlign(p.align, fa)
  {
    hide Valid, Leaves, Finite, FixedCount, FieldAlign;
    LayoutSplits(p, t);
    var layout, n := p.layouts[t], FixedCount(p.layouts[t]);
    assert fa in layout;
    var i :| 0 <= i < |layout| && layout[i] == fa;
    assert layout[n] in layout;
  }

  lemma {:induction false} ArraysHaveNoSize(fs: seq<FieldAccessor>)
    requires forall i :: 0 <= i < |fs| ==> fs[i].ArrayField?
    ensures TotalSize(fs) == 0
    decreases |fs|
  {
    if fs != [] {
      ArraysHaveNoSize(fs[1..]);
    }
  }

  /** The leaves of a fixed size take up as much, however they are sorted. */
  lemma FixedTotal(p: Program, t: nat)
    requires Valid(p) && t < |p.types|
    ensures var layout := p.layouts[t];
            FixedCount(layout) <= |layout| && TotalSize(layout[..FixedCount(layout)]) == TotalSize(Leaves(p.types, t))
  {
    hide Valid, Leaves, TotalSize, Finite, FixedCount, FieldAlign, Sum;
    LayoutSplits(p, t);
    var layout, size := p.layouts[t], (fa: FieldAccessor) => fa.Size();
    var n := FixedCount(layout);
    SumPermutes(layout, Leaves(p.types, t), size);
    assert layout == layout[..n] + layout[n..];
    SumBoth(layout[..n], layout[n..], size);
    SumOfSizes(layout[..n]);
    SumOfSizes(layout[n..]);
    SumOfSizes(Leaves(p.types, t));
    ArraysHaveNoSize(layout[n..]);
  }

  /** The padding from one known offset to the next multiple. */
  function Padding(al: CurrentAlignment, total: nat, f: nat): nat
    requires IsPo2(al.align) && IsPo2(f)
  {
    CalignTo(CurrentAlignment(al.align, (al.offset + total) % al.align), f)
  }

  /** A body with arrays. */
  lemma ArrayShape(p: Program, t: nat, al: CurrentAlignment, first: FieldAccessor, arr: FieldAccessor)
    requires Valid(p) && t < |p.types| && IsPo2(al.align) && al.offset < al.align
    requires IsLargest(p.types, t, first) && IsStrictest(p.types, p.align, t, arr)
    ensures IsPo2(first.Size()) && IsPo2(FieldAlign(p.align, arr)) && p.layouts[t] != []
    ensures var sh, total := ShapeOf(p, t, al), TotalSize(Leaves(p.types, t));
            && sh.arrays != [] && sh.off == al.offset + CalignTo(al, first.Size())
            && sh.next == sh.off + total + Padding(al, total, FieldAlign(p.align, arr))
            && FieldAlign(p.align, sh.arrays[0]) == FieldAlign(p.align, arr)
  {
    hide Leaves, Finite, Valid, IsLargest, IsStrictest, TotalSize, CalignTo, FixedCount, AlignAfter, ShapeOf, FieldAlign,
      IsPo2, ArraysOf;
    FirstFixed(p, t, first);
    FirstArray(p, t, arr);
    FixedTotal(p, t);
    ShapeIs(p, t, al);
    AfterIs(al, p.layouts[t][..FixedCount(p.layouts[t])]);
  }

  /** A body of nothing but leaves of a fixed size. */
  lemma FixedShape(p: Program, t: nat, al: CurrentAlignment, first: FieldAccessor)
    requires Valid(p) && t < |p.types| && IsPo2(al.align) && al.offset < al.align && IsLargest(p.types, t, first)
    requires forall fa :: fa in Leaves(p.types, t) ==> fa.FixedField?
    ensures IsPo2(first.Size()) && p.layouts[t] != []
    ensures var sh, total := ShapeOf(p, t, al), TotalSize(Leaves(p.types, t));
            && sh.arrays == [] && sh.off == al.offset + CalignTo(al, first.Size())
            && sh.next == sh.off + total + Padding(al, total, al.align)
  {
    hide Leaves, Finite, Valid, IsLargest, TotalSize, CalignTo, FixedCount, AlignAfter, ShapeOf, FieldAlign, IsPo2,
      ArraysOf;
    FirstFixed(p, t, first);
    AllFixed(p, t);
    FixedTotal(p, t);
    ShapeIs(p, t, al);
    AfterIs(al, p.layouts[t][..FixedCount(p.layouts[t])]);
  }

  lemma AllFixed(p: Program, t: nat)
    requires Valid(p) && t < |p.types| && forall fa :: fa in Leaves(p.types, t) ==> fa.FixedField?
    ensures FixedCount(p.layouts[t]) == |p.layouts[t]|
  {
    hide Valid, Leaves, Finite, FixedCount, FieldAlign;
    LayoutSplits(p, t);
    IsMember(p.layouts[t], FixedCount(p.layouts[t]));
  }

  lemma IsMember(fs: seq<FieldAccessor>, n: nat)
    ensures n < |fs| ==> fs[n] in fs
  {
  }

  // ----- lengths of elements

  /** The length of an element of a type. */
  type Measure = (nat, Value) -> nat

  function Measured(len: Measure, elem: nat, vs: seq<Value>): nat {
    if vs == [] then 0 else len(elem, vs[0]) + Measured(len, elem, vs[1..])
  }

  ghost predicate AllEncodable(ts: TypeTable, elem: nat, vs: seq<Value>) {
    forall i :: 0 <= i < |vs| ==> Encodable(ts, elem, vs[i])
  }

  /** Elements that start aligned are as long as len says, and end aligned. */
  ghost predicate Measures(p: Program, elem: nat, len: Measure)
    requires Valid(p) && HasCode(p.types, elem)
  {
    forall v: Value, a: int :: Encodable(p.types, elem, v) && Multiple(a, AlignOf(p, elem)) ==> IsMeasured(p, elem, len, v, a)
  }

  ghost predicate IsMeasured(p: Program, elem: nat, len: Measure, v: Value, a: int)
    requires Valid(p) && HasCode(p.types, elem)
  {
    && PlanOf(p, elem, v, CurrentAlignment(AlignOf(p, elem), 0), a).end == a + len(elem, v)
    && Multiple(a + len(elem, v), AlignOf(p, elem))
  }

  lemma {:induction false} MeasuredElems(p: Program, elem: nat, len: Measure, vs: seq<Value>, a: int)
    requires Valid(p) && HasCode(p.types, elem) && Measures(p, elem, len) && Multiple(a, AlignOf(p, elem))
    requires AllEncodable(p.types, elem, vs)
    ensures PlanElems(p, elem, vs, a).end == a + Measured(len, elem, vs)
    ensures Multiple(PlanElems(p, elem, vs, a).end, AlignOf(p, elem))
    decreases |vs|
  {
    hide Valid, HasCode, PlanOf, PlanElems, Encodable, Multiple, AlignOf, Emits;
    if vs == [] {
      NoElems(p, elem, a);
    } else {
      FirstElem(p, elem, vs, a);
      assert IsMeasured(p, elem, len, vs[0], a);
      MeasuredElems(p, elem, len, vs[1..], a + len(elem, vs[0]));
    }
  }

  /** How many bytes the elements of an array take; for a leaf of a fixed size, none. */
  function ArrayBytes(ts: TypeTable, t: nat, v: Value, len: Measure, fa: FieldAccessor): nat {
    if fa.ArrayField? then Measured(len, fa.elem, ElemsOf(At(ts, t, v, fa.indices))) else 0
  }

  function ArrayBytesOf(ts: TypeTable, t: nat, v: Value, len: Measure): FieldAccessor -> nat {
    fa => ArrayBytes(ts, t, v, len, fa)
  }

  ghost predicate AllMeasured(p: Program, t: nat, len: Measure)
    requires Valid(p) && t < |p.types|
  {
    forall fa :: fa in Leaves(p.types, t) && fa.ArrayField? ==> HasCode(p.types, fa.elem) && Measures(p, fa.elem, len)
  }

  lemma {:induction false} MeasuredArrays(p: Program, t: nat, v: Value, fs: seq<FieldAccessor>, len: Measure, a: int)
    requires Valid(p) && Emits(p, t) && ArraysOf(p, t, fs) && t < |p.types| && AllMeasured(p, t, len)
    requires Encodable(p.types, t, v) && Descending(p.align, fs) && (fs != [] ==> Multiple(a, FieldAlign(p.align, fs[0])))
    ensures PlanArrays(p, t, v, fs, a).end == a + Sum(fs, ArrayBytesOf(p.types, t, v, len))
    decreases |fs|
  {
    hide Valid, Emits, ArraysOf, HasCode, PlanElems, Leaves, At, Multiple, Descending, Measures, Measured, Encodable,
      AllEncodable;
    if fs != [] {
      ArrayInTable(p, t, fs, true);
      RestOfArrays(p, t, fs);
      InTables(p, t);
      var es := ElemsOf(At(p.types, t, v, fs[0].indices));
      ElementsEncodable(p, t, v, fs[0]);
      ArraysArePo2(p, t, fs);
      FieldAlignIs(p, fs[0]);
      MeasuredElems(p, fs[0].elem, len, es, a);
      var here := PlanElems(p, fs[0].elem, es, a);
      NextIsAligned(p, fs, here.end);
      MeasuredArrays(p, t, v, fs[1..], len, here.end);
    }
  }

  lemma FieldAlignIs(p: Program, fa: FieldAccessor)
    requires Valid(p) && fa.ArrayField? && fa.elem < |p.types|
    ensures FieldAlign(p.align, fa) == AlignOf(p, fa.elem)
  {
  }

  lemma ElementsEncodable(p: Program, t: nat, v: Value, fa: FieldAccessor)
    requires Valid(p) && t < |p.types| && Encodable(p.types, t, v) && fa in Leaves(p.types, t) && fa.ArrayField?
    ensures AllEncodable(p.types, fa.elem, ElemsOf(At(p.types, t, v, fa.indices)))
  {
    hide Leaves, Encodable;
    LeavesEncodable(p.types, t, v, fa);
  }

  /** The arrays take up as much, however they are sorted. */
  lemma ArraysTotal(p: Program, t: nat, al: CurrentAlignment, g: FieldAccessor -> nat)
    requires Valid(p) && t < |p.types| && IsPo2(al.align) && p.layouts[t] != []
    requires forall fa: FieldAccessor :: fa.FixedField? ==> g(fa) == 0
    ensures Sum(ShapeOf(p, t, al).arrays, g) == Sum(Leaves(p.types, t), g)
  {
    hide Leaves, Finite, ArraysOf;
    var layout, sh := p.layouts[t], ShapeOf(p, t, al);
    SumPermutes(layout, Leaves(p.types, t), g);
    SumBoth(sh.fixed, sh.arrays, g);
    SumOfNothing(sh.fixed, g);
  }

  /** Where an object with arrays ends. */
  lemma ArrayEnd(p: Program, t: nat, v: Value, al: CurrentAlignment, a: int, len: Measure,
                 first: FieldAccessor, arr: FieldAccessor)
    requires Valid(p) && Emits(p, t) && t < |p.types| && AllMeasured(p, t, len) && Encodable(p.types, t, v)
    requires IsPo2(al.align) && al.offset < al.align
    requires IsLargest(p.types, t, first) && IsStrictest(p.types, p.align, t, arr)
    requires IsPo2(FieldAlign(p.align, arr)) && IsPo2(first.Size())
    requires var total := TotalSize(Leaves(p.types, t));
             Multiple(a + al.offset + CalignTo(al, first.Size()) + total + Padding(al, total, FieldAlign(p.align, arr)),
                      FieldAlign(p.align, arr))
    ensures var total := TotalSize(Leaves(p.types, t));
            var next := al.offset + CalignTo(al, first.Size()) + total + Padding(al, total, FieldAlign(p.align, arr));
            PlanOf(p, t, v, al, a).end == AlignUp(a + next + Sum(Leaves(p.types, t), ArrayBytesOf(p.types, t, v, len)), al.align)
  {
    hide Valid, Emits, ShapeOf, ArraysOf, PlanOf, PlanArrays, PlanLeaves, AlignUp, Multiple, Descending, IsLargest,
      IsStrictest, Leaves,
      Encodable, AllMeasured, TotalSize, Padding, CalignTo, ArrayBytes;
    ArrayShape(p, t, al, first, arr);
    PlanParts(p, t, v, al, a);
    InTables(p, t);
    var sh := ShapeOf(p, t, al);
    ArraysDescend(p, t, al);
    MeasuredArrays(p, t, v, sh.arrays, len, a + sh.next);
    FixedHasNoArrayBytes(p.types, t, v, len);
    ArraysTotal(p, t, al, ArrayBytesOf(p.types, t, v, len));
  }

  lemma FixedHasNoArrayBytes(ts: TypeTable, t: nat, v: Value, len: Measure)
    ensures forall fa: FieldAccessor :: fa.FixedField? ==> ArrayBytesOf(ts, t, v, len)(fa) == 0
  {
  }

  lemma ArraysDescend(p: Program, t: nat, al: CurrentAlignment)
    requires Valid(p) && t < |p.types| && IsPo2(al.align) && p.layouts[t] != []
    ensures Descending(p.align, ShapeOf(p, t, al).arrays)
  {
    hide Leaves, Finite, ArraysOf;
    LayoutFacts(p, t);
  }

  /** Where an object of a fixed size ends. */
  lemma FixedEnd(p: Program, t: nat, v: Value, al: CurrentAlignment, a: int, first: FieldAccessor)
    requires Valid(p) && Emits(p, t) && t < |p.types| && IsPo2(al.align) && al.offset < al.align &&
             IsLargest(p.types, t, first)
    requires forall fa :: fa in Leaves(p.types, t) ==> fa.FixedField?
    requires IsPo2(first.Size())
    ensures var total := TotalSize(Leaves(p.types, t));
            PlanOf(p, t, v, al, a).end == a + al.offset + CalignTo(al, first.Size()) + total + Padding(al, total, al.align)
  {
    hide Valid, Emits, ShapeOf, PlanOf, PlanArrays, PlanLeaves, IsLargest, Leaves, TotalSize, Padding, CalignTo;
    FixedShape(p, t, al, first);
    PlanParts(p, t, v, al, a);
  }

  // ----- leaves one by one

  lemma PrimitiveLeaf(ts: TypeTable, t: nat)
    requires Finite(ts) && t < |ts| && ts[t].TypePrimitif?
    ensures Leaves(ts, t) == [FixedField([], ts[t].primitif)]
  {
  }

  lemma MaxArrayLeaves(ts: TypeTable, t: nat)
    requires Finite(ts) && t < |ts| && IsMaxArray(ts[t])
    ensures Leaves(ts, t) == [ArrayField([1], ts[t].elem), FixedField([0], LengthPrim(ts[t].size))]
  {
  }

  lemma PartsLeaves(ts: TypeTable, t: nat)
    requires Finite(ts) && t < |ts| && !ts[t].TypePrimitif? && !IsMaxArray(ts[t])
    ensures Leaves(ts, t) == LeavesFrom(ts, t, 0) && LeavesFrom(ts, t, |Parts(ts[t])|) == []
  {
  }

  lemma PrimitivePart(ts: TypeTable, t: nat, i: nat, c: nat)
    requires Finite(ts) && t < |ts| && i < |Parts(ts[t])| && Parts(ts[t])[i] == c < |ts| && ts[c].TypePrimitif?
    ensures LeavesFrom(ts, t, i) == [FixedField([i], ts[c].primitif)] + LeavesFrom(ts, t, i + 1)
  {
    PrimitiveLeaf(ts, c);
    assert [i] + [] == [i];
    assert AllUnder(i, Leaves(ts, c)) == [FixedField([i], ts[c].primitif)];
  }

  lemma MaxArrayPart(ts: TypeTable, t: nat, i: nat, c: nat)
    requires Finite(ts) && t < |ts| && i < |Parts(ts[t])| && Parts(ts[t])[i] == c < |ts| && IsMaxArray(ts[c])
    ensures LeavesFrom(ts, t, i) ==
            [ArrayField([i, 1], ts[c].elem)] + ([FixedField([i, 0], LengthPrim(ts[c].size))] + LeavesFrom(ts, t, i + 1))
  {
    hide Finite, Leaves;
    MaxArrayLeaves(ts, c);
    assert [i] + [1] == [i, 1] && [i] + [0] == [i, 0];
    var data, length := ArrayField([i, 1], ts[c].elem), FixedField([i, 0], LengthPrim(ts[c].size));
    assert AllUnder(i, Leaves(ts, c)) == [data] + [length];
    assert ([data] + [length]) + LeavesFrom(ts, t, i + 1) == [data] + ([length] + LeavesFrom(ts, t, i + 1));
  }

  lemma SumFirst(fa: FieldAccessor, fs: seq<FieldAccessor>, g: FieldAccessor -> nat)
    ensures Sum([fa] + fs, g) == g(fa) + Sum(fs, g) && TotalSize([fa] + fs) == fa.Size() + TotalSize(fs)
  {
    assert ([fa] + fs)[1..] == fs;
  }

  lemma SumNone(g: FieldAccessor -> nat)
    ensures Sum([], g) == 0 && TotalSize([]) == 0
  {
  }

  /** The elements of array i of a struct. */
  lemma ArrayPartBytes(ts: TypeTable, t: nat, v: Value, len: Measure, i: nat, c: nat, elem: nat)
    requires t < |ts| && ts[t].TypeStruct? && i < |ts[t].fields| && ts[t].fields[i] == c < |ts| && IsMaxArray(ts[c])
    requires v.Agg? && |v.elems| == |ts[t].fields| && v.elems[i].Agg?
    ensures ArrayBytes(ts, t, v, len, ArrayField([i, 1], elem)) == Measured(len, elem, v.elems[i].elems)
  {
    assert [i] + [1] == [i, 1];
    AtUnder(ts, t, v, i, [1]);
  }
}
