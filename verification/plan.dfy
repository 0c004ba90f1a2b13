/** The image of a value: which bytes its serialization writes where, and where it ends. */
module Plans {
  import opened Collections
  import opened Schema
  import opened Layouts
  import opened Machine
  import opened Values
  import opened Emitter

  datatype Write = Write(addr: int, bytes: seq<Byte>)

  /** Writes in order, and the address after the object. */
  datatype Plan = Plan(writes: seq<Write>, end: int)

  function PlanLeaves(ts: TypeTable, t: nat, v: Value, fs: seq<FieldAccessor>, a: int): seq<Write> {
    if fs == [] then []
    else
      [Write(a, ToBytes(NumOf(At(ts, t, v, fs[0].indices)), fs[0].Size()))] +
      PlanLeaves(ts, t, v, fs[1..], a + fs[0].Size())
  }

  lemma ElementsAreSmaller(ts: TypeTable, t: nat, v: Value, p: Path)
    ensures Sizes(ElemsOf(At(ts, t, v, p))) < Size(v)
  {
    AtIsSmaller(ts, t, v, p);
  }

  /** Fixed leaves without gaps, then the elements of the arrays, then padding up to al.align. */
  ghost function PlanOf(p: Program, t: nat, v: Value, al: CurrentAlignment, a: int): Plan
    requires Valid(p) && Emits(p, t) && IsPo2(al.align)
    decreases Size(v), 2, 0
  {
    if p.layouts[t] == [] then Plan([], a)
    else
      var sh := ShapeOf(p, t, al);
      var leaves := PlanLeaves(p.types, t, v, sh.fixed, a + sh.off);
      if sh.arrays == [] then Plan(leaves, a + sh.next)
      else
        var arrays := PlanArrays(p, t, v, sh.arrays, a + sh.next);
        Plan(leaves + arrays.writes, AlignUp(arrays.end, al.align))
  }

  ghost function PlanArrays(p: Program, t: nat, v: Value, fs: seq<FieldAccessor>, a: int): Plan
    requires Valid(p) && Emits(p, t) && ArraysOf(p, t, fs)
    decreases Size(v), 1, |fs|
  {
    if fs == [] then Plan([], a)
    else
      ArrayInTable(p, t, fs, true);
      ElementsAreSmaller(p.types, t, v, fs[0].indices);
      var here := PlanElems(p, fs[0].elem, ElemsOf(At(p.types, t, v, fs[0].indices)), a);
      var rest := PlanArrays(p, t, v, fs[1..], here.end);
      Plan(here.writes + rest.writes, rest.end)
  }

  ghost function PlanElems(p: Program, elem: nat, vs: seq<Value>, a: int): Plan
    requires Valid(p) && HasCode(p.types, elem)
    decreases Sizes(vs), 3, |vs|
  {
    if vs == [] then Plan([], a)
    else
      var here := PlanOf(p, elem, vs[0], CurrentAlignment(AlignOf(p, elem), 0), a);
      var rest := PlanElems(p, elem, vs[1..], here.end);
      Plan(here.writes + rest.writes, rest.end)
  }

  lemma NoElems(p: Program, elem: nat, a: int)
    requires Valid(p) && HasCode(p.types, elem)
    ensures PlanElems(p, elem, [], a) == Plan([], a)
  {
  }

  lemma FirstElem(p: Program, elem: nat, vs: seq<Value>, a: int)
    requires Valid(p) && HasCode(p.types, elem) && vs != []
    ensures Emits(p, elem)
    ensures var here := PlanOf(p, elem, vs[0], CurrentAlignment(AlignOf(p, elem), 0), a);
            var rest := PlanElems(p, elem, vs[1..], here.end);
            PlanElems(p, elem, vs, a) == Plan(here.writes + rest.writes, rest.end)
  {
  }

  // ----- carrying out writes

  ghost predicate Fits(mem: Memory, ws: seq<Write>) {
    forall i :: 0 <= i < |ws| ==> InMemory(mem, ws[i].addr, |ws[i].bytes|)
  }

  ghost function Apply(mem: Memory, ws: seq<Write>): (r: Memory)
    requires Fits(mem, ws)
    ensures r.Keys == mem.Keys
  {
    if ws == [] then mem
    else
      assert Fits(mem, [ws[0]]);
      var next := WriteBytes(mem, ws[0].addr, ws[0].bytes);
      StillFits(mem, next, ws, 1);
      Apply(next, ws[1..])
  }

  lemma StillFits(mem: Memory, next: Memory, ws: seq<Write>, n: nat)
    requires Fits(mem, ws) && next.Keys == mem.Keys && n <= |ws|
    ensures Fits(next, ws[n..]) && Fits(next, ws[..n])
  {
    forall i | 0 <= i < |ws| ensures InMemory(next, ws[i].addr, |ws[i].bytes|) {
      assert InMemory(mem, ws[i].addr, |ws[i].bytes|);
    }
  }

  lemma FitsBoth(mem: Memory, w1: seq<Write>, w2: seq<Write>)
    requires Fits(mem, w1 + w2)
    ensures Fits(mem, w1) && Fits(mem, w2)
  {
    StillFits(mem, mem, w1 + w2, |w1|);
    assert (w1 + w2)[..|w1|] == w1 && (w1 + w2)[|w1|..] == w2;
  }

  lemma {:induction false} ApplyConcat(mem: Memory, w1: seq<Write>, w2: seq<Write>)
    requires Fits(mem, w1 + w2)
    ensures Fits(mem, w1) && Fits(Apply(mem, w1), w2)
    ensures Apply(mem, w1 + w2) == Apply(Apply(mem, w1), w2)
    decreases |w1|
  {
    FitsBoth(mem, w1, w2);
    var all := w1 + w2;
    if w1 == [] {
      assert all == w2;
    } else {
      var next := WriteBytes(mem, w1[0].addr, w1[0].bytes);
      assert all[1..] == w1[1..] + w2;
      StillFits(mem, next, all, 1);
      ApplyConcat(next, w1[1..], w2);
    }
  }

  // ----- the writes of a plan do not disturb each other

  /** The writes lie between lo and hi, each after the one before. */
  ghost predicate Ordered(ws: seq<Write>, lo: int, hi: int) {
    if ws == [] then lo <= hi else lo <= ws[0].addr && Ordered(ws[1..], ws[0].addr + |ws[0].bytes|, hi)
  }

  lemma {:induction false} OrderedConcat(w1: seq<Write>, w2: seq<Write>, lo: int, mid: int, mid': int, hi: int)
    requires Ordered(w1, lo, mid) && mid <= mid' && Ordered(w2, mid', hi)
    ensures Ordered(w1 + w2, lo, hi)
    decreases |w1|
  {
    if w1 == [] {
      assert w1 + w2 == w2;
      OrderedFrom(w2, lo, mid', hi);
    } else {
      assert (w1 + w2)[1..] == w1[1..] + w2;
      OrderedConcat(w1[1..], w2, w1[0].addr + |w1[0].bytes|, mid, mid', hi);
    }
  }

  lemma {:induction false} OrderedFrom(ws: seq<Write>, lo: int, lo': int, hi: int)
    requires lo <= lo' && Ordered(ws, lo', hi)
    ensures Ordered(ws, lo, hi) && lo <= hi
    decreases |ws|
  {
    if ws != [] {
      OrderedFrom(ws[1..], lo, ws[0].addr + |ws[0].bytes|, hi);
    }
  }

  lemma {:induction false} LeavesOrdered(ts: TypeTable, t: nat, v: Value, fs: seq<FieldAccessor>, a: int)
    ensures Ordered(PlanLeaves(ts, t, v, fs, a), a, a + TotalSize(fs))
    decreases |fs|
  {
    if fs != [] {
      LeavesOrdered(ts, t, v, fs[1..], a + fs[0].Size());
      var ws := PlanLeaves(ts, t, v, fs, a);
      assert ws[1..] == PlanLeaves(ts, t, v, fs[1..], a + fs[0].Size());
    }
  }

  lemma AlignUpGrows(a: int, to: nat)
    requires IsPo2(to)
    ensures a <= AlignUp(a, to) < a + to && AlignUp(a, to) % to == 0
  {
    hide AlignUp;
    if to == 1 {
      RoundsTo1(a);
    } else if to == 2 {
      RoundsTo2(a);
    } else if to == 4 {
      RoundsTo4(a);
    } else {
      RoundsTo8(a);
    }
  }

  lemma RoundsTo1(a: int)
    ensures AlignUp(a, 1) == a
  {
  }

  lemma RoundsTo2(a: int)
    ensures a <= AlignUp(a, 2) < a + 2 && AlignUp(a, 2) % 2 == 0
  {
  }

  lemma RoundsTo4(a: int)
    ensures a <= AlignUp(a, 4) < a + 4 && AlignUp(a, 4) % 4 == 0
  {
  }

  lemma RoundsTo8(a: int)
    ensures a <= AlignUp(a, 8) < a + 8 && AlignUp(a, 8) % 8 == 0
  {
  }

  /** A plan in two parts. */
  lemma PlanParts(p: Program, t: nat, v: Value, al: CurrentAlignment, a: int)
    requires Valid(p) && Emits(p, t) && IsPo2(al.align)
    ensures t < |p.layouts| && (p.layouts[t] == [] ==> PlanOf(p, t, v, al, a) == Plan([], a))
    ensures p.layouts[t] != [] ==>
      var sh := ShapeOf(p, t, al);
      var leaves := PlanLeaves(p.types, t, v, sh.fixed, a + sh.off);
      var arrays := PlanArrays(p, t, v, sh.arrays, a + sh.next);
      PlanOf(p, t, v, al, a) == if sh.arrays == [] then Plan(leaves, a + sh.next)
                                else Plan(leaves + arrays.writes, AlignUp(arrays.end, al.align))
  {
    hide ShapeOf, PlanArrays, PlanLeaves, AlignUp;
  }

  lemma JoinOrdered(w1: seq<Write>, w2: seq<Write>, lo0: int, lo: int, mid: int, mid': int, hi: int, hi': int)
    requires lo0 <= lo && Ordered(w1, lo, mid) && mid <= mid' && Ordered(w2, mid', hi) && hi <= hi'
    ensures Ordered(w1 + w2, lo0, hi')
  {
    OrderedConcat(w1, w2, lo, mid, mid', hi);
    OrderedUpTo(w1 + w2, lo, hi, hi');
    OrderedFrom(w1 + w2, lo0, lo, hi');
  }

  lemma {:induction false} PlanIsOrdered(p: Program, t: nat, v: Value, al: CurrentAlignment, a: int)
    requires Valid(p) && Emits(p, t) && IsPo2(al.align)
    ensures Ordered(PlanOf(p, t, v, al, a).writes, a, PlanOf(p, t, v, al, a).end)
    ensures p.layouts[t] != [] ==> Ordered(PlanOf(p, t, v, al, a).writes, a + al.offset, PlanOf(p, t, v, al, a).end)
    decreases Size(v), 2, 0
  {
    hide Valid, Emits, Ordered, ShapeOf, ArraysOf, PlanOf, PlanArrays, PlanLeaves, TotalSize, AlignUp;
    PlanParts(p, t, v, al, a);
    NoWrites(a, a);
    if p.layouts[t] != [] {
      InTables(p, t);
      var sh := ShapeOf(p, t, al);
      ShapeBounds(p, t, al);
      LeavesOrdered(p.types, t, v, sh.fixed, a + sh.off);
      var leaves, stop := PlanLeaves(p.types, t, v, sh.fixed, a + sh.off), a + sh.off + TotalSize(sh.fixed);
      if sh.arrays == [] {
        OrderedUpTo(leaves, a + sh.off, stop, a + sh.next);
        OrderedFrom(leaves, a + al.offset, a + sh.off, a + sh.next);
      } else {
        ArraysAreOrdered(p, t, v, sh.arrays, a + sh.next);
        var arrays := PlanArrays(p, t, v, sh.arrays, a + sh.next);
        AlignUpGrows(arrays.end, al.align);
        JoinOrdered(leaves, arrays.writes, a + al.offset, a + sh.off, stop, a + sh.next, arrays.end, AlignUp(arrays.end, al.align));
      }
      OrderedFrom(PlanOf(p, t, v, al, a).writes, a, a + al.offset, PlanOf(p, t, v, al, a).end);
    }
  }

  lemma NoWrites(lo: int, hi: int)
    requires lo <= hi
    ensures Ordered([], lo, hi)
  {
  }

  lemma {:induction false} OrderedUpTo(ws: seq<Write>, lo: int, hi: int, hi': int)
    requires Ordered(ws, lo, hi) && hi <= hi'
    ensures Ordered(ws, lo, hi')
    decreases |ws|
  {
    if ws != [] {
      OrderedUpTo(ws[1..], ws[0].addr + |ws[0].bytes|, hi, hi');
    }
  }

  lemma ShapeBounds(p: Program, t: nat, al: CurrentAlignment)
    requires Valid(p) && t < |p.types| && IsPo2(al.align) && p.layouts[t] != []
    ensures var sh := ShapeOf(p, t, al); al.offset <= sh.off && sh.off + TotalSize(sh.fixed) <= sh.next
  {
    LayoutIsEmittable(p, t);
  }

  lemma {:induction false} ArraysAreOrdered(p: Program, t: nat, v: Value, fs: seq<FieldAccessor>, a: int)
    requires Valid(p) && Emits(p, t) && ArraysOf(p, t, fs)
    ensures Ordered(PlanArrays(p, t, v, fs, a).writes, a, PlanArrays(p, t, v, fs, a).end)
    decreases Size(v), 1, |fs|
  {
    if fs != [] {
      ArrayInTable(p, t, fs, true);
      hide Valid, Emits, Ordered, ArraysOf, HasCode;
      ElementsAreSmaller(p.types, t, v, fs[0].indices);
      var es := ElemsOf(At(p.types, t, v, fs[0].indices));
      var here := PlanElems(p, fs[0].elem, es, a);
      ElemsAreOrdered(p, fs[0].elem, es, a);
      RestOfArrays(p, t, fs);
      ArraysAreOrdered(p, t, v, fs[1..], here.end);
      var rest := PlanArrays(p, t, v, fs[1..], here.end);
      OrderedConcat(here.writes, rest.writes, a, here.end, here.end, rest.end);
    }
  }

  lemma RestOfArrays(p: Program, t: nat, fs: seq<FieldAccessor>)
    requires Valid(p) && ArraysOf(p, t, fs) && fs != []
    ensures ArraysOf(p, t, fs[1..]) && fs[0].ArrayField? && fs[0] in Leaves(p.types, t)
    ensures |p.align| == |p.types|
  {
  }

  lemma ElementEmits(p: Program, elem: nat)
    requires Valid(p) && HasCode(p.types, elem)
    ensures Emits(p, elem) && elem < |p.types|
  {
  }

  lemma {:induction false} ElemsAreOrdered(p: Program, elem: nat, vs: seq<Value>, a: int)
    requires Valid(p) && HasCode(p.types, elem)
    ensures Ordered(PlanElems(p, elem, vs, a).writes, a, PlanElems(p, elem, vs, a).end)
    decreases Sizes(vs), 3, |vs|
  {
    if vs != [] {
      ElementEmits(p, elem);
      hide Valid, Emits, Ordered, HasCode;
      var al := CurrentAlignment(AlignOf(p, elem), 0);
      var here := PlanOf(p, elem, vs[0], al, a);
      PlanIsOrdered(p, elem, vs[0], al, a);
      ElemsAreOrdered(p, elem, vs[1..], here.end);
      var rest := PlanElems(p, elem, vs[1..], here.end);
      OrderedConcat(here.writes, rest.writes, a, here.end, here.end, rest.end);
    }
  }

  /** The bytes of the writes are in memory; what lies between them may be anything. */
  ghost predicate Holds(mem: Memory, ws: seq<Write>) {
    forall i :: 0 <= i < |ws| ==>
      InMemory(mem, ws[i].addr, |ws[i].bytes|) && ReadBytes(mem, ws[i].addr, |ws[i].bytes|) == ws[i].bytes
  }

  lemma HoldsBoth(mem: Memory, w1: seq<Write>, w2: seq<Write>)
    requires Holds(mem, w1 + w2)
    ensures Holds(mem, w1) && Holds(mem, w2)
  {
    forall i | 0 <= i < |w1| ensures InMemory(mem, w1[i].addr, |w1[i].bytes|) && ReadBytes(mem, w1[i].addr, |w1[i].bytes|) == w1[i].bytes {
      assert (w1 + w2)[i] == w1[i];
    }
    forall i | 0 <= i < |w2| ensures InMemory(mem, w2[i].addr, |w2[i].bytes|) && ReadBytes(mem, w2[i].addr, |w2[i].bytes|) == w2[i].bytes {
      assert (w1 + w2)[|w1| + i] == w2[i];
    }
  }

  /** Ordered writes leave their bytes in memory, and touch nothing outside their range. */
  lemma {:induction false} ApplyHolds(mem: Memory, ws: seq<Write>, lo: int, hi: int)
    requires Fits(mem, ws) && Ordered(ws, lo, hi)
    ensures Holds(Apply(mem, ws), ws)
    ensures forall x :: x in mem && (x < lo || x >= hi) ==> Apply(mem, ws)[x] == mem[x]
    decreases |ws|
  {
    if ws != [] {
      var w, rest := ws[0], ws[1..];
      var mid := w.addr + |w.bytes|;
      assert InMemory(mem, w.addr, |w.bytes|);
      var next := WriteBytes(mem, w.addr, w.bytes);
      StillFits(mem, next, ws, 1);
      ApplyHolds(next, rest, mid, hi);
      OrderedFrom(rest, mid, mid, hi);
      FirstStays(mem, next, Apply(next, rest), ws, mid, hi);
    }
  }

  /** What has been written first is still there when all the rest was written further on. */
  lemma FirstStays(mem: Memory, next: Memory, last: Memory, ws: seq<Write>, mid: int, hi: int)
    requires ws != [] && mid == ws[0].addr + |ws[0].bytes| && InMemory(mem, ws[0].addr, |ws[0].bytes|)
    requires next == WriteBytes(mem, ws[0].addr, ws[0].bytes) && last.Keys == next.Keys && Holds(last, ws[1..])
    requires forall x :: x in next && (x < mid || x >= hi) ==> last[x] == next[x]
    ensures Holds(last, ws)
  {
    var w := ws[0];
    forall i | 0 <= i < |ws|
      ensures InMemory(last, ws[i].addr, |ws[i].bytes|) && ReadBytes(last, ws[i].addr, |ws[i].bytes|) == ws[i].bytes
    {
      if i == 0 {
        assert ReadBytes(last, w.addr, |w.bytes|) == w.bytes;
      } else {
        assert ws[i] == ws[1..][i - 1];
      }
    }
  }
}
