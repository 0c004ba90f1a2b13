/** The two halves of the generated code undo each other, wherever in memory they work. */
module RoundTrips {
  import opened Collections
  import opened Schema
  import opened Alignments
  import opened Layouts
  import opened Machine
  import opened Values
  import opened Emitter
  import opened Plans
  import Serializing
  import Deserializing

  // ----- alignments

  predicate Multiple(d: int, a: nat) {
    a > 0 && d % a == 0
  }

  lemma Po2Divides(a: nat, b: nat, d: int)
    requires IsPo2(a) && IsPo2(b) && b <= a && Multiple(d, a)
    ensures Multiple(d, b)
  {
    if a == 1 {} else if a == 2 {
      if b == 1 {} else {}
    } else if a == 4 {
      if b == 1 {} else if b == 2 {} else {}
    } else {
      if b == 1 {} else if b == 2 {} else if b == 4 {} else {}
    }
  }

  lemma AlignUpShifts(x: int, d: int, a: nat)
    requires IsPo2(a) && Multiple(d, a)
    ensures AlignUp(x + d, a) == AlignUp(x, a) + d
  {
    if a == 1 {
    } else if a == 2 {
      assert (x + d - 1) / 2 == (x - 1) / 2 + d / 2;
    } else if a == 4 {
      assert (x + d - 1) / 4 == (x - 1) / 4 + d / 4;
    } else {
      assert (x + d - 1) / 8 == (x - 1) / 8 + d / 8;
    }
  }

  /** What a type leads to is aligned no more strictly than the type. */
  lemma ChildAlign(p: Program, t: nat, c: nat)
    requires Valid(p) && t < |p.types| && c in Children(p.types[t]) && c < |p.types|
    ensures p.align[c] <= p.align[t]
  {
    assert IsAlignment(p.types, c, p.align[c]) && IsAlignment(p.types, t, p.align[t]);
    var u: nat :| u < |p.types| && Reaches(p.types, c, u) && Base(p.types[u]) == p.align[c];
    ReachesThrough(p.types, t, c, u);
  }

  lemma OwnAlign(p: Program, t: nat)
    requires Valid(p) && t < |p.types|
    ensures Base(p.types[t]) <= p.align[t]
  {
    assert IsAlignment(p.types, t, p.align[t]);
    ReachesItself(p.types, t);
  }

  lemma {:induction false} LeafAlign(p: Program, t: nat, fa: FieldAccessor)
    requires Valid(p) && t < |p.types| && fa in Leaves(p.types, t)
    ensures FieldAlign(p.align, fa) <= p.align[t]
    decreases FlatRanks(p.types)[t]
  {
    if p.types[t].TypePrimitif? || IsMaxArray(p.types[t]) {
      OwnLeafAlign(p, t, fa);
    } else {
      hide IsAlignment, IsLayout, Children, Depths;
      var j, inner := LeafFrom(p.types, t, 0, fa);
      PartFalls(p.types, t, j);
      LeafAlign(p, Parts(p.types[t])[j], inner);
      PartIsChild(p.types[t], j);
      ChildAlign(p, t, Parts(p.types[t])[j]);
    }
  }

  lemma PartIsChild(o: TypeObject, j: nat)
    requires j < |Parts(o)|
    ensures Parts(o)[j] in Children(o)
  {
  }

  lemma OwnLeafAlign(p: Program, t: nat, fa: FieldAccessor)
    requires Valid(p) && t < |p.types| && fa in Leaves(p.types, t)
    requires p.types[t].TypePrimitif? || IsMaxArray(p.types[t])
    ensures FieldAlign(p.align, fa) <= p.align[t]
  {
    hide IsAlignment, IsLayout;
    if p.types[t].TypePrimitif? || fa.FixedField? {
      OwnAlign(p, t);
    } else {
      ChildInTable(p.types, t, p.types[t].elem);
      ChildAlign(p, t, p.types[t].elem);
    }
  }

  // ----- the same plan elsewhere

  function Moved(ws: seq<Write>, d: int): (r: seq<Write>)
    ensures |r| == |ws| && forall i :: 0 <= i < |ws| ==> r[i] == Write(ws[i].addr + d, ws[i].bytes)
  {
    seq(|ws|, i requires 0 <= i < |ws| => Write(ws[i].addr + d, ws[i].bytes))
  }

  function MovedPlan(plan: Plan, d: int): Plan {
    Plan(Moved(plan.writes, d), plan.end + d)
  }

  lemma MovedBoth(w1: seq<Write>, w2: seq<Write>, d: int)
    ensures Moved(w1 + w2, d) == Moved(w1, d) + Moved(w2, d)
  {
  }

  lemma {:induction false} LeavesMove(ts: TypeTable, t: nat, v: Value, fs: seq<FieldAccessor>, a: int, d: int)
    ensures PlanLeaves(ts, t, v, fs, a + d) == Moved(PlanLeaves(ts, t, v, fs, a), d)
    decreases |fs|
  {
    hide At, ToBytes;
    if fs != [] {
      var w := Write(a, ToBytes(NumOf(At(ts, t, v, fs[0].indices)), fs[0].Size()));
      LeavesMove(ts, t, v, fs[1..], a + fs[0].Size(), d);
      MovedBoth([w], PlanLeaves(ts, t, v, fs[1..], a + fs[0].Size()), d);
      assert Moved([w], d) == [Write(a + d, w.bytes)];
      assert a + d + fs[0].Size() == a + fs[0].Size() + d;
    }
  }

  /** d does not disturb the alignment of the elements of any of the arrays. */
  ghost predicate Agree(align: seq<nat>, fs: seq<FieldAccessor>, d: int) {
    forall fa :: fa in fs ==> Multiple(d, FieldAlign(align, fa))
  }

  lemma AllAgree(p: Program, t: nat, fs: seq<FieldAccessor>, align: nat, d: int)
    requires Valid(p) && Emits(p, t) && ArraysOf(p, t, fs) && t < |p.align| && p.align[t] <= align
    requires IsPo2(align) && Multiple(d, align)
    ensures Agree(p.align, fs, d)
  {
    hide Valid, Emits, ArraysOf, Multiple, Leaves;
    InTables(p, t);
    forall fa | fa in fs ensures Multiple(d, FieldAlign(p.align, fa)) {
      OneArray(p, t, fs, fa);
      LeafAlign(p, t, fa);
      Po2Divides(align, FieldAlign(p.align, fa), d);
    }
  }

  lemma OneArray(p: Program, t: nat, fs: seq<FieldAccessor>, fa: FieldAccessor)
    requires Valid(p) && Emits(p, t) && ArraysOf(p, t, fs) && fa in fs
    ensures t < |p.types| && fa in Leaves(p.types, t) && IsPo2(FieldAlign(p.align, fa))
  {
    ArrayInTable(p, t, [fa], true);
  }

  /** Where an object starts matters only modulo the alignment it is serialized with. */
  lemma {:induction false} PlanMoves(p: Program, t: nat, v: Value, al: CurrentAlignment, a: int, d: int)
    requires Valid(p) && Emits(p, t) && IsPo2(al.align) && t < |p.align| && p.align[t] <= al.align &&
             Multiple(d, al.align)
    ensures PlanOf(p, t, v, al, a + d) == MovedPlan(PlanOf(p, t, v, al, a), d)
    decreases Size(v), 2, 0
  {
    hide Valid, Emits, ShapeOf, ArraysOf, PlanOf, PlanArrays, PlanLeaves, AlignUp, Multiple, Agree;
    PlanParts(p, t, v, al, a);
    PlanParts(p, t, v, al, a + d);
    if p.layouts[t] != [] {
      InTables(p, t);
      var sh := ShapeOf(p, t, al);
      LeavesMove(p.types, t, v, sh.fixed, a + sh.off, d);
      assert a + d + sh.off == a + sh.off + d && a + d + sh.next == a + sh.next + d;
      if sh.arrays != [] {
        AllAgree(p, t, sh.arrays, al.align, d);
        ArraysMove(p, t, v, sh.arrays, a + sh.next, d);
        var arrays := PlanArrays(p, t, v, sh.arrays, a + sh.next);
        AlignUpShifts(arrays.end, d, al.align);
        MovedBoth(PlanLeaves(p.types, t, v, sh.fixed, a + sh.off), arrays.writes, d);
      }
    }
  }

  lemma FirstAgrees(p: Program, fs: seq<FieldAccessor>, d: int)
    requires Valid(p) && Agree(p.align, fs, d) && fs != [] && fs[0].ArrayField? && HasCode(p.types, fs[0].elem)
    ensures Agree(p.align, fs[1..], d) && Multiple(d, AlignOf(p, fs[0].elem))
  {
    assert fs[0] in fs;
  }

  lemma {:induction false} ArraysMove(p: Program, t: nat, v: Value, fs: seq<FieldAccessor>, a: int, d: int)
    requires Valid(p) && Emits(p, t) && ArraysOf(p, t, fs) && Agree(p.align, fs, d)
    ensures PlanArrays(p, t, v, fs, a + d) == MovedPlan(PlanArrays(p, t, v, fs, a), d)
    decreases Size(v), 1, |fs|
  {
    hide Valid, Emits, ArraysOf, HasCode, PlanElems, Leaves, At, Multiple, Agree;
    if fs != [] {
      ArrayInTable(p, t, fs, true);
      RestOfArrays(p, t, fs);
      FirstAgrees(p, fs, d);
      ElementsAreSmaller(p.types, t, v, fs[0].indices);
      var es := ElemsOf(At(p.types, t, v, fs[0].indices));
      var here := PlanElems(p, fs[0].elem, es, a);
      ElemsMove(p, fs[0].elem, es, a, d);
      ArraysMove(p, t, v, fs[1..], here.end, d);
      MovedBoth(here.writes, PlanArrays(p, t, v, fs[1..], here.end).writes, d);
    }
  }

  lemma {:induction false} ElemsMove(p: Program, elem: nat, vs: seq<Value>, a: int, d: int)
    requires Valid(p) && HasCode(p.types, elem) && Multiple(d, AlignOf(p, elem))
    ensures PlanElems(p, elem, vs, a + d) == MovedPlan(PlanElems(p, elem, vs, a), d)
    decreases Sizes(vs), 3, |vs|
  {
    hide Valid, Emits, HasCode, PlanOf, PlanElems, Multiple, AlignOf, Size;
    if vs == [] {
      NoElems(p, elem, a);
      NoElems(p, elem, a + d);
    } else {
      ElementEmits(p, elem);
      InTables(p, elem);
      FirstElem(p, elem, vs, a);
      FirstElem(p, elem, vs, a + d);
      var al := CurrentAlignment(AlignOf(p, elem), 0);
      var here := PlanOf(p, elem, vs[0], al, a);
      PlanMoves(p, elem, vs[0], al, a, d);
      ElemsMove(p, elem, vs[1..], here.end, d);
      MovedBoth(here.writes, PlanElems(p, elem, vs[1..], here.end).writes, d);
    }
  }

  // ----- round trip

  /** x is the address of a byte that the writes set, not of padding between them. */
  ghost predicate Written(ws: seq<Write>, x: int) {
    exists i :: 0 <= i < |ws| && ws[i].addr <= x < ws[i].addr + |ws[i].bytes|
  }

  /** The serialized bytes, without the padding, are found again at distance d. */
  ghost predicate Copied(ws: seq<Write>, from: Memory, to: Memory, d: int) {
    forall x :: Written(ws, x) && x in from ==> x + d in to && to[x + d] == from[x]
  }

  lemma CopyHolds(ws: seq<Write>, from: Memory, to: Memory, d: int)
    requires Holds(from, ws) && Copied(ws, from, to, d)
    ensures Holds(to, Moved(ws, d))
  {
    hide InMemory, ReadBytes, Copied;
    forall i | 0 <= i < |ws|
      ensures InMemory(to, ws[i].addr + d, |ws[i].bytes|) && ReadBytes(to, ws[i].addr + d, |ws[i].bytes|) == ws[i].bytes
    {
      OneCopied(ws, from, to, d, i);
    }
  }

  lemma FoundFrom(mem: Memory, a: int, bs: seq<Byte>)
    requires forall k :: 0 <= k < |bs| ==> IsByte(mem, a + k, bs[k])
    ensures InMemory(mem, a, |bs|) && ReadBytes(mem, a, |bs|) == bs
  {
    forall x | a <= x < a + |bs| ensures x in mem {
      assert IsByte(mem, a + (x - a), bs[x - a]);
    }
    assert forall k :: 0 <= k < |bs| ==> IsByte(mem, a + k, bs[k]);
  }

  predicate IsByte(mem: Memory, a: int, b: Byte) {
    a in mem && mem[a] == b
  }

  lemma OneCopied(ws: seq<Write>, from: Memory, to: Memory, d: int, i: nat)
    requires i < |ws| && Copied(ws, from, to, d)
    requires InMemory(from, ws[i].addr, |ws[i].bytes|) && ReadBytes(from, ws[i].addr, |ws[i].bytes|) == ws[i].bytes
    ensures InMemory(to, ws[i].addr + d, |ws[i].bytes|) && ReadBytes(to, ws[i].addr + d, |ws[i].bytes|) == ws[i].bytes
  {
    var w := ws[i];
    var read := ReadBytes(from, w.addr, |w.bytes|);
    var a := w.addr + d;
    forall k | 0 <= k < |w.bytes| ensures IsByte(to, a + k, w.bytes[k]) {
      var x := w.addr + k;
      assert Written(ws, x) && x in from && x + d == a + k;
      assert read[k] == w.bytes[k];
    }
    FoundFrom(to, a, w.bytes);
  }

  lemma {:induction false} RegionFits(mem: Memory, ws: seq<Write>, lo: int, hi: int)
    requires Ordered(ws, lo, hi) && HasRoom(mem, lo, hi)
    ensures Fits(mem, ws)
    decreases |ws|
  {
    OrderedFrom(ws, lo, lo, hi);
    if ws != [] {
      var w, mid := ws[0], ws[0].addr + |ws[0].bytes|;
      OrderedFrom(ws[1..], mid, mid, hi);
      assert HasRoom(mem, mid, hi);
      RegionFits(mem, ws[1..], mid, hi);
      forall i | 0 <= i < |ws| ensures InMemory(mem, ws[i].addr, |ws[i].bytes|) {
        if i > 0 {
          assert ws[i] == ws[1..][i - 1];
        }
      }
    }
  }

  ghost predicate HasRoom(mem: Memory, lo: int, hi: int) {
    forall x :: lo <= x < hi ==> x in mem
  }

  /** An object that holds v is serialized into a buffer that has room; around its image nothing changes. */
  lemma Serializes(p: Program, fuel: nat, t: nat, v: Value, al: CurrentAlignment, inline: bool, b: Path, st: State)
    returns (out: State)
    requires Valid(p) && Emits(p, t) && Serializing.Ready(p, fuel, t, v, al, inline, b, st)
    requires HasRoom(st.mem, st.buf, PlanOf(p, t, v, al, st.buf).end)
    ensures Exec(Functions(Ser, p), fuel, Emit(Ser, p, t, al, inline), b, st) == Some(out)
    ensures out.buf == PlanOf(p, t, v, al, st.buf).end && Holds(out.mem, PlanOf(p, t, v, al, st.buf).writes)
    ensures out.obj == st.obj && out.mem.Keys == st.mem.Keys
    ensures forall x :: x in st.mem && !(st.buf <= x < out.buf) ==> out.mem[x] == st.mem[x]
  {
    hide Valid, Emits, PlanOf, Exec, Functions, Emit, Ordered, Fits, Holds, Apply, HasRoom, Serializing.Ready;
    ReadyToo(p, fuel, t, v, al, inline, b, st);
    var plan := PlanOf(p, t, v, al, st.buf);
    PlanIsOrdered(p, t, v, al, st.buf);
    RegionFits(st.mem, plan.writes, st.buf, plan.end);
    Serializing.SerializesPlan(p, fuel, t, v, al, inline, b, st);
    out := Serializing.After(st, plan);
    ApplyHolds(st.mem, plan.writes, st.buf, plan.end);
  }

  /** Wherever the serialized bytes are found again, at a distance that is a multiple of the alignment and
      with anything at all as padding, the deserializer succeeds exactly if its object has a place for the value.
      It then takes up as many bytes, makes its object hold the same value and leaves everything else alone. */
  lemma RoundTrip(p: Program, fuel: nat, t: nat, v: Value, al: CurrentAlignment, inline: bool,
                  b: Path, st: State, out: State, b': Path, st': State) returns (obj: Option<Object>)
    requires Valid(p) && Emits(p, t) && Serializing.Ready(p, fuel, t, v, al, inline, b, st)
    requires t < |p.align| && p.align[t] <= al.align && Multiple(st'.buf - st.buf, al.align)
    requires HasRoom(st.mem, st.buf, PlanOf(p, t, v, al, st.buf).end)
    requires Exec(Functions(Ser, p), fuel, Emit(Ser, p, t, al, inline), b, st) == Some(out)
    requires Copied(PlanOf(p, t, v, al, st.buf).writes, out.mem, st'.mem, st'.buf - st.buf)
    ensures Exec(Functions(Des, p), fuel, Emit(Des, p, t, al, inline), b', st') ==
            Deserializing.Finished(st', st'.buf + (out.buf - st.buf), obj)
    ensures obj.Some? <==> Takes(p.types, st'.obj, b', t, v)
    ensures obj.Some? ==> Represents(p.types, obj.value, b', t, v) && SameOutside(st'.obj, obj.value, b')
  {
    hide Valid, Emits, PlanOf, Exec, Functions, Emit, Holds, Copied, Represents, Takes, Multiple, HasRoom,
      Serializing.Ready, Deserializing.Ready, SameOutside, Encodable, IsCall;
    ReadyToo(p, fuel, t, v, al, inline, b, st);
    var plan, d := PlanOf(p, t, v, al, st.buf), st'.buf - st.buf;
    var _ := Serializes(p, fuel, t, v, al, inline, b, st);
    CopyHolds(plan.writes, out.mem, st'.mem, d);
    PlanMoves(p, t, v, al, st.buf, d);
    obj := Deserializing.DeserializesPlan(p, fuel, t, v, al, inline, b', st');
  }

  lemma ReadyToo(p: Program, fuel: nat, t: nat, v: Value, al: CurrentAlignment, inline: bool, b: Path, st: State)
    requires Valid(p) && Emits(p, t) && Serializing.Ready(p, fuel, t, v, al, inline, b, st)
    ensures Deserializing.Ready(p, fuel, t, v, al, inline) && IsPo2(al.align)
  {
  }

  // ----- natural alignment

  /** Every scalar lies at a multiple of its size. */
  ghost predicate Natural(ws: seq<Write>) {
    forall i :: 0 <= i < |ws| ==> Multiple(ws[i].addr, |ws[i].bytes|)
  }

  ghost predicate Descending(align: seq<nat>, fs: seq<FieldAccessor>) {
    forall i, j :: 0 <= i < j < |fs| ==> FieldAlign(align, fs[j]) <= FieldAlign(align, fs[i])
  }

  lemma NaturalBoth(w1: seq<Write>, w2: seq<Write>)
    requires Natural(w1) && Natural(w2)
    ensures Natural(w1 + w2)
  {
  }

  lemma SumIsMultiple(x: int, y: int, a: nat)
    requires IsPo2(a) && Multiple(x, a) && Multiple(y, a)
    ensures Multiple(x + y, a)
  {
    hide Multiple;
    if a == 2 {
      SumIsEven(x, y);
    } else if a == 4 {
      SumOfFours(x, y);
    } else if a == 8 {
      SumOfEights(x, y);
    } else {
      Whole(x + y);
    }
  }

  lemma Whole(x: int)
    ensures Multiple(x, 1)
  {
  }

  lemma SumIsEven(x: int, y: int)
    requires Multiple(x, 2) && Multiple(y, 2)
    ensures Multiple(x + y, 2)
  {
  }

  lemma SumOfFours(x: int, y: int)
    requires Multiple(x, 4) && Multiple(y, 4)
    ensures Multiple(x + y, 4)
  {
  }

  lemma SumOfEights(x: int, y: int)
    requires Multiple(x, 8) && Multiple(y, 8)
    ensures Multiple(x + y, 8)
  {
  }

  lemma {:induction false} LeavesNatural(ts: TypeTable, align: seq<nat>, t: nat, v: Value, fs: seq<FieldAccessor>, a: int)
    requires forall i :: 0 <= i < |fs| ==> fs[i].FixedField?
    requires Descending(align, fs) && (fs != [] ==> Multiple(a, fs[0].Size()))
    ensures Natural(PlanLeaves(ts, t, v, fs, a))
    decreases |fs|
  {
    hide At, ToBytes, Multiple;
    if fs != [] {
      var w := Write(a, ToBytes(NumOf(At(ts, t, v, fs[0].indices)), fs[0].Size()));
      var rest := fs[1..];
      if rest != [] {
        assert FieldAlign(align, fs[1]) <= FieldAlign(align, fs[0]);
        StepMultiple(a, fs[0].Size(), fs[1].Size());
      }
      LeavesNatural(ts, align, t, v, rest, a + fs[0].Size());
      NaturalBoth([w], PlanLeaves(ts, t, v, rest, a + fs[0].Size()));
    }
  }

  lemma StepMultiple(a: int, s: nat, s': nat)
    requires IsPo2(s) && IsPo2(s') && s' <= s && Multiple(a, s)
    ensures Multiple(a + s, s')
  {
    SumIsMultiple(a, s, s);
    Po2Divides(s, s', a + s);
  }

  /** The tracked alignment follows the real offset. */
  lemma {:induction false} TracksOffset(al: CurrentAlignment, fs: seq<FieldAccessor>)
    requires IsPo2(al.align)
    ensures Multiple(al.offset + TotalSize(fs) - AlignAfter(al, fs).offset, al.align)
    decreases |fs|
  {
    hide Multiple, CalignAdd;
    if fs == [] {
      ZeroIsMultiple(al.align);
    } else {
      var n, total := fs[0].Size(), TotalSize(fs[1..]);
      AddWraps(al, n);
      var al' := CalignAdd(al, n);
      TracksOffset(al', fs[1..]);
      var after := AlignAfter(al', fs[1..]).offset;
      SumIsMultiple(al'.offset + total - after, al.offset + n - al'.offset, al.align);
      assert (al'.offset + total - after) + (al.offset + n - al'.offset) == al.offset + (n + total) - after;
    }
  }

  lemma AddWraps(al: CurrentAlignment, n: nat)
    requires IsPo2(al.align)
    ensures CalignAdd(al, n).align == al.align
    ensures Multiple(al.offset + n - CalignAdd(al, n).offset, al.align)
  {
    hide Multiple;
    WrapIsMultiple(al.offset + n, al.align);
  }

  lemma ZeroIsMultiple(a: nat)
    requires IsPo2(a)
    ensures Multiple(0, a)
  {
  }

  lemma WrapIsMultiple(x: nat, a: nat)
    requires IsPo2(a)
    ensures Multiple(x - x % a, a)
  {
    hide Multiple;
    if a == 1 {
      WrapAt1(x);
    } else if a == 2 {
      WrapAt2(x);
    } else if a == 4 {
      WrapAt4(x);
    } else {
      WrapAt8(x);
    }
  }

  lemma WrapAt1(x: nat)
    ensures Multiple(x - x % 1, 1)
  {
  }

  lemma WrapAt2(x: nat)
    ensures Multiple(x - x % 2, 2)
  {
  }

  lemma WrapAt4(x: nat)
    ensures Multiple(x - x % 4, 4)
  {
  }

  lemma WrapAt8(x: nat)
    ensures Multiple(x - x % 8, 8)
  {
  }

  lemma PaddedIsMultiple(a: int, total: nat, after: CurrentAlignment, f: nat)
    requires IsPo2(after.align) && IsPo2(f) && f <= after.align
    requires Multiple(a, after.align) && Multiple(total - after.offset, after.align)
    ensures Multiple(a + total + CalignTo(after, f), f)
  {
    var n := CalignTo(after, f);
    assert Multiple(after.offset + n, f);
    hide Multiple, CalignTo;
    Po2Divides(after.align, f, a);
    Po2Divides(after.align, f, total - after.offset);
    SumIsMultiple(after.offset + n, total - after.offset, f);
    SumIsMultiple(a, total + n, f);
  }

  lemma FixedAlign(align: seq<nat>, fa: FieldAccessor)
    requires fa.FixedField?
    ensures FieldAlign(align, fa) == fa.Size()
  {
  }

  /** The offsets of a body that starts aligned. */
  lemma ShapeIsAligned(p: Program, t: nat, al: CurrentAlignment, a: int)
    requires Valid(p) && Emits(p, t) && IsPo2(al.align) && p.layouts[t] != [] && t < |p.align| && p.align[t] <= al.align
    requires al.offset == 0 && Multiple(a, al.align)
    ensures var sh := ShapeOf(p, t, al);
            && sh.off == 0 && Descending(p.align, sh.fixed) && Descending(p.align, sh.arrays)
            && (forall i :: 0 <= i < |sh.fixed| ==> sh.fixed[i].FixedField?)
            && (sh.fixed != [] ==> Multiple(a, sh.fixed[0].Size()))
            && (if sh.arrays == [] then Multiple(a + sh.next, al.align)
                else Multiple(a + sh.next, FieldAlign(p.align, sh.arrays[0])))
  {
    hide Valid, Emits, Leaves, Multiple, TotalSize, AlignAfter, ArraysOf, CalignTo, ShapeOf, FixedCount, FieldAlign,
      IsPo2, Descending;
    InTables(p, t);
    var layout := p.layouts[t];
    var sh, n := ShapeOf(p, t, al), FixedCount(layout);
    ShapeIs(p, t, al);
    LayoutFacts(p, t);
    LeafAlign(p, t, layout[0]);
    NoPadding(al, FieldAlign(p.align, layout[0]));
    if sh.fixed != [] {
      FixedAlign(p.align, layout[0]);
      Po2Divides(al.align, FieldAlign(p.align, layout[0]), a);
    }
    var after := AlignAfter(al, sh.fixed);
    TracksOffset(al, sh.fixed);
    if sh.arrays == [] {
      PaddedIsMultiple(a, TotalSize(sh.fixed), after, al.align);
    } else {
      LeafAlign(p, t, layout[n]);
      PaddedIsMultiple(a, TotalSize(sh.fixed), after, FieldAlign(p.align, layout[n]));
    }
  }

  lemma LayoutFacts(p: Program, t: nat)
    requires Valid(p) && t < |p.types|
    ensures var layout := p.layouts[t];
            var n := FixedCount(layout);
            && (forall i :: 0 <= i < |layout| ==> layout[i] in Leaves(p.types, t) && IsPo2(FieldAlign(p.align, layout[i])))
            && Descending(p.align, layout[..n]) && Descending(p.align, layout[n..])
  {
    LayoutIsEmittable(p, t);
    LayoutLeaves(p.types, p.align, t, p.layouts[t]);
    LayoutOrder(p.align, p.layouts[t]);
  }

  /** In the code of a struct, or of an array element, that starts aligned, every scalar lies at a multiple
      of its own size and the whole ends at a multiple of the alignment. */
  lemma {:induction false} PlanIsNatural(p: Program, t: nat, v: Value, al: CurrentAlignment, a: int)
    requires Valid(p) && Emits(p, t) && IsPo2(al.align) && t < |p.align| && p.align[t] <= al.align
    requires al.offset == 0 && Multiple(a, al.align)
    ensures Natural(PlanOf(p, t, v, al, a).writes) && Multiple(PlanOf(p, t, v, al, a).end, al.align)
    decreases Size(v), 2, 0
  {
    hide Valid, Emits, ShapeOf, ArraysOf, PlanOf, PlanArrays, PlanLeaves, AlignUp, Multiple, Descending, Natural;
    PlanParts(p, t, v, al, a);
    NothingNatural();
    if p.layouts[t] != [] {
      InTables(p, t);
      var sh := ShapeOf(p, t, al);
      ShapeIsAligned(p, t, al, a);
      LeavesNatural(p.types, p.align, t, v, sh.fixed, a);
      if sh.arrays != [] {
        ArraysNatural(p, t, v, sh.arrays, a + sh.next);
        var arrays := PlanArrays(p, t, v, sh.arrays, a + sh.next);
        NaturalBoth(PlanLeaves(p.types, t, v, sh.fixed, a), arrays.writes);
        AlignUpMultiple(arrays.end, al.align);
      }
    }
  }

  lemma NothingNatural()
    ensures Natural([])
  {
  }

  lemma AlignUpMultiple(x: int, a: nat)
    requires IsPo2(a)
    ensures Multiple(AlignUp(x, a), a)
  {
    AlignUpGrows(x, a);
  }

  lemma {:induction false} ArraysNatural(p: Program, t: nat, v: Value, fs: seq<FieldAccessor>, a: int)
    requires Valid(p) && Emits(p, t) && ArraysOf(p, t, fs)
    requires Descending(p.align, fs) && (fs != [] ==> Multiple(a, FieldAlign(p.align, fs[0])))
    ensures Natural(PlanArrays(p, t, v, fs, a).writes)
    decreases Size(v), 1, |fs|
  {
    hide Valid, Emits, ArraysOf, HasCode, PlanElems, Leaves, At, Multiple, Natural, Descending;
    NothingNatural();
    if fs != [] {
      ArrayInTable(p, t, fs, true);
      RestOfArrays(p, t, fs);
      ElementEmits(p, fs[0].elem);
      InTables(p, t);
      ElementsAreSmaller(p.types, t, v, fs[0].indices);
      var es := ElemsOf(At(p.types, t, v, fs[0].indices));
      var here := PlanElems(p, fs[0].elem, es, a);
      ElemsNatural(p, fs[0].elem, es, a);
      ArraysArePo2(p, t, fs);
      NextIsAligned(p, fs, here.end);
      ArraysNatural(p, t, v, fs[1..], here.end);
      NaturalBoth(here.writes, PlanArrays(p, t, v, fs[1..], here.end).writes);
    }
  }

  lemma ArraysArePo2(p: Program, t: nat, fs: seq<FieldAccessor>)
    requires Valid(p) && Emits(p, t) && ArraysOf(p, t, fs)
    ensures forall fa :: fa in fs ==> IsPo2(FieldAlign(p.align, fa))
  {
    forall fa | fa in fs ensures IsPo2(FieldAlign(p.align, fa)) {
      ArrayInTable(p, t, [fa], true);
    }
  }

  lemma NextIsAligned(p: Program, fs: seq<FieldAccessor>, a: int)
    requires fs != [] && Descending(p.align, fs) && Multiple(a, FieldAlign(p.align, fs[0]))
    requires forall fa :: fa in fs ==> IsPo2(FieldAlign(p.align, fa))
    ensures Descending(p.align, fs[1..]) && (fs[1..] != [] ==> Multiple(a, FieldAlign(p.align, fs[1..][0])))
  {
    if |fs| > 1 {
      assert fs[1] in fs && fs[0] in fs;
      Po2Divides(FieldAlign(p.align, fs[0]), FieldAlign(p.align, fs[1]), a);
    }
  }

  lemma {:induction false} ElemsNatural(p: Program, elem: nat, vs: seq<Value>, a: int)
    requires Valid(p) && HasCode(p.types, elem) && Multiple(a, AlignOf(p, elem))
    ensures Natural(PlanElems(p, elem, vs, a).writes) && Multiple(PlanElems(p, elem, vs, a).end, AlignOf(p, elem))
    decreases Sizes(vs), 3, |vs|
  {
    hide Valid, Emits, HasCode, PlanOf, PlanElems, Multiple, AlignOf, Size, Natural;
    if vs == [] {
      NoElems(p, elem, a);
      NothingNatural();
    } else {
      ElementEmits(p, elem);
      InTables(p, elem);
      FirstElem(p, elem, vs, a);
      var al := CurrentAlignment(AlignOf(p, elem), 0);
      var here := PlanOf(p, elem, vs[0], al, a);
      PlanIsNatural(p, elem, vs[0], al, a);
      ElemsNatural(p, elem, vs[1..], here.end);
      NaturalBoth(here.writes, PlanElems(p, elem, vs[1..], here.end).writes);
    }
  }
}
