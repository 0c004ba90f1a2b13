/** The emitted serializers write exactly the image of the value their object holds. */
module Serializing {
  import opened Collections
  import opened Schema
  import opened Layouts
  import opened Machine
  import opened Values
  import opened Emitter
  import opened Plans

  /** The state after the writes of a plan, with the pointer at its end. */
  ghost function After(st: State, plan: Plan): State
    requires Fits(st.mem, plan.writes)
  {
    st.(mem := Apply(st.mem, plan.writes), buf := plan.end)
  }

  lemma AfterBoth(st: State, p1: Plan, p2: Plan)
    requires Fits(st.mem, p1.writes + p2.writes)
    ensures Fits(st.mem, p1.writes) && Fits(After(st, p1).mem, p2.writes)
    ensures After(st, Plan(p1.writes + p2.writes, p2.end)) == After(After(st, p1), p2)
  {
    ApplyConcat(st.mem, p1.writes, p2.writes);
  }

  lemma {:induction false} StoreLeaves(fns: map<nat, seq<Stmt>>, fuel: nat, ts: TypeTable, t: nat, v: Value,
                                       fs: seq<FieldAccessor>, off: nat, b: Path, st: State)
    requires (forall i :: 0 <= i < |fs| ==> fs[i].FixedField?) && AllHold(ts, st.obj, b, t, v, fs)
    requires Fits(st.mem, PlanLeaves(ts, t, v, fs, st.buf + off))
    ensures Exec(fns, fuel, FixedStmts(Ser, ts, t, fs, off), b, st) ==
            Some(After(st, Plan(PlanLeaves(ts, t, v, fs, st.buf + off), st.buf)))
    decreases |fs|
  {
    hide Exec, LeafHolds, At, Fits, Apply, AllHold, ToBytes, WriteBytes;
    if fs == [] {
      NothingStored(fns, fuel, b, st);
    } else {
      AllHoldFirst(ts, st.obj, b, t, v, fs);
      var fa, rest := fs[0], fs[1..];
      var w := Write(st.buf + off, ToBytes(NumOf(At(ts, t, v, fa.indices)), fa.Size()));
      var ws := PlanLeaves(ts, t, v, rest, st.buf + off + fa.Size());
      assert PlanLeaves(ts, t, v, fs, st.buf + off) == [w] + ws;
      ApplyFirst(st.mem, w, ws);
      var next := st.(mem := WriteBytes(st.mem, w.addr, w.bytes));
      StoreLeaf(fns, fuel, ts, t, v, fa, off, b, st);
      StoreLeaves(fns, fuel, ts, t, v, rest, off + fa.Size(), b, next);
      ExecConcat(fns, fuel, [Leaf(Ser, ts, t, off, fa)], FixedStmts(Ser, ts, t, rest, off + fa.Size()), b, st);
    }
  }

  lemma NothingStored(fns: map<nat, seq<Stmt>>, fuel: nat, b: Path, st: State)
    ensures Exec(fns, fuel, [], b, st) == Some(st) && Fits(st.mem, []) && Apply(st.mem, []) == st.mem
  {
  }

  lemma AllHoldFirst(ts: TypeTable, obj: Object, b: Path, t: nat, v: Value, fs: seq<FieldAccessor>)
    requires AllHold(ts, obj, b, t, v, fs) && fs != []
    ensures LeafHolds(ts, obj, b, t, v, fs[0]) && AllHold(ts, obj, b, t, v, fs[1..])
  {
  }

  lemma StoreLeaf(fns: map<nat, seq<Stmt>>, fuel: nat, ts: TypeTable, t: nat, v: Value, fa: FieldAccessor,
                  off: nat, b: Path, st: State)
    requires fa.FixedField? && LeafHolds(ts, st.obj, b, t, v, fa)
    requires InMemory(st.mem, st.buf + off, fa.Size())
    ensures Exec(fns, fuel, [Leaf(Ser, ts, t, off, fa)], b, st) ==
            Some(st.(mem := WriteBytes(st.mem, st.buf + off, ToBytes(NumOf(At(ts, t, v, fa.indices)), fa.Size()))))
  {
    ExecSingle(fns, fuel, Leaf(Ser, ts, t, off, fa), b, st);
  }

  lemma ApplyFirst(mem: Memory, w: Write, ws: seq<Write>)
    requires Fits(mem, [w] + ws)
    ensures InMemory(mem, w.addr, |w.bytes|) && Fits(WriteBytes(mem, w.addr, w.bytes), ws)
    ensures Apply(mem, [w] + ws) == Apply(WriteBytes(mem, w.addr, w.bytes), ws)
  {
    assert ([w] + ws)[0] == w && ([w] + ws)[1..] == ws;
    StillFits(mem, WriteBytes(mem, w.addr, w.bytes), [w] + ws, 1);
  }

  ghost predicate Ready(p: Program, fuel: nat, t: nat, v: Value, al: CurrentAlignment, inline: bool, b: Path, st: State)
    requires Valid(p) && Emits(p, t)
  {
    && IsPo2(al.align) && Encodable(p.types, t, v) && Represents(p.types, st.obj, b, t, v)
    && (IsCall(p, t, inline) ==> al == CurrentAlignment(AlignOf(p, t), 0))
    && fuel >= Size(v) + (if IsCall(p, t, inline) then 1 else 0)
  }

  /** The statements emitted for the serialization of v, run on an object that holds v, carry out
      the plan of v and leave the pointer at its end. */
  lemma {:induction false} SerializesPlan(p: Program, fuel: nat, t: nat, v: Value, al: CurrentAlignment, inline: bool,
                                          b: Path, st: State)
    requires Valid(p) && Emits(p, t) && Ready(p, fuel, t, v, al, inline, b, st)
    requires Fits(st.mem, PlanOf(p, t, v, al, st.buf).writes)
    ensures Exec(Functions(Ser, p), fuel, Emit(Ser, p, t, al, inline), b, st) ==
            Some(After(st, PlanOf(p, t, v, al, st.buf)))
    decreases Size(v), 3 + (if IsCall(p, t, inline) then 1 else 0), 0
  {
    if IsCall(p, t, inline) {
      CallSerializes(p, fuel, t, v, al, b, st);
    } else {
      SerializesInPlace(p, fuel, t, v, al, inline, b, st);
    }
  }

  /** A struct that has functions is handed to its serializer. */
  lemma {:induction false} CallSerializes(p: Program, fuel: nat, t: nat, v: Value, al: CurrentAlignment, b: Path,
                                          st: State)
    requires Valid(p) && Emits(p, t) && IsCall(p, t, false) && Ready(p, fuel, t, v, al, false, b, st)
    requires Fits(st.mem, PlanOf(p, t, v, al, st.buf).writes)
    ensures Exec(Functions(Ser, p), fuel, Emit(Ser, p, t, al, false), b, st) ==
            Some(After(st, PlanOf(p, t, v, al, st.buf)))
    decreases Size(v), 3, 1
  {
    hide Valid, Emits, Represents, Encodable, Exec, PlanOf, Fits, Functions, Emit;
    InTables(p, t);
    if p.layouts[t] == [] {
      EmptyBody(p, fuel, t, v, al, false, b, st);
    } else {
      EmitsCall(Ser, p, t, al);
      SerializesPlan(p, fuel - 1, t, v, al, true, b, st);
      ExecCall(Functions(Ser, p), fuel, t, b, st);
    }
  }

  lemma EmptyBody(p: Program, fuel: nat, t: nat, v: Value, al: CurrentAlignment, inline: bool, b: Path, st: State)
    requires Valid(p) && Emits(p, t) && IsPo2(al.align) && p.layouts[t] == []
    ensures PlanOf(p, t, v, al, st.buf) == Plan([], st.buf)
    ensures Exec(Functions(Ser, p), fuel, Emit(Ser, p, t, al, inline), b, st) ==
            Some(After(st, PlanOf(p, t, v, al, st.buf)))
  {
    hide Functions;
    assert Emit(Ser, p, t, al, inline) == [];
  }

  lemma AllHoldPart(ts: TypeTable, obj: Object, b: Path, t: nat, v: Value, f1: seq<FieldAccessor>, f2: seq<FieldAccessor>)
    requires AllHold(ts, obj, b, t, v, f1 + f2)
    ensures AllHold(ts, obj, b, t, v, f1)
  {
    assert forall fa :: fa in f1 ==> fa in f1 + f2;
  }

  lemma {:induction false} SerializesInPlace(p: Program, fuel: nat, t: nat, v: Value, al: CurrentAlignment, inline: bool,
                                             b: Path, st: State)
    requires Valid(p) && Emits(p, t) && !IsCall(p, t, inline) && Ready(p, fuel, t, v, al, inline, b, st)
    requires Fits(st.mem, PlanOf(p, t, v, al, st.buf).writes)
    ensures Exec(Functions(Ser, p), fuel, Emit(Ser, p, t, al, inline), b, st) ==
            Some(After(st, PlanOf(p, t, v, al, st.buf)))
    decreases Size(v), 2, |p.layouts[t]| + 1
  {
    hide Valid, Emits, Represents, Encodable, Exec, PlanLeaves, FixedStmts, EmitArrays, PlanArrays, Fits,
      Functions, ArraysOf, ShapeOf, Emit, PlanOf, Assemble, AlignUp, After, AllHold;
    InTables(p, t);
    if p.layouts[t] == [] {
      EmptyBody(p, fuel, t, v, al, inline, b, st);
    } else {
      var fns, sh := Functions(Ser, p), ShapeOf(p, t, al);
      var fixed, loops := FixedStmts(Ser, p.types, t, sh.fixed, sh.off), EmitArrays(Ser, p, t, sh.arrays, inline);
      var leaves := PlanLeaves(p.types, t, v, sh.fixed, st.buf + sh.off);
      EmitsParts(Ser, p, t, al, inline);
      PlanParts(p, t, v, al, st.buf);
      FixedHolds(p, t, v, al, b, st.obj);
      if sh.arrays == [] {
        StoreLeaves(fns, fuel, p.types, t, v, sh.fixed, sh.off, b, st);
        AfterMoves(st, leaves, st.buf, st.buf + sh.next);
        RunBody(fns, fuel, fixed, sh.next, loops, al.align, b, st);
      } else {
        var bumped, arrays := Plan(leaves, st.buf + sh.next), PlanArrays(p, t, v, sh.arrays, st.buf + sh.next);
        AfterBoth(st, bumped, arrays);
        StoreLeaves(fns, fuel, p.types, t, v, sh.fixed, sh.off, b, st);
        AfterMoves(st, leaves, st.buf, st.buf + sh.next);
        SerializesArrays(p, fuel, t, v, sh.arrays, inline, b, After(st, bumped));
        RunBody(fns, fuel, fixed, sh.next, loops, al.align, b, st);
        AfterMoves(st, leaves + arrays.writes, arrays.end, AlignUp(arrays.end, al.align));
      }
    }
  }

  lemma AfterMoves(st: State, ws: seq<Write>, e1: int, e2: int)
    requires Fits(st.mem, ws)
    ensures After(st, Plan(ws, e1)).buf == e1 && After(st, Plan(ws, e1)).obj == st.obj
    ensures After(st, Plan(ws, e1)).(buf := e2) == After(st, Plan(ws, e2))
  {
  }

  lemma FixedHolds(p: Program, t: nat, v: Value, al: CurrentAlignment, b: Path, obj: Object)
    requires Valid(p) && Emits(p, t) && IsPo2(al.align) && p.layouts[t] != []
    requires Encodable(p.types, t, v) && Represents(p.types, obj, b, t, v)
    ensures AllHold(p.types, obj, b, t, v, ShapeOf(p, t, al).fixed)
  {
    hide Valid, Emits, Represents, Encodable, ShapeOf, AllHold, ArraysOf;
    InTables(p, t);
    var sh := ShapeOf(p, t, al);
    LayoutHolds(p, t, v, b, obj);
    AllHoldPart(p.types, obj, b, t, v, sh.fixed, sh.arrays);
  }

  lemma LayoutHolds(p: Program, t: nat, v: Value, b: Path, obj: Object)
    requires Valid(p) && Emits(p, t) && Encodable(p.types, t, v) && Represents(p.types, obj, b, t, v)
    ensures AllHold(p.types, obj, b, t, v, p.layouts[t])
  {
    var layout := p.layouts[t];
    LayoutLeaves(p.types, p.align, t, layout);
    forall fa | fa in layout ensures LeafHolds(p.types, obj, b, t, v, fa) {
      RepresentsLeaf(p.types, obj, b, t, v, fa);
    }
  }

  lemma {:induction false} SerializesArrays(p: Program, fuel: nat, t: nat, v: Value, fs: seq<FieldAccessor>,
                                            inline: bool, b: Path, st: State)
    requires Valid(p) && Emits(p, t) && ArraysOf(p, t, fs) && !IsCall(p, t, inline)
    requires Encodable(p.types, t, v) && Represents(p.types, st.obj, b, t, v) && fuel >= Size(v)
    requires Fits(st.mem, PlanArrays(p, t, v, fs, st.buf).writes)
    ensures Exec(Functions(Ser, p), fuel, EmitArrays(Ser, p, t, fs, inline), b, st) ==
            Some(After(st, PlanArrays(p, t, v, fs, st.buf)))
    decreases Size(v), 2, |fs|
  {
    if fs != [] {
      hide Valid, Emits, ArraysOf, Encodable, Represents, Exec, PlanElems, Emit, EmitArray, Fits, Functions, HasCode,
        At, Leaves;
      var fa, rest := fs[0], fs[1..];
      ArrayInTable(p, t, fs, true);
      RestOfArrays(p, t, fs);
      var es := ElemsOf(At(p.types, t, v, fa.indices));
      var here := PlanElems(p, fa.elem, es, st.buf);
      AfterBoth(st, here, PlanArrays(p, t, v, rest, here.end));
      SerializesArray(p, fuel, t, v, fa, b, st);
      SerializesArrays(p, fuel, t, v, rest, inline, b, After(st, here));
      var loop := EmitArray(Ser, p, t, fa, Emit(Ser, p, fa.elem, CurrentAlignment(p.align[fa.elem], 0), false));
      ExecConcat(Functions(Ser, p), fuel, loop, EmitArrays(Ser, p, t, rest, inline), b, st);
    }
  }

  lemma {:induction false} SerializesArray(p: Program, fuel: nat, t: nat, v: Value, fa: FieldAccessor, b: Path, st: State)
    requires Valid(p) && Emits(p, t) && fa.ArrayField? && fa in Leaves(p.types, t) && fa.indices != []
    requires HasCode(p.types, fa.elem)
    requires Encodable(p.types, t, v) && Represents(p.types, st.obj, b, t, v) && fuel >= Size(v)
    requires Fits(st.mem, PlanElems(p, fa.elem, ElemsOf(At(p.types, t, v, fa.indices)), st.buf).writes)
    ensures var body := Emit(Ser, p, fa.elem, CurrentAlignment(AlignOf(p, fa.elem), 0), false);
            Exec(Functions(Ser, p), fuel, EmitArray(Ser, p, t, fa, body), b, st) ==
            Some(After(st, PlanElems(p, fa.elem, ElemsOf(At(p.types, t, v, fa.indices)), st.buf)))
    decreases Size(v), 1
  {
    hide Valid, Emits, Encodable, Represents, PlanElems, Emit, Fits, Functions, HasCode, At, Leaves, Exec, ExecLoop,
      Apply, IsHeapArray, LengthPath, Via, StorageOf, Follows, HasElements;
    ElementEmits(p, fa.elem);
    var es := ElemsOf(At(p.types, t, v, fa.indices));
    ElementsAreSmaller(p.types, t, v, fa.indices);
    LengthInObject(p, st.obj, b, t, v, fa);
    assert es[0..] == es;
    var storage := StorageOf(p.types, t, fa.indices);
    SerializesElems(p, fuel, fa.elem, es, 0, b + fa.indices, storage, st);
    var body := Emit(Ser, p, fa.elem, CurrentAlignment(AlignOf(p, fa.elem), 0), false);
    var data := AccessorTo(p.types, t, fa.indices);
    ExecFor(Functions(Ser, p), fuel, LengthPath(fa.indices), data, storage, body, b, st);
    assert EmitArray(Ser, p, t, fa, body) == [For(LengthPath(fa.indices), data, storage, body)];
  }

  /** The length of an array is in the object, its elements are there, and are held below the path of its data. */
  lemma LengthInObject(p: Program, obj: Object, b: Path, t: nat, v: Value, fa: FieldAccessor)
    requires Valid(p) && Emits(p, t) && fa.ArrayField? && fa in Leaves(p.types, t)
    requires Encodable(p.types, t, v) && Represents(p.types, obj, b, t, v)
    ensures fa.indices != [] && Follows(obj, b, Via(p.types, t, fa.indices))
    ensures var es := ElemsOf(At(p.types, t, v, fa.indices));
            && b + LengthPath(fa.indices) in obj && obj[b + LengthPath(fa.indices)] == |es|
            && HasElements(obj, b + fa.indices, StorageOf(p.types, t, fa.indices), |es|)
            && forall i :: 0 <= i < |es| ==>
                 Encodable(p.types, fa.elem, es[i]) && Represents(p.types, obj, b + fa.indices + [i], fa.elem, es[i])
  {
    hide Encodable, Represents, Leaves, HasElements, StorageOf, Via, At, IsLayout, Follows;
    ArraysHaveLengths(p.types, t, fa);
    var a := TypeAt(p.types, t, fa.indices[..|fa.indices| - 1]);
    var len := FixedField(LengthPath(fa.indices), LengthPrim(p.types[a].size));
    LeavesEncodable(p.types, t, v, fa);
    RepresentsLeaf(p.types, obj, b, t, v, fa);
    RepresentsLeaf(p.types, obj, b, t, v, len);
  }

  /** Each of the elements there. */
  lemma ElementIsThere(obj: Object, data: Path, storage: Storage, n: nat, i: nat)
    requires HasElements(obj, data, storage, n) && i < n
    ensures HasElement(obj, data, storage, i)
  {
  }

  lemma {:induction false} SerializesElems(p: Program, fuel: nat, elem: nat, es: seq<Value>, i: nat, data: Path,
                                           storage: Storage, st: State)
    requires Valid(p) && HasCode(p.types, elem) && i <= |es| && HasElements(st.obj, data, storage, |es|)
    requires forall j :: 0 <= j < |es| ==>
      Encodable(p.types, elem, es[j]) && Represents(p.types, st.obj, data + [j], elem, es[j])
    requires fuel > Sizes(es)
    requires Fits(st.mem, PlanElems(p, elem, es[i..], st.buf).writes)
    ensures ExecLoop(Functions(Ser, p), fuel, Emit(Ser, p, elem, CurrentAlignment(AlignOf(p, elem), 0), false), data,
                     storage, i, |es|, st) ==
            Some(After(st, PlanElems(p, elem, es[i..], st.buf)))
    decreases Sizes(es), 5, |es| - i
  {
    if i < |es| {
      hide HasElement;
      var al := CurrentAlignment(AlignOf(p, elem), 0);
      assert es[i..][0] == es[i] && es[i..][1..] == es[i + 1..];
      PartIsSmaller(es, i);
      ElementIsThere(st.obj, data, storage, |es|, i);
      var here := PlanOf(p, elem, es[i], al, st.buf);
      AfterBoth(st, here, PlanElems(p, elem, es[i + 1..], here.end));
      SerializesPlan(p, fuel, elem, es[i], al, false, data + [i], st);
      SerializesElems(p, fuel, elem, es, i + 1, data, storage, After(st, here));
    }
  }
}
