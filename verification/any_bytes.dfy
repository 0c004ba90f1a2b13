/** The emitted deserializers on bytes of any kind: what they accept is the image of a value. */
module AnyBytes {
  import opened Collections
  import opened Schema
  import opened Layouts
  import opened Machine
  import opened Values
  import opened Emitter
  import opened Plans
  import opened Deserializing

  // ----- leaves of a fixed size

  function NumberAt(obj: Object, b: Path, p: Path): nat {
    if b + p in obj then obj[b + p] else 0
  }

  /** The bytes of leaves whose numbers are in obj. */
  function LeafBytes(obj: Object, b: Path, fs: seq<FieldAccessor>, a: int): seq<Write> {
    if fs == [] then []
    else
      [Write(a, ToBytes(NumberAt(obj, b, fs[0].indices), fs[0].Size()))] +
      LeafBytes(obj, b, fs[1..], a + fs[0].Size())
  }

  ghost predicate NumberFits(obj: Object, b: Path, fa: FieldAccessor) {
    b + fa.indices in obj && NumberAt(obj, b, fa.indices) < Pow256(fa.Size())
  }

  ghost predicate NumbersFit(obj: Object, b: Path, fs: seq<FieldAccessor>) {
    forall fa :: fa in fs ==> NumberFits(obj, b, fa)
  }

  lemma HoldsJoin(mem: Memory, w1: seq<Write>, w2: seq<Write>)
    requires Holds(mem, w1) && Holds(mem, w2)
    ensures Holds(mem, w1 + w2)
  {
  }

  lemma LoadedLeaf(fns: map<nat, seq<Stmt>>, fuel: nat, ts: TypeTable, t: nat, fa: FieldAccessor, off: nat, b: Path,
                   st: State, out: State)
    requires fa.FixedField? && Exec(fns, fuel, [Leaf(Des, ts, t, off, fa)], b, st) == Some(out)
    ensures out.mem == st.mem && out.buf == st.buf && Touches(st.obj, out.obj, b, [fa])
    ensures NumberFits(out.obj, b, fa) && b + fa.indices in out.obj
    ensures Holds(st.mem, [Write(st.buf + off, ToBytes(NumberAt(out.obj, b, fa.indices), fa.Size()))])
  {
    hide Via, Pow256, ToBytes, FromBytes;
    ExecSingle(fns, fuel, Leaf(Des, ts, t, off, fa), b, st);
    BytesBack(ReadBytes(st.mem, st.buf + off, fa.Size()));
    forall r | !BelowSome(b, [fa], r) ensures SameAt(st.obj, out.obj, r) {
      assert IsPrefix(b + fa.indices, b + fa.indices) && [fa][0] == fa;
    }
  }

  /** A number stays while leaves apart from its own are filled in. */
  lemma NumberStays(before: Object, after: Object, b: Path, p: Path, fs: seq<FieldAccessor>)
    requires Touches(before, after, b, fs) && forall i :: 0 <= i < |fs| ==> Apart(p, fs[i].indices)
    ensures NumberAt(after, b, p) == NumberAt(before, b, p) && (b + p in before ==> b + p in after)
  {
    hide Touches, Apart;
    SameBelowLeaf(before, after, b, p, fs);
    assert IsPrefix(b + p, b + p);
  }

  lemma {:induction false} LoadedLeaves(fns: map<nat, seq<Stmt>>, fuel: nat, ts: TypeTable, t: nat,
                                        fs: seq<FieldAccessor>, off: nat, b: Path, st: State, out: State)
    requires (forall i :: 0 <= i < |fs| ==> fs[i].FixedField?) && AllApart(fs)
    requires Exec(fns, fuel, FixedStmts(Des, ts, t, fs, off), b, st) == Some(out)
    ensures out.mem == st.mem && out.buf == st.buf && Touches(st.obj, out.obj, b, fs)
    ensures NumbersFit(out.obj, b, fs) && Holds(st.mem, LeafBytes(out.obj, b, fs, st.buf + off))
    decreases |fs|
  {
    hide Exec, Holds, ToBytes, Touches, NumberFits, AllApart, Apart, Leaf, NumberAt;
    if fs == [] {
      NothingThere(fns, fuel, b, st);
    } else {
      var fa, rest := fs[0], fs[1..];
      assert fs == [fa] + rest;
      ExecConcat(fns, fuel, [Leaf(Des, ts, t, off, fa)], FixedStmts(Des, ts, t, rest, off + fa.Size()), b, st);
      var next := Exec(fns, fuel, [Leaf(Des, ts, t, off, fa)], b, st).value;
      LoadedLeaf(fns, fuel, ts, t, fa, off, b, st, next);
      ApartParts([fa], rest);
      ApartFromAll([fa], rest);
      LoadedLeaves(fns, fuel, ts, t, rest, off + fa.Size(), b, next, out);
      assert fa in [fa];
      NumberStays(next.obj, out.obj, b, fa.indices, rest);
      StillFits(next.obj, out.obj, b, fa);
      HoldsJoin(st.mem, [Write(st.buf + off, ToBytes(NumberAt(out.obj, b, fa.indices), fa.Size()))],
                LeafBytes(out.obj, b, rest, st.buf + off + fa.Size()));
      TouchesInTurn(st.obj, next.obj, out.obj, b, [fa], rest);
    }
  }

  lemma StillFits(before: Object, after: Object, b: Path, fa: FieldAccessor)
    requires NumberFits(before, b, fa) && NumberAt(after, b, fa.indices) == NumberAt(before, b, fa.indices)
    requires b + fa.indices in after
    ensures NumberFits(after, b, fa)
  {
  }

  lemma NothingThere(fns: map<nat, seq<Stmt>>, fuel: nat, b: Path, st: State)
    ensures Exec(fns, fuel, [], b, st) == Some(st) && Holds(st.mem, []) && Touches(st.obj, st.obj, b, [])
  {
  }

  // ----- arrays

  ghost predicate AllEncodable(ts: TypeTable, elem: nat, es: seq<Value>) {
    forall i :: 0 <= i < |es| ==> Encodable(ts, elem, es[i])
  }

  /** The image of arrays with the given elements. */
  ghost function GivenArrays(p: Program, t: nat, fs: seq<FieldAccessor>, ess: seq<seq<Value>>, a: int): Plan
    requires Valid(p) && Emits(p, t) && ArraysOf(p, t, fs) && |ess| == |fs|
    decreases |fs|
  {
    if fs == [] then Plan([], a)
    else
      ArrayInTable(p, t, fs, true);
      var here := PlanElems(p, fs[0].elem, ess[0], a);
      var rest := GivenArrays(p, t, fs[1..], ess[1..], here.end);
      Plan(here.writes + rest.writes, rest.end)
  }

  lemma {:induction false} GivenIsPlan(p: Program, t: nat, v: Value, fs: seq<FieldAccessor>, ess: seq<seq<Value>>, a: int)
    requires Valid(p) && Emits(p, t) && ArraysOf(p, t, fs) && |ess| == |fs|
    requires forall k :: 0 <= k < |fs| ==> ElemsOf(At(p.types, t, v, fs[k].indices)) == ess[k]
    ensures PlanArrays(p, t, v, fs, a) == GivenArrays(p, t, fs, ess, a)
    decreases |fs|
  {
    hide Valid, Emits, ArraysOf, HasCode, PlanElems, At;
    if fs != [] {
      ArrayInTable(p, t, fs, true);
      RestOfArrays(p, t, fs);
      GivenIsPlan(p, t, v, fs[1..], ess[1..], PlanElems(p, fs[0].elem, ess[0], a).end);
    }
  }

  lemma LastRound(fns: map<nat, seq<Stmt>>, fuel: nat, body: seq<Stmt>, data: Path, storage: Storage, i: nat, n: nat,
                  st: State)
    requires i >= n
    ensures ExecLoop(fns, fuel, body, data, storage, i, n, st) == Some(st)
  {
  }

  /** What the elements from number i on of an array are, if all of them are read. */
  lemma {:induction false} ReadElems(p: Program, fuel: nat, elem: nat, i: nat, n: nat, data: Path, storage: Storage,
                                     st: State, out: State) returns (es: seq<Value>)
    requires Valid(p) && HasCode(p.types, elem) && Emits(p, elem) && i <= n
    requires ExecLoop(Functions(Des, p), fuel, Emit(Des, p, elem, CurrentAlignment(AlignOf(p, elem), 0), false), data,
                      storage, i, n, st) == Some(out)
    ensures |es| == n - i && AllEncodable(p.types, elem, es) && Holds(st.mem, PlanElems(p, elem, es, st.buf).writes)
    ensures out.mem == st.mem && out.buf == PlanElems(p, elem, es, st.buf).end && SameOutside(st.obj, out.obj, data)
    decreases fuel, Unfolding(p, elem, false), Depths(p.types)[elem], 3, n - i
  {
    hide Valid, Emits, HasCode, Exec, ExecLoop, Functions, Emit, Encodable, PlanOf, PlanElems, Holds, SameOutside,
      HasElement, AlignOf, Unfolding, Depths;
    InTables(p, elem);
    var al := CurrentAlignment(AlignOf(p, elem), 0);
    var fns, body := Functions(Des, p), Emit(Des, p, elem, al, false);
    if i == n {
      es := [];
      LastRound(fns, fuel, body, data, storage, i, n, st);
      NoElems(p, elem, st.buf);
      NothingThere(fns, fuel, data, st);
      SameAsItself(st.obj, data);
    } else {
      NextRound(fns, fuel, body, data, storage, i, n, st);
      var next := Exec(fns, fuel, body, data + [i], st).value;
      var v := ReadsAsValue(p, fuel, elem, al, false, data + [i], st, next);
      var rest := ReadElems(p, fuel, elem, i + 1, n, data, storage, next, out);
      es := [v] + rest;
      assert es[1..] == rest;
      FirstElem(p, elem, es, st.buf);
      HoldsJoin(st.mem, PlanOf(p, elem, v, al, st.buf).writes, PlanElems(p, elem, rest, next.buf).writes);
      OutsideBoth(st.obj, next.obj, out.obj, data, [i]);
    }
  }

  lemma SameAsItself(obj: Object, b: Path)
    ensures SameOutside(obj, obj, b)
  {
  }

  lemma OutsideBoth(o1: Object, o2: Object, o3: Object, b: Path, c: Path)
    requires SameOutside(o1, o2, b + c) && SameOutside(o2, o3, b)
    ensures SameOutside(o1, o3, b)
  {
    forall r | !IsPrefix(b, r) ensures SameAt(o1, o3, r) {
      BelowBase(b, c, r);
      assert SameAt(o1, o2, r) && SameAt(o2, o3, r);
    }
  }

  /** Whether or not memory is allocated first, a loop over the elements follows. */
  lemma LoopOf(p: Program, fuel: nat, t: nat, fa: FieldAccessor, body: seq<Stmt>, b: Path, st: State, out: State)
    returns (st': State)
    requires Valid(p) && fa.ArrayField? && fa.indices != [] && fa.indices[|fa.indices| - 1] == 1
    requires b + LengthPath(fa.indices) in st.obj
    requires Exec(Functions(Des, p), fuel, EmitArray(Des, p, t, fa, body), b, st) == Some(out)
    ensures st'.mem == st.mem && st'.buf == st.buf && SameOutside(st.obj, st'.obj, b + fa.indices)
    ensures ExecLoop(Functions(Des, p), fuel, body, b + fa.indices, StorageOf(p.types, t, fa.indices), 0,
                     NumberAt(st.obj, b, LengthPath(fa.indices)), st') == Some(out)
  {
    hide Valid, Exec, ExecLoop, Functions, TypeAt, Via, Follows, StorageOf;
    var fns, q := Functions(Des, p), fa.indices;
    var data, storage := AccessorTo(p.types, t, q), StorageOf(p.types, t, q);
    var loop := [For(LengthPath(q), data, storage, body)];
    if IsHeapArray(p.types, t, q) {
      st' := st.(obj := Allocated(st.obj, b + q));
      LengthNotBelow(b, q, LengthPath(q));
      ExecSingle(fns, fuel, Malloc(data), b, st);
      ExecConcat(fns, fuel, [Malloc(data)], loop, b, st);
    } else {
      st' := st;
      assert [] + loop == loop;
    }
    ExecFor(fns, fuel, LengthPath(q), data, storage, body, b, st');
  }

  /** What an array is, if it is read. */
  lemma {:induction false} ReadArray(p: Program, fuel: nat, t: nat, fa: FieldAccessor, inline: bool, b: Path, st: State,
                                     out: State) returns (es: seq<Value>)
    requires Valid(p) && Emits(p, t) && ArraysOf(p, t, [fa]) && !IsCall(p, t, inline)
    requires fa.ArrayField? && HasCode(p.types, fa.elem) && fa.indices != [] && fa.indices[|fa.indices| - 1] == 1
    requires b + LengthPath(fa.indices) in st.obj
    requires var body := Emit(Des, p, fa.elem, CurrentAlignment(AlignOf(p, fa.elem), 0), false);
             Exec(Functions(Des, p), fuel, EmitArray(Des, p, t, fa, body), b, st) == Some(out)
    ensures |es| == NumberAt(st.obj, b, LengthPath(fa.indices)) && AllEncodable(p.types, fa.elem, es)
    ensures Holds(st.mem, PlanElems(p, fa.elem, es, st.buf).writes) && out.buf == PlanElems(p, fa.elem, es, st.buf).end
    ensures out.mem == st.mem && Touches(st.obj, out.obj, b, [fa])
    decreases fuel, Unfolding(p, t, inline), Depths(p.types)[t], 1, 0
  {
    hide Valid, Emits, ArraysOf, HasCode, Exec, ExecLoop, Functions, Emit, Encodable, PlanElems, Holds, SameOutside,
      EmitArray, AlignOf, Touches, StorageOf, NumberAt, Unfolding, Depths, IsCall, AllEncodable, LengthPath;
    InLower(p, t, fa, inline);
    var body := Emit(Des, p, fa.elem, CurrentAlignment(AlignOf(p, fa.elem), 0), false);
    var st' := LoopOf(p, fuel, t, fa, body, b, st, out);
    var n := NumberAt(st.obj, b, LengthPath(fa.indices));
    es := ReadElems(p, fuel, fa.elem, 0, n, b + fa.indices, StorageOf(p.types, t, fa.indices), st', out);
    OutsideTwice(st.obj, st'.obj, out.obj, b + fa.indices);
    OutsideOne(st.obj, out.obj, b, fa);
  }

  lemma OutsideTwice(o1: Object, o2: Object, o3: Object, b: Path)
    requires SameOutside(o1, o2, b) && SameOutside(o2, o3, b)
    ensures SameOutside(o1, o3, b)
  {
  }

  lemma OutsideOne(before: Object, after: Object, b: Path, fa: FieldAccessor)
    requires SameOutside(before, after, b + fa.indices)
    ensures Touches(before, after, b, [fa])
  {
    forall r | !BelowSome(b, [fa], r) ensures SameAt(before, after, r) {
      assert [fa][0] == fa;
    }
  }

  /** Elements are of types that unfold less. */
  lemma InLower(p: Program, t: nat, fa: FieldAccessor, inline: bool)
    requires Valid(p) && Emits(p, t) && ArraysOf(p, t, [fa]) && !IsCall(p, t, inline)
    ensures t < |p.types| && fa.elem < |p.types| && Emits(p, fa.elem)
    ensures Unfolding(p, fa.elem, false) < Unfolding(p, t, inline) ||
            (Unfolding(p, fa.elem, false) == Unfolding(p, t, inline) && Depths(p.types)[fa.elem] < Depths(p.types)[t])
  {
    hide Leaves, IsLayout, Depths;
    ArrayInTable(p, t, [fa], inline);
    ElementEmits(p, fa.elem);
  }

  /** The lengths of arrays are there. */
  ghost predicate LengthsThere(obj: Object, b: Path, fs: seq<FieldAccessor>) {
    forall fa :: fa in fs ==> fa.indices != [] && fa.indices[|fa.indices| - 1] == 1 && b + LengthPath(fa.indices) in obj
  }

  /** No array holds the length of another, or of itself. */
  ghost predicate LengthsApart(fs: seq<FieldAccessor>) {
    forall fa, fb :: fa in fs && fb in fs && fa.indices != [] ==> Apart(LengthPath(fa.indices), fb.indices)
  }

  lemma LengthsStay(before: Object, after: Object, b: Path, fs: seq<FieldAccessor>)
    requires LengthsThere(before, b, fs) && LengthsApart(fs) && fs != [] && Touches(before, after, b, [fs[0]])
    ensures LengthsThere(after, b, fs[1..]) && LengthsApart(fs[1..])
    ensures forall k :: 0 < k < |fs| ==>
      NumberAt(after, b, LengthPath(fs[k].indices)) == NumberAt(before, b, LengthPath(fs[k].indices))
  {
    hide Touches, Apart;
    forall k | 0 < k < |fs|
      ensures b + LengthPath(fs[k].indices) in after
      ensures NumberAt(after, b, LengthPath(fs[k].indices)) == NumberAt(before, b, LengthPath(fs[k].indices))
    {
      assert fs[0] in fs && fs[k] in fs;
      var q := LengthPath(fs[k].indices);
      SameBelowLeaf(before, after, b, q, [fs[0]]);
      assert IsPrefix(b + q, b + q);
    }
  }

  ghost predicate AreElements(p: Program, fs: seq<FieldAccessor>, ess: seq<seq<Value>>, obj: Object, b: Path) {
    |ess| == |fs| && forall k :: 0 <= k < |fs| ==> IsElements(p, fs[k], ess[k], obj, b)
  }

  ghost predicate IsElements(p: Program, fa: FieldAccessor, es: seq<Value>, obj: Object, b: Path) {
    && fa.ArrayField? && fa.indices != [] && |es| == NumberAt(obj, b, LengthPath(fa.indices))
    && AllEncodable(p.types, fa.elem, es)
  }

  lemma OneMoreElements(p: Program, fs: seq<FieldAccessor>, es: seq<Value>, rest: seq<seq<Value>>, before: Object,
                        after: Object, b: Path)
    requires fs != [] && IsElements(p, fs[0], es, before, b) && AreElements(p, fs[1..], rest, after, b)
    requires forall k :: 0 < k < |fs| && fs[k].indices != [] ==>
      NumberAt(after, b, LengthPath(fs[k].indices)) == NumberAt(before, b, LengthPath(fs[k].indices))
    ensures AreElements(p, fs, [es] + rest, before, b)
  {
    hide NumberAt, AllEncodable;
    forall k | 0 <= k < |fs| ensures IsElements(p, fs[k], ([es] + rest)[k], before, b) {
      if k > 0 {
        assert IsElements(p, fs[1..][k - 1], rest[k - 1], after, b);
      }
    }
  }

  /** What the arrays of a body are, if they are read. */
  lemma {:induction false} ReadArrays(p: Program, fuel: nat, t: nat, fs: seq<FieldAccessor>, inline: bool, b: Path,
                                      st: State, out: State) returns (ess: seq<seq<Value>>)
    requires Valid(p) && Emits(p, t) && ArraysOf(p, t, fs) && !IsCall(p, t, inline)
    requires LengthsThere(st.obj, b, fs) && LengthsApart(fs)
    requires Exec(Functions(Des, p), fuel, EmitArrays(Des, p, t, fs, inline), b, st) == Some(out)
    ensures AreElements(p, fs, ess, st.obj, b)
    ensures Holds(st.mem, GivenArrays(p, t, fs, ess, st.buf).writes)
    ensures out.mem == st.mem && out.buf == GivenArrays(p, t, fs, ess, st.buf).end
    decreases fuel, Unfolding(p, t, inline), Depths(p.types)[t], 1, |fs|
  {
    hide Valid, Emits, ArraysOf, HasCode, Exec, Functions, Emit, EmitArray, Encodable, PlanElems, Holds, AllEncodable,
      AlignOf, Touches, NumberAt, Unfolding, Depths, IsCall, LengthsApart, LengthPath, IsElements;
    if fs == [] {
      ess := [];
      NothingThere(Functions(Des, p), fuel, b, st);
    } else {
      var fa, rest := fs[0], fs[1..];
      ArrayInTable(p, t, fs, inline);
      RestOfArrays(p, t, fs);
      OnlyFirst(p, t, fs);
      ElementEmits(p, fa.elem);
      AlignIs(p, fa.elem);
      var body := Emit(Des, p, fa.elem, CurrentAlignment(AlignOf(p, fa.elem), 0), false);
      ExecConcat(Functions(Des, p), fuel, EmitArray(Des, p, t, fa, body), EmitArrays(Des, p, t, rest, inline), b, st);
      var next := Exec(Functions(Des, p), fuel, EmitArray(Des, p, t, fa, body), b, st).value;
      var es := ReadArray(p, fuel, t, fa, inline, b, st, next);
      LengthsStay(st.obj, next.obj, b, fs);
      var more := ReadArrays(p, fuel, t, rest, inline, b, next, out);
      ess := [es] + more;
      assert ess[1..] == more;
      ElementsOf(p, fa, es, st.obj, b);
      OneMoreElements(p, fs, es, more, st.obj, next.obj, b);
      HoldsJoin(st.mem, PlanElems(p, fa.elem, es, st.buf).writes, GivenArrays(p, t, rest, more, next.buf).writes);
    }
  }

  lemma ElementsOf(p: Program, fa: FieldAccessor, es: seq<Value>, obj: Object, b: Path)
    requires fa.ArrayField? && fa.indices != [] && |es| == NumberAt(obj, b, LengthPath(fa.indices))
    requires AllEncodable(p.types, fa.elem, es)
    ensures IsElements(p, fa, es, obj, b)
  {
  }

  lemma OnlyFirst(p: Program, t: nat, fs: seq<FieldAccessor>)
    requires Valid(p) && ArraysOf(p, t, fs) && fs != []
    ensures ArraysOf(p, t, [fs[0]])
  {
  }

  lemma AlignIs(p: Program, t: nat)
    requires Valid(p) && t < |p.types|
    ensures t < |p.align| && p.align[t] == AlignOf(p, t)
  {
  }

  // ----- a value from what was read

  /** The elements read for the array at path q. */
  function Lookup(fs: seq<FieldAccessor>, ess: seq<seq<Value>>, q: Path): seq<Value>
    requires |ess| == |fs|
  {
    if fs == [] then [] else if fs[0].indices == q then ess[0] else Lookup(fs[1..], ess[1..], q)
  }

  lemma {:induction false} LookupAt(fs: seq<FieldAccessor>, ess: seq<seq<Value>>, k: nat)
    requires |ess| == |fs| && k < |fs| && AllApart(fs)
    ensures Lookup(fs, ess, fs[k].indices) == ess[k]
    decreases |fs|
  {
    if k > 0 {
      assert fs[0].indices != fs[k].indices by {
        assert Apart(fs[0].indices, fs[k].indices);
      }
      assert AllApart(fs[1..]) by {
        assert fs == [fs[0]] + fs[1..];
        ApartParts([fs[0]], fs[1..]);
      }
      LookupAt(fs[1..], ess[1..], k - 1);
    }
  }

  /** The numbers and the elements of arrays that have been read, by path. */
  datatype Readings = Readings(obj: Object, b: Path, fs: seq<FieldAccessor>, ess: seq<seq<Value>>)

  function Number(r: Readings, q: Path): nat {
    NumberAt(r.obj, r.b, q)
  }

  function Elements(r: Readings, q: Path): seq<Value> {
    if |r.ess| == |r.fs| then Lookup(r.fs, r.ess, q) else []
  }

  /** The value of type t whose leaves are found below path pre. */
  ghost function Built(ts: TypeTable, t: nat, pre: Path, r: Readings): Value
    requires Finite(ts) && t < |ts|
    decreases FlatRanks(ts)[t]
  {
    if ts[t].TypePrimitif? then Num(Number(r, pre))
    else if IsMaxArray(ts[t]) then Agg(Elements(r, pre + [1]))
    else Agg(seq(|Parts(ts[t])|, i requires 0 <= i < |Parts(ts[t])| =>
                                   (PartFalls(ts, t, i); Built(ts, Parts(ts[t])[i], pre + [i], r))))
  }

  lemma BuiltParts(ts: TypeTable, t: nat, pre: Path, r: Readings, i: nat)
    requires Finite(ts) && t < |ts| && !ts[t].TypePrimitif? && !IsMaxArray(ts[t])
    ensures Built(ts, t, pre, r).Agg? && |Built(ts, t, pre, r).elems| == |Parts(ts[t])|
    ensures i < |Parts(ts[t])| ==>
      Parts(ts[t])[i] < |ts| && Built(ts, t, pre, r).elems[i] == Built(ts, Parts(ts[t])[i], pre + [i], r)
  {
    if i < |Parts(ts[t])| {
      PartFalls(ts, t, i);
    }
  }

  /** What was read for leaf fa fits. */
  ghost predicate LeafRead(ts: TypeTable, r: Readings, pre: Path, fa: FieldAccessor) {
    match fa
    case FixedField(q, prim) => Number(r, pre + q) < Pow256(PrimSize(prim))
    case ArrayField(q, elem) =>
      && q != [] && |Elements(r, pre + q)| == Number(r, LengthPath(pre + q))
      && AllEncodable(ts, elem, Elements(r, pre + q))
  }

  /** Leaf fa of v is what was read. */
  ghost predicate LeafAsRead(ts: TypeTable, t: nat, v: Value, r: Readings, pre: Path, fa: FieldAccessor) {
    match fa
    case FixedField(q, _) => NumOf(At(ts, t, v, q)) == Number(r, pre + q)
    case ArrayField(q, _) => ElemsOf(At(ts, t, v, q)) == Elements(r, pre + q)
  }

  lemma LeafReadUnder(ts: TypeTable, r: Readings, pre: Path, j: nat, inner: FieldAccessor)
    ensures LeafRead(ts, r, pre, Under(j, inner)) && (inner.ArrayField? ==> inner.indices != []) ==>
            LeafRead(ts, r, pre + [j], inner)
  {
    hide Pow256, Elements, Number, AllEncodable;
    assert pre + ([j] + inner.indices) == pre + [j] + inner.indices;
  }

  lemma LeafAsReadUnder(ts: TypeTable, t: nat, v: Value, r: Readings, pre: Path, j: nat, inner: FieldAccessor)
    requires t < |ts| && v.Agg? && !IsMaxArray(ts[t]) && j < |Parts(ts[t])| == |v.elems|
    requires LeafAsRead(ts, Parts(ts[t])[j], v.elems[j], r, pre + [j], inner)
    ensures LeafAsRead(ts, t, v, r, pre, Under(j, inner))
  {
    hide At, Elements, Number;
    AtUnder(ts, t, v, j, inner.indices);
    assert pre + ([j] + inner.indices) == pre + [j] + inner.indices;
  }

  ghost predicate AllRead(ts: TypeTable, t: nat, r: Readings, pre: Path)
    requires Finite(ts) && t < |ts|
  {
    forall fa :: fa in Leaves(ts, t) ==> LeafRead(ts, r, pre, fa)
  }

  lemma PartRead(ts: TypeTable, t: nat, r: Readings, pre: Path, j: nat)
    requires Finite(ts) && t < |ts| && !ts[t].TypePrimitif? && !IsMaxArray(ts[t]) && AllRead(ts, t, r, pre)
    requires j < |Parts(ts[t])| && Parts(ts[t])[j] < |ts|
    ensures AllRead(ts, Parts(ts[t])[j], r, pre + [j])
  {
    hide LeafRead;
    forall inner | inner in Leaves(ts, Parts(ts[t])[j]) ensures LeafRead(ts, r, pre + [j], inner) {
      FromLeaf(ts, t, 0, j, inner);
      if inner.ArrayField? {
        ArraysHaveLengths(ts, Parts(ts[t])[j], inner);
      }
      LeafReadUnder(ts, r, pre, j, inner);
    }
  }

  lemma BuiltArray(ts: TypeTable, t: nat, pre: Path, r: Readings)
    requires Finite(ts) && t < |ts| && IsMaxArray(ts[t]) && AllRead(ts, t, r, pre)
    ensures Encodable(ts, t, Built(ts, t, pre, r))
    ensures forall fa :: fa in Leaves(ts, t) ==> LeafAsRead(ts, t, Built(ts, t, pre, r), r, pre, fa)
  {
    hide Number, Elements, Pow256;
    var data, length := ArrayField([1], ts[t].elem), FixedField([0], LengthPrim(ts[t].size));
    assert Leaves(ts, t) == [data, length];
    assert LengthPath(pre + [1]) == pre + [0];
    assert LeafRead(ts, r, pre, data) && LeafRead(ts, r, pre, length);
    var v := Built(ts, t, pre, r);
    assert At(ts, t, v, [1]) == v && At(ts, t, v, [0]) == Num(|v.elems|);
  }

  /** The value built is encodable, and its leaves are what was read. */
  lemma {:induction false} BuiltIs(ts: TypeTable, t: nat, pre: Path, r: Readings)
    requires Finite(ts) && t < |ts| && AllRead(ts, t, r, pre)
    ensures Encodable(ts, t, Built(ts, t, pre, r))
    ensures forall fa :: fa in Leaves(ts, t) ==> LeafAsRead(ts, t, Built(ts, t, pre, r), r, pre, fa)
    decreases FlatRanks(ts)[t]
  {
    if IsMaxArray(ts[t]) {
      BuiltArray(ts, t, pre, r);
    } else if ts[t].TypePrimitif? {
      var fa := FixedField([], ts[t].primitif);
      assert Leaves(ts, t) == [fa] && fa in Leaves(ts, t);
      assert LeafRead(ts, r, pre, fa) && pre + [] == pre;
    } else {
      hide LeafRead, LeafAsRead, AllRead;
      var v := Built(ts, t, pre, r);
      BuiltParts(ts, t, pre, r, 0);
      forall j | 0 <= j < |Parts(ts[t])|
        ensures Encodable(ts, Parts(ts[t])[j], v.elems[j])
      {
        BuiltParts(ts, t, pre, r, j);
        PartFalls(ts, t, j);
        PartRead(ts, t, r, pre, j);
        BuiltIs(ts, Parts(ts[t])[j], pre + [j], r);
      }
      forall fa | fa in Leaves(ts, t) ensures LeafAsRead(ts, t, v, r, pre, fa) {
        var j, inner := LeafFrom(ts, t, 0, fa);
        BuiltParts(ts, t, pre, r, j);
        PartFalls(ts, t, j);
        PartRead(ts, t, r, pre, j);
        BuiltIs(ts, Parts(ts[t])[j], pre + [j], r);
        LeafAsReadUnder(ts, t, v, r, pre, j, inner);
      }
    }
  }

  // ----- whole objects

  /** The lengths of arrays are among the fixed leaves, apart from all arrays. */
  lemma LengthsAreFixed(p: Program, t: nat, fixed: seq<FieldAccessor>, arrays: seq<FieldAccessor>)
    requires Valid(p) && t < |p.types| && p.layouts[t] == fixed + arrays && AllApart(fixed + arrays)
    requires forall fa :: fa in arrays ==> fa.ArrayField?
    ensures LengthsIn(p.types, t, arrays, fixed)
  {
    hide Leaves, Finite, Apart, AllApart, FixedCount;
    forall fa | fa in arrays ensures HasLength(p.types, t, fa, fixed) {
      assert fa in p.layouts[t];
      LengthIsThere(p.types, p.align, t, p.layouts[t], fa);
      var a := TypeAt(p.types, t, fa.indices[..|fa.indices| - 1]);
      assert FixedField(LengthPath(fa.indices), LengthPrim(p.types[a].size)) !in arrays;
    }
  }

  lemma LengthsAreApart(ts: TypeTable, t: nat, fixed: seq<FieldAccessor>, arrays: seq<FieldAccessor>)
    requires LengthsIn(ts, t, arrays, fixed) && AllApart(fixed + arrays)
    ensures LengthsApart(arrays)
  {
    hide Apart, AllApart, TypeAt;
    ApartFromAll(fixed, arrays);
    forall fa, fb | fa in arrays && fb in arrays && fa.indices != [] ensures Apart(LengthPath(fa.indices), fb.indices) {
      assert HasLength(ts, t, fa, fixed);
      var a := TypeAt(ts, t, fa.indices[..|fa.indices| - 1]);
      var length := FixedField(LengthPath(fa.indices), LengthPrim(ts[a].size));
      var i :| 0 <= i < |arrays| && arrays[i] == fb;
      assert Apart(length.indices, arrays[i].indices);
    }
  }

  lemma ShapeIsApart(p: Program, t: nat, al: CurrentAlignment)
    requires Valid(p) && Emits(p, t) && IsPo2(al.align) && p.layouts[t] != []
    ensures var sh := ShapeOf(p, t, al);
            && AllApart(sh.fixed) && AllApart(sh.arrays) && LengthsIn(p.types, t, sh.arrays, sh.fixed)
            && LengthsApart(sh.arrays) && forall i :: 0 <= i < |sh.fixed| ==> sh.fixed[i].FixedField?
    ensures forall fa :: fa in Leaves(p.types, t) <==> fa in ShapeOf(p, t, al).fixed || fa in ShapeOf(p, t, al).arrays
  {
    hide Leaves, Finite, AllApart, LengthsApart, LengthsIn, FixedCount, FieldAlign;
    var sh := ShapeOf(p, t, al);
    LayoutLeaves(p.types, p.align, t, p.layouts[t]);
    ApartParts(sh.fixed, sh.arrays);
    LengthsAreFixed(p, t, sh.fixed, sh.arrays);
    LengthsAreApart(p.types, t, sh.fixed, sh.arrays);
  }

  lemma LengthsWereLoaded(p: Program, t: nat, obj: Object, b: Path, fixed: seq<FieldAccessor>, arrays: seq<FieldAccessor>)
    requires NumbersFit(obj, b, fixed) && LengthsIn(p.types, t, arrays, fixed)
    ensures LengthsThere(obj, b, arrays)
  {
    hide Pow256, NumberAt;
    forall fa | fa in arrays
      ensures fa.indices != [] && fa.indices[|fa.indices| - 1] == 1 && b + LengthPath(fa.indices) in obj
    {
      assert HasLength(p.types, t, fa, fixed);
      var a := TypeAt(p.types, t, fa.indices[..|fa.indices| - 1]);
      assert NumberFits(obj, b, FixedField(LengthPath(fa.indices), LengthPrim(p.types[a].size)));
    }
  }

  /** All leaves of a body have been read. */
  lemma BodyIsRead(p: Program, t: nat, al: CurrentAlignment, obj: Object, b: Path, ess: seq<seq<Value>>)
    requires Valid(p) && Emits(p, t) && IsPo2(al.align) && p.layouts[t] != []
    requires NumbersFit(obj, b, ShapeOf(p, t, al).fixed) && AreElements(p, ShapeOf(p, t, al).arrays, ess, obj, b)
    ensures Finite(p.types) && t < |p.types|
    ensures AllRead(p.types, t, Readings(obj, b, ShapeOf(p, t, al).arrays, ess), [])
  {
    hide Valid, Emits, Leaves, Finite, ShapeOf, NumbersFit, LengthsIn, LengthsApart, AllEncodable, NumberAt, Lookup,
      Pow256, ArraysOf;
    InTables(p, t);
    ProgramIsFinite(p);
    ShapeIsApart(p, t, al);
    var sh := ShapeOf(p, t, al);
    var r := Readings(obj, b, sh.arrays, ess);
    forall fa | fa in Leaves(p.types, t) ensures LeafRead(p.types, r, [], fa) {
      assert [] + fa.indices == fa.indices;
      if fa in sh.fixed {
        FixedIsFixed(sh.fixed, fa);
        FitsIn(obj, b, sh.fixed, fa);
      } else {
        var k :| 0 <= k < |sh.arrays| && sh.arrays[k] == fa;
        LookupAt(sh.arrays, ess, k);
        assert IsElements(p, sh.arrays[k], ess[k], obj, b);
      }
    }
  }

  lemma FixedIsFixed(fs: seq<FieldAccessor>, fa: FieldAccessor)
    requires (forall i :: 0 <= i < |fs| ==> fs[i].FixedField?) && fa in fs
    ensures fa.FixedField?
  {
  }

  lemma FitsIn(obj: Object, b: Path, fs: seq<FieldAccessor>, fa: FieldAccessor)
    requires NumbersFit(obj, b, fs) && fa in fs
    ensures NumberAt(obj, b, fa.indices) < Pow256(fa.Size())
  {
  }

  lemma ProgramIsFinite(p: Program)
    requires Valid(p)
    ensures Finite(p.types)
  {
  }

  lemma {:induction false} LeavesAreBytes(ts: TypeTable, t: nat, v: Value, r: Readings, fs: seq<FieldAccessor>, a: int)
    requires forall i :: 0 <= i < |fs| ==> fs[i].FixedField? && LeafAsRead(ts, t, v, r, [], fs[i])
    ensures PlanLeaves(ts, t, v, fs, a) == LeafBytes(r.obj, r.b, fs, a)
    decreases |fs|
  {
    hide At, ToBytes, NumberAt, Elements;
    if fs != [] {
      assert [] + fs[0].indices == fs[0].indices && LeafAsRead(ts, t, v, r, [], fs[0]);
      LeavesAreBytes(ts, t, v, r, fs[1..], a + fs[0].Size());
    }
  }

  /** The plan of the value built is what was read. */
  lemma BuiltPlan(p: Program, t: nat, al: CurrentAlignment, obj: Object, b: Path, ess: seq<seq<Value>>, a: int)
    returns (v: Value)
    requires Valid(p) && Emits(p, t) && IsPo2(al.align) && p.layouts[t] != []
    requires NumbersFit(obj, b, ShapeOf(p, t, al).fixed) && AreElements(p, ShapeOf(p, t, al).arrays, ess, obj, b)
    ensures Encodable(p.types, t, v)
    ensures var sh := ShapeOf(p, t, al);
            && PlanLeaves(p.types, t, v, sh.fixed, a + sh.off) == LeafBytes(obj, b, sh.fixed, a + sh.off)
            && PlanArrays(p, t, v, sh.arrays, a + sh.next) == GivenArrays(p, t, sh.arrays, ess, a + sh.next)
  {
    hide Valid, Emits, Leaves, Finite, ShapeOf, NumbersFit, LengthsIn, LengthsApart, AllEncodable, NumberAt, Lookup,
      Pow256, ArraysOf, Encodable, Built, LeafAsRead, AllRead, PlanLeaves, PlanArrays, GivenArrays, LeafBytes, AllApart,
      IsElements;
    BodyIsRead(p, t, al, obj, b, ess);
    ShapeIsApart(p, t, al);
    var sh := ShapeOf(p, t, al);
    var r := Readings(obj, b, sh.arrays, ess);
    v := Built(p.types, t, [], r);
    BuiltIs(p.types, t, [], r);
    forall i | 0 <= i < |sh.fixed| ensures LeafAsRead(p.types, t, v, r, [], sh.fixed[i]) {
      assert sh.fixed[i] in sh.fixed;
    }
    LeavesAreBytes(p.types, t, v, r, sh.fixed, a + sh.off);
    forall k | 0 <= k < |sh.arrays| ensures ElemsOf(At(p.types, t, v, sh.arrays[k].indices)) == ess[k] {
      assert sh.arrays[k] in sh.arrays;
      LookupAt(sh.arrays, ess, k);
      assert IsElements(p, sh.arrays[k], ess[k], obj, b);
      ReadAsElements(p, t, v, r, sh.arrays[k], ess[k], b);
    }
    GivenIsPlan(p, t, v, sh.arrays, ess, a + sh.next);
  }

  lemma ReadAsElements(p: Program, t: nat, v: Value, r: Readings, fa: FieldAccessor, es: seq<Value>, b: Path)
    requires LeafAsRead(p.types, t, v, r, [], fa) && IsElements(p, fa, es, r.obj, b)
    requires Elements(r, fa.indices) == es
    ensures ElemsOf(At(p.types, t, v, fa.indices)) == es
  {
    assert [] + fa.indices == fa.indices;
  }

  lemma {:induction false} ReadsInPlace(p: Program, fuel: nat, t: nat, al: CurrentAlignment, inline: bool, b: Path,
                                        st: State, out: State) returns (v: Value)
    requires Valid(p) && Emits(p, t) && IsPo2(al.align) && !IsCall(p, t, inline) && p.layouts[t] != []
    requires Exec(Functions(Des, p), fuel, Emit(Des, p, t, al, inline), b, st) == Some(out)
    ensures Encodable(p.types, t, v) && Holds(st.mem, PlanOf(p, t, v, al, st.buf).writes)
    decreases fuel, Unfolding(p, t, inline), Depths(p.types)[t], 1, |p.layouts[t]| + 1
  {
    hide Valid, Emits, Exec, FixedStmts, EmitArrays, PlanArrays, PlanLeaves, GivenArrays, LeafBytes, Holds, Encodable,
      Functions, ArraysOf, ShapeOf, Emit, PlanOf, Assemble, AlignUp, AllApart, LengthsIn, LengthsApart, LengthsThere,
      NumbersFit, AreElements, Unfolding, Depths, Touches, Leaves, IsCall;
    InTables(p, t);
    var fns, sh := Functions(Des, p), ShapeOf(p, t, al);
    var fixed, loops := FixedStmts(Des, p.types, t, sh.fixed, sh.off), EmitArrays(Des, p, t, sh.arrays, inline);
    EmitsParts(Des, p, t, al, inline);
    ShapeIsApart(p, t, al);
    RunBody(fns, fuel, fixed, sh.next, loops, al.align, b, st);
    var st1 := Exec(fns, fuel, fixed, b, st).value;
    LoadedLeaves(fns, fuel, p.types, t, sh.fixed, sh.off, b, st, st1);
    if sh.arrays == [] {
      NoElementsAtAll(p, st1.obj, b);
      v := BuiltPlan(p, t, al, st1.obj, b, [], st.buf);
      PlanParts(p, t, v, al, st.buf);
    } else {
      LengthsWereLoaded(p, t, st1.obj, b, sh.fixed, sh.arrays);
      var bumped := st1.(buf := st1.buf + sh.next);
      var st2 := Exec(fns, fuel, loops, b, bumped).value;
      var ess := ReadArrays(p, fuel, t, sh.arrays, inline, b, bumped, st2);
      SameNumber(p, sh.arrays, ess, st1.obj, b);
      v := BuiltPlan(p, t, al, st1.obj, b, ess, st.buf);
      PlanParts(p, t, v, al, st.buf);
      HoldsJoin(st.mem, LeafBytes(st1.obj, b, sh.fixed, st.buf + sh.off),
                GivenArrays(p, t, sh.arrays, ess, st.buf + sh.next).writes);
    }
  }

  lemma NoElementsAtAll(p: Program, obj: Object, b: Path)
    ensures AreElements(p, [], [], obj, b)
  {
  }

  lemma SameNumber(p: Program, fs: seq<FieldAccessor>, ess: seq<seq<Value>>, obj: Object, b: Path)
    requires AreElements(p, fs, ess, obj, b)
    ensures |ess| == |fs|
  {
  }

  /** A deserializer that ends has read the image of a value. */
  lemma {:induction false} ReadsAsValue(p: Program, fuel: nat, t: nat, al: CurrentAlignment, inline: bool, b: Path,
                                        st: State, out: State) returns (v: Value)
    requires Valid(p) && Emits(p, t) && IsPo2(al.align) && (IsCall(p, t, inline) ==> al == CurrentAlignment(AlignOf(p, t), 0))
    requires Exec(Functions(Des, p), fuel, Emit(Des, p, t, al, inline), b, st) == Some(out)
    ensures Encodable(p.types, t, v) && Holds(st.mem, PlanOf(p, t, v, al, st.buf).writes)
    ensures Takes(p.types, st.obj, b, t, v) && Represents(p.types, out.obj, b, t, v)
    ensures out.mem == st.mem && out.buf == PlanOf(p, t, v, al, st.buf).end && SameOutside(st.obj, out.obj, b)
    decreases fuel, Unfolding(p, t, inline), Depths(p.types)[t], 2, 0
  {
    hide Valid, Emits, Exec, Holds, Encodable, Functions, Emit, PlanOf, Unfolding, Depths, Takes, Represents,
      SameOutside, AlignOf;
    InTables(p, t);
    if p.layouts[t] == [] {
      v := NothingRead(p, t, al, b, st);
    } else if IsCall(p, t, inline) {
      EmitsCall(Des, p, t, al);
      CallIn(Functions(Des, p), fuel, t, b, st);
      v := ReadsAsValue(p, fuel - 1, t, al, true, b, st, out);
    } else {
      v := ReadsInPlace(p, fuel, t, al, inline, b, st, out);
    }
    HasRead(p, fuel, t, v, al, inline, b, st, out);
  }

  lemma CallIn(fns: map<nat, seq<Stmt>>, fuel: nat, fn: nat, b: Path, st: State)
    requires fn in fns && Exec(fns, fuel, [Call(fn, 0)], b, st).Some?
    ensures fuel > 0 && Exec(fns, fuel, [Call(fn, 0)], b, st) == Exec(fns, fuel - 1, fns[fn], b, st)
  {
    ExecSingle(fns, fuel, Call(fn, 0), b, st);
    if fuel > 0 {
      ExecCall(fns, fuel, fn, b, st);
    }
  }

  lemma NothingRead(p: Program, t: nat, al: CurrentAlignment, b: Path, st: State) returns (v: Value)
    requires Valid(p) && Emits(p, t) && IsPo2(al.align) && p.layouts[t] == []
    ensures Encodable(p.types, t, v) && Holds(st.mem, PlanOf(p, t, v, al, st.buf).writes)
  {
    LayoutLeaves(p.types, p.align, t, p.layouts[t]);
    hide Valid, Encodable, Leaves;
    var r := Readings(st.obj, b, [], []);
    ProgramIsFinite(p);
    BuiltIs(p.types, t, [], r);
    v := Built(p.types, t, [], r);
    PlanParts(p, t, v, al, st.buf);
  }

  /** Having read the image of v, it has filled in v. */
  lemma HasRead(p: Program, fuel: nat, t: nat, v: Value, al: CurrentAlignment, inline: bool, b: Path, st: State, out: State)
    requires Valid(p) && Emits(p, t) && IsPo2(al.align) && (IsCall(p, t, inline) ==> al == CurrentAlignment(AlignOf(p, t), 0))
    requires Exec(Functions(Des, p), fuel, Emit(Des, p, t, al, inline), b, st) == Some(out)
    requires Encodable(p.types, t, v) && Holds(st.mem, PlanOf(p, t, v, al, st.buf).writes)
    ensures Takes(p.types, st.obj, b, t, v) && Represents(p.types, out.obj, b, t, v)
    ensures out.mem == st.mem && out.buf == PlanOf(p, t, v, al, st.buf).end && SameOutside(st.obj, out.obj, b)
  {
    hide Valid, Emits, Exec, Holds, Encodable, Functions, Emit, PlanOf, Takes, Represents, SameOutside, AlignOf, IsCall;
    var more := fuel + Size(v) + 1;
    MoreFuel(Functions(Des, p), fuel, more, Emit(Des, p, t, al, inline), b, st);
    var obj := DeserializesPlan(p, more, t, v, al, inline, b, st);
  }

  /** The bytes at a are those of v, and the object at b has a place for it. */
  ghost predicate IsImageOf(p: Program, t: nat, v: Value, al: CurrentAlignment, b: Path, st: State)
    requires Valid(p) && Emits(p, t) && IsPo2(al.align)
  {
    && Encodable(p.types, t, v) && Holds(st.mem, PlanOf(p, t, v, al, st.buf).writes) && Takes(p.types, st.obj, b, t, v)
  }

  /** Run on any bytes whatever, a deserializer that may nest calls as deep as it needs to comes to its end, without a
      load outside the buffer or a store outside the object, exactly if the bytes are the image of a value that the
      object has a place for. */
  lemma AcceptsImages(p: Program, t: nat, al: CurrentAlignment, inline: bool, b: Path, st: State)
    requires Valid(p) && Emits(p, t) && IsPo2(al.align) && (IsCall(p, t, inline) ==> al == CurrentAlignment(AlignOf(p, t), 0))
    ensures (exists fuel: nat :: Exec(Functions(Des, p), fuel, Emit(Des, p, t, al, inline), b, st).Some?) <==>
            (exists v :: IsImageOf(p, t, v, al, b, st))
  {
    hide Valid, Emits, Exec, Holds, Encodable, Functions, Emit, PlanOf, Takes, Represents, SameOutside, AlignOf, IsCall;
    var fns, ss := Functions(Des, p), Emit(Des, p, t, al, inline);
    if fuel: nat :| Exec(fns, fuel, ss, b, st).Some? {
      var v := ReadsAsValue(p, fuel, t, al, inline, b, st, Exec(fns, fuel, ss, b, st).value);
      assert IsImageOf(p, t, v, al, b, st);
    }
    if v :| IsImageOf(p, t, v, al, b, st) {
      var obj := DeserializesPlan(p, Size(v) + 1, t, v, al, inline, b, st);
      assert Exec(fns, Size(v) + 1, ss, b, st).Some?;
    }
  }
}
