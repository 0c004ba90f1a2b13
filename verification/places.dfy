/** Which values a deserializer has a place for: what it stores into was allocated by its caller, or by itself for
    arrays of variable length on the heap; nobody allocates an array of a fixed size (ser/codegen_c.c). */
module Places {
  import opened Collections
  import opened Schema
  import opened Alignments
  import opened Layouts
  import opened Machine
  import opened Values
  import opened Emitter
  import opened Plans
  import opened Lengths
  import Deserializing

  /** Some scalar of v lies behind the pointer of an array of a fixed size. */
  ghost predicate BehindPointer(ts: TypeTable, t: nat, v: Value)
    decreases v
  {
    t < |ts| && v.Agg? &&
    if IsMaxArray(ts[t]) then exists i :: 0 <= i < |v.elems| && BehindPointer(ts, ts[t].elem, v.elems[i])
    else
      || (IsPointer(ts[t]) && HasScalars(ts, t, v))
      || exists i :: 0 <= i < |v.elems| && i < |Parts(ts[t])| && BehindPointer(ts, Parts(ts[t])[i], v.elems[i])
  }

  /** No array that lies in its container is longer than its maximum. */
  ghost predicate KeepsRoom(ts: TypeTable, t: nat, v: Value)
    decreases v
  {
    t < |ts| && v.Agg? ==>
    if IsMaxArray(ts[t]) then
      && (ts[t].heap || |v.elems| <= ts[t].size)
      && forall i :: 0 <= i < |v.elems| ==> KeepsRoom(ts, ts[t].elem, v.elems[i])
    else forall i :: 0 <= i < |v.elems| && i < |Parts(ts[t])| ==> KeepsRoom(ts, Parts(ts[t])[i], v.elems[i])
  }

  lemma SameFresh(ts: TypeTable, b: Path, t: nat, v: Value)
    ensures Takes(ts, FRESH, b, t, v) <==> Takes(ts, FRESH, [], t, v)
  {
    if Takes(ts, FRESH, b, t, v) {
      TakesAlike(ts, FRESH, b, FRESH, [], t, v);
    } else if Takes(ts, FRESH, [], t, v) {
      TakesAlike(ts, FRESH, [], FRESH, b, t, v);
    }
  }

  /** A fresh object has a place for a value exactly if nothing of it lies behind a pointer to an array of a fixed
      size, and its arrays keep to their room. */
  lemma {:induction false} FreshTakesIff(ts: TypeTable, t: nat, v: Value)
    requires Encodable(ts, t, v)
    ensures Takes(ts, FRESH, [], t, v) <==> !BehindPointer(ts, t, v) && KeepsRoom(ts, t, v)
    decreases v
  {
    if v.Agg? {
      var m := IsMaxArray(ts[t]);
      forall i | 0 <= i < |v.elems|
        ensures var u := if m then ts[t].elem else Parts(ts[t])[i];
          && (Takes(ts, FRESH, [], u, v.elems[i]) <==> !BehindPointer(ts, u, v.elems[i]) && KeepsRoom(ts, u, v.elems[i]))
          && (Takes(ts, FRESH, [] + [1, i], u, v.elems[i]) <==> Takes(ts, FRESH, [], u, v.elems[i]))
          && (Takes(ts, FRESH, [] + [i], u, v.elems[i]) <==> Takes(ts, FRESH, [], u, v.elems[i]))
      {
        var u := if m then ts[t].elem else Parts(ts[t])[i];
        FreshTakesIff(ts, u, v.elems[i]);
        SameFresh(ts, [] + [1, i], u, v.elems[i]);
        SameFresh(ts, [] + [i], u, v.elems[i]);
      }
    }
  }

  /** The schema has no array of a fixed size on the heap. */
  predicate NoPointers(ts: TypeTable) {
    forall t :: 0 <= t < |ts| ==> !IsPointer(ts[t])
  }

  lemma {:induction false} NothingBehind(ts: TypeTable, t: nat, v: Value)
    requires NoPointers(ts)
    ensures !BehindPointer(ts, t, v)
    decreases v
  {
    if t < |ts| && v.Agg? {
      var m := IsMaxArray(ts[t]);
      forall i | 0 <= i < |v.elems| && (m || i < |Parts(ts[t])|)
        ensures !BehindPointer(ts, if m then ts[t].elem else Parts(ts[t])[i], v.elems[i])
      {
        NothingBehind(ts, if m then ts[t].elem else Parts(ts[t])[i], v.elems[i]);
      }
    }
  }

  /** What an object holds keeps to its room. */
  lemma {:induction false} HeldKeepsRoom(ts: TypeTable, obj: Object, b: Path, t: nat, v: Value)
    requires Represents(ts, obj, b, t, v)
    ensures KeepsRoom(ts, t, v)
    decreases v
  {
    if v.Agg? {
      var m := IsMaxArray(ts[t]);
      forall i | 0 <= i < |v.elems| ensures KeepsRoom(ts, if m then ts[t].elem else Parts(ts[t])[i], v.elems[i]) {
        HeldKeepsRoom(ts, obj, if m then b + [1, i] else b + [i], if m then ts[t].elem else Parts(ts[t])[i], v.elems[i]);
      }
    }
  }

  /** Without such arrays every object of the type has a place for what another one holds. */
  lemma HeldIsTaken(ts: TypeTable, obj: Object, b: Path, t: nat, v: Value, obj': Object)
    requires NoPointers(ts) && Encodable(ts, t, v) && Represents(ts, obj, b, t, v)
    ensures Takes(ts, obj', [], t, v) && Takes(ts, FRESH, [], t, v)
  {
    hide NoPointers, Encodable, Represents, Takes, BehindPointer, KeepsRoom;
    HeldKeepsRoom(ts, obj, b, t, v);
    NothingBehind(ts, t, v);
    FreshTakesIff(ts, t, v);
    TakesMore(ts, obj', [], t, v);
  }

  /** Where there is a place, arrays keep to their room. */
  lemma {:induction false} TakenKeepsRoom(ts: TypeTable, obj: Object, b: Path, t: nat, v: Value)
    requires Takes(ts, obj, b, t, v)
    ensures KeepsRoom(ts, t, v)
    decreases v
  {
    if v.Agg? {
      var m := IsMaxArray(ts[t]);
      forall i | 0 <= i < |v.elems| ensures KeepsRoom(ts, if m then ts[t].elem else Parts(ts[t])[i], v.elems[i]) {
        var u := if m then ts[t].elem else Parts(ts[t])[i];
        if m && ts[t].heap {
          TakenKeepsRoom(ts, FRESH, [], u, v.elems[i]);
        } else {
          TakenKeepsRoom(ts, obj, if m then b + [1, i] else b + [i], u, v.elems[i]);
        }
      }
    }
  }

  /** Without such arrays there is a place for a value exactly if its arrays keep to their room. */
  lemma TakesIffKeepsRoom(ts: TypeTable, obj: Object, t: nat, v: Value)
    requires NoPointers(ts) && Encodable(ts, t, v)
    ensures Takes(ts, obj, [], t, v) <==> KeepsRoom(ts, t, v)
  {
    hide NoPointers, Encodable, Takes, BehindPointer, KeepsRoom;
    if Takes(ts, obj, [], t, v) {
      TakenKeepsRoom(ts, obj, [], t, v);
    }
    if KeepsRoom(ts, t, v) {
      NothingBehind(ts, t, v);
      FreshTakesIff(ts, t, v);
      TakesMore(ts, obj, [], t, v);
    }
  }

  // ----- struct Sample { x: u8&[5] }

  const SAMPLE: TypeTable := [TypePrimitif(U8), TypeArray(SizingFixed, 5, true, 0), TypeStruct([1], true)]

  const SAMPLE_ALIGN: seq<nat> := [1, 1, 1]

  lemma SampleIsLocal()
    ensures Backward(SAMPLE) && IsLocal(SAMPLE, SAMPLE_ALIGN)
  {
    forall t: nat | t < |SAMPLE| ensures PointsBack(SAMPLE[t], t) && IsLocalAt(SAMPLE, SAMPLE_ALIGN, t) {
      assert Children(SAMPLE[1]) == [0] && Children(SAMPLE[2]) == [1];
      assert 0 in Children(SAMPLE[1]) && 1 in Children(SAMPLE[2]);
    }
  }

  /** The compiler takes it. */
  lemma SampleIsValid() returns (p: Program)
    ensures Valid(p) && p.types == SAMPLE && Emits(p, 2)
  {
    hide Leaves, IsAlignment, IsLayout, Backward, IsLocal, Finite;
    SampleIsLocal();
    BackwardIsFinite(SAMPLE);
    var layouts := LayoutsExist(SAMPLE, SAMPLE_ALIGN, |SAMPLE|);
    p := Program(SAMPLE, SAMPLE_ALIGN, layouts);
    forall t: nat | t < |SAMPLE| ensures IsAlignment(SAMPLE, t, SAMPLE_ALIGN[t]) {
      LocalIsAlignment(SAMPLE, SAMPLE_ALIGN, t);
    }
  }

  lemma SampleIsBehind(v: Value)
    requires Encodable(SAMPLE, 2, v)
    ensures BehindPointer(SAMPLE, 2, v)
  {
    assert SAMPLE[2].fields == [1] && Parts(SAMPLE[2])[0] == 1;
    var a := v.elems[0];
    assert Encodable(SAMPLE, 1, a);
    assert Parts(SAMPLE[1])[0] == 0;
    assert HasScalars(SAMPLE, 0, a.elems[0]);
    assert BehindPointer(SAMPLE, 1, a);
  }

  /** Yet no value of it is ever deserialized into a fresh object: the pointer that the stores go through is not set. */
  lemma SampleFaults(p: Program, fuel: nat, v: Value, st: State)
    requires Valid(p) && p.types == SAMPLE && Emits(p, 2) && Encodable(SAMPLE, 2, v) && fuel > Size(v)
    requires st.obj == FRESH
    requires var al := CurrentAlignment(AlignOf(p, 2), 0); Holds(st.mem, PlanOf(p, 2, v, al, st.buf).writes)
    ensures Exec(Functions(Des, p), fuel, Emit(Des, p, 2, CurrentAlignment(AlignOf(p, 2), 0), false), [], st) == None
  {
    hide Valid, Emits, Encodable, Exec, PlanOf, Holds, Functions, Emit, Represents, Takes, BehindPointer, KeepsRoom;
    SampleIsBehind(v);
    FreshTakesIff(SAMPLE, 2, v);
    var _ := Deserializing.DeserializesPlan(p, fuel, 2, v, CurrentAlignment(AlignOf(p, 2), 0), false, [], st);
  }
}
