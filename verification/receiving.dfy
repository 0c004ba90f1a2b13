/** What a receiver makes of a buffer it knows nothing about: the messages it accepts are exactly the images of values
    that its message has a place for (ser/codegen_c.c, and net.c as generated from it). */
module Receiving {
  import opened Collections
  import opened Schema
  import opened Layouts
  import opened Machine
  import opened Values
  import opened Emitter
  import opened Plans
  import opened RoundTrips
  import opened Messages
  import opened Places
  import opened Lengths
  import opened DeviceMessages
  import AnyBytes
  import Deserializing

  /** The buffer holds the image of v and not just the beginning of it, and there is a place for v. */
  ghost predicate IsReceivable(pr: Protocol, tag: nat, v: Value, len: nat, st: State)
    requires IsProtocol(pr) && Known(pr, tag)
  {
    && Encodable(pr.p.types, Body(pr, tag), v) && Carries(pr, tag, v) && HasPlace(pr, tag, v, st.obj)
    && Holds(st.mem, Image(pr, tag, v, st.buf)) && BodyPlan(pr, tag, v, st.buf).end + 8 - st.buf <= len
  }

  /** A message is returned, with its length. */
  ghost predicate Accepted(pr: Protocol, fuel: nat, len: nat, before: nat, st: State)
    requires IsProtocol(pr)
  {
    var r := Deserialize(pr, fuel, len, before, st);
    r.Some? && r.value.rc >= 0
  }

  ghost predicate HasTag(st: State, tag: nat) {
    InMemory(st.mem, st.buf, 10) && FromBytes(ReadBytes(st.mem, st.buf + 8, 2)) == tag
  }

  lemma TagBytes(st: State, tag: nat)
    requires HasTag(st, tag)
    ensures InMemory(st.mem, st.buf + 8, 2) && ReadBytes(st.mem, st.buf + 8, 2) == ToBytes(tag, 2) && tag < 0x1_0000
  {
    BytesBack(ReadBytes(st.mem, st.buf + 8, 2));
    assert Pow256(2) == 0x1_0000;
  }

  lemma HoldsParts(mem: Memory, a: int, tag: nat, body: seq<Write>, end: int)
    requires InMemory(mem, a, 10) && ReadBytes(mem, a, 8) == MAGIC_START
    requires InMemory(mem, a + 8, 2) && ReadBytes(mem, a + 8, 2) == ToBytes(tag, 2)
    requires Holds(mem, body) && InMemory(mem, end, 8) && ReadBytes(mem, end, 8) == MAGIC_END
    ensures Holds(mem, [Write(a, MAGIC_START), Write(a + 8, ToBytes(tag, 2))] + (body + [Write(end, MAGIC_END)]))
  {
    hide ToBytes;
    AnyBytes.HoldsJoin(mem, body, [Write(end, MAGIC_END)]);
    AnyBytes.HoldsJoin(mem, [Write(a, MAGIC_START), Write(a + 8, ToBytes(tag, 2))], body + [Write(end, MAGIC_END)]);
  }

  /** What has been accepted began and ended with the right magic, and its body was read. */
  lemma AcceptedParts(pr: Protocol, fuel: nat, tag: nat, len: nat, before: nat, st: State) returns (out: State)
    requires IsProtocol(pr) && Known(pr, tag) && HasTag(st, tag) && Accepted(pr, fuel, len, before, st)
    ensures InMemory(st.mem, st.buf, 8) && ReadBytes(st.mem, st.buf, 8) == MAGIC_START
    ensures Exec(Functions(Des, pr.p), fuel, Emit(Des, pr.p, Body(pr, tag), BODY, false), [],
                 State(st.mem, st.buf + 8, st.obj)) == Some(out)
    ensures InMemory(out.mem, out.buf, 8) && ReadBytes(out.mem, out.buf, 8) == MAGIC_END
    ensures out.buf + 8 <= st.buf + len && Deserialize(pr, fuel, len, before, st).value.rc == out.buf + 8 - st.buf
    ensures match VersionField(pr, tag) { case None => true case Some(i) => [i] in out.obj && out.obj[[i]] == pr.version }
  {
    hide IsProtocol, Body, Exec, Functions, Emit, VersionField, FromBytes, ReadBytes, InMemory, Valid, Emits;
    FirstEight(st.mem, st.buf);
    var r := Exec(Functions(Des, pr.p), fuel, Emit(Des, pr.p, Body(pr, tag), BODY, false), [], State(st.mem, st.buf + 8, st.obj));
    out := if r.Some? then r.value else st;
  }

  lemma FirstEight(mem: Memory, a: int)
    ensures InMemory(mem, a, 10) ==> InMemory(mem, a, 8) && InMemory(mem, a + 8, 2)
  {
  }

  /** What is accepted is the image of a value. */
  lemma AcceptedIsImage(pr: Protocol, fuel: nat, tag: nat, len: nat, before: nat, st: State) returns (v: Value)
    requires IsProtocol(pr) && Known(pr, tag) && HasTag(st, tag) && Accepted(pr, fuel, len, before, st)
    ensures IsReceivable(pr, tag, v, len, st)
  {
    hide IsProtocol, Valid, Emits, Encodable, Represents, PlanOf, Exec, Functions, Emit, Holds, FromBytes, ToBytes,
      IsCall, SameOutside, Takes, Body, Accepted, InMemory, ReadBytes, VersionField;
    var out := AcceptedParts(pr, fuel, tag, len, before, st);
    v := AnyBytes.ReadsAsValue(pr.p, fuel, Body(pr, tag), BODY, false, [], State(st.mem, st.buf + 8, st.obj), out);
    VersionInObject(pr, tag, v, out.obj);
    TagBytes(st, tag);
    HoldsParts(st.mem, st.buf, tag, BodyPlan(pr, tag, v, st.buf).writes, BodyPlan(pr, tag, v, st.buf).end);
  }

  /** Whatever lies in the buffer, what a receiver accepts as a message with a certain tag is exactly the image of a
      value that its message has a place for. */
  lemma AcceptsMessages(pr: Protocol, tag: nat, len: nat, before: nat, st: State)
    requires IsProtocol(pr) && Known(pr, tag) && HasTag(st, tag)
    ensures (exists fuel: nat :: Accepted(pr, fuel, len, before, st)) <==>
            len >= 16 && exists v :: IsReceivable(pr, tag, v, len, st)
  {
    hide IsProtocol, Valid, Encodable, Represents, Holds, Image, FromBytes, ToBytes, HasPlace, Carries, Body, BodyPlan,
      InMemory, ReadBytes, DeserializeBody, Known, VersionField;
    TagBytes(st, tag);
    if fuel: nat :| Accepted(pr, fuel, len, before, st) {
      var v := AcceptedIsImage(pr, fuel, tag, len, before, st);
      assert IsReceivable(pr, tag, v, len, st);
    }
    if len >= 16 && exists v :: IsReceivable(pr, tag, v, len, st) {
      var v :| IsReceivable(pr, tag, v, len, st);
      PlanGrows(pr, tag, v, st.buf);
      var obj := Reads(pr, pr, Size(v), tag, v, len, before, st);
      assert Accepted(pr, Size(v), len, before, st);
    }
  }

  // ----- received lengths

  lemma StructsOfScalarsFit(elem: nat, v: Value)
    requires elem in {ABS, REL, KEY, U32T, U8T}
    ensures KeepsRoom(TYPES, elem, v)
  {
    ScalarEntries();
    StructEntries();
  }

  lemma CharsFit(v: Value)
    ensures KeepsRoom(TYPES, TAG, v)
  {
    ScalarEntries();
    TagEntries();
  }

  lemma TagListFits(v: Value)
    ensures KeepsRoom(TYPES, TAG_LIST, v)
  {
    hide KeepsRoom;
    ScalarEntries();
    TagEntries();
    forall u ensures KeepsRoom(TYPES, TAG, u) {
      CharsFit(u);
    }
    forall a ensures KeepsRoom(TYPES, TAGS, a) {
      ElementsDecide(TAGS, a);
    }
    FieldsDecide(TAG_LIST, v);
  }

  lemma ElementsDecide(t: nat, v: Value)
    requires t < |TYPES| && IsMaxArray(TYPES[t]) && forall u :: KeepsRoom(TYPES, TYPES[t].elem, u)
    ensures KeepsRoom(TYPES, t, v) <==> v.Num? || TYPES[t].heap || |v.elems| <= TYPES[t].size
  {
  }

  lemma FieldsDecide(t: nat, v: Value)
    requires t < |TYPES| && TYPES[t].TypeStruct?
    ensures KeepsRoom(TYPES, t, v) <==>
            v.Num? || forall i :: 0 <= i < |v.elems| && i < |TYPES[t].fields| ==> KeepsRoom(TYPES, TYPES[t].fields[i], v.elems[i])
  {
    assert Parts(TYPES[t]) == TYPES[t].fields;
  }

  /** The received lengths keep to the declared maxima, as far as these are sizes of arrays in the message itself. */
  predicate LengthsWithin(tag: nat, v: Value) {
    tag in {TAG_INFO, TAG_REPORT} ==> Count(v, 2) <= 64 && Count(v, 3) <= 16 && Count(v, 4) <= 768
  }

  lemma ThreeArraysRoom(t: nat, a1: nat, a2: nat, a3: nat, e1: nat, e2: nat, e3: nat, v: Value)
    requires t < |TYPES| == 25 && a1 < 25 && a2 < 25 && a3 < 25 && TYPES[t] == TypeStruct([U8T, U8T, a1, a2, a3], false)
    requires TYPES[a1] == UpTo(64, e1) && TYPES[a2] == UpTo(16, e2) && TYPES[a3] == UpTo(768, e3)
    requires {e1, e2, e3} <= {ABS, REL, KEY, U32T, U8T} && Encodable(TYPES, t, v)
    ensures KeepsRoom(TYPES, t, v) <==> Count(v, 2) <= 64 && Count(v, 3) <= 16 && Count(v, 4) <= 768
  {
    hide KeepsRoom;
    forall u ensures KeepsRoom(TYPES, e1, u) && KeepsRoom(TYPES, e2, u) && KeepsRoom(TYPES, e3, u) {
      StructsOfScalarsFit(e1, u);
      StructsOfScalarsFit(e2, u);
      StructsOfScalarsFit(e3, u);
    }
    assert Parts(TYPES[t]) == [U8T, U8T, a1, a2, a3];
    assert Encodable(TYPES, Parts(TYPES[t])[2], v.elems[2]) && Encodable(TYPES, Parts(TYPES[t])[3], v.elems[3]);
    assert Encodable(TYPES, Parts(TYPES[t])[4], v.elems[4]);
    hide Encodable;
    StructsOfScalarsFit(U8T, v.elems[0]);
    StructsOfScalarsFit(U8T, v.elems[1]);
    ElementsDecide(a1, v.elems[2]);
    ElementsDecide(a2, v.elems[3]);
    ElementsDecide(a3, v.elems[4]);
    FiveFields(t, U8T, U8T, a1, a2, a3, v);
  }

  lemma FiveFields(t: nat, f0: nat, f1: nat, f2: nat, f3: nat, f4: nat, v: Value)
    requires t < |TYPES| && TYPES[t] == TypeStruct([f0, f1, f2, f3, f4], false) && v.Agg? && |v.elems| == 5
    ensures KeepsRoom(TYPES, t, v) <==>
            && KeepsRoom(TYPES, f0, v.elems[0]) && KeepsRoom(TYPES, f1, v.elems[1]) && KeepsRoom(TYPES, f2, v.elems[2])
            && KeepsRoom(TYPES, f3, v.elems[3]) && KeepsRoom(TYPES, f4, v.elems[4])
  {
    FieldsDecide(t, v);
    hide KeepsRoom;
    var fs := TYPES[t].fields;
    assert fs[0] == f0 && fs[1] == f1 && fs[2] == f2 && fs[3] == f3 && fs[4] == f4;
  }

  lemma ScalarsKeepRoom(ts: TypeTable, t: nat, v: Value)
    requires Encodable(ts, t, v) && ts[t].TypePrimitif?
    ensures KeepsRoom(ts, t, v)
  {
  }

  lemma StateFits(v: Value)
    requires |TYPES| == 25 && Encodable(TYPES, CONTROLLER_STATE, v)
    ensures KeepsRoom(TYPES, CONTROLLER_STATE, v)
  {
    hide KeepsRoom;
    ScalarEntries();
    MessageEntries();
    ArrayEntries();
    var t := TYPES[CONTROLLER_STATE];
    forall i | 0 <= i < |v.elems| && i < |t.fields| ensures KeepsRoom(TYPES, t.fields[i], v.elems[i]) {
      assert Encodable(TYPES, Parts(t)[i], v.elems[i]);
      if i == 1 {
        LedFits(v.elems[1]);
      } else {
        ScalarsKeepRoom(TYPES, t.fields[i], v.elems[i]);
      }
    }
    FieldsDecide(CONTROLLER_STATE, v);
  }

  lemma LedFits(v: Value)
    ensures KeepsRoom(TYPES, LED, v)
  {
    ScalarEntries();
    ArrayEntries();
    forall u ensures KeepsRoom(TYPES, U8T, u) {
      StructsOfScalarsFit(U8T, u);
    }
  }

  lemma RequestFits(v: Value)
    requires |TYPES| == 25 && Encodable(TYPES, REQUEST, v)
    ensures KeepsRoom(TYPES, REQUEST, v)
  {
    hide KeepsRoom;
    ScalarEntries();
    MessageEntries();
    ArrayEntries();
    var t := TYPES[REQUEST];
    forall u ensures KeepsRoom(TYPES, TAG_LIST, u) {
      TagListFits(u);
    }
    forall i | 0 <= i < |v.elems| && i < |t.fields| ensures KeepsRoom(TYPES, t.fields[i], v.elems[i]) {
      assert Encodable(TYPES, Parts(t)[i], v.elems[i]);
      if i == 0 {
        ElementsDecide(TAG_LISTS, v.elems[0]);
      } else {
        ScalarsKeepRoom(TYPES, U64T, v.elems[1]);
      }
    }
    FieldsDecide(REQUEST, v);
  }

  lemma DestroyFits(v: Value)
    requires |TYPES| == 25 && Encodable(TYPES, DESTROY, v)
    ensures KeepsRoom(TYPES, DESTROY, v)
  {
    hide KeepsRoom;
    ScalarEntries();
    MessageEntries();
    var t := TYPES[DESTROY];
    forall i | 0 <= i < |v.elems| && i < |t.fields| ensures KeepsRoom(TYPES, t.fields[i], v.elems[i]) {
      assert Encodable(TYPES, Parts(t)[i], v.elems[i]);
      ScalarsKeepRoom(TYPES, U16T, v.elems[i]);
    }
    FieldsDecide(DESTROY, v);
  }

  /** In a message of the protocol there is a place for a value exactly if its lengths keep to the declared maxima;
      nothing compares them when they are received. */
  lemma DevicePlaceIff(p: Program, tag: nat, v: Value, obj: Object)
    requires IsDevice(p) && IsProtocol(Device(p)) && 1 <= tag <= 5 && Known(Device(p), tag)
    requires Encodable(p.types, Body(Device(p), tag), v)
    ensures HasPlace(Device(p), tag, v, obj) <==> LengthsWithin(tag, v)
  {
    hide Valid, Finite, IsProtocol, Body, NoPointers, Encodable, Takes, KeepsRoom, Count;
    Entries(p);
    MessageEntries();
    ArrayEntries();
    BodyIs(p, tag);
    DeviceHasNoPointers(p);
    TakesIffKeepsRoom(p.types, obj, Body(Device(p), tag), v);
    if tag == TAG_INFO {
      ThreeArraysRoom(INFO, ABS_ARRAY, REL_ARRAY, KEY_ARRAY, ABS, REL, KEY, v);
    } else if tag == TAG_REPORT {
      ThreeArraysRoom(REPORT, ABS_VALUES, REL_VALUES, KEY_VALUES, U32T, U32T, U8T, v);
    } else if tag == TAG_CONTROLLER_STATE {
      StateFits(v);
    } else if tag == TAG_REQUEST {
      RequestFits(v);
    } else {
      DestroyFits(v);
    }
  }

  /** The elements of longer arrays in the image of a message of the protocol are stored outside their array. */
  lemma FaultsIffLong(p: Program, fuel: nat, tag: nat, v: Value, len: nat, before: nat, st: State)
    requires IsDevice(p) && IsProtocol(Device(p)) && 1 <= tag <= 5 && Known(Device(p), tag)
    requires Encodable(p.types, Body(Device(p), tag), v) && Carries(Device(p), tag, v) && fuel >= Size(v) && len >= 16
    requires Holds(st.mem, Image(Device(p), tag, v, st.buf))
    ensures Deserialize(Device(p), fuel, len, before, st).None? <==> !LengthsWithin(tag, v)
  {
    hide IsDevice, IsProtocol, Body, Encodable, Carries, Holds, Image, HasPlace, LengthsWithin, Deserialize;
    DevicePlaceIff(p, tag, v, st.obj);
    var _ := Reads(Device(p), Device(p), fuel, tag, v, len, before, st);
  }
}
