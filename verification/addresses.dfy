/** Padding is worked out on absolute addresses: what becomes of a message whose sender and receiver
    disagree about them (ser/codegen_c.c, with the buffers of server.c and client.c). */
module Addresses {
  import opened Collections
  import opened Schema
  import opened Layouts
  import opened Machine
  import opened Values
  import opened Emitter
  import opened Plans
  import opened RoundTrips
  import opened Messages
  import opened Lengths
  import opened DeviceMessages
  import Deserializing
  import AnyBytes
  import Receiving

  /** Rounding up to 8 commutes with a move by multiples of 8 only, but is never off by 8 or more. */
  lemma RoundsApart(x: int, d: int)
    ensures -8 < AlignUp(x + d, 8) - (AlignUp(x, 8) + d) < 8
    ensures AlignUp(x + d, 8) == AlignUp(x, 8) + d <==> Multiple(d, 8)
  {
    AlignUpGrows(x, 8);
    AlignUpGrows(x + d, 8);
    if Multiple(d, 8) {
      AlignUpShifts(x, d, 8);
    } else {
      NotMultiple(AlignUp(x, 8), d);
    }
  }

  lemma NotMultiple(y: int, d: int)
    requires y % 8 == 0
    ensures (y + d) % 8 == 0 ==> Multiple(d, 8)
  {
    var m := y / 8;
    assert y == 8 * m;
    if (y + d) % 8 == 0 {
      assert d == 8 * ((y + d) / 8 - m);
    }
  }

  /** The arrays that the body of a message ends in. */
  ghost function Arrays(pr: Protocol, tag: nat): (fs: seq<FieldAccessor>)
    requires IsProtocol(pr) && Known(pr, tag) && HasFields(pr, tag)
  {
    ShapeOf(pr.p, Body(pr, tag), BODY).arrays
  }

  lemma ArraysAre(pr: Protocol, tag: nat)
    requires IsProtocol(pr) && Known(pr, tag) && HasFields(pr, tag)
    ensures ArraysOf(pr.p, Body(pr, tag), Arrays(pr, tag))
    ensures Arrays(pr, tag) == ShapeOf(pr.p, Body(pr, tag), BODY).arrays && pr.p.layouts[Body(pr, tag)] != []
  {
    hide IsProtocol, Valid, Emits, Leaves, ShapeOf;
  }

  /** At a distance that leaves the elements of arrays aligned the same bytes are written. Without arrays
      the end moves along; with arrays it does so just if the distance is a multiple of 8. */
  lemma EndsElsewhere(pr: Protocol, tag: nat, v: Value, a: int, d: int)
    requires IsProtocol(pr) && Known(pr, tag) && HasFields(pr, tag) && Agree(pr.p.align, Arrays(pr, tag), d)
    ensures var here, there := BodyPlan(pr, tag, v, a), BodyPlan(pr, tag, v, a + d);
            && there.writes == Moved(here.writes, d)
            && -8 < there.end - (here.end + d) < 8
            && (there.end == here.end + d <==> Multiple(d, 8) || Arrays(pr, tag) == [])
  {
    hide IsProtocol, HasFields, Arrays, Valid, Emits, Body, ShapeOf, PlanOf, PlanArrays, PlanLeaves, AlignUp, Multiple,
      IsCall, Agree, ArraysOf;
    ArraysAre(pr, tag);
    var p, t := pr.p, Body(pr, tag);
    var sh := ShapeOf(p, t, BODY);
    assert a + d + 8 == a + 8 + d;
    PlanParts(p, t, v, BODY, a + 8);
    PlanParts(p, t, v, BODY, a + 8 + d);
    assert a + 8 + d + sh.off == a + 8 + sh.off + d && a + 8 + d + sh.next == a + 8 + sh.next + d;
    LeavesMove(p.types, t, v, sh.fixed, a + 8 + sh.off, d);
    if sh.arrays != [] {
      ArraysMove(p, t, v, sh.arrays, a + 8 + sh.next, d);
      var leaves, arrays := PlanLeaves(p.types, t, v, sh.fixed, a + 8 + sh.off), PlanArrays(p, t, v, sh.arrays, a + 8 + sh.next);
      MovedBoth(leaves, arrays.writes, d);
      RoundsApart(arrays.end, d);
    }
  }

  /** The bytes of the second magic are all different, so it is not found less than its length away from where it is. */
  lemma NotMagic(mem: Memory, e: int, e': int)
    requires Holds(mem, [Write(e, MAGIC_END)]) && -8 < e' - e < 8 && e' != e
    ensures InMemory(mem, e', 8) ==> ReadBytes(mem, e', 8) != MAGIC_END
  {
    var ws := [Write(e, MAGIC_END)];
    assert ws[0] in ws && ReadBytes(mem, e, 8) == MAGIC_END;
    if InMemory(mem, e', 8) && ReadBytes(mem, e', 8) == MAGIC_END {
      var k := if e' > e then e' - e else e - e';
      var x := if e' > e then e' else e;
      assert ReadBytes(mem, x - k, 8)[k] == mem[x] && ReadBytes(mem, x, 8)[0] == mem[x];
      assert MAGIC_END[k] == MAGIC_END[0];
      AllDifferent(k);
      assert false;
    }
  }

  lemma AllDifferent(k: nat)
    requires 0 < k < 8
    ensures MAGIC_END[k] != MAGIC_END[0]
  {
  }

  lemma MovedImageHolds(pr: Protocol, tag: nat, v: Value, a: int, d: int, mem: Memory)
    requires IsProtocol(pr) && Known(pr, tag) && Holds(mem, Moved(Image(pr, tag, v, a), d))
    ensures InMemory(mem, a + d, 10) && ReadBytes(mem, a + d, 8) == MAGIC_START
    ensures FromBytes(ReadBytes(mem, a + d + 8, 2)) == tag % 0x1_0000
    ensures Holds(mem, Moved(BodyPlan(pr, tag, v, a).writes, d))
    ensures Holds(mem, [Write(BodyPlan(pr, tag, v, a).end + d, MAGIC_END)])
  {
    hide IsProtocol, BodyPlan, ToBytes, FromBytes;
    var plan := BodyPlan(pr, tag, v, a);
    var head, last := [Write(a, MAGIC_START), Write(a + 8, ToBytes(tag, 2))], [Write(plan.end, MAGIC_END)];
    MovedBoth(head, plan.writes + last, d);
    MovedBoth(plan.writes, last, d);
    HoldsBoth(mem, Moved(head, d), Moved(plan.writes + last, d));
    HoldsBoth(mem, Moved(plan.writes, d), Moved(last, d));
    assert Moved(head, d) == [Write(a + d, MAGIC_START), Write(a + d + 8, ToBytes(tag, 2))];
    assert Moved(last, d) == [Write(plan.end + d, MAGIC_END)];
    HeadHolds(mem, a + d, tag);
  }

  lemma HeadHolds(mem: Memory, a: int, tag: nat)
    requires Holds(mem, [Write(a, MAGIC_START), Write(a + 8, ToBytes(tag, 2))])
    ensures InMemory(mem, a, 10) && ReadBytes(mem, a, 8) == MAGIC_START
    ensures FromBytes(ReadBytes(mem, a + 8, 2)) == tag % 0x1_0000
  {
    hide ToBytes, FromBytes;
    var head := [Write(a, MAGIC_START), Write(a + 8, ToBytes(tag, 2))];
    assert head[0] in head && head[1] in head;
    TwoBytes(tag);
  }

  /** A message with arrays found at a distance that is no multiple of 8 from where it was serialized is never
      accepted, whatever the padding. */
  lemma DisagreeingIsRejected(pr: Protocol, fuel: nat, tag: nat, v: Value, len: nat, st: State, out: State,
                              len': nat, before: nat, st': State)
    requires IsProtocol(pr) && Known(pr, tag) && tag < 0x1_0000 && Sent(pr, fuel, tag, v, len, st, out)
    requires HasFields(pr, tag) && Agree(pr.p.align, Arrays(pr, tag), st'.buf - st.buf)
    requires Arrays(pr, tag) != [] && !Multiple(st'.buf - st.buf, 8)
    requires Copied(Image(pr, tag, v, st.buf), out.mem, st'.mem, st'.buf - st.buf)
    ensures var r := Deserialize(pr, fuel, len', before, st'); r.None? || r.value.rc == -1
  {
    hide IsProtocol, Valid, Emits, Encodable, Represents, PlanOf, Exec, Functions, Emit, Holds, Image, FromBytes,
      ToBytes, IsCall, SameOutside, BodyPlan, Copied, HasFields, Arrays, Agree, Multiple, Sent, Body, VersionField,
      InMemory, ReadBytes, Carries;
    var d := st'.buf - st.buf;
    SentIsLong(pr, fuel, tag, v, len, st, out);
    SentHolds(pr, fuel, tag, v, len, st, out);
    CopyHolds(Image(pr, tag, v, st.buf), out.mem, st'.mem, d);
    MovedImageHolds(pr, tag, v, st.buf, d, st'.mem);
    EndsElsewhere(pr, tag, v, st.buf, d);
    assert st.buf + d == st'.buf;
    NotMagic(st'.mem, BodyPlan(pr, tag, v, st.buf).end + d, BodyPlan(pr, tag, v, st'.buf).end);
    BodyAtLarge(pr, fuel, tag, v, st');
  }

  /** Without arrays the image is the same at any distance. */
  lemma ImageAtAnyDistance(pr: Protocol, tag: nat, v: Value, a: int, d: int)
    requires IsProtocol(pr) && Known(pr, tag) && HasFields(pr, tag) && Arrays(pr, tag) == []
    ensures Image(pr, tag, v, a + d) == Moved(Image(pr, tag, v, a), d)
    ensures BodyPlan(pr, tag, v, a + d).end == BodyPlan(pr, tag, v, a).end + d
  {
    hide IsProtocol, BodyPlan, HasFields, Arrays, Multiple;
    EndsElsewhere(pr, tag, v, a, d);
    var plan := BodyPlan(pr, tag, v, a);
    MovedBoth(plan.writes, [Write(plan.end, MAGIC_END)], d);
  }

  lemma WithoutArraysArrives(pr: Protocol, fuel: nat, tag: nat, v: Value, len: nat, st: State, out: State,
                             len': nat, before: nat, st': State)
    requires IsProtocol(pr) && Known(pr, tag) && tag < 0x1_0000 && Sent(pr, fuel, tag, v, len, st, out)
    requires HasFields(pr, tag) && Arrays(pr, tag) == []
    requires Copied(Image(pr, tag, v, st.buf), out.mem, st'.mem, st'.buf - st.buf) && out.buf - st.buf <= len'
    ensures Arrives(pr, tag, v, out.buf - st.buf, Deserialize(pr, fuel, len', before, st')) <==>
            HasPlace(pr, tag, v, st'.obj)
  {
    hide IsProtocol, BodyPlan, HasFields, Sent, Image, Holds, Copied, Deserialize, Represents, Body, Arrays,
      Carries, Encodable, VersionField, Valid, Emits, IsCall, Size, HasPlace;
    var d := st'.buf - st.buf;
    SentIsLong(pr, fuel, tag, v, len, st, out);
    SentApplies(pr, fuel, tag, v, len, st, out);
    SentHolds(pr, fuel, tag, v, len, st, out);
    CopyHolds(Image(pr, tag, v, st.buf), out.mem, st'.mem, d);
    ImageAtAnyDistance(pr, tag, v, st.buf, d);
    assert st.buf + d == st'.buf;
    var _ := Reads(pr, pr, fuel, tag, v, len', before, st');
  }

  /** A body with arrays ends at a multiple of 8, whatever it holds and wherever it begins. */
  lemma EndsAligned(pr: Protocol, tag: nat, v: Value, a: int)
    requires IsProtocol(pr) && Known(pr, tag) && HasFields(pr, tag) && Arrays(pr, tag) != []
    ensures Multiple(BodyPlan(pr, tag, v, a).end, 8)
  {
    hide IsProtocol, HasFields, Arrays, Valid, Emits, Body, ShapeOf, PlanOf, PlanArrays, PlanLeaves, AlignUp, Multiple,
      IsCall, ArraysOf;
    ArraysAre(pr, tag);
    var p, t := pr.p, Body(pr, tag);
    var sh := ShapeOf(p, t, BODY);
    PlanParts(p, t, v, BODY, a + 8);
    AlignUpMultiple(PlanArrays(p, t, v, sh.arrays, a + 8 + sh.next).end, 8);
  }

  /** What is accepted as a message with arrays, be it the one that was sent or not, ends at a multiple of 8. */
  lemma AcceptedEndsAligned(pr: Protocol, fuel: nat, tag: nat, len: nat, before: nat, st: State)
    requires IsProtocol(pr) && Known(pr, tag) && HasFields(pr, tag) && Arrays(pr, tag) != []
    requires Receiving.HasTag(st, tag) && Receiving.Accepted(pr, fuel, len, before, st)
    ensures Multiple(st.buf + Deserialize(pr, fuel, len, before, st).value.rc, 8)
  {
    hide IsProtocol, Valid, Emits, Encodable, Represents, PlanOf, Exec, Functions, Emit, Holds, IsCall, SameOutside, Takes,
      Body, InMemory, ReadBytes, VersionField, HasFields, Arrays, Multiple, Deserialize, Receiving.HasTag, Receiving.Accepted;
    var out := Receiving.AcceptedParts(pr, fuel, tag, len, before, st);
    var v := AnyBytes.ReadsAsValue(pr.p, fuel, Body(pr, tag), BODY, false, [], State(st.mem, st.buf + 8, st.obj), out);
    EndsAligned(pr, tag, v, st.buf);
    NextIsAligned(BodyPlan(pr, tag, v, st.buf).end);
  }

  lemma NextIsAligned(x: int)
    requires Multiple(x, 8)
    ensures Multiple(x + 8, 8)
  {
  }

  lemma SameDistance(x: int, y: int, n: int)
    requires Multiple(x + n, 8) && Multiple(y + n, 8)
    ensures Multiple(y - x, 8)
  {
    assert y - x == (y + n) - (x + n);
  }

  /** So what is received as a message with arrays has the length sent only at a distance that is a multiple of 8. */
  lemma LengthsAgree(pr: Protocol, fuel: nat, tag: nat, v: Value, len: nat, st: State, out: State,
                     len': nat, before: nat, st': State)
    requires IsProtocol(pr) && Known(pr, tag) && tag < 0x1_0000 && Sent(pr, fuel, tag, v, len, st, out)
    requires HasFields(pr, tag) && Arrays(pr, tag) != []
    requires Copied(Image(pr, tag, v, st.buf), out.mem, st'.mem, st'.buf - st.buf)
    requires var r := Deserialize(pr, fuel, len', before, st'); r.Some? && r.value.rc == out.buf - st.buf
    ensures Multiple(st'.buf - st.buf, 8)
  {
    hide *;
    SentIsLong(pr, fuel, tag, v, len, st, out);
    HeaderArrives(pr, fuel, tag, v, len, st, out, st'.mem, st'.buf);
    LooksAccepted(pr, fuel, tag, len', before, st');
    AcceptedEndsAligned(pr, fuel, tag, len', before, st');
    SentApplies(pr, fuel, tag, v, len, st, out);
    EndsAligned(pr, tag, v, st.buf);
    NextIsAligned(BodyPlan(pr, tag, v, st.buf).end);
    SameDistance(st.buf, st'.buf, out.buf - st.buf);
  }

  lemma LooksAccepted(pr: Protocol, fuel: nat, tag: nat, len: nat, before: nat, st: State)
    requires IsProtocol(pr) && InMemory(st.mem, st.buf, 10)
    requires FromBytes(ReadBytes(st.mem, st.buf + 8, 2)) == tag % 0x1_0000 && tag < 0x1_0000
    requires var r := Deserialize(pr, fuel, len, before, st); r.Some? && r.value.rc >= 16
    ensures Receiving.HasTag(st, tag) && Receiving.Accepted(pr, fuel, len, before, st)
  {
    hide IsProtocol, Deserialize, FromBytes;
  }

  /** The tag is found at any distance. */
  lemma HeaderArrives(pr: Protocol, fuel: nat, tag: nat, v: Value, len: nat, st: State, out: State, mem: Memory, a: int)
    requires IsProtocol(pr) && Known(pr, tag) && Sent(pr, fuel, tag, v, len, st, out) && HasFields(pr, tag)
    requires Copied(Image(pr, tag, v, st.buf), out.mem, mem, a - st.buf)
    ensures InMemory(mem, a, 10) && FromBytes(ReadBytes(mem, a + 8, 2)) == tag % 0x1_0000
  {
    hide IsProtocol, HasFields, Sent, Image, Copied, BodyPlan, Holds, FromBytes, ToBytes, InMemory, ReadBytes;
    SentHolds(pr, fuel, tag, v, len, st, out);
    CopyHolds(Image(pr, tag, v, st.buf), out.mem, mem, a - st.buf);
    MovedImageHolds(pr, tag, v, st.buf, a - st.buf, mem);
    assert st.buf + (a - st.buf) == a;
  }

  lemma ArrivesAsSent(pr: Protocol, tag: nat, v: Value, n: int, r: Option<Received>)
    requires IsProtocol(pr) && Known(pr, tag)
    ensures Arrives(pr, tag, v, n, r) ==> r.Some? && r.value.rc == n && r.value.tag == tag
  {
    hide IsProtocol, Represents, Body;
  }

  /** At any distance a message with fields arrives exactly if its tag fits two bytes, the receiver has a place for it,
      and the distance is a multiple of 8 or it has no arrays; for one without fields the distance does not matter. */
  lemma ArrivesIffAgreeing(pr: Protocol, fuel: nat, tag: nat, v: Value, len: nat, st: State, out: State,
                           len': nat, before: nat, st': State)
    requires IsProtocol(pr) && Known(pr, tag) && Sent(pr, fuel, tag, v, len, st, out)
    requires Copied(Image(pr, tag, v, st.buf), out.mem, st'.mem, st'.buf - st.buf) && out.buf - st.buf <= len'
    ensures Arrives(pr, tag, v, out.buf - st.buf, Deserialize(pr, fuel, len', before, st')) <==>
            if HasFields(pr, tag) then
              && tag < 0x1_0000 && HasPlace(pr, tag, v, st'.obj)
              && (Multiple(st'.buf - st.buf, 8) || Arrays(pr, tag) == [])
            else tag == 0xDEAD || (before == tag && !Known(pr, 0xDEAD))
  {
    hide *;
    SentIsLong(pr, fuel, tag, v, len, st, out);
    ArrivesAsSent(pr, tag, v, out.buf - st.buf, Deserialize(pr, fuel, len', before, st'));
    if !HasFields(pr, tag) {
      EmptyMessage(pr, fuel, tag, v, len, st, out, len', before, st');
    } else if tag >= 0x1_0000 {
      HeaderArrives(pr, fuel, tag, v, len, st, out, st'.mem, st'.buf);
      LargeTagIsLost(pr, fuel, tag, len', before, st');
    } else if Multiple(st'.buf - st.buf, 8) {
      ArrivesIfPlaced(pr, fuel, tag, v, len, st, out, len', before, st');
    } else if Arrays(pr, tag) == [] {
      WithoutArraysArrives(pr, fuel, tag, v, len, st, out, len', before, st');
    } else {
      var r := Deserialize(pr, fuel, len', before, st');
      if r.Some? && r.value.rc == out.buf - st.buf {
        LengthsAgree(pr, fuel, tag, v, len, st, out, len', before, st');
        assert false;
      }
    }
  }

  /** If the body is read at all, the pointer is left at the end of its plan. */
  lemma BodyAtLarge(pr: Protocol, fuel: nat, tag: nat, v: Value, st: State)
    requires IsProtocol(pr) && Known(pr, tag) && Encodable(pr.p.types, Body(pr, tag), v) && fuel >= Size(v)
    requires Holds(st.mem, BodyPlan(pr, tag, v, st.buf).writes)
    ensures var r := Exec(Functions(Des, pr.p), fuel, Emit(Des, pr.p, Body(pr, tag), BODY, false), [], State(st.mem, st.buf + 8, st.obj));
            r.Some? ==> r.value.mem == st.mem && r.value.buf == BodyPlan(pr, tag, v, st.buf).end
  {
    hide IsProtocol, Valid, Emits, Encodable, PlanOf, Exec, Functions, Emit, Holds, Body, IsCall, Represents, SameOutside, Takes;
    var _ := Deserializing.DeserializesPlan(pr.p, fuel, Body(pr, tag), v, BODY, false, [], State(st.mem, st.buf + 8, st.obj));
  }

  // ----- the messages of net.ser

  /** Two messages have no arrays. */
  predicate IsFlat(tag: nat) {
    tag in {TAG_CONTROLLER_STATE, TAG_DESTROY}
  }

  lemma {:induction false} NoArrayLeft(fs: seq<FieldAccessor>)
    requires forall fa :: fa in fs ==> fa.FixedField?
    ensures FixedCount(fs) == |fs|
    decreases |fs|
  {
    if fs != [] {
      assert fs[0] in fs;
      NoArrayLeft(fs[1..]);
    }
  }

  lemma ArraysAreLeaves(p: Program, t: nat)
    requires Valid(p) && Finite(p.types) && t < |p.types| && p.layouts[t] != []
    ensures var fs := ShapeOf(p, t, BODY).arrays;
            && (forall fa :: fa in fs ==> fa.ArrayField? && fa in Leaves(p.types, t))
            && (fs == [] <==> forall fa :: fa in Leaves(p.types, t) ==> fa.FixedField?)
  {
    hide Leaves, Finite, FieldAlign;
    var layout, fs := p.layouts[t], ShapeOf(p, t, BODY).arrays;
    LayoutSplits(p, t);
    assert forall fa :: fa in fs ==> fa in layout;
    if forall fa :: fa in Leaves(p.types, t) ==> fa.FixedField? {
      NoArrayLeft(layout);
    }
    if fs == [] {
      assert FixedCount(layout) == |layout|;
    }
  }

  lemma FlatLeaves(p: Program, tag: nat)
    requires IsDevice(p) && tag in {TAG_CONTROLLER_STATE, TAG_DESTROY}
    requires IsProtocol(Device(p)) && Known(Device(p), tag)
    ensures Finite(p.types) && Body(Device(p), tag) < |p.types|
    ensures forall fa :: fa in Leaves(p.types, Body(Device(p), tag)) ==> fa.FixedField?
  {
    hide Valid, Finite, Leaves, LeavesFrom, IsProtocol, Body;
    Entries(p);
    MessageEntries();
    ArrayEntries();
    BodyIs(p, tag);
    if tag == TAG_CONTROLLER_STATE {
      StateLeavesAre(p.types);
    } else {
      PartsLeaves(p.types, DESTROY);
      PrimitivePart(p.types, DESTROY, 0, U16T);
    }
  }

  predicate IsSmall(elem: nat) {
    elem in {ABS, REL, KEY, U32T, U8T, TAG_LIST}
  }

  /** Some leaf is an array, and all arrays have small elements. */
  ghost predicate HasSmallArrays(fs: seq<FieldAccessor>) {
    (exists fa :: fa in fs && fa.ArrayField?) && forall fa :: fa in fs && fa.ArrayField? ==> IsSmall(fa.elem)
  }

  lemma ThreeSmallArrays(e1: nat, e2: nat, e3: nat)
    requires IsSmall(e1) && IsSmall(e2) && IsSmall(e3)
    ensures HasSmallArrays(ThreeArrays(e1, e2, e3))
  {
    hide IsSmall;
    assert ArrayField([2, 1], e1) in ThreeArrays(e1, e2, e3);
  }

  lemma RequestIsSmall()
    ensures HasSmallArrays(RequestLeaves())
  {
    assert ArrayField([0, 1], TAG_LIST) in RequestLeaves();
  }

  lemma ArrayLeaves(p: Program, tag: nat)
    requires IsDevice(p) && tag in {TAG_INFO, TAG_REPORT, TAG_REQUEST}
    requires IsProtocol(Device(p)) && Known(Device(p), tag)
    ensures Finite(p.types) && Body(Device(p), tag) < |p.types|
    ensures HasSmallArrays(Leaves(p.types, Body(Device(p), tag)))
  {
    hide Valid, Finite, Leaves, LeavesFrom, IsProtocol, Body, HasSmallArrays, ThreeArrays, RequestLeaves;
    Entries(p);
    MessageEntries();
    ArrayEntries();
    BodyIs(p, tag);
    if tag == TAG_INFO {
      ThreeArraysLeaves(p.types, INFO, ABS_ARRAY, REL_ARRAY, KEY_ARRAY, ABS, REL, KEY);
      ThreeSmallArrays(ABS, REL, KEY);
    } else if tag == TAG_REPORT {
      ThreeArraysLeaves(p.types, REPORT, ABS_VALUES, REL_VALUES, KEY_VALUES, U32T, U32T, U8T);
      ThreeSmallArrays(U32T, U32T, U8T);
    } else {
      RequestLeavesAre(p.types);
      RequestIsSmall();
    }
  }

  lemma Divides4(d: int, a: nat)
    requires Multiple(d, 4) && a in {1, 2, 4}
    ensures Multiple(d, a)
  {
    Po2Divides(4, a, d);
  }

  /** Elements of arrays are aligned to 4 at most, in all five messages. */
  lemma DeviceAgrees(p: Program, tag: nat, d: int)
    requires IsDevice(p) && IsProtocol(Device(p)) && 1 <= tag <= 5 && Known(Device(p), tag) && HasFields(Device(p), tag)
    ensures Multiple(d, 4) ==> Agree(p.align, Arrays(Device(p), tag), d)
    ensures Arrays(Device(p), tag) == [] <==> IsFlat(tag)
  {
    hide Valid, Finite, Leaves, IsProtocol, Body, HasFields, Multiple, IsDevice, ShapeOf;
    Entries(p);
    AlignEntries();
    BodyIs(p, tag);
    ArraysAre(Device(p), tag);
    ArraysAreLeaves(p, Body(Device(p), tag));
    var fs := Arrays(Device(p), tag);
    if IsFlat(tag) {
      FlatLeaves(p, tag);
    } else {
      ArrayLeaves(p, tag);
      forall fa | fa in fs && Multiple(d, 4) ensures Multiple(d, FieldAlign(p.align, fa)) {
        Divides4(d, p.align[fa.elem]);
      }
    }
  }

  /** A message of the protocol arrives exactly if the addresses of the two buffers agree modulo 8 or it is one of the
      two without arrays. */
  lemma DeviceArrivesIff(p: Program, fuel: nat, tag: nat, v: Value, len: nat, st: State, out: State,
                         len': nat, before: nat, st': State)
    requires IsDevice(p) && IsProtocol(Device(p)) && 1 <= tag <= 5 && Known(Device(p), tag)
    requires Sent(Device(p), fuel, tag, v, len, st, out)
    requires Copied(Image(Device(p), tag, v, st.buf), out.mem, st'.mem, st'.buf - st.buf)
    requires out.buf - st.buf <= len'
    ensures Arrives(Device(p), tag, v, out.buf - st.buf, Deserialize(Device(p), fuel, len', before, st')) <==>
            Multiple(st'.buf - st.buf, 8) || IsFlat(tag)
  {
    hide IsDevice, IsProtocol, Sent, Copied, Image, HasFields, Deserialize, Multiple, Arrives, HasPlace, Holding, Agree,
      Arrays, IsFlat;
    DeviceHasFields(p, tag);
    DeviceAgrees(p, tag, st'.buf - st.buf);
    SentIsHeld(Device(p), fuel, tag, v, len, st, out);
    DeviceHasPlace(p, fuel, tag, v, st.obj, st'.obj);
    ArrivesIffAgreeing(Device(p), fuel, tag, v, len, st, out, len', before, st');
  }

  /** Between buffers aligned to 4, as the server's are, the other three are not even accepted as something else. */
  lemma DeviceIsRejected(p: Program, fuel: nat, tag: nat, v: Value, len: nat, st: State, out: State,
                         len': nat, before: nat, st': State)
    requires IsDevice(p) && IsProtocol(Device(p)) && 1 <= tag <= 5 && Known(Device(p), tag) && !IsFlat(tag)
    requires Sent(Device(p), fuel, tag, v, len, st, out)
    requires Multiple(st'.buf - st.buf, 4) && !Multiple(st'.buf - st.buf, 8)
    requires Copied(Image(Device(p), tag, v, st.buf), out.mem, st'.mem, st'.buf - st.buf)
    ensures var r := Deserialize(Device(p), fuel, len', before, st'); r.None? || r.value.rc == -1
  {
    hide IsDevice, IsProtocol, Sent, Copied, Image, HasFields, Deserialize, Multiple, Agree, Arrays, IsFlat;
    DeviceHasFields(p, tag);
    DeviceAgrees(p, tag, st'.buf - st.buf);
    DisagreeingIsRejected(Device(p), fuel, tag, v, len, st, out, len', before, st');
  }
}
