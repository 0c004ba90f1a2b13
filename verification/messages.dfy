/** The framing of messages: what msg_*_serialize and msg_*_deserialize do around the code of a body
    (ser/codegen_c.c, and net.c as generated from it). */
module Messages {
  import opened Collections
  import opened Schema
  import opened Layouts
  import opened Machine
  import opened Values
  import opened Emitter
  import opened Plans
  import opened RoundTrips
  import Scalars
  import Serializing
  import Deserializing

  /** The body of a message is a struct without functions; its last field is the version if it carries one. */
  datatype MessageType = MessageType(body: nat, versioned: bool)

  datatype Protocol = Protocol(p: Program, messages: seq<MessageType>, version: nat)

  ghost predicate IsMessage(p: Program, m: MessageType) {
    && m.body < |p.types| && p.types[m.body].TypeStruct? && !p.types[m.body].hasFuncs
    && var fs := p.types[m.body].fields;
       m.versioned ==> fs != [] && fs[|fs| - 1] < |p.types| && p.types[fs[|fs| - 1]] == TypePrimitif(U64)
  }

  ghost predicate IsProtocol(pr: Protocol) {
    Valid(pr.p) && forall m :: m in pr.messages ==> IsMessage(pr.p, m)
  }

  /** Tags count from 1; 0 is no message. */
  predicate Known(pr: Protocol, tag: nat) {
    1 <= tag <= |pr.messages|
  }

  ghost function Body(pr: Protocol, tag: nat): (t: nat)
    requires IsProtocol(pr) && Known(pr, tag)
    ensures Valid(pr.p) && t < |pr.p.types| == |pr.p.align| == |pr.p.layouts|
    ensures Emits(pr.p, t) && !IsCall(pr.p, t, false) && pr.p.align[t] <= 8
  {
    assert IsMessage(pr.p, pr.messages[tag - 1]);
    assert IsPo2(AlignOf(pr.p, pr.messages[tag - 1].body));
    pr.messages[tag - 1].body
  }

  /** 0xCAFEF00DBEEFDEAD and 0xF00DBEEFCAFEDEAD in memory. */
  const MAGIC_START: seq<Byte> := [0xAD, 0xDE, 0xEF, 0xBE, 0x0D, 0xF0, 0xFE, 0xCA]
  const MAGIC_END: seq<Byte> := [0xAD, 0xDE, 0xFE, 0xCA, 0xEF, 0xBE, 0x0D, 0xF0]

  /** The number that eight bytes are, as a pointer to a MsgMagic reads them. */
  lemma MagicsAre()
    ensures FromBytes(MAGIC_START) == 0xCAFE_F00D_BEEF_DEAD && FromBytes(MAGIC_END) == 0xF00D_BEEF_CAFE_DEAD
  {
    EightAre(MAGIC_START);
    EightAre(MAGIC_END);
  }

  lemma EightAre(bs: seq<Byte>)
    requires |bs| == 8
    ensures FromBytes(bs) == FromBytes(bs[..4]) + 0x1_0000_0000 * FromBytes(bs[4..])
    ensures FromBytes(bs[..4]) == bs[0] as nat + 0x100 * (bs[1] as nat) + 0x1_0000 * (bs[2] as nat) + 0x100_0000 * (bs[3] as nat)
    ensures FromBytes(bs[4..]) == bs[4] as nat + 0x100 * (bs[5] as nat) + 0x1_0000 * (bs[6] as nat) + 0x100_0000 * (bs[7] as nat)
  {
    Scalars.LeastFirst(bs);
    Scalars.LeastFirst(bs[..4]);
    Scalars.LeastFirst(bs[4..]);
  }

  /** A body is aligned to 8 and follows the two bytes of the tag. */
  const BODY := CurrentAlignment(8, 2)

  // ----- the two functions

  lemma LastField(pr: Protocol, m: MessageType)
    requires IsProtocol(pr) && m in pr.messages
    ensures IsMessage(pr.p, m)
  {
    hide Valid, IsMessage;
  }

  /** The number of the version field of a versioned message. */
  ghost function VersionField(pr: Protocol, tag: nat): (r: Option<nat>)
    requires IsProtocol(pr) && Known(pr, tag)
  {
    var m := pr.messages[tag - 1];
    LastField(pr, m);
    if m.versioned then Some(|pr.p.types[m.body].fields| - 1) else None
  }

  lemma VersionIsField(pr: Protocol, tag: nat)
    requires IsProtocol(pr) && Known(pr, tag) && VersionField(pr, tag).Some?
    ensures var t, i := pr.p.types[Body(pr, tag)], VersionField(pr, tag).value;
      i < |Parts(t)| && Parts(t)[i] < |pr.p.types| && pr.p.types[Parts(t)[i]] == TypePrimitif(U64)
  {
    hide IsProtocol, Valid;
    LastField(pr, pr.messages[tag - 1]);
  }

  /** A versioned message is stamped before it is written. */
  ghost function Stamped(pr: Protocol, tag: nat, obj: Object): Object
    requires IsProtocol(pr) && Known(pr, tag)
  {
    match VersionField(pr, tag)
    case None => obj
    case Some(i) => obj[[i] := pr.version]
  }

  ghost function SerializeBody(pr: Protocol, fuel: nat, tag: nat, st: State): Option<State>
    requires IsProtocol(pr)
  {
    if !Known(pr, tag) then Some(st)
    else if !InMemory(st.mem, st.buf, 2) then None
    else
      Exec(Functions(Ser, pr.p), fuel, Emit(Ser, pr.p, Body(pr, tag), BODY, false), [],
           State(WriteBytes(st.mem, st.buf, ToBytes(tag, 2)), st.buf, Stamped(pr, tag, st.obj)))
  }

  /** The length written, or -1; the length of the buffer is compared only once everything is written. */
  ghost function Serialize(pr: Protocol, fuel: nat, tag: nat, len: nat, st: State): Option<(int, State)>
    requires IsProtocol(pr)
  {
    if len < 16 then Some((-1, st))
    else if !InMemory(st.mem, st.buf, 8) then None
    else match SerializeBody(pr, fuel, tag, State(WriteBytes(st.mem, st.buf, MAGIC_START), st.buf + 8, st.obj))
      case None => None
      case Some(st') =>
        if !InMemory(st'.mem, st'.buf, 8) then None
        else
          var out := State(WriteBytes(st'.mem, st'.buf, MAGIC_END), st'.buf + 8, st'.obj);
          Some((if out.buf > st.buf + len then -1 else out.buf - st.buf, out))
  }

  /** What is returned, the tag of the message filled in, and its body. */
  datatype Received = Received(rc: int, tag: nat, obj: Object)

  ghost function Deserialize(pr: Protocol, fuel: nat, len: nat, tag: nat, st: State): Option<Received>
    requires IsProtocol(pr)
  {
    if len < 16 then Some(Received(-1, tag, st.obj))
    else if !InMemory(st.mem, st.buf, 10) then None
    else if ReadBytes(st.mem, st.buf, 8) != MAGIC_START then Some(Received(-1, tag, st.obj))
    else
      var read := FromBytes(ReadBytes(st.mem, st.buf + 8, 2));
      DeserializeBody(pr, fuel, len, tag, read, st)
  }

  ghost function DeserializeBody(pr: Protocol, fuel: nat, len: nat, tag: nat, read: nat, st: State): Option<Received>
    requires IsProtocol(pr)
  {
    if !Known(pr, read) then Finish(len, tag, st.buf, State(st.mem, st.buf + 8, st.obj))
    else match Exec(Functions(Des, pr.p), fuel, Emit(Des, pr.p, Body(pr, read), BODY, false), [], State(st.mem, st.buf + 8, st.obj))
      case None => None
      case Some(st') =>
        match VersionField(pr, read)
        case None => Finish(len, read, st.buf, st')
        case Some(i) =>
          if [i] !in st'.obj then None
          else if st'.obj[[i]] != pr.version then Some(Received(-1, read, st'.obj))
          else Finish(len, read, st.buf, st')
  }

  function Finish(len: nat, tag: nat, base: int, st: State): Option<Received> {
    if !InMemory(st.mem, st.buf, 8) then None
    else if ReadBytes(st.mem, st.buf, 8) != MAGIC_END then Some(Received(-1, tag, st.obj))
    else if st.buf + 8 > base + len then Some(Received(-1, tag, st.obj))
    else Some(Received(st.buf + 8 - base, tag, st.obj))
  }

  // ----- the image of a message

  ghost function BodyPlan(pr: Protocol, tag: nat, v: Value, a: int): Plan
    requires IsProtocol(pr) && Known(pr, tag)
  {
    PlanOf(pr.p, Body(pr, tag), v, BODY, a + 8)
  }

  ghost function Image(pr: Protocol, tag: nat, v: Value, a: int): seq<Write>
    requires IsProtocol(pr) && Known(pr, tag)
  {
    var plan := BodyPlan(pr, tag, v, a);
    [Write(a, MAGIC_START), Write(a + 8, ToBytes(tag, 2))] + (plan.writes + [Write(plan.end, MAGIC_END)])
  }

  ghost function Length(pr: Protocol, tag: nat, v: Value): (n: nat)
    requires IsProtocol(pr) && Known(pr, tag)
    ensures n >= 16
  {
    PlanIsOrdered(pr.p, Body(pr, tag), v, BODY, 8);
    OrderedFrom(BodyPlan(pr, tag, v, 0).writes, 8, 8, BodyPlan(pr, tag, v, 0).end);
    BodyPlan(pr, tag, v, 0).end + 8
  }

  /** The message a sender holds: its object, once stamped, is v. */
  ghost predicate Holding(pr: Protocol, fuel: nat, tag: nat, v: Value, obj: Object)
    requires IsProtocol(pr) && Known(pr, tag)
  {
    && fuel >= Size(v) && Encodable(pr.p.types, Body(pr, tag), v)
    && Represents(pr.p.types, Stamped(pr, tag, obj), [], Body(pr, tag), v)
  }

  lemma PlanMovesBy(pr: Protocol, tag: nat, v: Value, a: int, d: int)
    requires IsProtocol(pr) && Known(pr, tag) && Multiple(d, 8)
    ensures BodyPlan(pr, tag, v, a + d) == MovedPlan(BodyPlan(pr, tag, v, a), d)
  {
    hide Body, Valid, Emits, PlanOf, Multiple, IsProtocol, MovedPlan;
    assert a + d + 8 == a + 8 + d;
    PlanMoves(pr.p, Body(pr, tag), v, BODY, a + 8, d);
  }

  lemma ImageMoves(pr: Protocol, tag: nat, v: Value, a: int, d: int)
    requires IsProtocol(pr) && Known(pr, tag) && Multiple(d, 8)
    ensures Image(pr, tag, v, a + d) == Moved(Image(pr, tag, v, a), d)
    ensures BodyPlan(pr, tag, v, a + d).end == BodyPlan(pr, tag, v, a).end + d
  {
    hide IsProtocol, BodyPlan, Multiple;
    PlanMovesBy(pr, tag, v, a, d);
    var plan := BodyPlan(pr, tag, v, a);
    MovedBoth(plan.writes, [Write(plan.end, MAGIC_END)], d);
  }

  /** The length does not depend on where the message is, as long as that is a multiple of 8. */
  lemma LengthAnywhere(pr: Protocol, tag: nat, v: Value, a: int)
    requires IsProtocol(pr) && Known(pr, tag) && Multiple(a, 8)
    ensures BodyPlan(pr, tag, v, a).end + 8 == a + Length(pr, tag, v)
  {
    hide IsProtocol, BodyPlan, Multiple;
    ImageMoves(pr, tag, v, 0, a);
    assert 0 + a == a;
  }

  // ----- serialization

  lemma OneWrite(mem: Memory, w: Write)
    requires Fits(mem, [w])
    ensures InMemory(mem, w.addr, |w.bytes|) && Apply(mem, [w]) == WriteBytes(mem, w.addr, w.bytes)
  {
    assert [w][0] == w;
    assert [w][1..] == [];
  }

  lemma TwoWrites(mem: Memory, w: Write, w': Write)
    requires Fits(mem, [w, w'])
    ensures InMemory(mem, w.addr, |w.bytes|) && InMemory(mem, w'.addr, |w'.bytes|)
    ensures Apply(mem, [w, w']) == WriteBytes(WriteBytes(mem, w.addr, w.bytes), w'.addr, w'.bytes)
  {
    hide Apply, Fits;
    assert [w] + [w'] == [w, w'];
    ApplyConcat(mem, [w], [w']);
    OneWrite(mem, w);
    OneWrite(Apply(mem, [w]), w');
  }

  lemma BodyIsReady(pr: Protocol, fuel: nat, tag: nat, v: Value, obj: Object, mem: Memory, a: int)
    requires IsProtocol(pr) && Known(pr, tag) && Holding(pr, fuel, tag, v, obj)
    ensures Serializing.Ready(pr.p, fuel, Body(pr, tag), v, BODY, false, [], State(mem, a, Stamped(pr, tag, obj)))
  {
    hide IsProtocol, Body, Valid, Emits, Encodable, Represents, Stamped;
  }

  /** The bytes of the body carry out its plan. */
  lemma BodyWrites(pr: Protocol, fuel: nat, tag: nat, v: Value, obj: Object, mem: Memory, a: int)
    requires IsProtocol(pr) && Known(pr, tag) && Holding(pr, fuel, tag, v, obj)
    requires InMemory(mem, a + 8, 2) && Fits(WriteBytes(mem, a + 8, ToBytes(tag, 2)), BodyPlan(pr, tag, v, a).writes)
    ensures SerializeBody(pr, fuel, tag, State(mem, a + 8, obj)) ==
            Some(State(Apply(WriteBytes(mem, a + 8, ToBytes(tag, 2)), BodyPlan(pr, tag, v, a).writes),
                       BodyPlan(pr, tag, v, a).end, Stamped(pr, tag, obj)))
  {
    hide IsProtocol, Body, Valid, Emits, Holding, Stamped, PlanOf, Exec, Functions, Emit, Fits, Apply, Known,
      WriteBytes, ToBytes,
      InMemory, Serializing.Ready;
    var mem' := WriteBytes(mem, a + 8, ToBytes(tag, 2));
    BodyIsReady(pr, fuel, tag, v, obj, mem', a + 8);
    Serializing.SerializesPlan(pr.p, fuel, Body(pr, tag), v, BODY, false, [], State(mem', a + 8, Stamped(pr, tag, obj)));
  }

  /** Everything that is written: magic, tag, body, magic. */
  lemma SerializeWrites(pr: Protocol, fuel: nat, tag: nat, v: Value, len: nat, st: State)
    requires IsProtocol(pr) && Known(pr, tag) && Holding(pr, fuel, tag, v, st.obj) && len >= 16
    requires Fits(st.mem, Image(pr, tag, v, st.buf))
    ensures var end := BodyPlan(pr, tag, v, st.buf).end + 8;
            Serialize(pr, fuel, tag, len, st) ==
            Some((if end > st.buf + len then -1 else end - st.buf,
                  State(Apply(st.mem, Image(pr, tag, v, st.buf)), end, Stamped(pr, tag, st.obj))))
  {
    hide IsProtocol, Holding, Stamped, SerializeBody, BodyPlan, Fits, Apply, Known, ToBytes;
    var a, plan := st.buf, BodyPlan(pr, tag, v, st.buf);
    var head, last := [Write(a, MAGIC_START), Write(a + 8, ToBytes(tag, 2))], Write(plan.end, MAGIC_END);
    ApplyConcat(st.mem, head, plan.writes + [last]);
    TwoWrites(st.mem, head[0], head[1]);
    var mem := WriteBytes(st.mem, a, MAGIC_START);
    var mem' := Apply(st.mem, head);
    ApplyConcat(mem', plan.writes, [last]);
    BodyWrites(pr, fuel, tag, v, st.obj, mem, a);
    OneWrite(Apply(mem', plan.writes), last);
  }

  // ----- deserialization

  /** A versioned value carries the version of the protocol. */
  ghost predicate Carries(pr: Protocol, tag: nat, v: Value)
    requires IsProtocol(pr) && Known(pr, tag)
  {
    match VersionField(pr, tag)
    case None => true
    case Some(i) => v.Agg? && i < |v.elems| && v.elems[i] == Num(pr.version)
  }

  lemma VersionInObject(pr: Protocol, tag: nat, v: Value, obj: Object)
    requires IsProtocol(pr) && Known(pr, tag) && Represents(pr.p.types, obj, [], Body(pr, tag), v)
    ensures match VersionField(pr, tag)
            case None => true
            case Some(i) => [i] in obj && v.Agg? && i < |v.elems| && v.elems[i] == Num(obj[[i]])
  {
    hide IsProtocol, Valid, Emits, VersionField, IsMessage;
    var ts, t := pr.p.types, Body(pr, tag);
    if VersionField(pr, tag).Some? {
      var i := VersionField(pr, tag).value;
      VersionIsField(pr, tag);
      assert [] + [i] == [i];
      assert Represents(ts, obj, [] + [i], Parts(ts[t])[i], v.elems[i]);
    }
  }

  lemma HoldingCarries(pr: Protocol, fuel: nat, tag: nat, v: Value, obj: Object)
    requires IsProtocol(pr) && Known(pr, tag) && Holding(pr, fuel, tag, v, obj)
    ensures Carries(pr, tag, v)
  {
    hide IsProtocol, Valid, Emits, Encodable, Represents, Body;
    VersionInObject(pr, tag, v, Stamped(pr, tag, obj));
  }

  lemma OneMoreByte(n: nat, size: nat)
    ensures FromBytes(ToBytes(n, size + 1)) == n % 256 + 256 * FromBytes(ToBytes(n / 256, size))
  {
    assert ToBytes(n, size + 1)[1..] == ToBytes(n / 256, size);
  }

  lemma NoBytes(n: nat)
    ensures FromBytes(ToBytes(n, 0)) == 0
  {
  }

  lemma TwoDigits(n: nat)
    ensures n % 256 + 256 * (n / 256 % 256) == n % 0x1_0000
  {
    var m := n / 256;
    var q, h, l := m / 256, m % 256, n % 256;
    assert n == 0x1_0000 * q + (256 * h + l) && 0 <= 256 * h + l < 0x1_0000;
  }

  lemma TwoBytes(n: nat)
    ensures FromBytes(ToBytes(n, 2)) == n % 0x1_0000
  {
    hide ToBytes, FromBytes;
    OneMoreByte(n, 1);
    OneMoreByte(n / 256, 0);
    NoBytes(n / 256 / 256);
    TwoDigits(n);
  }

  /** What the image of a message puts into memory, part by part. */
  lemma ImageHolds(pr: Protocol, tag: nat, v: Value, mem: Memory, a: int)
    requires IsProtocol(pr) && Known(pr, tag) && Holds(mem, Image(pr, tag, v, a))
    ensures InMemory(mem, a, 10) && ReadBytes(mem, a, 8) == MAGIC_START
    ensures FromBytes(ReadBytes(mem, a + 8, 2)) == tag % 0x1_0000
    ensures Holds(mem, BodyPlan(pr, tag, v, a).writes)
    ensures var end := BodyPlan(pr, tag, v, a).end; InMemory(mem, end, 8) && ReadBytes(mem, end, 8) == MAGIC_END
  {
    hide IsProtocol, BodyPlan, ToBytes, FromBytes;
    var plan := BodyPlan(pr, tag, v, a);
    var head, last := [Write(a, MAGIC_START), Write(a + 8, ToBytes(tag, 2))], [Write(plan.end, MAGIC_END)];
    HoldsBoth(mem, head, plan.writes + last);
    HoldsBoth(mem, plan.writes, last);
    assert head[0] in head && head[1] in head;
    TwoBytes(tag);
    assert last[0] in last;
  }

  ghost predicate SameButVersion(pr: Protocol, pr': Protocol) {
    pr' == pr.(version := pr'.version)
  }

  /** The receiver's message has a place for v. */
  ghost predicate HasPlace(pr: Protocol, tag: nat, v: Value, obj: Object)
    requires IsProtocol(pr) && Known(pr, tag)
  {
    Takes(pr.p.types, obj, [], Body(pr, tag), v)
  }

  /** The image of a message is understood by a receiver of the same protocol and version that has a place for it. */
  lemma Reads(pr: Protocol, pr': Protocol, fuel: nat, tag: nat, v: Value, len: nat, before: nat, st: State)
    returns (obj: Option<Object>)
    requires IsProtocol(pr) && IsProtocol(pr') && SameButVersion(pr, pr') && Known(pr, tag) && tag < 0x1_0000
    requires Encodable(pr.p.types, Body(pr, tag), v) && fuel >= Size(v) && Carries(pr, tag, v) && len >= 16
    requires Holds(st.mem, Image(pr, tag, v, st.buf))
    ensures var n := BodyPlan(pr, tag, v, st.buf).end + 8 - st.buf;
            var stale := VersionField(pr, tag).Some? && pr'.version != pr.version;
            Deserialize(pr', fuel, len, before, st) ==
            if obj.Some? then Some(Received(if stale || n > len then -1 else n, tag, obj.value)) else None
    ensures obj.Some? <==> HasPlace(pr, tag, v, st.obj)
    ensures obj.Some? ==> Represents(pr.p.types, obj.value, [], Body(pr, tag), v)
  {
    hide IsProtocol, Valid, Emits, Encodable, Represents, PlanOf, Exec, Functions, Emit, Holds, Image, FromBytes, ToBytes,
      IsCall, SameOutside, Takes;
    ImageHolds(pr, tag, v, st.mem, st.buf);
    obj := Deserializing.DeserializesPlan(pr.p, fuel, Body(pr, tag), v, BODY, false, [], State(st.mem, st.buf + 8, st.obj));
    if obj.Some? {
      VersionInObject(pr, tag, v, obj.value);
    }
    SameBody(pr, pr', tag);
  }

  lemma SameBody(pr: Protocol, pr': Protocol, tag: nat)
    requires IsProtocol(pr) && IsProtocol(pr') && SameButVersion(pr, pr') && Known(pr, tag)
    ensures Known(pr', tag) && Body(pr', tag) == Body(pr, tag) && VersionField(pr', tag) == VersionField(pr, tag)
  {
    hide IsProtocol, Valid;
  }

  // ----- round trip

  ghost predicate HasFields(pr: Protocol, tag: nat)
    requires IsProtocol(pr) && Known(pr, tag)
  {
    pr.p.layouts[Body(pr, tag)] != []
  }

  lemma ImageIsOrdered(pr: Protocol, tag: nat, v: Value, a: int)
    requires IsProtocol(pr) && Known(pr, tag) && HasFields(pr, tag)
    ensures Ordered(Image(pr, tag, v, a), a, BodyPlan(pr, tag, v, a).end + 8)
  {
    hide IsProtocol, Valid, Emits, PlanOf, ToBytes, Body;
    var plan := BodyPlan(pr, tag, v, a);
    PlanIsOrdered(pr.p, Body(pr, tag), v, BODY, a + 8);
    HeadOrdered(Write(a, MAGIC_START), Write(a + 8, ToBytes(tag, 2)));
    LastOrdered(Write(plan.end, MAGIC_END));
    hide Ordered;
    OrderedConcat(plan.writes, [Write(plan.end, MAGIC_END)], a + 10, plan.end, plan.end, plan.end + 8);
    OrderedConcat([Write(a, MAGIC_START), Write(a + 8, ToBytes(tag, 2))], plan.writes + [Write(plan.end, MAGIC_END)],
                  a, a + 10, a + 10, plan.end + 8);
  }

  lemma LastOrdered(w: Write)
    ensures Ordered([w], w.addr, w.addr + |w.bytes|)
  {
    assert [w][1..] == [];
  }

  lemma HeadOrdered(w: Write, w': Write)
    requires w.addr + |w.bytes| <= w'.addr
    ensures Ordered([w, w'], w.addr, w'.addr + |w'.bytes|)
  {
    assert [w, w'][1..] == [w'];
    LastOrdered(w');
  }

  lemma EmptyImage(pr: Protocol, tag: nat, v: Value, a: int)
    requires IsProtocol(pr) && Known(pr, tag) && !HasFields(pr, tag)
    ensures BodyPlan(pr, tag, v, a) == Plan([], a + 8)
    ensures Image(pr, tag, v, a) == [Write(a, MAGIC_START), Write(a + 8, ToBytes(tag, 2)), Write(a + 8, MAGIC_END)]
  {
    hide IsProtocol, Valid, Emits, Body, ToBytes;
    PlanParts(pr.p, Body(pr, tag), v, BODY, a + 8);
    assert [] + [Write(a + 8, MAGIC_END)] == [Write(a + 8, MAGIC_END)];
  }

  lemma ImageFits(pr: Protocol, tag: nat, v: Value, mem: Memory, a: int)
    requires IsProtocol(pr) && Known(pr, tag) && HasRoom(mem, a, BodyPlan(pr, tag, v, a).end + 8)
    ensures Fits(mem, Image(pr, tag, v, a))
  {
    hide IsProtocol, BodyPlan, HasFields, Ordered, Image, ToBytes;
    if HasFields(pr, tag) {
      ImageIsOrdered(pr, tag, v, a);
      RegionFits(mem, Image(pr, tag, v, a), a, BodyPlan(pr, tag, v, a).end + 8);
    } else {
      EmptyImage(pr, tag, v, a);
    }
  }

  /** The serializer has run: the object held v, and buffer and length sufficed. */
  ghost predicate Sent(pr: Protocol, fuel: nat, tag: nat, v: Value, len: nat, st: State, out: State)
    requires IsProtocol(pr) && Known(pr, tag)
  {
    && Holding(pr, fuel, tag, v, st.obj) && HasRoom(st.mem, st.buf, BodyPlan(pr, tag, v, st.buf).end + 8)
    && out.buf - st.buf <= len && Serialize(pr, fuel, tag, len, st) == Some((out.buf - st.buf, out))
  }

  lemma SentApplies(pr: Protocol, fuel: nat, tag: nat, v: Value, len: nat, st: State, out: State)
    requires IsProtocol(pr) && Known(pr, tag) && Sent(pr, fuel, tag, v, len, st, out)
    ensures Fits(st.mem, Image(pr, tag, v, st.buf)) && out.mem == Apply(st.mem, Image(pr, tag, v, st.buf))
    ensures out.buf == BodyPlan(pr, tag, v, st.buf).end + 8
  {
    hide IsProtocol, BodyPlan, Holding, HasRoom, Fits, Image, Apply, Stamped, SerializeBody;
    ImageFits(pr, tag, v, st.mem, st.buf);
    if len >= 16 {
      SerializeWrites(pr, fuel, tag, v, len, st);
    }
  }

  lemma SentHolds(pr: Protocol, fuel: nat, tag: nat, v: Value, len: nat, st: State, out: State)
    requires IsProtocol(pr) && Known(pr, tag) && Sent(pr, fuel, tag, v, len, st, out) && HasFields(pr, tag)
    ensures Holds(out.mem, Image(pr, tag, v, st.buf))
  {
    hide IsProtocol, BodyPlan, HasFields, Sent, Image, Holds, Ordered, Fits, Apply;
    SentApplies(pr, fuel, tag, v, len, st, out);
    ImageIsOrdered(pr, tag, v, st.buf);
    ApplyHolds(st.mem, Image(pr, tag, v, st.buf), st.buf, BodyPlan(pr, tag, v, st.buf).end + 8);
  }

  /** Without fields the second magic takes the place of the tag. */
  lemma TagIsLost(pr: Protocol, fuel: nat, tag: nat, v: Value, len: nat, st: State, out: State)
    requires IsProtocol(pr) && Known(pr, tag) && Sent(pr, fuel, tag, v, len, st, out) && !HasFields(pr, tag)
    ensures out.buf == st.buf + 16
    ensures Holds(out.mem, [Write(st.buf, MAGIC_START), Write(st.buf + 8, MAGIC_END)])
  {
    hide IsProtocol, BodyPlan, HasFields, Sent, ToBytes;
    var a := st.buf;
    SentApplies(pr, fuel, tag, v, len, st, out);
    EmptyImage(pr, tag, v, a);
    var start, number, end := Write(a, MAGIC_START), Write(a + 8, ToBytes(tag, 2)), Write(a + 8, MAGIC_END);
    ThreeWrites(st.mem, start, number, end);
  }

  lemma ThreeWrites(mem: Memory, w0: Write, w1: Write, w2: Write)
    requires Fits(mem, [w0, w1, w2])
    requires w0.addr + |w0.bytes| <= w1.addr == w2.addr && |w1.bytes| <= |w2.bytes|
    ensures Holds(Apply(mem, [w0, w1, w2]), [w0, w2])
  {
    hide Apply, Fits, WriteBytes, ReadBytes;
    assert [w0, w1] + [w2] == [w0, w1, w2];
    ApplyConcat(mem, [w0, w1], [w2]);
    TwoWrites(mem, w0, w1);
    OneWrite(Apply(mem, [w0, w1]), w2);
    var first := WriteBytes(mem, w0.addr, w0.bytes);
    WrittenIsRead(mem, w0);
    ReadIsKept(first, w0.addr, |w0.bytes|, w1);
    var second := WriteBytes(first, w1.addr, w1.bytes);
    ReadIsKept(second, w0.addr, |w0.bytes|, w2);
    WrittenIsRead(second, w2);
  }

  lemma WrittenIsRead(mem: Memory, w: Write)
    requires InMemory(mem, w.addr, |w.bytes|)
    ensures var next := WriteBytes(mem, w.addr, w.bytes);
            InMemory(next, w.addr, |w.bytes|) && ReadBytes(next, w.addr, |w.bytes|) == w.bytes
  {
  }

  /** What lies below a store is read as before. */
  lemma ReadIsKept(mem: Memory, a: int, n: nat, w: Write)
    requires InMemory(mem, w.addr, |w.bytes|) && InMemory(mem, a, n) && a + n <= w.addr
    ensures var next := WriteBytes(mem, w.addr, w.bytes);
            InMemory(next, a, n) && ReadBytes(next, a, n) == ReadBytes(mem, a, n)
  {
  }

  /** The message has been understood. */
  ghost predicate Arrives(pr: Protocol, tag: nat, v: Value, n: int, r: Option<Received>)
    requires IsProtocol(pr) && Known(pr, tag)
  {
    && r.Some? && r.value.rc == n && r.value.tag == tag
    && Represents(pr.p.types, r.value.obj, [], Body(pr, tag), v)
  }

  /** The tag filled in is the one that was read, if there is such a message. */
  lemma TagFilledIn(pr: Protocol, fuel: nat, len: nat, before: nat, read: nat, st: State)
    requires IsProtocol(pr)
    ensures var r := DeserializeBody(pr, fuel, len, before, read, st);
            r.Some? ==> r.value.tag == if Known(pr, read) then read else before
  {
    hide IsProtocol, Exec, Functions, Emit, Body, VersionField, InMemory, ReadBytes;
  }

  /** A tag that does not fit its two bytes is read as another one. */
  lemma LargeTagIsLost(pr: Protocol, fuel: nat, tag: nat, len: nat, before: nat, st: State)
    requires IsProtocol(pr) && Known(pr, tag) && tag >= 0x1_0000
    requires InMemory(st.mem, st.buf, 10) && FromBytes(ReadBytes(st.mem, st.buf + 8, 2)) == tag % 0x1_0000
    ensures var r := Deserialize(pr, fuel, len, before, st); r.Some? ==> r.value.tag != tag || r.value.rc == -1
  {
    hide IsProtocol, DeserializeBody, FromBytes, InMemory, ReadBytes;
    TagFilledIn(pr, fuel, len, before, tag % 0x1_0000, st);
    if tag % 0x1_0000 == 0 {
      NoMessage(pr, fuel, len, before, st);
    }
  }

  /** The bytes of no message are not those of the second magic. */
  lemma NoMessage(pr: Protocol, fuel: nat, len: nat, before: nat, st: State)
    requires IsProtocol(pr) && InMemory(st.mem, st.buf, 10) && FromBytes(ReadBytes(st.mem, st.buf + 8, 2)) == 0
    ensures var r := DeserializeBody(pr, fuel, len, before, 0, st); r.Some? ==> r.value.rc == -1
  {
    hide IsProtocol, Exec, Functions, Emit, Body, VersionField, FromBytes;
    var a := st.buf + 8;
    if InMemory(st.mem, a, 8) && ReadBytes(st.mem, a, 8) == MAGIC_END {
      StartsDead(st.mem, a);
    }
  }

  lemma StartsDead(mem: Memory, a: int)
    requires InMemory(mem, a, 8) && ReadBytes(mem, a, 8) == MAGIC_END
    ensures InMemory(mem, a, 2) && FromBytes(ReadBytes(mem, a, 2)) == 0xDEAD && ReadBytes(mem, a, 2) == [0xAD, 0xDE]
  {
    assert ReadBytes(mem, a, 8)[0] == 0xAD && ReadBytes(mem, a, 8)[1] == 0xDE;
    assert ReadBytes(mem, a, 2) == [0xAD, 0xDE];
    DeadIsMagic();
  }

  /** What a receiver makes of two magics with nothing between them: the message its tag happens to stand for, or
      whatever its message was before. */
  lemma NothingBetween(pr: Protocol, fuel: nat, tag: nat, len: nat, before: nat, st: State)
    requires IsProtocol(pr) && tag != 0xDEAD && len >= 16
    requires Holds(st.mem, [Write(st.buf, MAGIC_START), Write(st.buf + 8, MAGIC_END)])
    ensures var r := Deserialize(pr, fuel, len, before, st);
            if Known(pr, 0xDEAD) then r.Some? ==> r.value.tag != tag else r == Some(Received(16, before, st.obj))
  {
    hide IsProtocol, DeserializeBody, FromBytes, Holds, InMemory, ReadBytes;
    ReadsDead(st.mem, st.buf);
    TagFilledIn(pr, fuel, len, before, 0xDEAD, st);
    if !Known(pr, 0xDEAD) {
      NotKnown(pr, fuel, len, before, st);
    }
  }

  lemma NotKnown(pr: Protocol, fuel: nat, len: nat, before: nat, st: State)
    requires IsProtocol(pr) && !Known(pr, 0xDEAD) && len >= 16
    requires InMemory(st.mem, st.buf + 8, 8) && ReadBytes(st.mem, st.buf + 8, 8) == MAGIC_END
    ensures DeserializeBody(pr, fuel, len, before, 0xDEAD, st) == Some(Received(16, before, st.obj))
  {
    hide IsProtocol, Exec, Functions, Emit, Body, VersionField, FromBytes, InMemory, ReadBytes;
  }

  lemma ReadsDead(mem: Memory, a: int)
    requires Holds(mem, [Write(a, MAGIC_START), Write(a + 8, MAGIC_END)])
    ensures InMemory(mem, a, 10) && ReadBytes(mem, a, 8) == MAGIC_START
    ensures InMemory(mem, a + 8, 8) && ReadBytes(mem, a + 8, 8) == MAGIC_END
    ensures FromBytes(ReadBytes(mem, a + 8, 2)) == 0xDEAD && ReadBytes(mem, a + 8, 2) == [0xAD, 0xDE]
  {
    hide FromBytes;
    var ws := [Write(a, MAGIC_START), Write(a + 8, MAGIC_END)];
    assert ws[0] in ws && ws[1] in ws;
    StartsDead(mem, a + 8);
  }

  lemma DeadIsMagic()
    ensures FromBytes([0xAD, 0xDE]) == 0xDEAD && ToBytes(0xDEAD, 2) == [0xAD, 0xDE]
  {
    assert [0xAD, 0xDE][1..] == [0xDE] && [0xDE][1..] == [];
    assert FromBytes([0xDE]) == 0xDE;
    assert ToBytes(0xDE, 1) == [0xDE] + ToBytes(0, 0);
  }

  /** The one tag that survives: its bytes are the first of the second magic. */
  lemma DeadTagHolds(pr: Protocol, v: Value, mem: Memory, a: int)
    requires IsProtocol(pr) && Known(pr, 0xDEAD) && !HasFields(pr, 0xDEAD)
    requires Holds(mem, [Write(a, MAGIC_START), Write(a + 8, MAGIC_END)])
    ensures Holds(mem, Image(pr, 0xDEAD, v, a))
  {
    hide IsProtocol, BodyPlan, HasFields, FromBytes, ToBytes;
    EmptyImage(pr, 0xDEAD, v, a);
    ReadsDead(mem, a);
    DeadIsMagic();
    var ws := [Write(a, MAGIC_START), Write(a + 8, MAGIC_END)];
    assert ws[0] in ws && ws[1] in ws;
  }

  lemma {:induction false} NotWritten(ws: seq<Write>, ws': seq<Write>, x: int)
    requires Written(ws, x) && forall w :: w in ws ==> w in ws'
    ensures Written(ws', x)
  {
    var i :| 0 <= i < |ws| && ws[i].addr <= x < ws[i].addr + |ws[i].bytes|;
    assert ws[i] in ws';
    var j :| 0 <= j < |ws'| && ws'[j] == ws[i];
  }

  lemma CopyFewer(ws: seq<Write>, ws': seq<Write>, from: Memory, to: Memory, d: int)
    requires Copied(ws', from, to, d) && forall w :: w in ws ==> w in ws'
    ensures Copied(ws, from, to, d)
  {
    forall x | Written(ws, x) && x in from ensures x + d in to && to[x + d] == from[x] {
      NotWritten(ws, ws', x);
    }
  }

  lemma FoundAgain(pr: Protocol, fuel: nat, tag: nat, v: Value, len: nat, st: State, out: State, mem: Memory, a: int)
    requires IsProtocol(pr) && Known(pr, tag) && Sent(pr, fuel, tag, v, len, st, out) && HasFields(pr, tag)
    requires Multiple(a - st.buf, 8) && Copied(Image(pr, tag, v, st.buf), out.mem, mem, a - st.buf)
    ensures Holds(mem, Image(pr, tag, v, a)) && BodyPlan(pr, tag, v, a).end + 8 - a == out.buf - st.buf
  {
    hide IsProtocol, BodyPlan, HasFields, Sent, Image, Holds, Copied, Multiple, Fits, Apply;
    SentApplies(pr, fuel, tag, v, len, st, out);
    SentHolds(pr, fuel, tag, v, len, st, out);
    CopyHolds(Image(pr, tag, v, st.buf), out.mem, mem, a - st.buf);
    ImageMoves(pr, tag, v, st.buf, a - st.buf);
    assert st.buf + (a - st.buf) == a;
  }

  /** Found again at a multiple of 8 from where it was sent, a message arrives exactly if the receiver has a place for it. */
  lemma ArrivesIfPlaced(pr: Protocol, fuel: nat, tag: nat, v: Value, len: nat, st: State, out: State,
                        len': nat, before: nat, st': State)
    requires IsProtocol(pr) && Known(pr, tag) && Sent(pr, fuel, tag, v, len, st, out)
    requires HasFields(pr, tag) && tag < 0x1_0000
    requires Multiple(st'.buf - st.buf, 8) && Copied(Image(pr, tag, v, st.buf), out.mem, st'.mem, st'.buf - st.buf)
    requires out.buf - st.buf <= len'
    ensures Arrives(pr, tag, v, out.buf - st.buf, Deserialize(pr, fuel, len', before, st')) <==>
            HasPlace(pr, tag, v, st'.obj)
  {
    hide IsProtocol, BodyPlan, HasFields, Sent, Image, Holds, Copied, Multiple, Deserialize, Represents, Body,
      Carries, Encodable, VersionField, Valid, Emits, IsCall, Size, HasPlace;
    SentIsLong(pr, fuel, tag, v, len, st, out);
    FoundAgain(pr, fuel, tag, v, len, st, out, st'.mem, st'.buf);
    var _ := Reads(pr, pr, fuel, tag, v, len', before, st');
  }

  /** A message arrives exactly if it has fields, its tag fits two bytes and the receiver has a place for it; without
      fields just the one whose tag happens to be the beginning of the second magic, or one that the receiver's
      message was before, if no message has that tag. */
  lemma MessageRoundTrip(pr: Protocol, fuel: nat, tag: nat, v: Value, len: nat, st: State, out: State,
                         len': nat, before: nat, st': State)
    requires IsProtocol(pr) && Known(pr, tag) && Sent(pr, fuel, tag, v, len, st, out)
    requires Multiple(st'.buf - st.buf, 8) && Copied(Image(pr, tag, v, st.buf), out.mem, st'.mem, st'.buf - st.buf)
    requires out.buf - st.buf <= len'
    ensures Arrives(pr, tag, v, out.buf - st.buf, Deserialize(pr, fuel, len', before, st')) <==>
            if HasFields(pr, tag) then tag < 0x1_0000 && HasPlace(pr, tag, v, st'.obj)
            else tag == 0xDEAD || (before == tag && !Known(pr, 0xDEAD))
  {
    hide IsProtocol, BodyPlan, HasFields, Sent, Image, Holds, Copied, Multiple, Deserialize, Represents, Body,
      Carries, Encodable,
      VersionField, Valid, Emits, IsCall, Size, HasPlace;
    SentIsLong(pr, fuel, tag, v, len, st, out);
    if !HasFields(pr, tag) {
      EmptyMessage(pr, fuel, tag, v, len, st, out, len', before, st');
    } else {
      if tag < 0x1_0000 {
        ArrivesIfPlaced(pr, fuel, tag, v, len, st, out, len', before, st');
      } else {
        FoundAgain(pr, fuel, tag, v, len, st, out, st'.mem, st'.buf);
        ImageHolds(pr, tag, v, st'.mem, st'.buf);
        LargeTagIsLost(pr, fuel, tag, len', before, st');
      }
    }
  }

  lemma SentIsLong(pr: Protocol, fuel: nat, tag: nat, v: Value, len: nat, st: State, out: State)
    requires IsProtocol(pr) && Known(pr, tag) && Sent(pr, fuel, tag, v, len, st, out)
    ensures out.buf - st.buf >= 16 && Carries(pr, tag, v) && Encodable(pr.p.types, Body(pr, tag), v) && fuel >= Size(v)
  {
    hide IsProtocol, PlanOf, Represents, Encodable, Stamped, Serialize, HasRoom, Carries;
    SentApplies(pr, fuel, tag, v, len, st, out);
    HoldingCarries(pr, fuel, tag, v, st.obj);
    PlanGrows(pr, tag, v, st.buf);
  }

  lemma PlanGrows(pr: Protocol, tag: nat, v: Value, a: int)
    requires IsProtocol(pr) && Known(pr, tag)
    ensures BodyPlan(pr, tag, v, a).end >= a + 8
  {
    hide IsProtocol, PlanOf, Valid, Emits;
    PlanIsOrdered(pr.p, Body(pr, tag), v, BODY, a + 8);
    OrderedFrom(BodyPlan(pr, tag, v, a).writes, a + 8, a + 8, BodyPlan(pr, tag, v, a).end);
  }

  lemma NothingHasPlace(pr: Protocol, tag: nat, v: Value, obj: Object)
    requires IsProtocol(pr) && Known(pr, tag) && !HasFields(pr, tag) && Encodable(pr.p.types, Body(pr, tag), v)
    ensures HasPlace(pr, tag, v, obj)
  {
    hide IsProtocol, Encodable, Takes, Leaves;
    var p, t := pr.p, Body(pr, tag);
    LayoutLeaves(p.types, p.align, t, p.layouts[t]);
    LeavesTake(p.types, obj, [], t, v);
  }

  lemma NothingToHold(pr: Protocol, tag: nat, v: Value, obj: Object)
    requires IsProtocol(pr) && Known(pr, tag) && !HasFields(pr, tag) && Encodable(pr.p.types, Body(pr, tag), v)
    ensures Represents(pr.p.types, obj, [], Body(pr, tag), v)
  {
    hide IsProtocol, Encodable, Represents, Leaves;
    var p, t := pr.p, Body(pr, tag);
    LayoutLeaves(p.types, p.align, t, p.layouts[t]);
    LeavesRepresent(p.types, obj, [], t, v);
  }

  lemma EmptyMessage(pr: Protocol, fuel: nat, tag: nat, v: Value, len: nat, st: State, out: State,
                     len': nat, before: nat, st': State)
    requires IsProtocol(pr) && Known(pr, tag) && Sent(pr, fuel, tag, v, len, st, out) && !HasFields(pr, tag)
    requires Copied(Image(pr, tag, v, st.buf), out.mem, st'.mem, st'.buf - st.buf)
    requires 16 <= len'
    ensures Arrives(pr, tag, v, out.buf - st.buf, Deserialize(pr, fuel, len', before, st')) <==>
            tag == 0xDEAD || (before == tag && !Known(pr, 0xDEAD))
  {
    hide IsProtocol, BodyPlan, HasFields, Sent, Copied, Holds, Deserialize, Represents, Body, Carries, ToBytes, Encodable, HasPlace;
    var a, d := st.buf, st'.buf - st.buf;
    TagIsLost(pr, fuel, tag, v, len, st, out);
    EmptyImage(pr, tag, v, a);
    var ws := [Write(a, MAGIC_START), Write(a + 8, MAGIC_END)];
    assert forall w :: w in ws ==> w in Image(pr, tag, v, a);
    CopyFewer(ws, Image(pr, tag, v, a), out.mem, st'.mem, d);
    CopyHolds(ws, out.mem, st'.mem, d);
    assert Moved(ws, d) == [Write(st'.buf, MAGIC_START), Write(st'.buf + 8, MAGIC_END)];
    if tag == 0xDEAD {
      DeadTagHolds(pr, v, st'.mem, st'.buf);
      SentIsLong(pr, fuel, tag, v, len, st, out);
      EmptyImage(pr, tag, v, st'.buf);
      NothingHasPlace(pr, tag, v, st'.obj);
      var _ := Reads(pr, pr, fuel, tag, v, len', before, st');
    } else {
      NothingBetween(pr, fuel, tag, len', before, st');
      SentIsLong(pr, fuel, tag, v, len, st, out);
      NothingToHold(pr, tag, v, st'.obj);
    }
  }
}
