/** The receive loop (client.c): look at the front of the stream, deserialize it, drop the length returned. */
module Framing {
  import opened Collections
  import opened Schema
  import opened Layouts
  import opened Machine
  import opened Values
  import opened Emitter
  import opened Plans
  import opened RoundTrips
  import opened Messages

  /** bs is found in memory from address a on. */
  ghost predicate LiesAt(mem: Memory, a: int, bs: seq<Byte>) {
    forall x :: a <= x < a + |bs| ==> x in mem && mem[x] == bs[x - a]
  }

  function Range(a: int, n: nat): (r: set<int>)
    ensures forall x :: x in r <==> a <= x < a + n
  {
    if n == 0 then {} else Range(a, n - 1) + {a + n - 1}
  }

  /** A buffer with bs at address a; whatever lay there before stays behind and around it. */
  function Placed(stale: Memory, bs: seq<Byte>, a: int): (mem: Memory)
    ensures LiesAt(mem, a, bs)
  {
    var all := stale.Keys + Range(a, |bs|);
    map x | x in all :: if a <= x < a + |bs| then bs[x - a] else stale[x]
  }

  /** bs is a serialized message, with anything as padding. */
  ghost predicate IsMessageBytes(pr: Protocol, tag: nat, v: Value, bs: seq<Byte>)
    requires IsProtocol(pr) && Known(pr, tag)
  {
    |bs| == Length(pr, tag, v) && Holds(Placed(map[], bs, 0), Image(pr, tag, v, 0))
  }

  lemma {:induction false} WithinBounds(ws: seq<Write>, lo: int, hi: int, x: int)
    requires Ordered(ws, lo, hi) && Written(ws, x)
    ensures lo <= x < hi
    decreases |ws|
  {
    var i :| 0 <= i < |ws| && ws[i].addr <= x < ws[i].addr + |ws[i].bytes|;
    OrderedFrom(ws[1..], ws[0].addr + |ws[0].bytes|, ws[0].addr + |ws[0].bytes|, hi);
    if i > 0 {
      assert ws[1..][i - 1] == ws[i];
      WithinBounds(ws[1..], ws[0].addr + |ws[0].bytes|, hi, x);
    }
  }

  lemma LengthIs(pr: Protocol, tag: nat, v: Value)
    requires IsProtocol(pr) && Known(pr, tag)
    ensures Length(pr, tag, v) == BodyPlan(pr, tag, v, 0).end + 8
  {
  }

  lemma CopyBytes(ws: seq<Write>, lo: int, hi: int, from: Memory, to: Memory, d: int)
    requires Ordered(ws, lo, hi)
    requires forall x :: lo <= x < hi && x in from ==> x + d in to && to[x + d] == from[x]
    ensures Copied(ws, from, to, d)
  {
    forall x | Written(ws, x) && x in from ensures x + d in to && to[x + d] == from[x] {
      WithinBounds(ws, lo, hi, x);
    }
  }

  lemma ReadAndPlaced(mem: Memory, a: int, n: nat)
    requires InMemory(mem, a, n)
    ensures var to := Placed(map[], ReadBytes(mem, a, n), 0);
            forall x :: a <= x < a + n && x in mem ==> x + (0 - a) in to && to[x + (0 - a)] == mem[x]
  {
    var bs := ReadBytes(mem, a, n);
    var to := Placed(map[], bs, 0);
    forall x | a <= x < a + n && x in mem ensures x + (0 - a) in to && to[x + (0 - a)] == mem[x] {
      var i := x - a;
      assert bs[i] == mem[a + i];
      assert 0 + i in to && to[0 + i] == bs[i];
    }
  }

  /** What a serializer has written at a multiple of 8 is such a sequence of bytes. */
  lemma SentBytes(pr: Protocol, fuel: nat, tag: nat, v: Value, len: nat, st: State, out: State)
    requires IsProtocol(pr) && Known(pr, tag) && Sent(pr, fuel, tag, v, len, st, out)
    requires HasFields(pr, tag) && Multiple(0 - st.buf, 8)
    requires out.buf >= st.buf && InMemory(out.mem, st.buf, out.buf - st.buf)
    ensures IsMessageBytes(pr, tag, v, ReadBytes(out.mem, st.buf, out.buf - st.buf))
  {
    hide IsProtocol, BodyPlan, HasFields, Sent, Image, Holds, Ordered, Multiple, Length, Fits, Apply, Copied, Placed,
      InMemory,
      ReadBytes;
    var n, ws := out.buf - st.buf, Image(pr, tag, v, st.buf);
    var bs := ReadBytes(out.mem, st.buf, n);
    SentApplies(pr, fuel, tag, v, len, st, out);
    SentHolds(pr, fuel, tag, v, len, st, out);
    ImageIsOrdered(pr, tag, v, st.buf);
    var mem := Placed(map[], bs, 0);
    ReadAndPlaced(out.mem, st.buf, n);
    CopyBytes(ws, st.buf, out.buf, out.mem, mem, 0 - st.buf);
    CopyHolds(ws, out.mem, mem, 0 - st.buf);
    ImageMoves(pr, tag, v, st.buf, 0 - st.buf);
    assert st.buf + (0 - st.buf) == 0;
    LengthIs(pr, tag, v);
  }

  /** What the receiver is told about. */
  datatype Message = Message(tag: nat, v: Value)

  /** A message that can be sent, and that no receiver need have set pointers for. */
  ghost predicate IsSendable(pr: Protocol, fuel: nat, m: Message)
    requires IsProtocol(pr)
  {
    && Known(pr, m.tag) && HasFields(pr, m.tag) && m.tag < 0x1_0000 && fuel >= Size(m.v)
    && Encodable(pr.p.types, Body(pr, m.tag), m.v) && Carries(pr, m.tag, m.v) && HasPlace(pr, m.tag, m.v, FRESH)
  }

  lemma PlaceAnywhere(pr: Protocol, tag: nat, v: Value, obj: Object)
    requires IsProtocol(pr) && Known(pr, tag) && HasPlace(pr, tag, v, FRESH)
    ensures HasPlace(pr, tag, v, obj)
  {
    hide IsProtocol, Takes, Body;
    TakesMore(pr.p.types, obj, [], Body(pr, tag), v);
  }

  /** A message at the front of a buffer is read whatever comes after it. */
  lemma FrontMessage(pr: Protocol, fuel: nat, m: Message, bs: seq<Byte>, len: nat, before: nat,
                     st: State) returns (obj: Object)
    requires IsProtocol(pr) && IsSendable(pr, fuel, m) && IsMessageBytes(pr, m.tag, m.v, bs)
    requires Multiple(st.buf, 8) && |bs| <= len
    requires LiesAt(st.mem, st.buf, bs)
    ensures Deserialize(pr, fuel, len, before, st) == Some(Received(|bs|, m.tag, obj))
    ensures Represents(pr.p.types, obj, [], Body(pr, m.tag), m.v)
  {
    hide IsProtocol, BodyPlan, HasFields, Image, Holds, Ordered, Multiple, Fits, Apply, Copied, Deserialize, Represents,
      Body, Carries, Encodable, VersionField, Valid, Emits, Size, Length, Known, IsCall, HasPlace;
    var mem := Placed(map[], bs, 0);
    var ws := Image(pr, m.tag, m.v, 0);
    ImageIsOrdered(pr, m.tag, m.v, 0);
    LengthIs(pr, m.tag, m.v);
    forall x | 0 <= x < |bs| && x in mem ensures x + st.buf in st.mem && st.mem[x + st.buf] == mem[x] {
      assert mem[0 + x] == bs[x] && st.mem[st.buf + x] == bs[x];
    }
    CopyBytes(ws, 0, |bs|, mem, st.mem, st.buf);
    CopyHolds(ws, mem, st.mem, st.buf);
    ImageMoves(pr, m.tag, m.v, 0, st.buf);
    assert 0 + st.buf == st.buf && Holds(st.mem, Image(pr, m.tag, m.v, st.buf));
    PlaceAnywhere(pr, m.tag, m.v, st.obj);
    var got := Reads(pr, pr, fuel, m.tag, m.v, len, before, st);
    obj := got.value;
  }

  /** One round of the loop: at most window bytes are looked at, in a buffer at base; None is a failure. */
  ghost function Receive(pr: Protocol, fuel: nat, base: int, window: nat, stale: Memory, stream: seq<Byte>,
                         last: Received)
    : Option<(Received, seq<Byte>)>
    requires IsProtocol(pr)
  {
    var peek := if |stream| < window then stream else stream[..window];
    match Deserialize(pr, fuel, |peek|, last.tag, State(Placed(stale, peek, base), base, last.obj))
    case None => None
    case Some(r) => if 0 <= r.rc <= |stream| then Some((r, stream[r.rc..])) else None
  }

  /** What the rounds yield one after the other, and what is left of the stream. */
  ghost function ReceiveAll(pr: Protocol, fuel: nat, base: int, window: nat, stale: seq<Memory>, stream: seq<Byte>,
                            last: Received)
    : Option<(seq<Received>, seq<Byte>)>
    requires IsProtocol(pr)
  {
    if stale == [] then Some(([], stream))
    else match Receive(pr, fuel, base, window, stale[0], stream, last)
      case None => None
      case Some(got) =>
        match ReceiveAll(pr, fuel, base, window, stale[1..], got.1, got.0)
        case None => None
        case Some(rest) => Some(([got.0] + rest.0, rest.1))
  }

  function Concat(bss: seq<seq<Byte>>): seq<Byte> {
    if bss == [] then [] else bss[0] + Concat(bss[1..])
  }

  ghost predicate IsRun(pr: Protocol, fuel: nat, window: nat, ms: seq<Message>, bss: seq<seq<Byte>>)
    requires IsProtocol(pr)
  {
    && |ms| == |bss|
    && (forall i :: 0 <= i < |ms| ==> IsSendable(pr, fuel, ms[i]))
    && forall i :: 0 <= i < |ms| ==> IsMessageBytes(pr, ms[i].tag, ms[i].v, bss[i]) && |bss[i]| <= window
  }

  ghost predicate IsDelivery(pr: Protocol, m: Message, r: Received)
    requires IsProtocol(pr)
  {
    Known(pr, m.tag) && r.tag == m.tag && Represents(pr.p.types, r.obj, [], Body(pr, m.tag), m.v)
  }

  lemma PrefixLies(mem: Memory, a: int, peek: seq<Byte>, bs: seq<Byte>)
    requires LiesAt(mem, a, peek) && bs <= peek
    ensures LiesAt(mem, a, bs)
  {
    assert forall i :: 0 <= i < |bs| ==> peek[i] == bs[i];
  }

  lemma ReceiveOne(pr: Protocol, fuel: nat, base: int, window: nat, stale: Memory, m: Message, bs: seq<Byte>,
                   tail: seq<Byte>,
                   last: Received) returns (r: Received)
    requires IsProtocol(pr) && IsSendable(pr, fuel, m) && IsMessageBytes(pr, m.tag, m.v, bs)
    requires Multiple(base, 8) && |bs| <= window
    ensures Receive(pr, fuel, base, window, stale, bs + tail, last) == Some((r, tail)) && IsDelivery(pr, m, r)
  {
    hide IsProtocol, IsMessageBytes, Deserialize, Represents, Body, Multiple, Placed, LiesAt, Valid, Emits, IsCall,
      HasFields, Carries, Encodable, Size, HasPlace;
    var stream := bs + tail;
    var peek := if |stream| < window then stream else stream[..window];
    var mem := Placed(stale, peek, base);
    PrefixLies(mem, base, peek, bs);
    var obj := FrontMessage(pr, fuel, m, bs, |peek|, last.tag, State(mem, base, last.obj));
    r := Received(|bs|, m.tag, obj);
    assert stream[|bs|..] == tail;
  }

  /** Serialized messages written one after the other to a stream are received one by one, in
      order, and what follows them is left in the stream. */
  lemma {:induction false} Framed(pr: Protocol, fuel: nat, base: int, window: nat, stale: seq<Memory>, ms: seq<Message>,
                                  bss: seq<seq<Byte>>, tail: seq<Byte>, last: Received) returns (rs: seq<Received>)
    requires IsProtocol(pr) && IsRun(pr, fuel, window, ms, bss) && |stale| == |ms| && Multiple(base, 8)
    ensures ReceiveAll(pr, fuel, base, window, stale, Concat(bss) + tail, last) == Some((rs, tail))
    ensures |rs| == |ms| && forall i :: 0 <= i < |ms| ==> IsDelivery(pr, ms[i], rs[i])
    decreases |ms|
  {
    hide IsProtocol, IsMessageBytes, IsSendable, IsDelivery, Receive, Multiple;
    if ms == [] {
      rs := [];
      assert Concat(bss) + tail == tail;
    } else {
      assert Concat(bss) + tail == bss[0] + (Concat(bss[1..]) + tail);
      var first := ReceiveOne(pr, fuel, base, window, stale[0], ms[0], bss[0], Concat(bss[1..]) + tail, last);
      var rest := Framed(pr, fuel, base, window, stale[1..], ms[1..], bss[1..], tail, first);
      rs := [first] + rest;
    }
  }
}
