/** The flat form as its readers see it: records that say how long they are (json.c, util.h). */
module JsonNesting {
  import opened Collections
  import opened Machine
  import opened Json
  import opened JsonRoundTrip

  predicate HasHeader(buf: seq<Byte>, a: nat) {
    a + 8 <= |buf|
  }

  function Kind(buf: seq<Byte>, a: nat): nat
    requires HasHeader(buf, a)
  {
    FromBytes(buf[a..a + 4])
  }

  function Len(buf: seq<Byte>, a: nat): nat
    requires HasHeader(buf, a)
  {
    FromBytes(buf[a + 4..a + 8])
  }

  /** One step over a record, as json_adapt takes it. */
  function Next(buf: seq<Byte>, a: nat): (n: nat)
    requires HasHeader(buf, a)
    ensures n >= a + 8
  {
    a + 8 + Align8(Len(buf, a))
  }

  /** Steps from a that come to end exactly, over records that are well nested themselves. */
  predicate Walks(buf: seq<Byte>, a: nat, end: nat)
    requires end <= |buf|
    decreases end - a, 1
  {
    a == end || (a + 8 <= end && Next(buf, a) <= end && WellNested(buf, a, Next(buf, a)) && Walks(buf, Next(buf, a), end))
  }

  /** The record at a is aligned and ends at end; the length of a container spans exactly its contents. */
  predicate WellNested(buf: seq<Byte>, a: nat, end: nat)
    requires end <= |buf|
    decreases end - a, 0
  {
    && a % 8 == 0 && a + 8 <= end && Next(buf, a) == end && 1 <= Kind(buf, a) <= 6
    && (Kind(buf, a) == 2 || Kind(buf, a) == 5 ==> Len(buf, a) == 8)
    && (Kind(buf, a) == 6 ==> Len(buf, a) == 0)
    && (Kind(buf, a) == 3 || Kind(buf, a) == 4 ==> Len(buf, a) == end - (a + 8) && Walks(buf, a + 8, end))
    && (Kind(buf, a) == 3 ==> KeysAlternate(buf, a + 8, end))
  }

  /** Every other record of an object is a string. */
  predicate KeysAlternate(buf: seq<Byte>, a: nat, end: nat)
    requires end <= |buf|
    decreases end - a
  {
    a == end ||
    (a + 8 <= end && Kind(buf, a) == 1 && Next(buf, a) + 8 <= end && KeysAlternate(buf, Next(buf, Next(buf, a)), end))
  }

  /** The number of steps. */
  function Steps(buf: seq<Byte>, a: nat, end: nat): nat
    requires end <= |buf| && Walks(buf, a, end)
    decreases end - a
  {
    if a == end then 0 else 1 + Steps(buf, Next(buf, a), end)
  }

  lemma HeaderRead(buf: seq<Byte>, a: nat, kind: nat, len: nat, body: seq<Byte>)
    requires At(buf, a, Header(kind, len) + body) && kind < 0x1_0000_0000 && len < 0x1_0000_0000
    ensures HasHeader(buf, a) && Kind(buf, a) == kind && Len(buf, a) == len && At(buf, a + 8, body)
  {
    hide ToBytes, FromBytes;
    AtBoth(buf, a, Header(kind, len), body);
    AtBoth(buf, a, ToBytes(kind, 4), ToBytes(len, 4));
    FourBytes();
    BytesRoundTrip(kind, 4);
    BytesRoundTrip(len, 4);
  }

  lemma FourBytes()
    ensures Pow256(4) == 0x1_0000_0000
  {
    assert Pow256(1) == 256 && Pow256(2) == 0x1_0000 && Pow256(3) == 0x100_0000;
  }

  lemma AlignedLength(n: nat)
    requires Aligned(n)
    ensures Align8(n) == n
  {
  }

  lemma StringNested(buf: seq<Byte>, a: nat, bytes: seq<Byte>)
    requires At(buf, a, FlatString(bytes)) && Aligned(a) && |buf| < 0x1_0000_0000
    ensures var end := a + |FlatString(bytes)|;
            end <= |buf| && WellNested(buf, a, end) && Kind(buf, a) == 1 && Next(buf, a) == end
  {
    hide Header, Align8, Kind, Len;
    HeaderRead(buf, a, 1, |bytes|, bytes + Zeros(Align8(|bytes|) - |bytes|));
  }

  /** Every tree is written as a well nested record. */
  lemma {:induction false} Nested(buf: seq<Byte>, a: nat, t: Tree)
    requires At(buf, a, Flat(t)) && Aligned(a) && |buf| < 0x1_0000_0000
    ensures a + |Flat(t)| <= |buf| && WellNested(buf, a, a + |Flat(t)|)
    decreases t
  {
    hide Header, Align8, Kind, Len, FlatAll, FlatMembers, FlatString, Walks, KeysAlternate, ToBytes;
    match t {
      case String(bytes) => StringNested(buf, a, bytes);
      case Number(bits) =>
        HeaderRead(buf, a, 2, 8, ToBytes(bits, 8));
        AlignedLength(8);
      case Boolean(b) =>
        HeaderRead(buf, a, 5, 8, ToBytes(if b then 1 else 0, 8));
        AlignedLength(8);
      case Null =>
        assert Header(6, 0) + [] == Header(6, 0);
        HeaderRead(buf, a, 6, 0, []);
        AlignedLength(0);
      case Array(ts) =>
        HeaderRead(buf, a, 4, |FlatAll(ts)|, FlatAll(ts));
        AllAligned(ts);
        AlignedLength(|FlatAll(ts)|);
        AllNested(buf, a + 8, ts);
      case Object(ms) =>
        HeaderRead(buf, a, 3, |FlatMembers(ms)|, FlatMembers(ms));
        MembersAligned(ms);
        AlignedLength(|FlatMembers(ms)|);
        MembersNested(buf, a + 8, ms);
    }
  }

  lemma {:induction false} AllNested(buf: seq<Byte>, a: nat, ts: seq<Tree>)
    requires At(buf, a, FlatAll(ts)) && Aligned(a) && |buf| < 0x1_0000_0000
    ensures var end := a + |FlatAll(ts)|; end <= |buf| && Walks(buf, a, end) && Steps(buf, a, end) == |ts|
    decreases ts
  {
    hide At, Flat, WellNested, Aligned;
    AtFits(buf, a, FlatAll(ts));
    if ts != [] {
      AtBoth(buf, a, Flat(ts[0]), FlatAll(ts[1..]));
      Nested(buf, a, ts[0]);
      NestedEnds(buf, a, a + |Flat(ts[0])|);
      FlatAligned(ts[0]);
      SumAligned(a, |Flat(ts[0])|);
      AllNested(buf, a + |Flat(ts[0])|, ts[1..]);
    }
  }

  lemma AtFits(buf: seq<Byte>, a: nat, text: seq<Byte>)
    requires At(buf, a, text)
    ensures a + |text| <= |buf|
  {
  }

  lemma NestedEnds(buf: seq<Byte>, a: nat, end: nat)
    requires end <= |buf| && WellNested(buf, a, end)
    ensures a + 8 <= end && Next(buf, a) == end
  {
  }

  lemma {:induction false} MembersNested(buf: seq<Byte>, a: nat, ms: seq<Member>)
    requires At(buf, a, FlatMembers(ms)) && Aligned(a) && |buf| < 0x1_0000_0000
    ensures var end := a + |FlatMembers(ms)|;
            end <= |buf| && Walks(buf, a, end) && KeysAlternate(buf, a, end) && Steps(buf, a, end) == 2 * |ms|
    decreases ms
  {
    hide At, Flat, FlatString, WellNested, Aligned, Kind, Next;
    AtFits(buf, a, FlatMembers(ms));
    if ms != [] {
      var key, value := FlatString(ms[0].key), Flat(ms[0].value);
      var b := a + |key|;
      var c := b + |value|;
      AtBoth(buf, a, key, value + FlatMembers(ms[1..]));
      AtBoth(buf, b, value, FlatMembers(ms[1..]));
      StringNested(buf, a, ms[0].key);
      StringAligned(ms[0].key);
      SumAligned(a, |key|);
      Nested(buf, b, ms[0].value);
      NestedEnds(buf, b, c);
      FlatAligned(ms[0].value);
      SumAligned(b, |value|);
      MembersNested(buf, c, ms[1..]);
      TwoSteps(buf, a, b, c, a + |FlatMembers(ms)|);
    }
  }

  lemma TwoSteps(buf: seq<Byte>, a: nat, b: nat, c: nat, end: nat)
    requires a + 8 <= b && b + 8 <= c <= end <= |buf| && Next(buf, a) == b && Next(buf, b) == c
    requires WellNested(buf, a, b) && WellNested(buf, b, c) && Kind(buf, a) == 1
    requires Walks(buf, c, end) && KeysAlternate(buf, c, end)
    ensures Walks(buf, a, end) && KeysAlternate(buf, a, end) && Steps(buf, a, end) == 2 + Steps(buf, c, end)
  {
    hide WellNested, Kind, Next;
    assert Walks(buf, b, end);
    assert Steps(buf, b, end) == 1 + Steps(buf, c, end);
  }

  /** Whatever the parser accepts, it leaves a well nested record at the start of the buffer. */
  lemma AcceptedIsNested(s: seq<Byte>, cap: nat, f: Doubles, tail: seq<Byte>)
    requires ValueAt(s, 0, cap, f).Ok? && cap == |Flat(ValueAt(s, 0, cap, f).value) + tail| < 0x1_0000_0000
    ensures var n := |Flat(ValueAt(s, 0, cap, f).value)|;
            n < cap && WellNested(Flat(ValueAt(s, 0, cap, f).value) + tail, 0, n)
  {
    hide ValueAt, Flat, WellNested;
    var t := ValueAt(s, 0, cap, f).value;
    assert (Flat(t) + tail)[0..0 + |Flat(t)|] == Flat(t);
    EightAligned();
    Nested(Flat(t) + tail, 0, t);
  }

  /** The counting loop of json_adapt over the array at a. */
  method CountElements(buf: seq<Byte>, a: nat, ghost ts: seq<Tree>) returns (len: nat)
    requires At(buf, a, Flat(Array(ts))) && Aligned(a) && |buf| < 0x1_0000_0000
    ensures len == |ts|
  {
    hide At, WellNested, Flat, FlatAll, Next, Kind, Len;
    ArrayAtStart(buf, a, ts);
    var cursor := a + 8;
    var end := cursor + Len(buf, a);
    len := 0;
    while cursor < end
      invariant cursor <= end <= |buf| && Walks(buf, cursor, end) && len + Steps(buf, cursor, end) == |ts|
      decreases end - cursor
    {
      cursor := Next(buf, cursor);
      len := len + 1;
    }
  }

  lemma ArrayAtStart(buf: seq<Byte>, a: nat, ts: seq<Tree>)
    requires At(buf, a, Flat(Array(ts))) && Aligned(a) && |buf| < 0x1_0000_0000
    ensures HasHeader(buf, a) && a + 8 + Len(buf, a) <= |buf|
    ensures Walks(buf, a + 8, a + 8 + Len(buf, a)) && Steps(buf, a + 8, a + 8 + Len(buf, a)) == |ts|
  {
    hide Walks, Steps, Header, FlatAll, Kind, Len;
    HeaderRead(buf, a, 4, |FlatAll(ts)|, FlatAll(ts));
    AllNested(buf, a + 8, ts);
  }

  /** How json_adapt moves over a value that no property asks for: containers by what they contain. */
  method WalkValue(buf: seq<Byte>, a: nat, ghost end: nat) returns (cursor: nat)
    requires end <= |buf| && WellNested(buf, a, end)
    ensures cursor == end
    decreases end - a
  {
    hide Walks, KeysAlternate, Kind, Len, Next;
    RecordIs(buf, a, end);
    var kind, len := Kind(buf, a), Len(buf, a);
    cursor := a + 8;
    if kind == 1 {
      cursor := cursor + Align8(len);
    } else if kind == 2 || kind == 5 {
      cursor := cursor + 8;
    } else if kind == 4 {
      var stop := cursor + len;
      while cursor < stop
        invariant a + 8 <= cursor <= stop == end && Walks(buf, cursor, end)
        decreases stop - cursor
      {
        StepIs(buf, cursor, end);
        cursor := WalkValue(buf, cursor, Next(buf, cursor));
      }
    } else if kind == 3 {
      var stop := cursor + len;
      while cursor < stop
        invariant a + 8 <= cursor <= stop == end && Walks(buf, cursor, end) && KeysAlternate(buf, cursor, end)
        decreases stop - cursor
      {
        StepIs(buf, cursor, end);
        KeyIs(buf, cursor, end);
        cursor := cursor + 8 + Align8(Len(buf, cursor));
        StepIs(buf, cursor, end);
        cursor := WalkValue(buf, cursor, Next(buf, cursor));
      }
    }
  }

  lemma RecordIs(buf: seq<Byte>, a: nat, end: nat)
    requires end <= |buf| && WellNested(buf, a, end)
    ensures HasHeader(buf, a) && a + 8 <= end && 1 <= Kind(buf, a) <= 6
    ensures match Kind(buf, a)
            case 1 => end == a + 8 + Align8(Len(buf, a))
            case 3 => end == a + 8 + Len(buf, a) && Walks(buf, a + 8, end) && KeysAlternate(buf, a + 8, end)
            case 4 => end == a + 8 + Len(buf, a) && Walks(buf, a + 8, end)
            case 6 => end == a + 8
            case _ => end == a + 16
  {
    hide Walks, KeysAlternate, Kind, Len;
    AlignedLength(0);
    AlignedLength(8);
  }

  lemma StepIs(buf: seq<Byte>, a: nat, end: nat)
    requires a < end <= |buf| && Walks(buf, a, end)
    ensures HasHeader(buf, a) && a + 8 <= Next(buf, a) <= end && WellNested(buf, a, Next(buf, a)) && Walks(buf, Next(buf, a), end)
    ensures Next(buf, a) == a + 8 + Align8(Len(buf, a))
  {
    hide WellNested, Len;
  }

  lemma KeyIs(buf: seq<Byte>, a: nat, end: nat)
    requires a < end <= |buf| && KeysAlternate(buf, a, end)
    ensures HasHeader(buf, a) && Next(buf, a) < end && HasHeader(buf, Next(buf, a))
    ensures Next(buf, Next(buf, a)) <= end ==> KeysAlternate(buf, Next(buf, Next(buf, a)), end)
  {
    hide Len;
  }
}
