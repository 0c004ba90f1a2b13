/** The flat form read back, as its consumers read it (json.c:606-659 and 733-786), and what a text comes to in bytes. */
module JsonReader {
  import opened Collections
  import opened Machine
  import opened Json
  import opened JsonRoundTrip
  import opened JsonNesting

  /** The eight bytes after a header as one number. */
  function Eight(buf: seq<Byte>, a: nat): nat
    requires a + 16 <= |buf|
  {
    FromBytes(buf[a + 8..a + 16])
  }

  /** The contents of a string: as many bytes as its header says. */
  function Contents(buf: seq<Byte>, a: nat): seq<Byte>
    requires HasHeader(buf, a) && Next(buf, a) <= |buf|
  {
    buf[a + 8..a + 8 + Len(buf, a)]
  }

  /** The tree that the record at a stands for; a boolean is true if its number is 1. */
  function ReadTree(buf: seq<Byte>, a: nat, end: nat): Tree
    requires end <= |buf| && WellNested(buf, a, end)
    decreases end - a, 0
  {
    RecordIs(buf, a, end);
    match Kind(buf, a)
    case 1 => String(Contents(buf, a))
    case 2 => EightFit(buf, a); Number(Eight(buf, a))
    case 3 => Object(ReadMembers(buf, a + 8, end))
    case 4 => Array(ReadAll(buf, a + 8, end))
    case 5 => Boolean(Eight(buf, a) == 1)
    case _ => Null
  }

  function ReadAll(buf: seq<Byte>, a: nat, end: nat): seq<Tree>
    requires end <= |buf| && Walks(buf, a, end)
    decreases end - a, 1
  {
    if a >= end then []
    else
      StepIs(buf, a, end);
      [ReadTree(buf, a, Next(buf, a))] + ReadAll(buf, Next(buf, a), end)
  }

  function ReadMembers(buf: seq<Byte>, a: nat, end: nat): seq<Member>
    requires end <= |buf| && Walks(buf, a, end) && KeysAlternate(buf, a, end)
    decreases end - a, 1
  {
    if a >= end then []
    else
      StepIs(buf, a, end);
      KeyIs(buf, a, end);
      var b := Next(buf, a);
      StepIs(buf, b, end);
      [Member(Contents(buf, a), ReadTree(buf, b, Next(buf, b)))] + ReadMembers(buf, Next(buf, b), end)
  }

  lemma EightFit(buf: seq<Byte>, a: nat)
    requires a + 16 <= |buf|
    ensures Eight(buf, a) < 0x1_0000_0000_0000_0000
  {
    BytesBack(buf[a + 8..a + 16]);
    EightBytes();
  }

  lemma EightBytes()
    ensures Pow256(8) == 0x1_0000_0000_0000_0000
  {
    FourBytes();
    assert Pow256(5) == 0x100_0000_0000 && Pow256(6) == 0x1_0000_0000_0000 && Pow256(7) == 0x100_0000_0000_0000;
  }

  /** Some records, byte by byte. */
  lemma RecordsAre()
    ensures Flat(Boolean(true)) == [5, 0, 0, 0, 8, 0, 0, 0] + [1, 0, 0, 0, 0, 0, 0, 0]
    ensures Flat(Null) == [6, 0, 0, 0, 0, 0, 0, 0] && Flat(Array([])) == [4, 0, 0, 0, 0, 0, 0, 0]
    ensures Flat(String([0x61])) == [1, 0, 0, 0, 1, 0, 0, 0] + [0x61, 0, 0, 0, 0, 0, 0, 0]
    ensures Flat(Object([Member([], Null)])) == [3, 0, 0, 0, 16, 0, 0, 0] + ([1, 0, 0, 0, 0, 0, 0, 0] + [6, 0, 0, 0, 0, 0, 0, 0])
  {
    hide Header, ToBytes;
    SmallHeader(5, 8);
    SmallHeader(6, 0);
    SmallHeader(4, 0);
    SmallHeader(1, 1);
    SmallHeader(1, 0);
    SmallHeader(3, 16);
    EightSmall(1);
    assert Zeros(Align8(1) - 1) == [0, 0, 0, 0, 0, 0, 0] && Zeros(0) == [];
    assert FlatMembers([Member([], Null)]) == FlatString([]) + (Flat(Null) + []);
  }

  lemma SmallHeader(kind: nat, len: nat)
    requires kind < 0x100 && len < 0x100
    ensures Header(kind, len) == [kind, 0, 0, 0, len, 0, 0, 0]
  {
    FourSmall(kind);
    FourSmall(len);
  }

  lemma FourSmall(n: nat)
    requires n < 0x100
    ensures ToBytes(n, 4) == [n, 0, 0, 0]
  {
    assert ToBytes(n / 256, 3) == [0] + ([0] + ([0] + ToBytes(0, 0)));
  }

  lemma EightSmall(n: nat)
    requires n < 0x100
    ensures ToBytes(n, 8) == [n, 0, 0, 0, 0, 0, 0, 0]
  {
    assert ToBytes(0, 7) == [0] + ToBytes(0, 6) && ToBytes(0, 6) == [0] + ToBytes(0, 5);
    assert ToBytes(0, 5) == [0] + ToBytes(0, 4);
    FourSmall(0);
  }

  // ----- reading undoes writing

  lemma EightRead(buf: seq<Byte>, a: nat, kind: nat, n: nat)
    requires At(buf, a, Header(kind, 8) + ToBytes(n, 8)) && kind < 0x1_0000_0000 && n < 0x1_0000_0000_0000_0000
    ensures HasHeader(buf, a) && Kind(buf, a) == kind && a + 16 <= |buf| && Eight(buf, a) == n
  {
    hide ToBytes, FromBytes, Header;
    HeaderRead(buf, a, kind, 8, ToBytes(n, 8));
    EightBytes();
    BytesRoundTrip(n, 8);
  }

  lemma StringBack(buf: seq<Byte>, a: nat, bytes: seq<Byte>)
    requires At(buf, a, FlatString(bytes)) && |buf| < 0x1_0000_0000
    ensures HasHeader(buf, a) && Kind(buf, a) == 1 && Next(buf, a) == a + |FlatString(bytes)| <= |buf|
    ensures Contents(buf, a) == bytes
  {
    hide Header, Kind, Len, Align8;
    var padding := Zeros(Align8(|bytes|) - |bytes|);
    HeaderRead(buf, a, 1, |bytes|, bytes + padding);
    AtBoth(buf, a + 8, bytes, padding);
  }

  /** Wherever the flat form of a tree lies, the tree is read. */
  lemma {:induction false} ReadsBack(buf: seq<Byte>, a: nat, t: Tree)
    requires At(buf, a, Flat(t)) && Aligned(a) && |buf| < 0x1_0000_0000
    ensures a + |Flat(t)| <= |buf| && WellNested(buf, a, a + |Flat(t)|)
    ensures ReadTree(buf, a, a + |Flat(t)|) == t
    decreases t
  {
    hide At, WellNested, Header, Kind, Len, Next, ToBytes, Eight, Contents, FlatAll, FlatMembers, Aligned, FlatString,
      ReadAll, ReadMembers;
    Nested(buf, a, t);
    match t {
      case String(bytes) => StringBack(buf, a, bytes);
      case Number(bits) => EightRead(buf, a, 2, bits);
      case Boolean(b) => EightRead(buf, a, 5, if b then 1 else 0);
      case Null =>
        assert Header(6, 0) + [] == Header(6, 0);
        HeaderRead(buf, a, 6, 0, []);
      case Array(ts) =>
        HeaderRead(buf, a, 4, |FlatAll(ts)|, FlatAll(ts));
        EightOn(a);
        AllBack(buf, a + 8, ts);
      case Object(ms) =>
        HeaderRead(buf, a, 3, |FlatMembers(ms)|, FlatMembers(ms));
        EightOn(a);
        MembersBack(buf, a + 8, ms);
    }
  }

  lemma EightOn(a: nat)
    requires Aligned(a)
    ensures Aligned(a + 8)
  {
  }

  lemma {:induction false} AllBack(buf: seq<Byte>, a: nat, ts: seq<Tree>)
    requires At(buf, a, FlatAll(ts)) && Aligned(a) && |buf| < 0x1_0000_0000
    ensures a + |FlatAll(ts)| <= |buf| && Walks(buf, a, a + |FlatAll(ts)|)
    ensures ReadAll(buf, a, a + |FlatAll(ts)|) == ts
    decreases ts
  {
    hide At, WellNested, Flat, Next, ReadTree, Aligned, Walks;
    AllNested(buf, a, ts);
    if ts != [] {
      var b := a + |Flat(ts[0])|;
      AtBoth(buf, a, Flat(ts[0]), FlatAll(ts[1..]));
      ReadsBack(buf, a, ts[0]);
      NestedEnds(buf, a, b);
      FlatAligned(ts[0]);
      SumAligned(a, |Flat(ts[0])|);
      AllBack(buf, b, ts[1..]);
    }
  }

  lemma {:induction false} MembersBack(buf: seq<Byte>, a: nat, ms: seq<Member>)
    requires At(buf, a, FlatMembers(ms)) && Aligned(a) && |buf| < 0x1_0000_0000
    ensures a + |FlatMembers(ms)| <= |buf| && Walks(buf, a, a + |FlatMembers(ms)|)
    ensures KeysAlternate(buf, a, a + |FlatMembers(ms)|) && ReadMembers(buf, a, a + |FlatMembers(ms)|) == ms
    decreases ms
  {
    hide At, WellNested, Flat, FlatString, Next, ReadTree, Aligned, Walks, KeysAlternate, Contents, Kind;
    MembersNested(buf, a, ms);
    if ms != [] {
      var key, value := FlatString(ms[0].key), Flat(ms[0].value);
      var b := a + |key|;
      var c := b + |value|;
      AtBoth(buf, a, key, value + FlatMembers(ms[1..]));
      AtBoth(buf, b, value, FlatMembers(ms[1..]));
      StringBack(buf, a, ms[0].key);
      StringAligned(ms[0].key);
      SumAligned(a, |key|);
      ReadsBack(buf, b, ms[0].value);
      NestedEnds(buf, b, c);
      FlatAligned(ms[0].value);
      SumAligned(b, |value|);
      MembersBack(buf, c, ms[1..]);
    }
  }

  /** The buffer after a text was accepted, whatever follows in it, is read as the tree of the text. */
  lemma AcceptedIsRead(s: seq<Byte>, cap: nat, f: Doubles, tail: seq<Byte>)
    requires ValueAt(s, 0, cap, f).Ok? && cap == |Flat(ValueAt(s, 0, cap, f).value) + tail| < 0x1_0000_0000
    ensures var t := ValueAt(s, 0, cap, f).value;
            var dst := Flat(t) + tail;
            |Flat(t)| < cap && WellNested(dst, 0, |Flat(t)|) && ReadTree(dst, 0, |Flat(t)|) == t
  {
    hide ValueAt, Flat, WellNested, ReadTree;
    var t := ValueAt(s, 0, cap, f).value;
    assert (Flat(t) + tail)[0..0 + |Flat(t)|] == Flat(t);
    EightAligned();
    ReadsBack(Flat(t) + tail, 0, t);
  }
}
