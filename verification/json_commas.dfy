/** What the parser makes of a comma that nothing follows: an error in an array, but in an object the beginning of
    a key, since the first character of a key is never looked at (json.c). */
module JsonCommas {
  import opened Collections
  import opened Machine
  import opened Json
  import opened JsonRoundTrip

  // ----- the parser does not look back

  /** The texts differ at most before i. */
  predicate SameFrom(s: seq<Byte>, s': seq<Byte>, i: nat) {
    |s| == |s'| && forall k :: i <= k < |s| ==> s[k] == s'[k]
  }

  lemma {:induction false} SkipSame(s: seq<Byte>, s': seq<Byte>, i: nat)
    requires i <= |s| && SameFrom(s, s', i)
    ensures Skip(s, i) == Skip(s', i)
    decreases |s| - i
  {
    if i < |s| && IsWhitespace(s[i]) {
      SkipSame(s, s', i + 1);
    }
  }

  lemma {:induction false} CharsSame(s: seq<Byte>, s': seq<Byte>, i: nat, st: InString, out: seq<Byte>, cap: int)
    requires SameFrom(s, s', i) && |out| < cap
    ensures Chars(s, i, st, out, cap) == Chars(s', i, st, out, cap)
    decreases |s| - i
  {
    hide Step, Align8;
    if i < |s| {
      match Step(st, s[i]) {
        case Go(st', bs) =>
          if bs == [] || |out| + |bs| < cap {
            CharsSame(s, s', i + 1, st', out + bs, cap);
          }
        case _ =>
      }
    }
  }

  /** The character where a string begins is passed over, whatever it is. */
  lemma StringSame(s: seq<Byte>, s': seq<Byte>, i: nat, cap: int)
    requires SameFrom(s, s', i + 1)
    ensures StringAt(s, i, cap) == StringAt(s', i, cap)
  {
    hide Chars;
    if 8 < cap && i + 1 != |s| {
      CharsSame(s, s', i + 1, OUTSIDE, [], cap - 8);
    }
  }

  lemma {:induction false} DigitsSame(s: seq<Byte>, s': seq<Byte>, i: nat)
    requires i <= |s| && SameFrom(s, s', i)
    ensures DigitsEnd(s, i) == DigitsEnd(s', i)
    decreases |s| - i
  {
    if i < |s| && IsDigit(s[i]) {
      DigitsSame(s, s', i + 1);
    }
  }

  lemma AllDigitsSame(s: seq<Byte>, s': seq<Byte>, i: nat)
    requires SameFrom(s, s', i)
    ensures forall j :: i <= j <= |s| ==> DigitsEnd(s, j) == DigitsEnd(s', j)
  {
    hide DigitsEnd;
    forall j | i <= j <= |s| ensures DigitsEnd(s, j) == DigitsEnd(s', j) {
      DigitsSame(s, s', j);
    }
  }

  lemma FractionSame(s: seq<Byte>, s': seq<Byte>, i: nat)
    requires i <= |s| && SameFrom(s, s', i)
    ensures FractionEnd(s, i) == FractionEnd(s', i)
  {
    hide DigitsEnd;
    AllDigitsSame(s, s', i);
  }

  lemma ExponentSame(s: seq<Byte>, s': seq<Byte>, i: nat)
    requires i <= |s| && SameFrom(s, s', i)
    ensures ExponentEnd(s, i) == ExponentEnd(s', i)
  {
    hide DigitsEnd;
    AllDigitsSame(s, s', i);
  }

  lemma IntegerSame(s: seq<Byte>, s': seq<Byte>, i: nat)
    requires i < |s| && SameFrom(s, s', i)
    ensures IntegerEnd(s, i) == IntegerEnd(s', i)
  {
    hide DigitsEnd;
    AllDigitsSame(s, s', i);
  }

  lemma NumberEndSame(s: seq<Byte>, s': seq<Byte>, i: nat)
    requires i < |s| && SameFrom(s, s', i) && StartsNumber(s[i])
    ensures NumberEnd(s, i) == NumberEnd(s', i)
  {
    hide FractionEnd, ExponentEnd, IntegerEnd;
    var j := if s[i] == 0x2D then i + 1 else i;
    if j < |s| {
      IntegerSame(s, s', j);
      FractionSame(s, s', IntegerEnd(s, j));
      if FractionEnd(s, IntegerEnd(s, j)).Ok? {
        ExponentSame(s, s', FractionEnd(s, IntegerEnd(s, j)).next);
      }
    }
  }

  lemma NumberSame(s: seq<Byte>, s': seq<Byte>, i: nat, cap: int, f: Doubles)
    requires i < |s| && SameFrom(s, s', i) && StartsNumber(s[i])
    ensures NumberAt(s, i, cap, f) == NumberAt(s', i, cap, f)
  {
    hide NumberEnd;
    NumberEndSame(s, s', i);
    match NumberEnd(s, i) {
      case Ok(_, j) => assert s[i..j] == s'[i..j];
      case _ =>
    }
  }

  lemma KeywordSame(s: seq<Byte>, s': seq<Byte>, i: nat, word: seq<Byte>, t: Tree)
    requires SameFrom(s, s', i)
    ensures Keyword(s, i, word, t) == Keyword(s', i, word, t)
  {
    if i + |word| <= |s| {
      assert s[i..i + |word|] == s'[i..i + |word|];
    }
  }

  lemma WordsSame(s: seq<Byte>, s': seq<Byte>, i: nat, cap: int)
    requires i < |s| && SameFrom(s, s', i)
    ensures BooleanAt(s, i, cap) == BooleanAt(s', i, cap) && NullAt(s, i, cap) == NullAt(s', i, cap)
  {
    hide Keyword;
    KeywordSame(s, s', i, TRUE, Boolean(true));
    KeywordSame(s, s', i, FALSE, Boolean(false));
    KeywordSame(s, s', i, NULL, Null);
  }

  lemma SeparatorSame(s: seq<Byte>, s': seq<Byte>, i: nat, close: Byte)
    requires i <= |s| && SameFrom(s, s', i)
    ensures SeparatorAt(s, i, close) == SeparatorAt(s', i, close)
  {
    hide Skip;
    SkipSame(s, s', i);
  }

  /** What is parsed from i on depends on what stands there only. */
  lemma {:induction false} ValueSame(s: seq<Byte>, s': seq<Byte>, i: nat, cap: int, f: Doubles)
    requires i <= |s| && SameFrom(s, s', i)
    ensures ValueAt(s, i, cap, f) == ValueAt(s', i, cap, f)
    decreases |s| - i, 2
  {
    hide Skip, StringAt, NumberAt, BooleanAt, NullAt, ObjectAt, ArrayAt, Flat, StartsNumber;
    SkipSame(s, s', i);
    var j := Skip(s, i);
    if j < |s| {
      if s[j] == 0x22 {
        StringSame(s, s', j, cap);
      } else if StartsNumber(s[j]) {
        NumberSame(s, s', j, cap, f);
      } else if s[j] == 0x7B {
        ObjectSame(s, s', j, cap, f);
      } else if s[j] == 0x5B {
        ArraySame(s, s', j, cap, f);
      } else {
        WordsSame(s, s', j, cap);
      }
    }
  }

  lemma {:induction false} ArraySame(s: seq<Byte>, s': seq<Byte>, i: nat, cap: int, f: Doubles)
    requires i < |s| && SameFrom(s, s', i)
    ensures ArrayAt(s, i, cap, f) == ArrayAt(s', i, cap, f)
    decreases |s| - i, 1
  {
    hide Skip, ElementsAt, Flat;
    SkipSame(s, s', i + 1);
    ElementsSame(s, s', Skip(s, i + 1), cap - 8, f);
  }

  lemma {:induction false} ElementsSame(s: seq<Byte>, s': seq<Byte>, i: nat, cap: int, f: Doubles)
    requires i <= |s| && SameFrom(s, s', i)
    ensures ElementsAt(s, i, cap, f) == ElementsAt(s', i, cap, f)
    decreases |s| - i, 3
  {
    hide ValueAt, SeparatorAt, Flat;
    ValueSame(s, s', i, cap, f);
    match ValueAt(s, i, cap, f) {
      case Ok(t, n) =>
        SeparatorSame(s, s', n, 0x5D);
        if SeparatorAt(s, n, 0x5D).Ok? {
          ElementsSame(s, s', SeparatorAt(s, n, 0x5D).next, cap - |Flat(t)|, f);
        }
      case _ =>
    }
  }

  lemma {:induction false} ObjectSame(s: seq<Byte>, s': seq<Byte>, i: nat, cap: int, f: Doubles)
    requires i < |s| && SameFrom(s, s', i)
    ensures ObjectAt(s, i, cap, f) == ObjectAt(s', i, cap, f)
    decreases |s| - i, 1
  {
    hide Skip, MembersAt, Flat;
    SkipSame(s, s', i + 1);
    MembersSame(s, s', Skip(s, i + 1), cap - 8, f);
  }

  /** Once a key begins at the same place, its first character does not matter. */
  lemma {:induction false} MemberFrom(s: seq<Byte>, s': seq<Byte>, i: nat, cap: int, f: Doubles)
    requires i <= |s| && Skip(s, i) < |s| == |s'| && Skip(s', i) == Skip(s, i) && SameFrom(s, s', Skip(s, i) + 1)
    ensures MemberAt(s, i, cap, f) == MemberAt(s', i, cap, f)
    decreases |s| - i, 2
  {
    hide Skip, StringAt, ValueAt, Flat, FlatString;
    StringSame(s, s', Skip(s, i), cap);
    match StringAt(s, Skip(s, i), cap) {
      case Ok(key, n) =>
        SkipSame(s, s', n);
        var j := Skip(s, n);
        if j < |s| {
          ValueSame(s, s', j + 1, cap - |FlatString(key)|, f);
        }
      case _ =>
    }
  }

  lemma {:induction false} MembersFrom(s: seq<Byte>, s': seq<Byte>, i: nat, cap: int, f: Doubles)
    requires i <= |s| && Skip(s, i) < |s| == |s'| && Skip(s', i) == Skip(s, i) && SameFrom(s, s', Skip(s, i) + 1)
    ensures MembersAt(s, i, cap, f) == MembersAt(s', i, cap, f)
    decreases |s| - i, 4
  {
    hide Skip, MemberAt, SeparatorAt, Flat, FlatString;
    MemberFrom(s, s', i, cap, f);
    MemberEnds(s, i, cap, f);
    match MemberAt(s, i, cap, f) {
      case Ok(m, n) =>
        SeparatorSame(s, s', n, 0x7D);
        if SeparatorAt(s, n, 0x7D).Ok? {
          MembersSame(s, s', SeparatorAt(s, n, 0x7D).next, cap - (|FlatString(m.key)| + |Flat(m.value)|), f);
        }
      case _ =>
    }
  }

  lemma MemberEnds(s: seq<Byte>, i: nat, cap: int, f: Doubles)
    requires i <= |s|
    ensures MemberAt(s, i, cap, f).Ok? ==> Skip(s, i) < MemberAt(s, i, cap, f).next
  {
    hide StringAt, ValueAt, FlatString, Flat;
  }

  lemma {:induction false} MembersSame(s: seq<Byte>, s': seq<Byte>, i: nat, cap: int, f: Doubles)
    requires i <= |s| && SameFrom(s, s', i)
    ensures MembersAt(s, i, cap, f) == MembersAt(s', i, cap, f)
    decreases |s| - i, 5
  {
    hide Skip, MembersAt, MemberAt;
    SkipSame(s, s', i);
    if Skip(s, i) < |s| {
      MembersFrom(s, s', i, cap, f);
    } else {
      NoMember(s, i, cap, f);
      NoMember(s', i, cap, f);
    }
  }

  lemma NoMember(s: seq<Byte>, i: nat, cap: int, f: Doubles)
    requires i <= |s| && Skip(s, i) == |s|
    ensures MembersAt(s, i, cap, f) == if 8 >= cap then Fail(DstOverflow, |s|) else Fail(SrcOverflow, |s| + 1)
  {
    hide Skip, SeparatorAt, ValueAt;
  }

  // ----- keys

  lemma SkipKept(s: seq<Byte>, i: nat, c: Byte)
    requires i <= |s| && Skip(s, i) < |s| && !IsWhitespace(c)
    ensures Skip(s[Skip(s, i) := c], i) == Skip(s, i)
    decreases |s| - i
  {
    if IsWhitespace(s[i]) {
      SkipKept(s, i + 1, c);
    }
  }

  /** A key may begin with any character; the members are those of the text with a quote there. */
  lemma AnyQuoteWillDo(s: seq<Byte>, i: nat, cap: int, f: Doubles)
    requires i <= |s| && Skip(s, i) < |s|
    ensures MembersAt(s, i, cap, f) == MembersAt(s[Skip(s, i) := 0x22], i, cap, f)
  {
    hide Skip, MembersAt;
    SkipKept(s, i, 0x22);
    MembersFrom(s, s[Skip(s, i) := 0x22], i, cap, f);
  }

  // ----- commas that nothing follows

  /** Elements, each with a comma after it. */
  function CommaItems(items: seq<Item>): seq<Byte> {
    if items == [] then [] else Text(items[0].value) + (items[0].after + ([0x2C] + CommaItems(items[1..])))
  }

  lemma NoValueHere(s: seq<Byte>, i: nat, cap: int, f: Doubles)
    requires i <= |s| && Skip(s, i) < |s| && s[Skip(s, i)] == 0x5D
    ensures ElementsAt(s, i, cap, f) == Fail(BadChar, Skip(s, i))
  {
    hide Skip, StringAt, NumberAt, ObjectAt, ArrayAt, BooleanAt, NullAt, SeparatorAt, Flat;
    assert ValueAt(s, i, cap, f) == Fail(BadChar, Skip(s, i));
  }

  lemma BracketIsNoValue(s: seq<Byte>, i: nat, blank: seq<Byte>, cap: int, f: Doubles)
    requires At(s, i, blank + [0x5D]) && AllWhitespace(blank)
    ensures i + |blank| < |s| && Skip(s, i) == i + |blank| && s[i + |blank|] == 0x5D
    ensures ElementsAt(s, i, cap, f) == Fail(BadChar, i + |blank|)
  {
    hide At, Skip, AllWhitespace, ElementsAt;
    AtBoth(s, i, blank, [0x5D]);
    assert [0x5D] + [] == [0x5D];
    AtFirst(s, i + |blank|, 0x5D, []);
    SkipsAll(s, i, blank);
    NoValueHere(s, i, cap, f);
  }

  lemma CommaItemsStart(s: seq<Byte>, i: nat, items: seq<Item>, rest: seq<Byte>)
    requires items != [] && AreItems(items) && At(s, i, CommaItems(items) + rest)
    ensures IsDoc(items[0].value) && AreItems(items[1..]) && At(s, i, Text(items[0].value))
    ensures var k := i + |Text(items[0].value)|;
            && NumberStops(s, k) && SeparatorAt(s, k, 0x5D) == Ok(true, k + |items[0].after| + 1)
            && At(s, k + |items[0].after| + 1, CommaItems(items[1..]) + rest)
            && i + |CommaItems(items)| == k + |items[0].after| + 1 + |CommaItems(items[1..])|
  {
    hide At, Text, IsDoc, SeparatorAt, NumberStops, AllWhitespace;
    var it, more := items[0], CommaItems(items[1..]) + rest;
    assert CommaItems(items) + rest == Text(it.value) + (it.after + ([0x2C] + more));
    AtBoth(s, i, Text(it.value), it.after + ([0x2C] + more));
    Separated(s, i + |Text(it.value)|, it.after, 0x2C, 0x5D, more);
  }

  /** The elements before the comma are read, and then the bracket is refused. */
  lemma {:induction false} CommaItemsRead(s: seq<Byte>, i: nat, items: seq<Item>, blank: seq<Byte>, cap: int, f: Doubles)
    requires AreItems(items) && AllWhitespace(blank) && At(s, i, CommaItems(items) + (blank + [0x5D]))
    ensures i <= |s|
    ensures var r := ElementsAt(s, i, cap, f);
            r == Fail(BadChar, i + |CommaItems(items)| + |blank|) || (r.Fail? && r.error == DstOverflow)
    ensures |FlatAll(TreesOf(items, f))| < cap ==>
      ElementsAt(s, i, cap, f) == Fail(BadChar, i + |CommaItems(items)| + |blank|)
    decreases items
  {
    hide At, Text, IsDoc, CommaItems, SeparatorAt, NumberStops, TreeOf, Flat, ValueAt, AllWhitespace;
    if items == [] {
      NoItems(blank);
      BracketIsNoValue(s, i, blank, cap, f);
    } else {
      CommaItemsStart(s, i, items, blank + [0x5D]);
      var d, k := items[0].value, i + |Text(items[0].value)|;
      DocRead(s, i, d, cap, f);
      var t, ts := TreeOf(d, f), TreesOf(items[1..], f);
      assert TreesOf(items, f) == [t] + ts && ([t] + ts)[1..] == ts;
      if |Flat(t)| < cap {
        CommaItemsRead(s, k + |items[0].after| + 1, items[1..], blank, cap - |Flat(t)|, f);
      }
    }
  }

  lemma NoItems(blank: seq<Byte>)
    ensures CommaItems([]) == [] && [] + (blank + [0x5D]) == blank + [0x5D]
  {
  }

  /** An array with a comma after its last element is refused, at its closing bracket if the buffer lasts that far. */
  lemma ArrayComma(s: seq<Byte>, j: nat, items: seq<Item>, blank: seq<Byte>, cap: int, f: Doubles)
    requires items != [] && AreItems(items) && AllWhitespace(blank)
    requires At(s, j, [0x5B] + (CommaItems(items) + (blank + [0x5D])))
    ensures j < |s| && ArrayAt(s, j, cap, f).Fail?
    ensures |Flat(Array(TreesOf(items, f)))| < cap ==>
      ArrayAt(s, j, cap, f) == Fail(BadChar, j + 1 + |CommaItems(items)| + |blank|)
  {
    hide At, Skip, ElementsAt, CommaItems, TreesOf, FlatAll, Header, AllWhitespace, AreItems, Text, IsDoc, NumberStops,
      SeparatorAt;
    AtFirst(s, j, 0x5B, CommaItems(items) + (blank + [0x5D]));
    CommaItemsStart(s, j + 1, items, blank + [0x5D]);
    DocStarts(s, j + 1, items[0].value);
    CommaItemsRead(s, j + 1, items, blank, cap - 8, f);
    SkippedEarly(s, j + 1, cap - 8, f);
    assert s[Skip(s, j + 1)] != 0x5D by {
      StartsNoBracket(s[Skip(s, j + 1)], items[0].value);
    }
    FilledArray(s, j, cap, f);
  }

  lemma StartsNoBracket(c: Byte, d: Doc)
    requires Starts(c, d)
    ensures c != 0x5D && c != 0x7D
  {
  }

  // ----- an object with such a comma that is accepted

  /** {"a":1,}b":2} */
  const ODD: seq<Byte> := [0x7B, 0x22, 0x61, 0x22, 0x3A, 0x31, 0x2C, 0x7D, 0x62, 0x22, 0x3A, 0x32, 0x7D]

  const ONE: Doc := DNumber([], NumberText(false, [0x31], [], [], []))
  const TWO: Doc := DNumber([], NumberText(false, [0x32], [], [], []))
  const PAIR_A: Pair := Pair([], [Plain(0x61)], [], ONE, [])
  const PAIR_B: Pair := Pair([], [Plain(0x62)], [], TWO, [])

  lemma TextsOfPairs()
    ensures PairText(PAIR_A, Text(ONE)) == [0x22, 0x61, 0x22, 0x3A, 0x31]
    ensures PairText(PAIR_B, Text(TWO)) == [0x22, 0x62, 0x22, 0x3A, 0x32]
  {
    assert CharsText([Plain(0x61)]) == [0x61] + CharsText([]) && CharsText([Plain(0x62)]) == [0x62] + CharsText([]);
    assert NumberBytes(ONE.n) == [0x31] && NumberBytes(TWO.n) == [0x32];
  }

  lemma PairsAreFine()
    ensures IsPair(PAIR_A) && IsPair(PAIR_B) && IsDoc(ONE) && IsDoc(TWO)
  {
    assert AllFaithful([Plain(0x61)], 0) && AllFaithful([Plain(0x62)], 0);
  }

  lemma OddParts()
    ensures |ODD| == 13 && ODD == [0x7B] + (PairText(PAIR_A, Text(ONE)) + ([] + ([0x2C] + ODD[7..])))
    ensures ODD[7 := 0x22][7..] == PairText(PAIR_B, Text(TWO)) + ([] + ([0x7D] + []))
  {
    hide Text, PairText;
    TextsOfPairs();
    assert [] + ([0x2C] + ODD[7..]) == ODD[6..];
    assert [] + ([0x7D] + []) == [0x7D];
  }

  /** The second member, once the bracket is taken for a quote. */
  lemma OddMembers(cap: int, f: Doubles)
    requires cap > 32
    ensures MembersAt(ODD, 7, cap, f) == Ok([MemberOf(PAIR_B, f)], 13)
  {
    hide Text, MembersAt, MemberAt, SeparatorAt, At, NumberStops, PairText, Skip, IsPair, IsDoc, MemberOf;
    var s := ODD[7 := 0x22];
    PairsAreFine();
    OddParts();
    TextsOfPairs();
    SkipsNothing(ODD, 7);
    AnyQuoteWillDo(ODD, 7, cap, f);
    WholeIsAt(s, 7);
    AtBoth(s, 7, PairText(PAIR_B, Text(TWO)), [] + ([0x7D] + []));
    Separated(s, 12, [], 0x7D, 0x7D, []);
    PairRead(s, 7, PAIR_B, cap, f);
    MemberSizes(f);
    LastMember(s, 7, cap, f, MemberOf(PAIR_B, f), 12, 13);
  }

  lemma SkipsNothing(s: seq<Byte>, i: nat)
    requires i < |s| && !IsWhitespace(s[i])
    ensures Skip(s, i) == i
  {
  }

  lemma WholeIsAt(s: seq<Byte>, i: nat)
    requires i <= |s|
    ensures At(s, i, s[i..])
  {
  }

  /** Each of the two members takes 32 bytes. */
  lemma MemberSizes(f: Doubles)
    requires IsPair(PAIR_A) && IsPair(PAIR_B) && IsDoc(ONE) && IsDoc(TWO)
    ensures var a, b := MemberOf(PAIR_A, f), MemberOf(PAIR_B, f);
            && a == Member([0x61], Number(f([0x31]))) && b == Member([0x62], Number(f([0x32])))
            && |FlatString(a.key)| + |Flat(a.value)| == 32 && |FlatString(b.key)| + |Flat(b.value)| == 32
  {
    assert CharsBytes([Plain(0x61)]) == [0x61] + CharsBytes([]) && CharsBytes([Plain(0x62)]) == [0x62] + CharsBytes([]);
    assert NumberBytes(ONE.n) == [0x31] && NumberBytes(TWO.n) == [0x32];
  }

  lemma BothMembers(cap: int, f: Doubles)
    requires cap > 64
    ensures MembersAt(ODD, 1, cap, f) == Ok([MemberOf(PAIR_A, f)] + [MemberOf(PAIR_B, f)], 13)
  {
    hide Text, MembersAt, MemberAt, SeparatorAt, At, NumberStops, PairText, Skip, IsPair, IsDoc, MemberOf, Flat,
      FlatString;
    PairsAreFine();
    OddParts();
    TextsOfPairs();
    MemberSizes(f);
    WholeIsAt(ODD, 0);
    assert ODD[0..] == ODD;
    var rest := [] + ([0x2C] + ODD[7..]);
    AtFirst(ODD, 0, 0x7B, PairText(PAIR_A, Text(ONE)) + rest);
    AtBoth(ODD, 1, PairText(PAIR_A, Text(ONE)), rest);
    Separated(ODD, 6, [], 0x2C, 0x7D, ODD[7..]);
    PairRead(ODD, 1, PAIR_A, cap, f);
    OddMembers(cap - 32, f);
    MoreMembers(ODD, 1, cap, f, MemberOf(PAIR_A, f), 6, 7);
  }

  /** The text {"a":1,}b":2} is accepted, as an object with the members a and b. */
  lemma OddIsAccepted(cap: int, f: Doubles)
    requires cap > 72
    ensures ValueAt(ODD, 0, cap, f) ==
            Ok(Object([Member([0x61], Number(f([0x31]))), Member([0x62], Number(f([0x32])))]), 13)
  {
    hide MembersAt, Skip, IsPair, IsDoc, MemberOf, ObjectAt, Flat, FlatString, StringAt, NumberAt, ArrayAt, BooleanAt,
      NullAt;
    PairsAreFine();
    MemberSizes(f);
    BothMembers(cap - 8, f);
    SkipsNothing(ODD, 0);
    SkipsNothing(ODD, 1);
    FilledObject(ODD, 0, cap, f);
    var ms := [MemberOf(PAIR_A, f)] + [MemberOf(PAIR_B, f)];
    assert ms == [Member([0x61], Number(f([0x31]))), Member([0x62], Number(f([0x32])))];
    assert ValueAt(ODD, 0, cap, f) == ObjectAt(ODD, 0, cap, f);
  }

  lemma {:induction false} NeverCloses(s: seq<Byte>, i: nat, st: InString, out: seq<Byte>, cap: int)
    requires |out| < cap && forall k :: i <= k < |s| ==> s[k] != 0x22
    ensures Chars(s, i, st, out, cap).Fail?
    decreases |s| - i
  {
    hide Align8, Step;
    if i < |s| {
      OnlyQuoteCloses(st, s[i]);
      match Step(st, s[i]) {
        case Go(st', bs) =>
          if bs == [] || |out| + |bs| < cap {
            NeverCloses(s, i + 1, st', out + bs, cap);
          }
        case _ =>
      }
    }
  }

  lemma OnlyQuoteCloses(st: InString, c: Byte)
    ensures Step(st, c).Close? ==> c == 0x22
  {
  }

  /** When no quote follows the brace, as where the text ends in it and perhaps whitespace, it is refused after all:
      the key does not end. */
  lemma ObjectCommaAtEnd(s: seq<Byte>, i: nat, cap: int, f: Doubles)
    requires i <= |s| && forall k :: Skip(s, i) < k < |s| ==> s[k] != 0x22
    ensures MembersAt(s, i, cap, f).Fail?
  {
    hide Skip, SeparatorAt, ValueAt, Chars;
    if 8 < cap && Skip(s, i) + 1 != |s| {
      NeverCloses(s, Skip(s, i) + 1, OUTSIDE, [], cap - 8);
    }
  }
}
