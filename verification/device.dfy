/** The messages of net.ser: the types the schema compiler makes of them, and how long they are (net.ser, net.c). */
module DeviceMessages {
  import opened Collections
  import opened Schema
  import opened Alignments
  import opened Layouts
  import opened Machine
  import opened Values
  import opened Emitter
  import opened Plans
  import opened RoundTrips
  import opened Messages
  import opened Lengths
  import Scalars
  import opened Places

  const U16T: nat := 0
  const U32T: nat := 1
  const U8T: nat := 2
  const U64T: nat := 3
  const CHART: nat := 4
  const ABS: nat := 5
  const REL: nat := 6
  const KEY: nat := 7
  const CHARS: nat := 8
  const TAG: nat := 9
  const TAGS: nat := 10
  const TAG_LIST: nat := 11
  const TAG_LISTS: nat := 12
  const ABS_ARRAY: nat := 13
  const REL_ARRAY: nat := 14
  const KEY_ARRAY: nat := 15
  const ABS_VALUES: nat := 16
  const REL_VALUES: nat := 17
  const KEY_VALUES: nat := 18
  const LED: nat := 19
  const INFO: nat := 20
  const REPORT: nat := 21
  const CONTROLLER_STATE: nat := 22
  const REQUEST: nat := 23
  const DESTROY: nat := 24

  function UpTo(size: nat, elem: nat): TypeObject {
    TypeArray(SizingMax, size, false, elem)
  }

  /** An array without a size is on the heap and has up to 65535 elements. */
  function Unsized(elem: nat): TypeObject {
    TypeArray(SizingMax, 0xFFFF, true, elem)
  }

  const TYPES: TypeTable := [
    TypePrimitif(U16), TypePrimitif(U32), TypePrimitif(U8), TypePrimitif(U64), TypePrimitif(Char),
    TypeStruct([U16T, U32T, U32T, U32T, U32T, U32T], true),
    TypeStruct([U16T], true),
    TypeStruct([U16T], true),
    Unsized(CHART), TypeStruct([CHARS], true), Unsized(TAG), TypeStruct([TAGS], true), Unsized(TAG_LIST),
    UpTo(64, ABS), UpTo(16, REL), UpTo(768, KEY), UpTo(64, U32T), UpTo(16, U32T), UpTo(768, U8T),
    TypeArray(SizingFixed, 3, false, U8T),
    TypeStruct([U8T, U8T, ABS_ARRAY, REL_ARRAY, KEY_ARRAY], false),
    TypeStruct([U8T, U8T, ABS_VALUES, REL_VALUES, KEY_VALUES], false),
    TypeStruct([U16T, LED, U8T, U8T, U8T, U8T], false),
    TypeStruct([TAG_LISTS, U64T], false),
    TypeStruct([U16T], false)
  ]

  const ALIGN: seq<nat> := [2, 4, 1, 8, 1, 4, 2, 2, 2, 2, 2, 2, 2, 4, 2, 2, 4, 4, 2, 1, 4, 4, 2, 8, 2]

  const MESSAGES: seq<MessageType> := [
    MessageType(INFO, false), MessageType(REPORT, false), MessageType(CONTROLLER_STATE, false),
    MessageType(REQUEST, true), MessageType(DESTROY, false)
  ]

  const TAG_INFO: nat := 1
  const TAG_REPORT: nat := 2
  const TAG_CONTROLLER_STATE: nat := 3
  const TAG_REQUEST: nat := 4
  const TAG_DESTROY: nat := 5

  /** The schema compiled; qsort may order leaves that compare equal as it likes. */
  ghost predicate IsDevice(p: Program) {
    p.types == TYPES && p.align == ALIGN && Valid(p)
  }

  function Device(p: Program): Protocol {
    Protocol(p, MESSAGES, 1)
  }

  lemma TypesPointBack()
    ensures Backward(TYPES)
  {
    forall t: nat | t < |TYPES| ensures PointsBack(TYPES[t], t) {
    }
  }

  /** For each type, the one it is made of that is aligned most strictly. */
  const STRICTEST: seq<nat> :=
    [0, 0, 0, 0, 0, U32T, U16T, U16T, CHART, CHARS, TAG, TAGS, TAG_LIST, ABS, REL, KEY, U32T, U32T, U8T, U8T,
     ABS_ARRAY, ABS_VALUES, U16T, U64T, U16T]

  ghost predicate StrictestDecides(t: nat)
    requires t < |TYPES|
  {
    ALIGN[t] == Base(TYPES[t]) || (STRICTEST[t] in Children(TYPES[t]) && ALIGN[STRICTEST[t]] == ALIGN[t])
  }

  ghost predicate NoneStricter(t: nat)
    requires t < |TYPES|
  {
    Base(TYPES[t]) <= ALIGN[t] && forall c :: c in Children(TYPES[t]) ==> c < |TYPES| && ALIGN[c] <= ALIGN[t]
  }

  lemma StructsAndScalars(t: nat)
    requires t < |TYPES| && !TYPES[t].TypeArray?
    ensures StrictestDecides(t) && NoneStricter(t)
  {
    if t < ABS {
      ScalarsDecide(t);
    } else if t == ABS {
      AbsDecides();
    } else if t in {REL, KEY} {
      OthersDecide(t);
    } else if t in {TAG, TAG_LIST} {
      TagsDecide(t);
    } else if t == INFO {
      InfoDecides();
    } else if t == REPORT {
      ReportDecides();
    } else if t == CONTROLLER_STATE {
      StateDecides();
    } else {
      Last(t);
    }
  }

  lemma ScalarsDecide(t: nat)
    requires t < ABS
    ensures StrictestDecides(t) && NoneStricter(t)
  {
  }

  lemma AbsDecides()
    ensures StrictestDecides(ABS) && NoneStricter(ABS)
  {
  }

  lemma OthersDecide(t: nat)
    requires t in {REL, KEY}
    ensures StrictestDecides(t) && NoneStricter(t)
  {
  }

  lemma TagsDecide(t: nat)
    requires t in {TAG, TAG_LIST}
    ensures StrictestDecides(t) && NoneStricter(t)
  {
  }

  lemma InfoDecides()
    ensures StrictestDecides(INFO) && NoneStricter(INFO)
  {
  }

  lemma ReportDecides()
    ensures StrictestDecides(REPORT) && NoneStricter(REPORT)
  {
  }

  lemma Last(t: nat)
    requires t in {REQUEST, DESTROY}
    ensures StrictestDecides(t) && NoneStricter(t)
  {
  }

  lemma StateDecides()
    ensures StrictestDecides(CONTROLLER_STATE) && NoneStricter(CONTROLLER_STATE)
  {
  }

  lemma ArraysDecide(t: nat)
    requires t < |TYPES| && TYPES[t].TypeArray?
    ensures StrictestDecides(t) && NoneStricter(t)
  {
    if t < ABS_ARRAY {
      EarlyArrays(t);
    } else {
      LateArrays(t);
    }
  }

  lemma EarlyArrays(t: nat)
    requires t < ABS_ARRAY && TYPES[t].TypeArray?
    ensures StrictestDecides(t) && NoneStricter(t)
  {
  }

  lemma LateArrays(t: nat)
    requires ABS_ARRAY <= t < |TYPES| && TYPES[t].TypeArray?
    ensures StrictestDecides(t) && NoneStricter(t)
  {
  }

  lemma AlignIsLocal()
    ensures IsLocal(TYPES, ALIGN)
  {
    hide Base, Children;
    forall t: nat | t < |TYPES| ensures IsLocalAt(TYPES, ALIGN, t) {
      if TYPES[t].TypeArray? {
        ArraysDecide(t);
      } else {
        StructsAndScalars(t);
      }
    }
  }

  lemma ArraysHaveCode()
    ensures forall t: nat :: t < |TYPES| && IsMaxArray(TYPES[t]) ==> HasCode(TYPES, TYPES[t].elem)
  {
  }

  /** There is such a program: the schema has no infinite struct, and its alignments are right. */
  lemma DeviceExists() returns (p: Program)
    ensures IsDevice(p)
  {
    hide Leaves, IsAlignment, IsLayout, Backward, IsLocal, Finite,
      TYPES, ALIGN, HasCode;
    ScalarEntries();
    TypesPointBack();
    AlignIsLocal();
    ArraysHaveCode();
    BackwardIsFinite(TYPES);
    var layouts := LayoutsExist(TYPES, ALIGN, |TYPES|);
    p := Program(TYPES, ALIGN, layouts);
    forall t: nat | t < |TYPES| ensures IsAlignment(TYPES, t, ALIGN[t]) {
      LocalIsAlignment(TYPES, ALIGN, t);
    }
  }

  lemma DeviceIsProtocol(p: Program)
    requires IsDevice(p)
    ensures IsProtocol(Device(p))
  {
    hide Valid;
    forall m | m in MESSAGES ensures IsMessage(p, m) {
    }
  }

  // ----- leaves

  /** The leaves of a message with a slot, an index and three arrays. */
  function ThreeArrays(e1: nat, e2: nat, e3: nat): seq<FieldAccessor> {
    [FixedField([0], U8)] + ([FixedField([1], U8)] +
      ([ArrayField([2, 1], e1)] + ([FixedField([2, 0], U8)] +
        ([ArrayField([3, 1], e2)] + ([FixedField([3, 0], U8)] +
          ([ArrayField([4, 1], e3)] + ([FixedField([4, 0], U16)] + [])))))))
  }

  lemma ThreeArraysLeaves(ts: TypeTable, t: nat, a1: nat, a2: nat, a3: nat, e1: nat, e2: nat, e3: nat)
    requires Finite(ts) && t < |ts| && U8T < |ts| && a1 < |ts| && a2 < |ts| && a3 < |ts| && ts[U8T] == TypePrimitif(U8)
    requires ts[t] == TypeStruct([U8T, U8T, a1, a2, a3], false)
    requires ts[a1] == UpTo(64, e1) && ts[a2] == UpTo(16, e2) && ts[a3] == UpTo(768, e3)
    ensures Leaves(ts, t) == ThreeArrays(e1, e2, e3)
  {
    hide Finite, Leaves, LeavesFrom;
    PartsLeaves(ts, t);
    PrimitivePart(ts, t, 0, U8T);
    PrimitivePart(ts, t, 1, U8T);
    MaxArrayPart(ts, t, 2, a1);
    MaxArrayPart(ts, t, 3, a2);
    MaxArrayPart(ts, t, 4, a3);
  }

  lemma ThreeArraysSums(e1: nat, e2: nat, e3: nat, g: FieldAccessor -> nat)
    requires forall fa: FieldAccessor :: fa.FixedField? ==> g(fa) == 0
    ensures TotalSize(ThreeArrays(e1, e2, e3)) == 6
    ensures Sum(ThreeArrays(e1, e2, e3), g) ==
            g(ArrayField([2, 1], e1)) + g(ArrayField([3, 1], e2)) + g(ArrayField([4, 1], e3))
  {
    hide Sum, TotalSize;
    var l7 := [FixedField([4, 0], U16)] + [];
    var l6 := [ArrayField([4, 1], e3)] + l7;
    var l5 := [FixedField([3, 0], U8)] + l6;
    var l4 := [ArrayField([3, 1], e2)] + l5;
    var l3 := [FixedField([2, 0], U8)] + l4;
    var l2 := [ArrayField([2, 1], e1)] + l3;
    var l1 := [FixedField([1], U8)] + l2;
    SumNone(g);
    SumFirst(FixedField([4, 0], U16), [], g);
    SumFirst(ArrayField([4, 1], e3), l7, g);
    SumFirst(FixedField([3, 0], U8), l6, g);
    SumFirst(ArrayField([3, 1], e2), l5, g);
    SumFirst(FixedField([2, 0], U8), l4, g);
    SumFirst(ArrayField([2, 1], e1), l3, g);
    SumFirst(FixedField([1], U8), l2, g);
    SumFirst(FixedField([0], U8), l1, g);
  }

  // ----- lengths of elements

  /** align_2 of util.h */
  function Align2(n: nat): nat {
    (n + 1) / 2 * 2
  }

  /** A length of two bytes and the characters, padded. */
  function TagLength(v: Value): nat {
    2 + Align2(|ElemsOf(PartOf(v, 0))|)
  }

  function TagLengths(vs: seq<Value>): nat {
    if vs == [] then 0 else TagLength(vs[0]) + TagLengths(vs[1..])
  }

  function ListLength(v: Value): nat {
    2 + TagLengths(ElemsOf(PartOf(v, 0)))
  }

  function ListLengths(vs: seq<Value>): nat {
    if vs == [] then 0 else ListLength(vs[0]) + ListLengths(vs[1..])
  }

  function PartOf(v: Value, i: nat): Value {
    if v.Agg? && i < |v.elems| then v.elems[i] else Num(0)
  }

  function ElementLength(elem: nat, v: Value): nat {
    if elem == ABS then 24
    else if elem == U32T then 4
    else if elem == REL || elem == KEY then 2
    else if elem == U8T || elem == CHART then 1
    else if elem == TAG then TagLength(v)
    else ListLength(v)
  }

  function ElementLengths(): Measure {
    (elem, v) => ElementLength(elem, v)
  }

  /** The entries of the table, once and for all. */
  lemma ScalarEntries()
    ensures |TYPES| == 25 == |ALIGN|
    ensures TYPES[U16T] == TypePrimitif(U16) && TYPES[U32T] == TypePrimitif(U32) && TYPES[U8T] == TypePrimitif(U8)
    ensures TYPES[U64T] == TypePrimitif(U64) && TYPES[CHART] == TypePrimitif(Char)
  {
  }

  lemma StructEntries()
    ensures TYPES[ABS] == TypeStruct([U16T, U32T, U32T, U32T, U32T, U32T], true)
    ensures TYPES[REL] == TypeStruct([U16T], true) && TYPES[KEY] == TypeStruct([U16T], true)
  {
  }

  lemma TagEntries()
    ensures TYPES[CHARS] == Unsized(CHART) && TYPES[TAG] == TypeStruct([CHARS], true)
    ensures TYPES[TAGS] == Unsized(TAG) && TYPES[TAG_LIST] == TypeStruct([TAGS], true)
  {
  }

  lemma Entries(p: Program)
    requires IsDevice(p)
    ensures Valid(p) && Finite(p.types) && |p.types| == |p.align| == 25 && p.types == TYPES && p.align == ALIGN
  {
    hide Valid;
    ValidIsFinite(p);
    ScalarEntries();
  }

  lemma ValidIsFinite(p: Program)
    requires Valid(p)
    ensures Finite(p.types)
  {
  }

  lemma AlignEntries()
    ensures |ALIGN| == 25 && ALIGN[U32T] == 4 && ALIGN[U8T] == 1 && ALIGN[CHART] == 1
    ensures ALIGN[ABS] == 4 && ALIGN[REL] == 2 && ALIGN[KEY] == 2 && ALIGN[TAG] == 2 && ALIGN[TAG_LIST] == 2
  {
  }

  lemma AlignIs(p: Program, t: nat)
    requires IsDevice(p) && t < |p.types|
    ensures t < |p.align| == |ALIGN| && Valid(p) && AlignOf(p, t) == p.align[t] == ALIGN[t]
  {
    hide Valid;
    Entries(p);
  }

  predicate IsElement(elem: nat) {
    elem in {U32T, U8T, CHART, ABS, REL, KEY, TAG, TAG_LIST}
  }

  lemma ElementsHaveCode(p: Program, elem: nat)
    requires IsDevice(p) && IsElement(elem)
    ensures Valid(p) && HasCode(p.types, elem) && Emits(p, elem)
  {
    hide Valid, Finite;
    Entries(p);
    ScalarEntries();
    StructEntries();
    TagEntries();
  }

  /** Values of a fixed length, all of whose leaves are scalars. */
  lemma FixedIsMeasured(p: Program, elem: nat, first: FieldAccessor, total: nat, len: nat)
    requires IsDevice(p) && IsElement(elem) && Finite(p.types) && elem < |p.types| && HasCode(p.types, elem)
    requires forall fa :: fa in Leaves(p.types, elem) ==> fa.FixedField?
    requires IsLargest(p.types, elem, first) && IsPo2(first.Size()) && first.Size() == AlignOf(p, elem)
    requires TotalSize(Leaves(p.types, elem)) == total &&
             len == total + Padding(CurrentAlignment(AlignOf(p, elem), 0), total, AlignOf(p, elem))
    requires forall v :: ElementLength(elem, v) == len
    ensures Measures(p, elem, ElementLengths())
  {
    hide Valid, IsDevice, Leaves, IsLargest, TotalSize, Padding, CalignTo, PlanOf, Encodable, HasCode, Finite,
      AlignOf, ElementLength, Multiple;
    ElementsHaveCode(p, elem);
    var al := CurrentAlignment(AlignOf(p, elem), 0);
    forall v: Value, a: int | Encodable(p.types, elem, v) && Multiple(a, AlignOf(p, elem))
      ensures IsMeasured(p, elem, ElementLengths(), v, a)
    {
      StartsAligned(al, first.Size());
      FixedEnd(p, elem, v, al, a, first);
      PaddedMultiple(al, total, a);
    }
  }

  lemma StartsAligned(al: CurrentAlignment, f: nat)
    requires IsPo2(al.align) && al.offset == 0 && IsPo2(f)
    ensures CalignTo(al, f) == 0 && al.align > 0
  {
  }

  lemma PaddedMultiple(al: CurrentAlignment, total: nat, a: int)
    requires IsPo2(al.align) && al.offset == 0 && Multiple(a, al.align)
    ensures Multiple(a + (total + Padding(al, total, al.align)), al.align)
  {
    hide Multiple, CalignTo;
    var after := CurrentAlignment(al.align, total % al.align);
    WrapIsMultiple(total, al.align);
    PaddedIsMultiple(a, total, after, al.align);
  }

  lemma Primitives(p: Program, elem: nat)
    requires IsDevice(p) && elem in {U32T, U8T, CHART}
    ensures Valid(p) && HasCode(p.types, elem) && Measures(p, elem, ElementLengths())
  {
    hide Valid, IsDevice, Measures, IsLargest, AlignOf, Padding, Finite, HasCode, Leaves;
    Entries(p);
    ScalarEntries();
    AlignEntries();
    AlignIs(p, elem);
    ElementsHaveCode(p, elem);
    PrimitiveLeaf(p.types, elem);
    var fa := FixedField([], p.types[elem].primitif);
    OnlyLeaf(p.types, elem, fa);
    var size := fa.Size();
    NoPaddingAtAll(size);
    FixedIsMeasured(p, elem, fa, size, size);
  }

  lemma NoPaddingAtAll(size: nat)
    requires IsPo2(size)
    ensures Padding(CurrentAlignment(size, 0), size, size) == 0
  {
    if size == 1 {} else if size == 2 {} else if size == 4 {} else {}
  }

  lemma OnlyLeaf(ts: TypeTable, t: nat, fa: FieldAccessor)
    requires Finite(ts) && t < |ts| && Leaves(ts, t) == [fa] && fa.FixedField?
    ensures IsLargest(ts, t, fa) && TotalSize(Leaves(ts, t)) == fa.Size()
    ensures forall fb :: fb in Leaves(ts, t) ==> fb.FixedField?
  {
    assert [fa][1..] == [];
  }

  lemma RelAndKey(p: Program, elem: nat)
    requires IsDevice(p) && elem in {REL, KEY}
    ensures Valid(p) && HasCode(p.types, elem) && Measures(p, elem, ElementLengths())
  {
    hide Valid, IsDevice, Measures, IsLargest, AlignOf, Padding, Finite, HasCode, Leaves, LeavesFrom;
    Entries(p);
    ScalarEntries();
    StructEntries();
    AlignEntries();
    AlignIs(p, elem);
    ElementsHaveCode(p, elem);
    PartsLeaves(p.types, elem);
    PrimitivePart(p.types, elem, 0, U16T);
    var fa := FixedField([0], U16);
    assert [fa] + [] == [fa];
    OnlyLeaf(p.types, elem, fa);
    NoPaddingAtAll(2);
    FixedIsMeasured(p, elem, fa, 2, 2);
  }

  function AbsLeaves(): seq<FieldAccessor> {
    [FixedField([0], U16)] + ([FixedField([1], U32)] + ([FixedField([2], U32)] + ([FixedField([3], U32)] +
      ([FixedField([4], U32)] + ([FixedField([5], U32)] + [])))))
  }

  lemma AbsSums()
    ensures TotalSize(AbsLeaves()) == 22
  {
    hide TotalSize, Sum;
    var g := (fa: FieldAccessor) => 0;
    var l5 := [FixedField([5], U32)] + [];
    var l4 := [FixedField([4], U32)] + l5;
    var l3 := [FixedField([3], U32)] + l4;
    var l2 := [FixedField([2], U32)] + l3;
    var l1 := [FixedField([1], U32)] + l2;
    SumNone(g);
    SumFirst(FixedField([5], U32), [], g);
    SumFirst(FixedField([4], U32), l5, g);
    SumFirst(FixedField([3], U32), l4, g);
    SumFirst(FixedField([2], U32), l3, g);
    SumFirst(FixedField([1], U32), l2, g);
    SumFirst(FixedField([0], U16), l1, g);
  }

  lemma AbsLeavesAre(ts: TypeTable)
    requires Finite(ts) && |ts| == 25 && ts[ABS] == TypeStruct([U16T, U32T, U32T, U32T, U32T, U32T], true)
    requires ts[U16T] == TypePrimitif(U16) && ts[U32T] == TypePrimitif(U32)
    ensures Leaves(ts, ABS) == AbsLeaves()
  {
    hide Finite, Leaves, LeavesFrom;
    PartsLeaves(ts, ABS);
    PrimitivePart(ts, ABS, 0, U16T);
    PrimitivePart(ts, ABS, 1, U32T);
    PrimitivePart(ts, ABS, 2, U32T);
    PrimitivePart(ts, ABS, 3, U32T);
    PrimitivePart(ts, ABS, 4, U32T);
    PrimitivePart(ts, ABS, 5, U32T);
  }

  lemma AbsIsMeasured(p: Program)
    requires IsDevice(p)
    ensures Valid(p) && HasCode(p.types, ABS) && Measures(p, ABS, ElementLengths())
  {
    hide Valid, IsDevice, Measures, AlignOf, Padding, Finite, HasCode, Leaves, LeavesFrom, TotalSize;
    Entries(p);
    ScalarEntries();
    StructEntries();
    AlignEntries();
    AlignIs(p, ABS);
    ElementsHaveCode(p, ABS);
    AbsLeavesAre(p.types);
    AbsSums();
    TwoBytesOfPadding();
    FixedIsMeasured(p, ABS, FixedField([1], U32), 22, 24);
  }

  lemma TwoBytesOfPadding()
    ensures Padding(CurrentAlignment(4, 0), 22, 4) == 2
  {
  }

  /** The leaves of a struct whose one field is an array of variable length. */
  lemma OneArrayLeaves(ts: TypeTable, t: nat, c: nat, elem: nat)
    requires Finite(ts) && t < |ts| && c < |ts| && ts[t] == TypeStruct([c], true) && ts[c] == Unsized(elem)
    ensures Leaves(ts, t) == [ArrayField([0, 1], elem), FixedField([0, 0], U16)]
  {
    hide Finite, Leaves, LeavesFrom;
    PartsLeaves(ts, t);
    MaxArrayPart(ts, t, 0, c);
  }

  lemma TwoLeaves(ts: TypeTable, align: seq<nat>, t: nat, elem: nat, g: FieldAccessor -> nat)
    requires Finite(ts) && t < |ts| && Leaves(ts, t) == [ArrayField([0, 1], elem), FixedField([0, 0], U16)]
    requires g(FixedField([0, 0], U16)) == 0
    ensures IsLargest(ts, t, FixedField([0, 0], U16)) && IsStrictest(ts, align, t, ArrayField([0, 1], elem))
    ensures TotalSize(Leaves(ts, t)) == 2 && Sum(Leaves(ts, t), g) == g(ArrayField([0, 1], elem))
  {
    var fixed := [FixedField([0, 0], U16)] + [];
    assert Leaves(ts, t) == [ArrayField([0, 1], elem)] + fixed;
    SumNone(g);
    SumFirst(FixedField([0, 0], U16), [], g);
    SumFirst(ArrayField([0, 1], elem), fixed, g);
  }

  /** A struct with nothing but an array, whose elements need an alignment of at most 2. */
  lemma OneArrayEnd(p: Program, t: nat, c: nat, elem: nat, v: Value, a: int)
    requires Valid(p) && Emits(p, t) && |p.types| == |p.align| == 25 && t < 25 && c < 25 && elem < 25
    requires p.types[t] == TypeStruct([c], true) && p.types[c] == Unsized(elem) && p.align[elem] <= 2
    requires HasCode(p.types, elem) && Measures(p, elem, ElementLengths()) && Encodable(p.types, t, v) && Multiple(a, 2)
    ensures PlanOf(p, t, v, CurrentAlignment(2, 0), a).end ==
            AlignUp(a + 2 + Measured(ElementLengths(), elem, ElemsOf(PartOf(v, 0))), 2)
  {
    hide Valid, Measures, Finite, HasCode, Leaves, LeavesFrom, TotalSize, Encodable, PlanOf, IsLargest, IsStrictest,
      AlignUp, CalignTo, ArrayBytes, AllMeasured, Measured, Emits, Sum, AlignOf;
    ValidIsFinite(p);
    OneArrayLeaves(p.types, t, c, elem);
    FixedHasNoArrayBytes(p.types, t, v, ElementLengths());
    TwoLeaves(p.types, p.align, t, elem, ArrayBytesOf(p.types, t, v, ElementLengths()));
    OnlyMeasured(p, t, elem);
    OneArrayBytes(p.types, t, c, elem, v);
    var f := AlignOf(p, elem);
    SmallPadding(a, f);
    ArrayEnd(p, t, v, CurrentAlignment(2, 0), a, ElementLengths(), FixedField([0, 0], U16), ArrayField([0, 1], elem));
  }

  lemma OnlyMeasured(p: Program, t: nat, elem: nat)
    requires Valid(p) && t < |p.types| && Leaves(p.types, t) == [ArrayField([0, 1], elem), FixedField([0, 0], U16)]
    requires HasCode(p.types, elem) && Measures(p, elem, ElementLengths())
    ensures AllMeasured(p, t, ElementLengths())
  {
    hide Measures, HasCode;
  }

  lemma OneArrayBytes(ts: TypeTable, t: nat, c: nat, elem: nat, v: Value)
    requires t < |ts| && c < |ts| && ts[t] == TypeStruct([c], true) && ts[c] == Unsized(elem) && Encodable(ts, t, v)
    ensures ArrayBytes(ts, t, v, ElementLengths(), ArrayField([0, 1], elem)) == Measured(ElementLengths(), elem, ElemsOf(PartOf(v, 0)))
  {
    assert Encodable(ts, Parts(ts[t])[0], v.elems[0]);
    ArrayPartBytes(ts, t, v, ElementLengths(), 0, c, elem);
  }

  lemma SmallPadding(a: int, f: nat)
    requires Multiple(a, 2) && IsPo2(f) && f <= 2
    ensures var al := CurrentAlignment(2, 0);
            CalignTo(al, 2) == 0 && Padding(al, 2, f) == 0 && Multiple(a + 2, f) && IsPo2(2)
  {
  }

  lemma EvenAlignUp(a: int, n: nat)
    requires Multiple(a, 2)
    ensures AlignUp(a + 2 + n, 2) == a + (2 + Align2(n)) && Multiple(a + (2 + Align2(n)), 2)
  {
  }

  lemma {:induction false} MeasuredOnes(vs: seq<Value>)
    ensures Measured(ElementLengths(), CHART, vs) == |vs|
    decreases |vs|
  {
    if vs != [] {
      MeasuredOnes(vs[1..]);
    }
  }

  lemma {:induction false} MeasuredTags(vs: seq<Value>)
    ensures Measured(ElementLengths(), TAG, vs) == TagLengths(vs) && TagLengths(vs) % 2 == 0
    decreases |vs|
  {
    if vs != [] {
      MeasuredTags(vs[1..]);
    }
  }

  lemma {:induction false} MeasuredLists(vs: seq<Value>)
    ensures Measured(ElementLengths(), TAG_LIST, vs) == ListLengths(vs)
    decreases |vs|
  {
    if vs != [] {
      MeasuredLists(vs[1..]);
    }
  }

  lemma TagIsMeasured(p: Program)
    requires IsDevice(p)
    ensures Valid(p) && HasCode(p.types, TAG) && Measures(p, TAG, ElementLengths())
  {
    hide Valid, Finite, HasCode, Encodable, PlanOf, AlignUp, Measured, Emits, Multiple, Align2, AlignOf,
      IsDevice, TYPES, ALIGN, MESSAGES;
    Entries(p);
    ScalarEntries();
    TagEntries();
    AlignEntries();
    AlignIs(p, TAG);
    AlignIs(p, CHART);
    ElementsHaveCode(p, TAG);
    Primitives(p, CHART);
    forall v: Value, a: int | Encodable(p.types, TAG, v) && Multiple(a, 2) ensures IsMeasured(p, TAG, ElementLengths(), v, a) {
      OneArrayEnd(p, TAG, CHARS, CHART, v, a);
      MeasuredOnes(ElemsOf(PartOf(v, 0)));
      EvenAlignUp(a, |ElemsOf(PartOf(v, 0))|);
    }
  }

  lemma TagListIsMeasured(p: Program)
    requires IsDevice(p)
    ensures Valid(p) && HasCode(p.types, TAG_LIST) && Measures(p, TAG_LIST, ElementLengths())
  {
    hide Valid, Finite, HasCode, Encodable, PlanOf, AlignUp, Measured, Emits, Multiple, AlignOf,
      IsDevice, TYPES, ALIGN, MESSAGES;
    Entries(p);
    ScalarEntries();
    TagEntries();
    AlignEntries();
    AlignIs(p, TAG_LIST);
    AlignIs(p, TAG);
    ElementsHaveCode(p, TAG_LIST);
    TagIsMeasured(p);
    forall v: Value, a: int | Encodable(p.types, TAG_LIST, v) && Multiple(a, 2)
      ensures IsMeasured(p, TAG_LIST, ElementLengths(), v, a)
    {
      var tags := ElemsOf(PartOf(v, 0));
      OneArrayEnd(p, TAG_LIST, TAGS, TAG, v, a);
      MeasuredTags(tags);
      EvenAlignUp(a, TagLengths(tags));
      assert Align2(TagLengths(tags)) == TagLengths(tags);
    }
  }

  // ----- lengths of messages

  lemma {:induction false} MeasuredConstant(elem: nat, vs: seq<Value>, c: nat)
    requires forall v :: ElementLength(elem, v) == c
    ensures Measured(ElementLengths(), elem, vs) == c * |vs|
    decreases |vs|
  {
    hide ElementLength;
    if vs != [] {
      MeasuredConstant(elem, vs[1..], c);
      assert c * |vs| == c + c * |vs[1..]|;
    }
  }

  /** The end of a body that starts at 8 and has a slot, an index and three arrays. */
  lemma ThreeArraysEnd(p: Program, t: nat, a1: nat, a2: nat, a3: nat, e1: nat, e2: nat, e3: nat, v: Value)
    requires Valid(p) && Emits(p, t) && |p.types| == |p.align| == 25 && t < 25 && a1 < 25 && a2 < 25 && a3 < 25
    requires e1 < 25 && e2 < 25 && e3 < 25 && p.types[U8T] == TypePrimitif(U8)
    requires p.types[t] == TypeStruct([U8T, U8T, a1, a2, a3], false)
    requires p.types[a1] == UpTo(64, e1) && p.types[a2] == UpTo(16, e2) && p.types[a3] == UpTo(768, e3)
    requires p.align[e1] == 4 && p.align[e2] <= 4 && p.align[e3] <= 4
    requires HasCode(p.types, e1) && HasCode(p.types, e2) && HasCode(p.types, e3)
    requires Measures(p, e1, ElementLengths()) && Measures(p, e2, ElementLengths()) && Measures(p, e3, ElementLengths())
    requires Encodable(p.types, t, v)
    ensures PlanOf(p, t, v, BODY, 8).end ==
            AlignUp(16 + (Measured(ElementLengths(), e1, ElemsOf(PartOf(v, 2))) +
                          Measured(ElementLengths(), e2, ElemsOf(PartOf(v, 3))) +
                          Measured(ElementLengths(), e3, ElemsOf(PartOf(v, 4)))), 8)
  {
    hide Valid, Measures, Finite, HasCode, Leaves, LeavesFrom, TotalSize, Encodable, PlanOf, IsLargest, IsStrictest,
      AlignUp, CalignTo, ArrayBytes, AllMeasured, Measured, Emits, Sum, AlignOf, ElementLengths, PartOf, ElemsOf,
      Multiple, Padding, IsPo2, UpTo;
    ValidIsFinite(p);
    ThreeArraysLeaves(p.types, t, a1, a2, a3, e1, e2, e3);
    FixedHasNoArrayBytes(p.types, t, v, ElementLengths());
    ThreeArraysSums(e1, e2, e3, ArrayBytesOf(p.types, t, v, ElementLengths()));
    ThreeArraysMeasured(p, t, e1, e2, e3);
    ThreeArraysExtremes(p.types, p.align, t, e1, e2, e3);
    ThreeArraysBytes(p.types, t, a1, a2, a3, e1, e2, e3, v);
    EndAfterSix(p, t, v, FixedField([4, 0], U16), ArrayField([2, 1], e1));
  }

  /** Where a body ends that has six bytes of scalars, the largest of two, before arrays aligned to 4. */
  lemma EndAfterSix(p: Program, t: nat, v: Value, first: FieldAccessor, arr: FieldAccessor)
    requires Valid(p) && Emits(p, t) && t < |p.types| && AllMeasured(p, t, ElementLengths()) && Encodable(p.types, t, v)
    requires IsLargest(p.types, t, first) && IsStrictest(p.types, p.align, t, arr)
    requires first.Size() == 2 && FieldAlign(p.align, arr) == 4 && TotalSize(Leaves(p.types, t)) == 6
    ensures PlanOf(p, t, v, BODY, 8).end ==
            AlignUp(16 + Sum(Leaves(p.types, t), ArrayBytesOf(p.types, t, v, ElementLengths())), 8)
  {
    hide Valid, Leaves, TotalSize, Encodable, PlanOf, IsLargest, IsStrictest, AlignUp, CalignTo, AllMeasured, Emits, Sum,
      ElementLengths, ArrayBytesOf, Padding, Multiple;
    BodyOfSix();
    ArrayEnd(p, t, v, BODY, 8, ElementLengths(), first, arr);
  }

  lemma BodyOfSix()
    ensures CalignTo(BODY, 2) == 0 && Padding(BODY, 6, 4) == 0 && IsPo2(2) && IsPo2(4) && Multiple(8 + 2 + 0 + 6 + 0, 4)
  {
  }

  lemma ThreeArraysMeasured(p: Program, t: nat, e1: nat, e2: nat, e3: nat)
    requires Valid(p) && t < |p.types| && Leaves(p.types, t) == ThreeArrays(e1, e2, e3)
    requires HasCode(p.types, e1) && HasCode(p.types, e2) && HasCode(p.types, e3)
    requires Measures(p, e1, ElementLengths()) && Measures(p, e2, ElementLengths()) && Measures(p, e3, ElementLengths())
    ensures AllMeasured(p, t, ElementLengths())
  {
    hide Measures, HasCode, Valid;
    ValidIsFinite(p);
  }

  lemma ThreeArraysExtremes(ts: TypeTable, align: seq<nat>, t: nat, e1: nat, e2: nat, e3: nat)
    requires Finite(ts) && t < |ts| && Leaves(ts, t) == ThreeArrays(e1, e2, e3)
    requires e1 < |align| && e2 < |align| && e3 < |align| && align[e1] == 4 && align[e2] <= 4 && align[e3] <= 4
    ensures IsLargest(ts, t, FixedField([4, 0], U16)) && IsStrictest(ts, align, t, ArrayField([2, 1], e1))
  {
    hide Finite, Leaves;
    forall fa | fa in ThreeArrays(e1, e2, e3)
      ensures if fa.FixedField? then fa.Size() <= 2 else FieldAlign(align, fa) <= 4
    {
    }
  }

  lemma ThreeArraysBytes(ts: TypeTable, t: nat, a1: nat, a2: nat, a3: nat, e1: nat, e2: nat, e3: nat, v: Value)
    requires t < |ts| && a1 < |ts| && a2 < |ts| && a3 < |ts| && ts[t] == TypeStruct([U8T, U8T, a1, a2, a3], false)
    requires ts[a1] == UpTo(64, e1) && ts[a2] == UpTo(16, e2) && ts[a3] == UpTo(768, e3) && Encodable(ts, t, v)
    ensures ArrayBytes(ts, t, v, ElementLengths(), ArrayField([2, 1], e1)) == Measured(ElementLengths(), e1, ElemsOf(PartOf(v, 2)))
    ensures ArrayBytes(ts, t, v, ElementLengths(), ArrayField([3, 1], e2)) == Measured(ElementLengths(), e2, ElemsOf(PartOf(v, 3)))
    ensures ArrayBytes(ts, t, v, ElementLengths(), ArrayField([4, 1], e3)) == Measured(ElementLengths(), e3, ElemsOf(PartOf(v, 4)))
  {
    hide Measured, ElementLengths;
    var len := ElementLengths();
    assert Encodable(ts, Parts(ts[t])[2], v.elems[2]) && Encodable(ts, Parts(ts[t])[3], v.elems[3]);
    assert Encodable(ts, Parts(ts[t])[4], v.elems[4]);
    hide ArrayBytes;
    ArrayPartBytes(ts, t, v, len, 2, a1, e1);
    ArrayPartBytes(ts, t, v, len, 3, a2, e2);
    ArrayPartBytes(ts, t, v, len, 4, a3, e3);
  }

  lemma MessageEntries()
    ensures |TYPES| == 25 && TYPES[U8T] == TypePrimitif(U8) && TYPES[U16T] == TypePrimitif(U16) &&
            TYPES[U64T] == TypePrimitif(U64)
    ensures TYPES[INFO] == TypeStruct([U8T, U8T, ABS_ARRAY, REL_ARRAY, KEY_ARRAY], false)
    ensures TYPES[REPORT] == TypeStruct([U8T, U8T, ABS_VALUES, REL_VALUES, KEY_VALUES], false)
    ensures TYPES[CONTROLLER_STATE] == TypeStruct([U16T, LED, U8T, U8T, U8T, U8T], false)
    ensures TYPES[REQUEST] == TypeStruct([TAG_LISTS, U64T], false) && TYPES[DESTROY] == TypeStruct([U16T], false)
  {
  }

  lemma ArrayEntries()
    ensures TYPES[ABS_ARRAY] == UpTo(64, ABS) && TYPES[REL_ARRAY] == UpTo(16, REL) && TYPES[KEY_ARRAY] == UpTo(768, KEY)
    ensures TYPES[ABS_VALUES] == UpTo(64, U32T) && TYPES[REL_VALUES] == UpTo(16, U32T) &&
            TYPES[KEY_VALUES] == UpTo(768, U8T)
    ensures TYPES[LED] == TypeArray(SizingFixed, 3, false, U8T) && TYPES[TAG_LISTS] == Unsized(TAG_LIST)
  {
  }

  /** The number of elements in field i. */
  function Count(v: Value, i: nat): nat {
    |ElemsOf(PartOf(v, i))|
  }

  lemma BodyIs(p: Program, tag: nat)
    requires IsDevice(p) && 1 <= tag <= 5
    ensures IsProtocol(Device(p)) && Known(Device(p), tag)
    ensures Body(Device(p), tag) == [INFO, REPORT, CONTROLLER_STATE, REQUEST, DESTROY][tag - 1]
    ensures Valid(p) && Emits(p, Body(Device(p), tag)) && Body(Device(p), tag) < |p.types|
  {
    hide Valid;
    DeviceIsProtocol(p);
  }

  lemma LengthFromEnd(p: Program, tag: nat, t: nat, v: Value)
    requires IsDevice(p) && 1 <= tag <= 5 && t == [INFO, REPORT, CONTROLLER_STATE, REQUEST, DESTROY][tag - 1]
    ensures IsProtocol(Device(p)) && Known(Device(p), tag) && Valid(p) && Emits(p, t) && t < |p.types|
    ensures Length(Device(p), tag, v) == PlanOf(p, t, v, BODY, 8).end + 8
  {
    hide Valid, IsDevice, IsProtocol, PlanOf, Body;
    BodyIs(p, tag);
  }

  lemma AlignUpBy8(x: int)
    ensures AlignUp(16 + x, 8) == 8 + AlignUp(8 + x, 8) && AlignUp(26 + x, 8) == 8 + AlignUp(18 + x, 8)
  {
    AlignUpShifts(8 + x, 8, 8);
    AlignUpShifts(18 + x, 8, 8);
  }

  lemma InfoLength(p: Program, v: Value)
    requires IsDevice(p) && Encodable(p.types, INFO, v)
    ensures IsProtocol(Device(p)) && Known(Device(p), TAG_INFO)
    ensures Length(Device(p), TAG_INFO, v) == 16 + AlignUp(8 + 24 * Count(v, 2) + 2 * Count(v, 3) + 2 * Count(v, 4), 8)
  {
    hide Valid, Finite, HasCode, Encodable, PlanOf, AlignUp, Measured, Emits, Measures, IsProtocol, Length,
      IsDevice, TYPES, ALIGN, MESSAGES;
    Entries(p);
    MessageEntries();
    ArrayEntries();
    AlignEntries();
    AbsIsMeasured(p);
    RelAndKey(p, REL);
    RelAndKey(p, KEY);
    LengthFromEnd(p, TAG_INFO, INFO, v);
    ThreeArraysEnd(p, INFO, ABS_ARRAY, REL_ARRAY, KEY_ARRAY, ABS, REL, KEY, v);
    MeasuredConstant(ABS, ElemsOf(PartOf(v, 2)), 24);
    MeasuredConstant(REL, ElemsOf(PartOf(v, 3)), 2);
    MeasuredConstant(KEY, ElemsOf(PartOf(v, 4)), 2);
    AlignUpBy8(24 * Count(v, 2) + 2 * Count(v, 3) + 2 * Count(v, 4));
  }

  lemma ReportLength(p: Program, v: Value)
    requires IsDevice(p) && Encodable(p.types, REPORT, v)
    ensures IsProtocol(Device(p)) && Known(Device(p), TAG_REPORT)
    ensures Length(Device(p), TAG_REPORT, v) == 16 + AlignUp(8 + 4 * Count(v, 2) + 4 * Count(v, 3) + Count(v, 4), 8)
  {
    hide Valid, Finite, HasCode, Encodable, PlanOf, AlignUp, Measured, Emits, Measures, IsProtocol, Length,
      IsDevice, TYPES, ALIGN, MESSAGES;
    Entries(p);
    MessageEntries();
    ArrayEntries();
    AlignEntries();
    Primitives(p, U32T);
    Primitives(p, U8T);
    LengthFromEnd(p, TAG_REPORT, REPORT, v);
    ThreeArraysEnd(p, REPORT, ABS_VALUES, REL_VALUES, KEY_VALUES, U32T, U32T, U8T, v);
    MeasuredConstant(U32T, ElemsOf(PartOf(v, 2)), 4);
    MeasuredConstant(U32T, ElemsOf(PartOf(v, 3)), 4);
    MeasuredConstant(U8T, ElemsOf(PartOf(v, 4)), 1);
    AlignUpBy8(4 * Count(v, 2) + 4 * Count(v, 3) + Count(v, 4));
  }

  lemma DestroyLength(p: Program, v: Value)
    requires IsDevice(p)
    ensures IsProtocol(Device(p)) && Known(Device(p), TAG_DESTROY) && Length(Device(p), TAG_DESTROY, v) == 24
  {
    hide Valid, Finite, HasCode, Encodable, PlanOf, Emits, IsProtocol, Length, Leaves, LeavesFrom, TotalSize, IsLargest,
      IsDevice, TYPES, ALIGN, MESSAGES;
    Entries(p);
    MessageEntries();
    LengthFromEnd(p, TAG_DESTROY, DESTROY, v);
    PartsLeaves(p.types, DESTROY);
    PrimitivePart(p.types, DESTROY, 0, U16T);
    var fa := FixedField([0], U16);
    assert [fa] + [] == [fa];
    OnlyLeaf(p.types, DESTROY, fa);
    FixedEnd(p, DESTROY, v, BODY, 8, fa);
  }

  /** All that Destroy puts into a buffer: the magics, its tag 5, and the index of the device as 16 bits. */
  lemma DestroyImage(p: Program, index: nat, a: int)
    requires IsDevice(p) && index < 0x1_0000
    ensures IsProtocol(Device(p)) && Known(Device(p), 5) && Encodable(p.types, Body(Device(p), 5), Agg([Num(index)]))
    ensures Image(Device(p), 5, Agg([Num(index)]), a) ==
            [Write(a, MAGIC_START), Write(a + 8, [5, 0]), Write(a + 10, [index % 0x100, index / 0x100]), Write(a + 16, MAGIC_END)]
  {
    hide Valid, Finite, PlanOf, Emits, IsProtocol, Leaves, LeavesFrom, IsDevice, TYPES, ALIGN, MESSAGES, Body, ToBytes,
      Encodable;
    Entries(p);
    MessageEntries();
    BodyIs(p, TAG_DESTROY);
    PartsLeaves(p.types, DESTROY);
    PrimitivePart(p.types, DESTROY, 0, U16T);
    var v, fa := Agg([Num(index)]), FixedField([0], U16);
    assert [fa] + [] == [fa];
    OneLeafPlan(p, DESTROY, v, fa, a + 8);
    DestroyHolds(p.types, index);
    TwoBytesAre(5);
    TwoBytesAre(index);
  }

  lemma DestroyHolds(ts: TypeTable, index: nat)
    requires |ts| == 25 && ts[DESTROY] == TypeStruct([U16T], false) && ts[U16T] == TypePrimitif(U16) && index < 0x1_0000
    ensures Encodable(ts, DESTROY, Agg([Num(index)])) && NumOf(At(ts, DESTROY, Agg([Num(index)]), [0])) == index
  {
    assert Pow256(2) == 0x1_0000;
    assert [0][1..] == [];
  }

  lemma TwoBytesAre(n: nat)
    requires n < 0x1_0000
    ensures ToBytes(n, 2) == [n % 0x100, n / 0x100]
  {
    assert ToBytes(n / 0x100, 1) == [n / 0x100] + ToBytes(0, 0);
  }

  /** A body of two bytes. */
  lemma OneLeafPlan(p: Program, t: nat, v: Value, fa: FieldAccessor, a: int)
    requires Valid(p) && Emits(p, t) && t < |p.types| && Finite(p.types)
    requires Leaves(p.types, t) == [fa] && fa.FixedField? && fa.prim == U16
    ensures PlanOf(p, t, v, BODY, a) == Plan([Write(a + 2, ToBytes(NumOf(At(p.types, t, v, fa.indices)), 2))], a + 8)
  {
    hide Valid, Emits, Leaves, LeavesFrom, Finite, ShapeOf, PlanOf, PlanArrays, ToBytes, At;
    OneLeafLayout(p, t, fa);
    ShapeIs(p, t, BODY);
    PlanParts(p, t, v, BODY, a);
    Scalars.OneFixed(fa);
    assert CalignTo(BODY, 2) == 0 && CalignTo(CalignAdd(BODY, 2), 8) == 4;
    assert AlignAfter(BODY, [fa]) == CalignAdd(BODY, 2);
  }

  lemma OneLeafLayout(p: Program, t: nat, fa: FieldAccessor)
    requires Valid(p) && t < |p.types| && Finite(p.types) && Leaves(p.types, t) == [fa]
    ensures t < |p.layouts| && p.layouts[t] == [fa]
  {
    hide Leaves, Finite;
    LayoutLeaves(p.types, p.align, t, p.layouts[t]);
    assert p.layouts[t][0] in p.layouts[t];
  }

  /** The leaves of the state of a controller; the colour is an array of three bytes. */
  function StateLeaves(): seq<FieldAccessor> {
    [FixedField([0], U16)] + ([FixedField([1, 0], U8)] + ([FixedField([1, 1], U8)] + ([FixedField([1, 2], U8)] +
      ([FixedField([2], U8)] + ([FixedField([3], U8)] + ([FixedField([4], U8)] + ([FixedField([5], U8)] + [])))))))
  }

  lemma StateLeavesAre(ts: TypeTable)
    requires Finite(ts) && |ts| == 25 && ts[CONTROLLER_STATE] == TypeStruct([U16T, LED, U8T, U8T, U8T, U8T], false)
    requires ts[LED] == TypeArray(SizingFixed, 3, false, U8T) && ts[U16T] == TypePrimitif(U16) &&
             ts[U8T] == TypePrimitif(U8)
    ensures Leaves(ts, CONTROLLER_STATE) == StateLeaves()
  {
    hide Finite, Leaves, LeavesFrom;
    var t := CONTROLLER_STATE;
    PartsLeaves(ts, t);
    PrimitivePart(ts, t, 0, U16T);
    LedPart(ts);
    PrimitivePart(ts, t, 2, U8T);
    PrimitivePart(ts, t, 3, U8T);
    PrimitivePart(ts, t, 4, U8T);
    PrimitivePart(ts, t, 5, U8T);
  }

  lemma LedPart(ts: TypeTable)
    requires Finite(ts) && |ts| == 25 && ts[CONTROLLER_STATE] == TypeStruct([U16T, LED, U8T, U8T, U8T, U8T], false)
    requires ts[LED] == TypeArray(SizingFixed, 3, false, U8T) && ts[U8T] == TypePrimitif(U8)
    ensures LeavesFrom(ts, CONTROLLER_STATE, 1) ==
            [FixedField([1, 0], U8)] + ([FixedField([1, 1], U8)] + ([FixedField([1, 2], U8)] + LeavesFrom(ts, CONTROLLER_STATE, 2)))
  {
    hide Finite, Leaves;
    LedLeaves(ts);
    var rest := LeavesFrom(ts, CONTROLLER_STATE, 2);
    var led := [FixedField([1, 0], U8)] + [FixedField([1, 1], U8)] + [FixedField([1, 2], U8)];
    assert [1] + [0] == [1, 0] && [1] + [1] == [1, 1] && [1] + [2] == [1, 2];
    assert AllUnder(1, Leaves(ts, LED)) == led;
    assert led + rest == [FixedField([1, 0], U8)] + ([FixedField([1, 1], U8)] + ([FixedField([1, 2], U8)] + rest));
  }

  lemma LedLeaves(ts: TypeTable)
    requires Finite(ts) && |ts| == 25 && ts[LED] == TypeArray(SizingFixed, 3, false, U8T) && ts[U8T] == TypePrimitif(U8)
    ensures Leaves(ts, LED) == [FixedField([0], U8), FixedField([1], U8), FixedField([2], U8)]
  {
    hide Finite, Leaves, LeavesFrom;
    PartsLeaves(ts, LED);
    PrimitivePart(ts, LED, 0, U8T);
    PrimitivePart(ts, LED, 1, U8T);
    PrimitivePart(ts, LED, 2, U8T);
  }

  lemma StateSums()
    ensures TotalSize(StateLeaves()) == 9
  {
    hide TotalSize, Sum;
    var g := (fa: FieldAccessor) => 0;
    var l7 := [FixedField([5], U8)] + [];
    var l6 := [FixedField([4], U8)] + l7;
    var l5 := [FixedField([3], U8)] + l6;
    var l4 := [FixedField([2], U8)] + l5;
    var l3 := [FixedField([1, 2], U8)] + l4;
    var l2 := [FixedField([1, 1], U8)] + l3;
    var l1 := [FixedField([1, 0], U8)] + l2;
    SumNone(g);
    SumFirst(FixedField([5], U8), [], g);
    SumFirst(FixedField([4], U8), l7, g);
    SumFirst(FixedField([3], U8), l6, g);
    SumFirst(FixedField([2], U8), l5, g);
    SumFirst(FixedField([1, 2], U8), l4, g);
    SumFirst(FixedField([1, 1], U8), l3, g);
    SumFirst(FixedField([1, 0], U8), l2, g);
    SumFirst(FixedField([0], U16), l1, g);
  }

  lemma ControllerStateLength(p: Program, v: Value)
    requires IsDevice(p)
    ensures IsProtocol(Device(p)) && Known(Device(p), TAG_CONTROLLER_STATE)
    ensures Length(Device(p), TAG_CONTROLLER_STATE, v) == 32
  {
    hide Valid, Finite, HasCode, Encodable, PlanOf, Emits, IsProtocol, Length, Leaves, LeavesFrom, TotalSize, Padding,
      CalignTo,
      IsDevice, TYPES, ALIGN, MESSAGES;
    Entries(p);
    MessageEntries();
    ArrayEntries();
    LengthFromEnd(p, TAG_CONTROLLER_STATE, CONTROLLER_STATE, v);
    StateLeavesAre(p.types);
    StateSums();
    BodyOfNine();
    FixedEnd(p, CONTROLLER_STATE, v, BODY, 8, FixedField([0], U16));
  }

  lemma BodyOfNine()
    ensures CalignTo(BODY, 2) == 0 && Padding(BODY, 9, 8) == 5 && IsPo2(2) && IsPo2(BODY.align)
  {
  }

  function RequestLeaves(): seq<FieldAccessor> {
    [ArrayField([0, 1], TAG_LIST)] + ([FixedField([0, 0], U16)] + ([FixedField([1], U64)] + []))
  }

  lemma RequestLeavesAre(ts: TypeTable)
    requires Finite(ts) && |ts| == 25 && ts[REQUEST] == TypeStruct([TAG_LISTS, U64T], false)
    requires ts[TAG_LISTS] == Unsized(TAG_LIST) && ts[U64T] == TypePrimitif(U64)
    ensures Leaves(ts, REQUEST) == RequestLeaves()
  {
    hide Finite, Leaves, LeavesFrom;
    PartsLeaves(ts, REQUEST);
    MaxArrayPart(ts, REQUEST, 0, TAG_LISTS);
    PrimitivePart(ts, REQUEST, 1, U64T);
  }

  lemma RequestSums(ts: TypeTable, align: seq<nat>, g: FieldAccessor -> nat)
    requires Finite(ts) && |ts| == 25 && Leaves(ts, REQUEST) == RequestLeaves()
    requires forall fa: FieldAccessor :: fa.FixedField? ==> g(fa) == 0
    ensures TotalSize(RequestLeaves()) == 10 && Sum(RequestLeaves(), g) == g(ArrayField([0, 1], TAG_LIST))
    ensures IsLargest(ts, REQUEST, FixedField([1], U64)) && IsStrictest(ts, align, REQUEST, ArrayField([0, 1], TAG_LIST))
  {
    var l2 := [FixedField([1], U64)] + [];
    var l1 := [FixedField([0, 0], U16)] + l2;
    hide TotalSize, Sum, Finite;
    SumNone(g);
    SumFirst(FixedField([1], U64), [], g);
    SumFirst(FixedField([0, 0], U16), l2, g);
    SumFirst(ArrayField([0, 1], TAG_LIST), l1, g);
  }

  lemma RequestLength(p: Program, v: Value)
    requires IsDevice(p) && Encodable(p.types, REQUEST, v)
    ensures IsProtocol(Device(p)) && Known(Device(p), TAG_REQUEST)
    ensures Length(Device(p), TAG_REQUEST, v) == 16 + AlignUp(18 + ListLengths(ElemsOf(PartOf(v, 0))), 8)
  {
    hide Valid, Finite, HasCode, Encodable, PlanOf, AlignUp, Measured, Emits, Measures, IsProtocol, Length, Leaves,
      LeavesFrom, TotalSize, Padding, CalignTo, IsLargest, IsStrictest, AllMeasured, ArrayBytes, Sum, ListLengths, Multiple,
      IsDevice, TYPES, ALIGN, MESSAGES;
    Entries(p);
    MessageEntries();
    ArrayEntries();
    AlignEntries();
    TagListIsMeasured(p);
    LengthFromEnd(p, TAG_REQUEST, REQUEST, v);
    RequestLeavesAre(p.types);
    FixedHasNoArrayBytes(p.types, REQUEST, v, ElementLengths());
    RequestSums(p.types, p.align, ArrayBytesOf(p.types, REQUEST, v, ElementLengths()));
    RequestMeasured(p, v);
    BodyOfTen();
    ArrayEnd(p, REQUEST, v, BODY, 8, ElementLengths(), FixedField([1], U64), ArrayField([0, 1], TAG_LIST));
    MeasuredLists(ElemsOf(PartOf(v, 0)));
    AlignUpBy8(ListLengths(ElemsOf(PartOf(v, 0))));
  }

  lemma BodyOfTen()
    ensures CalignTo(BODY, 8) == 6 && Padding(BODY, 10, 2) == 0 && IsPo2(8) && IsPo2(2) && Multiple(8 + 2 + 6 + 10 + 0, 2)
  {
  }

  lemma RequestMeasured(p: Program, v: Value)
    requires Valid(p) && |p.types| == 25 && Leaves(p.types, REQUEST) == RequestLeaves()
    requires p.types[REQUEST] == TypeStruct([TAG_LISTS, U64T], false) && p.types[TAG_LISTS] == Unsized(TAG_LIST)
    requires HasCode(p.types, TAG_LIST) && Measures(p, TAG_LIST, ElementLengths()) && Encodable(p.types, REQUEST, v)
    ensures AllMeasured(p, REQUEST, ElementLengths())
    ensures ArrayBytes(p.types, REQUEST, v, ElementLengths(), ArrayField([0, 1], TAG_LIST)) ==
            Measured(ElementLengths(), TAG_LIST, ElemsOf(PartOf(v, 0)))
  {
    hide Measures, HasCode, Valid, Measured, ElementLengths;
    ValidIsFinite(p);
    assert Encodable(p.types, Parts(p.types[REQUEST])[0], v.elems[0]);
    ArrayPartBytes(p.types, REQUEST, v, ElementLengths(), 0, TAG_LISTS, TAG_LIST);
  }

  // ----- round trip

  lemma AnyLeaf(p: Program, t: nat, fa: FieldAccessor)
    requires Valid(p) && t < |p.types| && Finite(p.types) && fa in Leaves(p.types, t)
    ensures p.layouts[t] != []
  {
    hide Valid, Leaves, Finite;
    LayoutSplits(p, t);
    assert fa in p.layouts[t];
  }

  lemma DeviceHasFields(p: Program, tag: nat)
    requires IsDevice(p) && 1 <= tag <= 5
    ensures IsProtocol(Device(p)) && Known(Device(p), tag) && HasFields(Device(p), tag)
  {
    hide Valid, Finite, Leaves, LeavesFrom, IsProtocol, Body;
    Entries(p);
    MessageEntries();
    ArrayEntries();
    BodyIs(p, tag);
    var t := Body(Device(p), tag);
    if t == INFO {
      ThreeArraysLeaves(p.types, INFO, ABS_ARRAY, REL_ARRAY, KEY_ARRAY, ABS, REL, KEY);
      AnyLeaf(p, INFO, FixedField([0], U8));
    } else if t == REPORT {
      ThreeArraysLeaves(p.types, REPORT, ABS_VALUES, REL_VALUES, KEY_VALUES, U32T, U32T, U8T);
      AnyLeaf(p, REPORT, FixedField([0], U8));
    } else if t == CONTROLLER_STATE {
      StateLeavesAre(p.types);
      AnyLeaf(p, CONTROLLER_STATE, FixedField([0], U16));
    } else if t == REQUEST {
      RequestLeavesAre(p.types);
      AnyLeaf(p, REQUEST, FixedField([1], U64));
    } else {
      PartsLeaves(p.types, DESTROY);
      PrimitivePart(p.types, DESTROY, 0, U16T);
      AnyLeaf(p, DESTROY, FixedField([0], U16));
    }
  }

  lemma DeviceHasNoPointers(p: Program)
    requires IsDevice(p)
    ensures NoPointers(p.types)
  {
    hide Valid;
    forall t | 0 <= t < |TYPES| ensures !IsPointer(TYPES[t]) {
    }
  }

  /** Every receiver has a place for what a sender holds. */
  lemma DeviceHasPlace(p: Program, fuel: nat, tag: nat, v: Value, obj: Object, obj': Object)
    requires IsDevice(p) && IsProtocol(Device(p)) && 1 <= tag <= 5 && Known(Device(p), tag)
    requires Holding(Device(p), fuel, tag, v, obj)
    ensures HasPlace(Device(p), tag, v, obj') && HasPlace(Device(p), tag, v, FRESH)
  {
    hide IsDevice, IsProtocol, Valid, NoPointers, Encodable, Represents, Takes, Body, Stamped;
    DeviceHasNoPointers(p);
    HeldIsTaken(p.types, Stamped(Device(p), tag, obj), [], Body(Device(p), tag), v, obj');
  }

  lemma SentIsHeld(pr: Protocol, fuel: nat, tag: nat, v: Value, len: nat, st: State, out: State)
    requires IsProtocol(pr) && Known(pr, tag) && Sent(pr, fuel, tag, v, len, st, out)
    ensures Holding(pr, fuel, tag, v, st.obj)
  {
    hide IsProtocol, Holding;
  }

  /** Every message of the protocol arrives, at an address that agrees modulo 8, whatever the receiver held before. */
  lemma DeviceRoundTrip(p: Program, fuel: nat, tag: nat, v: Value, len: nat, st: State, out: State,
                        len': nat, before: nat, st': State)
    requires IsDevice(p) && IsProtocol(Device(p)) && 1 <= tag <= 5 && Known(Device(p), tag)
    requires Sent(Device(p), fuel, tag, v, len, st, out) && Multiple(st'.buf - st.buf, 8)
    requires Copied(Image(Device(p), tag, v, st.buf), out.mem, st'.mem, st'.buf - st.buf)
    requires out.buf - st.buf <= len'
    ensures Arrives(Device(p), tag, v, out.buf - st.buf, Deserialize(Device(p), fuel, len', before, st'))
  {
    hide IsDevice, IsProtocol, Sent, Copied, Image, HasFields, Deserialize, Multiple, Arrives, HasPlace, Holding;
    DeviceHasFields(p, tag);
    SentIsHeld(Device(p), fuel, tag, v, len, st, out);
    DeviceHasPlace(p, fuel, tag, v, st.obj, st'.obj);
    ArrivesIfPlaced(Device(p), fuel, tag, v, len, st, out, len', before, st');
  }

  // ----- the buffers of 2048 bytes

  lemma FitsIff(x: nat)
    ensures 16 + AlignUp(8 + x, 8) <= 2048 <==> x <= 2024
  {
    AlignUpGrows(8 + x, 8);
    AlignUpGrows(2032, 8);
    if x <= 2024 {
      NoLessThan(8 + x, 2032);
    }
  }

  lemma NoLessThan(x: int, y: int)
    requires x <= y && y % 8 == 0
    ensures AlignUp(x, 8) <= y
  {
    assert y == 8 * (y / 8);
  }

  /** Not every device can be announced in such a buffer: exactly those with few enough axes and keys. */
  lemma InfoFitsIff(p: Program, v: Value)
    requires IsDevice(p) && Encodable(p.types, INFO, v)
    ensures IsProtocol(Device(p)) && Known(Device(p), TAG_INFO)
    ensures Length(Device(p), TAG_INFO, v) <= 2048 <==> 24 * Count(v, 2) + 2 * Count(v, 3) + 2 * Count(v, 4) <= 2024
  {
    hide IsDevice, Encodable, IsProtocol, AlignUp, Length, Count, Device, Known;
    InfoLength(p, v);
    FitsIff(24 * Count(v, 2) + 2 * Count(v, 3) + 2 * Count(v, 4));
  }

  lemma {:induction false} ListsTakeSpace(vs: seq<Value>)
    ensures ListLengths(vs) >= 2 * |vs|
    decreases |vs|
  {
    if vs != [] {
      ListsTakeSpace(vs[1..]);
    }
  }

  /** A Request fits exactly if its lists take up at most 2014 bytes; so it is for no more than 1007 slots. */
  lemma RequestFitsIff(p: Program, v: Value)
    requires IsDevice(p) && Encodable(p.types, REQUEST, v)
    ensures IsProtocol(Device(p)) && Known(Device(p), TAG_REQUEST)
    ensures Length(Device(p), TAG_REQUEST, v) <= 2048 <==> ListLengths(ElemsOf(PartOf(v, 0))) <= 2014
    ensures Length(Device(p), TAG_REQUEST, v) <= 2048 ==> Count(v, 0) <= 1007
  {
    hide IsDevice, Encodable, IsProtocol, AlignUp, Length, Device, Known, ListLengths;
    RequestLength(p, v);
    var n := ListLengths(ElemsOf(PartOf(v, 0)));
    FitsIff(10 + n);
    ListsTakeSpace(ElemsOf(PartOf(v, 0)));
  }

  /** Reports always fit. */
  lemma ReportFits(p: Program, v: Value)
    requires IsDevice(p) && Conforms(p.types, REPORT, v)
    ensures IsProtocol(Device(p)) && Known(Device(p), TAG_REPORT) && Length(Device(p), TAG_REPORT, v) <= 2048
  {
    hide Valid, IsProtocol, AlignUp, Length, Conforms, Encodable, Finite;
    Entries(p);
    ConformsIsEncodable(p.types, REPORT, v);
    ReportLength(p, v);
    ReportCounts(p, v);
    FitsIff(4 * Count(v, 2) + 4 * Count(v, 3) + Count(v, 4));
  }

  lemma ReportCounts(p: Program, v: Value)
    requires IsDevice(p) && Conforms(p.types, REPORT, v)
    ensures Count(v, 2) <= 64 && Count(v, 3) <= 16 && Count(v, 4) <= 768
  {
    hide Valid;
    Entries(p);
    MessageEntries();
    ArrayEntries();
    assert Conforms(TYPES, Parts(TYPES[REPORT])[2], v.elems[2]) && Conforms(TYPES, Parts(TYPES[REPORT])[3], v.elems[3]);
    assert Conforms(TYPES, Parts(TYPES[REPORT])[4], v.elems[4]);
  }
}
