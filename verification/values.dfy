/** Values of schema types, and what it means for a C object to hold one. */
module Values {
  import opened Collections
  import opened Schema
  import opened Layouts
  import opened Machine

  /** A scalar as its bit pattern, or the fields of a struct or the elements of an array. */
  datatype Value = Num(n: nat) | Agg(elems: seq<Value>)

  function NumOf(v: Value): nat {
    if v.Num? then v.n else 0
  }

  function ElemsOf(v: Value): seq<Value> {
    if v.Agg? then v.elems else []
  }

  function Size(v: Value): (n: nat)
    ensures n > 0
    decreases v
  {
    match v
    case Num(_) => 1
    case Agg(es) => 1 + Sizes(es)
  }

  function Sizes(vs: seq<Value>): nat
    decreases vs
  {
    if vs == [] then 0 else Size(vs[0]) + Sizes(vs[1..])
  }

  /** v is a value of type t: scalars fit, and an array of variable length keeps to its maximum. */
  ghost predicate Conforms(ts: TypeTable, t: nat, v: Value)
    decreases v
  {
    t < |ts| &&
    match ts[t]
    case TypePrimitif(p) => v.Num? && v.n < Pow256(PrimSize(p))
    case TypeArray(SizingMax, size, _, elem) =>
      v.Agg? && |v.elems| <= size && forall i :: 0 <= i < |v.elems| ==> Conforms(ts, elem, v.elems[i])
    case _ =>
      && v.Agg? && |v.elems| == |Parts(ts[t])|
      && forall i :: 0 <= i < |v.elems| ==> Conforms(ts, Parts(ts[t])[i], v.elems[i])
  }

  /** v can be put into bytes: scalars fit, and lengths fit their integers, though arrays may exceed their maximum. */
  ghost predicate Encodable(ts: TypeTable, t: nat, v: Value)
    decreases v
  {
    t < |ts| &&
    match ts[t]
    case TypePrimitif(p) => v.Num? && v.n < Pow256(PrimSize(p))
    case TypeArray(SizingMax, size, _, elem) =>
      && v.Agg? && |v.elems| < Pow256(PrimSize(LengthPrim(size)))
      && forall i :: 0 <= i < |v.elems| ==> Encodable(ts, elem, v.elems[i])
    case _ =>
      && v.Agg? && |v.elems| == |Parts(ts[t])|
      && forall i :: 0 <= i < |v.elems| ==> Encodable(ts, Parts(ts[t])[i], v.elems[i])
  }

  lemma {:induction false} ConformsIsEncodable(ts: TypeTable, t: nat, v: Value)
    requires Finite(ts) && Conforms(ts, t, v)
    ensures Encodable(ts, t, v)
    decreases v
  {
    if v.Agg? {
      var m := IsMaxArray(ts[t]);
      if m {
        LengthFits(ts[t].size);
      }
      forall i | 0 <= i < |v.elems| ensures Encodable(ts, if m then ts[t].elem else Parts(ts[t])[i], v.elems[i]) {
        ConformsIsEncodable(ts, if m then ts[t].elem else Parts(ts[t])[i], v.elems[i]);
      }
    }
  }

  /** v has a scalar in it, or at least the length of an array. */
  ghost predicate HasScalars(ts: TypeTable, t: nat, v: Value)
    decreases v
  {
    t < |ts| &&
    (if ts[t].TypePrimitif? || IsMaxArray(ts[t]) then true
     else v.Agg? && exists i :: 0 <= i < |v.elems| && i < |Parts(ts[t])| && HasScalars(ts, Parts(ts[t])[i], v.elems[i]))
  }

  /** There are n elements. */
  predicate HasElements(obj: Object, data: Path, storage: Storage, n: nat) {
    n == 0 || HasElement(obj, data, storage, n - 1)
  }

  function StorageIn(o: TypeObject): Storage
    requires o.TypeArray?
  {
    if o.heap then OnHeap else Inside(o.size)
  }

  /** The object at path b holds value v of type t; its pointers are set. */
  ghost predicate Represents(ts: TypeTable, obj: Object, b: Path, t: nat, v: Value)
    decreases v
  {
    t < |ts| &&
    match ts[t]
    case TypePrimitif(_) => v.Num? && b in obj && obj[b] == v.n
    case TypeArray(SizingMax, _, _, elem) =>
      && v.Agg? && b + [0] in obj && obj[b + [0]] == |v.elems|
      && HasElements(obj, b + [1], StorageIn(ts[t]), |v.elems|)
      && forall i :: 0 <= i < |v.elems| ==> Represents(ts, obj, b + [1, i], elem, v.elems[i])
    case _ =>
      && v.Agg? && |v.elems| == |Parts(ts[t])|
      && (IsPointer(ts[t]) && HasScalars(ts, t, v) ==> b in obj)
      && forall i :: 0 <= i < |v.elems| ==> Represents(ts, obj, b + [i], Parts(ts[t])[i], v.elems[i])
  }

  /** The object at path b has a place for every scalar of v: the pointers to arrays of a fixed size are set,
      and no array inside the object is longer than its room. Memory is fresh wherever it is allocated for an array
      of variable length, so nothing is set there. */
  ghost predicate Takes(ts: TypeTable, obj: Object, b: Path, t: nat, v: Value)
    decreases v
  {
    t < |ts| &&
    match ts[t]
    case TypePrimitif(_) => v.Num?
    case TypeArray(SizingMax, size, heap, elem) =>
      v.Agg? &&
      if heap then forall i :: 0 <= i < |v.elems| ==> Takes(ts, FRESH, [], elem, v.elems[i])
      else |v.elems| <= size && forall i :: 0 <= i < |v.elems| ==> Takes(ts, obj, b + [1, i], elem, v.elems[i])
    case _ =>
      && v.Agg? && |v.elems| == |Parts(ts[t])|
      && (IsPointer(ts[t]) && HasScalars(ts, t, v) ==> b in obj)
      && forall i :: 0 <= i < |v.elems| ==> Takes(ts, obj, b + [i], Parts(ts[t])[i], v.elems[i])
  }

  /** The part of a value that a path leads to: under an array of variable length 0 is the length, 1 the elements. */
  function At(ts: TypeTable, t: nat, v: Value, p: Path): Value
    decreases |p|
  {
    if p == [] || t >= |ts| || v.Num? then v
    else if IsMaxArray(ts[t]) then if p[0] == 0 then Num(|v.elems|) else v
    else if p[0] < |Parts(ts[t])| && p[0] < |v.elems| then At(ts, Parts(ts[t])[p[0]], v.elems[p[0]], p[1..])
    else Num(0)
  }

  lemma {:induction false} PartIsSmaller(vs: seq<Value>, i: nat)
    requires i < |vs|
    ensures Size(vs[i]) <= Sizes(vs)
  {
    if i > 0 {
      PartIsSmaller(vs[1..], i - 1);
    }
  }

  lemma {:induction false} AtIsSmaller(ts: TypeTable, t: nat, v: Value, p: Path)
    ensures Size(At(ts, t, v, p)) <= Size(v)
    decreases |p|
  {
    if p != [] && t < |ts| && v.Agg? && !IsMaxArray(ts[t]) && p[0] < |Parts(ts[t])| && p[0] < |v.elems| {
      PartIsSmaller(v.elems, p[0]);
      AtIsSmaller(ts, Parts(ts[t])[p[0]], v.elems[p[0]], p[1..]);
    }
  }

  /** An object holds one value only. */
  lemma {:induction false} HeldIsUnique(ts: TypeTable, obj: Object, b: Path, t: nat, v: Value, w: Value)
    requires Represents(ts, obj, b, t, v) && Represents(ts, obj, b, t, w)
    ensures v == w
    decreases v
  {
    if v.Agg? {
      var m := IsMaxArray(ts[t]);
      forall i | 0 <= i < |v.elems| ensures v.elems[i] == w.elems[i] {
        HeldIsUnique(ts, obj, if m then b + [1, i] else b + [i], if m then ts[t].elem else Parts(ts[t])[i], v.elems[i], w.elems[i]);
      }
    }
  }

  // ----- values leaf by leaf

  /** Leaf fa of the object at b holds its part of v. */
  ghost predicate LeafHolds(ts: TypeTable, obj: Object, b: Path, t: nat, v: Value, fa: FieldAccessor) {
    Follows(obj, b, Via(ts, t, fa.indices)) &&
    match fa
    case FixedField(q, _) => b + q in obj && obj[b + q] == NumOf(At(ts, t, v, q))
    case ArrayField(q, elem) =>
      var es := ElemsOf(At(ts, t, v, q));
      && q != [] && HasElements(obj, b + q, StorageOf(ts, t, q), |es|)
      && forall i :: 0 <= i < |es| ==> Represents(ts, obj, b + q + [i], elem, es[i])
  }

  /** The object at b has a place for leaf fa of v. */
  ghost predicate LeafTakes(ts: TypeTable, obj: Object, b: Path, t: nat, v: Value, fa: FieldAccessor) {
    Follows(obj, b, Via(ts, t, fa.indices)) &&
    match fa
    case FixedField(q, _) => true
    case ArrayField(q, elem) =>
      var es := ElemsOf(At(ts, t, v, q));
      q != [] &&
      match StorageOf(ts, t, q)
      case OnHeap => forall i :: 0 <= i < |es| ==> Takes(ts, FRESH, [], elem, es[i])
      case Inside(room) => |es| <= room && forall i :: 0 <= i < |es| ==> Takes(ts, obj, b + q + [i], elem, es[i])
  }

  /** Leaf fa of a value of type t fits its type. */
  ghost predicate LeafEncodable(ts: TypeTable, t: nat, v: Value, fa: FieldAccessor) {
    match fa
    case FixedField(q, p) => NumOf(At(ts, t, v, q)) < Pow256(PrimSize(p))
    case ArrayField(q, elem) =>
      var es := ElemsOf(At(ts, t, v, q));
      && q != [] && NumOf(At(ts, t, v, LengthPath(q))) == |es|
      && forall i :: 0 <= i < |es| ==> Encodable(ts, elem, es[i])
  }

  lemma AtUnder(ts: TypeTable, t: nat, v: Value, j: nat, q: Path)
    requires t < |ts| && v.Agg? && !IsMaxArray(ts[t]) && j < |Parts(ts[t])| == |v.elems|
    ensures At(ts, t, v, [j] + q) == At(ts, Parts(ts[t])[j], v.elems[j], q)
  {
    assert ([j] + q)[1..] == q;
  }

  lemma LengthFits(size: nat)
    requires size < 0x1_0000_0000_0000_0000
    ensures size < Pow256(PrimSize(LengthPrim(size)))
  {
    assert Pow256(1) == 256 && Pow256(2) == 0x1_0000;
    assert Pow256(3) == 0x100_0000 && Pow256(4) == 0x1_0000_0000;
    assert Pow256(5) == 0x100_0000_0000 && Pow256(6) == 0x1_0000_0000_0000;
    assert Pow256(7) == 0x100_0000_0000_0000 && Pow256(8) == 0x1_0000_0000_0000_0000;
  }

  lemma {:induction false} LeavesEncodable(ts: TypeTable, t: nat, v: Value, fa: FieldAccessor)
    requires Finite(ts) && Encodable(ts, t, v) && fa in Leaves(ts, t)
    ensures LeafEncodable(ts, t, v, fa)
    decreases v
  {
    hide Finite, Pow256;
    if IsMaxArray(ts[t]) {
      assert fa.ArrayField? ==> LengthPath(fa.indices) == [0];
    } else if !ts[t].TypePrimitif? {
      hide LeafEncodable, LeavesFrom;
      var j, inner := LeafFrom(ts, t, 0, fa);
      LeavesEncodable(ts, Parts(ts[t])[j], v.elems[j], inner);
      LeafEncodableUnder(ts, t, v, j, inner);
    }
  }

  lemma LeafEncodableUnder(ts: TypeTable, t: nat, v: Value, j: nat, inner: FieldAccessor)
    requires t < |ts| && v.Agg? && !IsMaxArray(ts[t]) && j < |Parts(ts[t])| == |v.elems|
    requires LeafEncodable(ts, Parts(ts[t])[j], v.elems[j], inner)
    ensures LeafEncodable(ts, t, v, Under(j, inner))
  {
    hide At, Encodable, Pow256;
    AtUnder(ts, t, v, j, inner.indices);
    if inner.ArrayField? {
      assert LengthPath([j] + inner.indices) == [j] + LengthPath(inner.indices);
      AtUnder(ts, t, v, j, LengthPath(inner.indices));
    }
  }

  lemma FollowsBoth(obj: Object, b: Path, ps: seq<Path>, qs: seq<Path>)
    ensures Follows(obj, b, ps + qs) <==> Follows(obj, b, ps) && Follows(obj, b, qs)
  {
    assert forall q :: q in ps + qs <==> q in ps || q in qs;
  }

  lemma FollowsBehind(obj: Object, b: Path, j: nat, ps: seq<Path>)
    ensures Follows(obj, b, Behind(j, ps)) <==> Follows(obj, b + [j], ps)
  {
    var qs := Behind(j, ps);
    assert forall k :: 0 <= k < |ps| ==> qs[k] in qs && ps[k] in ps && b + qs[k] == b + [j] + ps[k];
  }

  /** Pointers on the way to part j of an array or struct: the array's own, and those within the part. */
  lemma FollowsUnder(ts: TypeTable, obj: Object, b: Path, t: nat, j: nat, q: Path)
    requires t < |ts| && j < |Parts(ts[t])|
    ensures Follows(obj, b, Via(ts, t, [j] + q)) <==>
            (IsPointer(ts[t]) ==> b in obj) && Follows(obj, b + [j], Via(ts, Parts(ts[t])[j], q))
  {
    var own: seq<Path>, rest := if IsPointer(ts[t]) then [[]] else [], Via(ts, Parts(ts[t])[j], q);
    assert ([j] + q)[1..] == q;
    assert Via(ts, t, [j] + q) == own + Behind(j, rest);
    FollowsBoth(obj, b, own, Behind(j, rest));
    FollowsBehind(obj, b, j, rest);
    assert b + [] == b;
    assert Follows(obj, b, own) <==> (IsPointer(ts[t]) ==> b in obj);
  }

  lemma StorageUnder(ts: TypeTable, t: nat, j: nat, q: Path)
    requires t < |ts| && j < |Parts(ts[t])| && q != []
    ensures StorageOf(ts, t, [j] + q) == StorageOf(ts, Parts(ts[t])[j], q)
  {
    var p := [j] + q;
    assert p[..|p| - 1] == [j] + q[..|q| - 1] && ([j] + q[..|q| - 1])[1..] == q[..|q| - 1];
  }

  lemma LeafHoldsUnder(ts: TypeTable, obj: Object, b: Path, t: nat, v: Value, j: nat, inner: FieldAccessor)
    requires t < |ts| && v.Agg? && !IsMaxArray(ts[t]) && j < |Parts(ts[t])| == |v.elems|
    requires inner.ArrayField? ==> inner.indices != []
    ensures LeafHolds(ts, obj, b, t, v, Under(j, inner)) <==>
            (IsPointer(ts[t]) ==> b in obj) && LeafHolds(ts, obj, b + [j], Parts(ts[t])[j], v.elems[j], inner)
    ensures LeafTakes(ts, obj, b, t, v, Under(j, inner)) <==>
            (IsPointer(ts[t]) ==> b in obj) && LeafTakes(ts, obj, b + [j], Parts(ts[t])[j], v.elems[j], inner)
  {
    var q := inner.indices;
    AtUnder(ts, t, v, j, q);
    FollowsUnder(ts, obj, b, t, j, q);
    assert b + ([j] + q) == b + [j] + q;
    if inner.ArrayField? {
      StorageUnder(ts, t, j, q);
    }
    hide Follows, Via, StorageOf, At, HasElements, Represents, Takes;
  }

  lemma LeafIsScalar(ts: TypeTable, t: nat, v: Value, fa: FieldAccessor)
    requires Finite(ts) && Encodable(ts, t, v) && fa in Leaves(ts, t)
    ensures HasScalars(ts, t, v) && (fa.ArrayField? ==> fa.indices != [])
    decreases v
  {
    if !ts[t].TypePrimitif? && !IsMaxArray(ts[t]) {
      var j, inner := LeafFrom(ts, t, 0, fa);
      LeafIsScalar(ts, Parts(ts[t])[j], v.elems[j], inner);
    }
  }

  lemma {:induction false} ScalarIsLeaf(ts: TypeTable, t: nat, v: Value) returns (fa: FieldAccessor)
    requires Finite(ts) && Encodable(ts, t, v) && HasScalars(ts, t, v)
    ensures fa in Leaves(ts, t)
    decreases v
  {
    if ts[t].TypePrimitif? || IsMaxArray(ts[t]) {
      fa := Leaves(ts, t)[0];
    } else {
      var j :| 0 <= j < |v.elems| && HasScalars(ts, Parts(ts[t])[j], v.elems[j]);
      var inner := ScalarIsLeaf(ts, Parts(ts[t])[j], v.elems[j]);
      FromLeaf(ts, t, 0, j, inner);
      fa := Under(j, inner);
    }
  }

  lemma MaxArrayLeaf(ts: TypeTable, obj: Object, b: Path, t: nat, v: Value)
    requires Finite(ts) && t < |ts| && IsMaxArray(ts[t]) && v.Agg?
    ensures Leaves(ts, t) == [ArrayField([1], ts[t].elem), FixedField([0], LengthPrim(ts[t].size))]
    ensures Represents(ts, obj, b, t, v) <==>
            && LeafHolds(ts, obj, b, t, v, ArrayField([1], ts[t].elem))
            && LeafHolds(ts, obj, b, t, v, FixedField([0], LengthPrim(ts[t].size)))
  {
    hide Finite;
    MaxArrayAccessors(ts, t, b);
    assert At(ts, t, v, [1]) == v && At(ts, t, v, [0]) == Num(|v.elems|);
    hide Via, StorageOf, HasElement, At;
    assert Represents(ts, obj, b, t, v) <==>
      && b + [0] in obj && obj[b + [0]] == |v.elems| && HasElements(obj, b + [1], StorageIn(ts[t]), |v.elems|)
      && forall i :: 0 <= i < |v.elems| ==> Represents(ts, obj, b + [1] + [i], ts[t].elem, v.elems[i]);
  }

  lemma MaxArrayTakes(ts: TypeTable, obj: Object, b: Path, t: nat, v: Value)
    requires t < |ts| && IsMaxArray(ts[t]) && v.Agg?
    ensures Takes(ts, obj, b, t, v) <==> LeafTakes(ts, obj, b, t, v, ArrayField([1], ts[t].elem))
    ensures LeafTakes(ts, obj, b, t, v, FixedField([0], LengthPrim(ts[t].size)))
  {
    MaxArrayAccessors(ts, t, b);
    assert At(ts, t, v, [1]) == v;
    hide Via, StorageOf, At;
    if !ts[t].heap {
      assert Takes(ts, obj, b, t, v) <==>
        |v.elems| <= ts[t].size && forall i :: 0 <= i < |v.elems| ==> Takes(ts, obj, b + [1] + [i], ts[t].elem, v.elems[i]);
    }
  }

  lemma MaxArrayAccessors(ts: TypeTable, t: nat, b: Path)
    requires t < |ts| && IsMaxArray(ts[t])
    ensures Via(ts, t, [0]) == [] && Via(ts, t, [1]) == [] && StorageOf(ts, t, [1]) == StorageIn(ts[t])
    ensures forall i: nat :: b + [1] + [i] == b + [1, i]
  {
    assert forall i: nat :: b + [1] + [i] == b + [1, i];
    assert [1][..0] == [];
  }

  /** An object holds a value exactly when every leaf of it does. */
  lemma {:induction false} RepresentsLeaf(ts: TypeTable, obj: Object, b: Path, t: nat, v: Value, fa: FieldAccessor)
    requires Finite(ts) && Encodable(ts, t, v) && Represents(ts, obj, b, t, v) && fa in Leaves(ts, t)
    ensures LeafHolds(ts, obj, b, t, v, fa)
    decreases v
  {
    if IsMaxArray(ts[t]) {
      MaxArrayLeaf(ts, obj, b, t, v);
    } else if ts[t].TypePrimitif? {
      assert b + [] == b;
    } else {
      LeafIsScalar(ts, t, v, fa);
      var j, inner := LeafFrom(ts, t, 0, fa);
      LeafIsScalar(ts, Parts(ts[t])[j], v.elems[j], inner);
      RepresentsLeaf(ts, obj, b + [j], Parts(ts[t])[j], v.elems[j], inner);
      LeafHoldsUnder(ts, obj, b, t, v, j, inner);
    }
  }

  /** Leaves of the parts are leaves of the whole, so what is behind a pointer can be reached. */
  lemma PointerIsSet(ts: TypeTable, obj: Object, b: Path, t: nat, v: Value)
    requires Finite(ts) && Encodable(ts, t, v) && !ts[t].TypePrimitif? && !IsMaxArray(ts[t])
    requires forall fa :: fa in Leaves(ts, t) ==> Follows(obj, b, Via(ts, t, fa.indices))
    ensures IsPointer(ts[t]) && HasScalars(ts, t, v) ==> b in obj
  {
    if HasScalars(ts, t, v) {
      var fa := ScalarIsLeaf(ts, t, v);
      var j, inner := LeafFrom(ts, t, 0, fa);
      FollowsUnder(ts, obj, b, t, j, inner.indices);
    }
  }

  lemma {:induction false} LeavesRepresent(ts: TypeTable, obj: Object, b: Path, t: nat, v: Value)
    requires Finite(ts) && Encodable(ts, t, v)
    requires forall fa :: fa in Leaves(ts, t) ==> LeafHolds(ts, obj, b, t, v, fa)
    ensures Represents(ts, obj, b, t, v)
    decreases v
  {
    if IsMaxArray(ts[t]) {
      MaxArrayLeaf(ts, obj, b, t, v);
      assert Leaves(ts, t)[0] in Leaves(ts, t) && Leaves(ts, t)[1] in Leaves(ts, t);
    } else if ts[t].TypePrimitif? {
      assert Leaves(ts, t)[0] in Leaves(ts, t);
      assert LeafHolds(ts, obj, b, t, v, FixedField([], ts[t].primitif));
      assert b + [] == b;
    } else {
      PointerIsSet(ts, obj, b, t, v);
      forall j | 0 <= j < |v.elems| ensures Represents(ts, obj, b + [j], Parts(ts[t])[j], v.elems[j]) {
        forall inner | inner in Leaves(ts, Parts(ts[t])[j])
          ensures LeafHolds(ts, obj, b + [j], Parts(ts[t])[j], v.elems[j], inner)
        {
          FromLeaf(ts, t, 0, j, inner);
          LeafIsScalar(ts, Parts(ts[t])[j], v.elems[j], inner);
          LeafHoldsUnder(ts, obj, b, t, v, j, inner);
        }
        LeavesRepresent(ts, obj, b + [j], Parts(ts[t])[j], v.elems[j]);
      }
    }
  }

  /** An object has a place for a value exactly when it has one for every leaf of it. */
  lemma {:induction false} TakesLeaf(ts: TypeTable, obj: Object, b: Path, t: nat, v: Value, fa: FieldAccessor)
    requires Finite(ts) && Encodable(ts, t, v) && Takes(ts, obj, b, t, v) && fa in Leaves(ts, t)
    ensures LeafTakes(ts, obj, b, t, v, fa)
    decreases v
  {
    if IsMaxArray(ts[t]) {
      MaxArrayLeaf(ts, obj, b, t, v);
      MaxArrayTakes(ts, obj, b, t, v);
    } else if !ts[t].TypePrimitif? {
      LeafIsScalar(ts, t, v, fa);
      var j, inner := LeafFrom(ts, t, 0, fa);
      LeafIsScalar(ts, Parts(ts[t])[j], v.elems[j], inner);
      TakesLeaf(ts, obj, b + [j], Parts(ts[t])[j], v.elems[j], inner);
      LeafHoldsUnder(ts, obj, b, t, v, j, inner);
    }
  }

  lemma {:induction false} LeavesTake(ts: TypeTable, obj: Object, b: Path, t: nat, v: Value)
    requires Finite(ts) && Encodable(ts, t, v)
    requires forall fa :: fa in Leaves(ts, t) ==> LeafTakes(ts, obj, b, t, v, fa)
    ensures Takes(ts, obj, b, t, v)
    decreases v
  {
    if IsMaxArray(ts[t]) {
      MaxArrayLeaf(ts, obj, b, t, v);
      MaxArrayTakes(ts, obj, b, t, v);
      assert Leaves(ts, t)[0] in Leaves(ts, t);
    } else if !ts[t].TypePrimitif? {
      PointerIsSet(ts, obj, b, t, v);
      forall j | 0 <= j < |v.elems| ensures Takes(ts, obj, b + [j], Parts(ts[t])[j], v.elems[j]) {
        forall inner | inner in Leaves(ts, Parts(ts[t])[j])
          ensures LeafTakes(ts, obj, b + [j], Parts(ts[t])[j], v.elems[j], inner)
        {
          FromLeaf(ts, t, 0, j, inner);
          LeafIsScalar(ts, Parts(ts[t])[j], v.elems[j], inner);
          LeafHoldsUnder(ts, obj, b, t, v, j, inner);
        }
        LeavesTake(ts, obj, b + [j], Parts(ts[t])[j], v.elems[j]);
      }
    }
  }

  ghost predicate AllHold(ts: TypeTable, obj: Object, b: Path, t: nat, v: Value, fs: seq<FieldAccessor>) {
    forall fa :: fa in fs ==> LeafHolds(ts, obj, b, t, v, fa)
  }

  ghost predicate AllTake(ts: TypeTable, obj: Object, b: Path, t: nat, v: Value, fs: seq<FieldAccessor>) {
    forall fa :: fa in fs ==> LeafTakes(ts, obj, b, t, v, fa)
  }

  // ----- frames

  /** Only scalars below path b may differ. */
  ghost predicate SameOutside(before: Object, after: Object, b: Path) {
    forall q :: !IsPrefix(b, q) ==> (q in before <==> q in after) && (q in before ==> before[q] == after[q])
  }

  /** What lies below b is the same. */
  ghost predicate SameBelow(before: Object, after: Object, b: Path) {
    forall q :: IsPrefix(b, q) ==> (q in before <==> q in after) && (q in before ==> before[q] == after[q])
  }

  lemma {:induction false} StillRepresents(ts: TypeTable, before: Object, after: Object, b: Path, t: nat, v: Value)
    requires Represents(ts, before, b, t, v) && SameBelow(before, after, b)
    ensures Represents(ts, after, b, t, v)
    decreases v
  {
    if v.Agg? {
      var m := IsMaxArray(ts[t]);
      forall i | 0 <= i < |v.elems|
        ensures Represents(ts, after, if m then b + [1, i] else b + [i], if m then ts[t].elem else Parts(ts[t])[i], v.elems[i])
      {
        var c := if m then b + [1, i] else b + [i];
        assert SameBelow(before, after, c) by {
          BelowBelow(b, c);
        }
        StillRepresents(ts, before, after, c, if m then ts[t].elem else Parts(ts[t])[i], v.elems[i]);
      }
      assert IsPrefix(b, b + [0]) && IsPrefix(b, b + [1]) && IsPrefix(b, b);
    } else {
      assert IsPrefix(b, b);
    }
  }

  /** What lies below one path of one object is set where it is below another path of another. */
  ghost predicate SetAlike(o1: Object, b1: Path, o2: Object, b2: Path) {
    forall q: Path :: b1 + q in o1 <==> b2 + q in o2
  }

  lemma AlikeBelow(o1: Object, b1: Path, o2: Object, b2: Path, c: Path)
    requires SetAlike(o1, b1, o2, b2)
    ensures SetAlike(o1, b1 + c, o2, b2 + c)
  {
    forall q: Path ensures b1 + c + q in o1 <==> b2 + c + q in o2 {
      assert b1 + c + q == b1 + (c + q) && b2 + c + q == b2 + (c + q);
    }
  }

  /** Whether there is a place depends on what is set below the path, and on nothing else. */
  lemma {:induction false} TakesAlike(ts: TypeTable, o1: Object, b1: Path, o2: Object, b2: Path, t: nat, v: Value)
    requires SetAlike(o1, b1, o2, b2) && Takes(ts, o1, b1, t, v)
    ensures Takes(ts, o2, b2, t, v)
    decreases v
  {
    if v.Agg? {
      var m := IsMaxArray(ts[t]);
      if !(m && ts[t].heap) {
        forall i | 0 <= i < |v.elems|
          ensures Takes(ts, o2, if m then b2 + [1, i] else b2 + [i], if m then ts[t].elem else Parts(ts[t])[i], v.elems[i])
        {
          var c := if m then [1, i] else [i];
          AlikeBelow(o1, b1, o2, b2, c);
          TakesAlike(ts, o1, b1 + c, o2, b2 + c, if m then ts[t].elem else Parts(ts[t])[i], v.elems[i]);
        }
      }
      assert b1 + [] == b1 && b2 + [] == b2;
    }
  }

  /** More pointers set do no harm. */
  lemma {:induction false} TakesMore(ts: TypeTable, obj: Object, b: Path, t: nat, v: Value)
    requires Takes(ts, FRESH, [], t, v)
    ensures Takes(ts, obj, b, t, v)
    decreases v
  {
    if v.Agg? {
      var m := IsMaxArray(ts[t]);
      if !(m && ts[t].heap) {
        forall i | 0 <= i < |v.elems|
          ensures Takes(ts, obj, if m then b + [1, i] else b + [i], if m then ts[t].elem else Parts(ts[t])[i], v.elems[i])
        {
          var c := if m then [1, i] else [i];
          var u := if m then ts[t].elem else Parts(ts[t])[i];
          assert [] + c == c;
          assert Takes(ts, FRESH, [] + c, u, v.elems[i]);
          TakesAlike(ts, FRESH, [] + c, FRESH, [], u, v.elems[i]);
          TakesMore(ts, obj, b + c, u, v.elems[i]);
        }
      }
    }
  }

  lemma BelowBelow(b: Path, c: Path)
    requires IsPrefix(b, c)
    ensures forall q :: IsPrefix(c, q) ==> IsPrefix(b, q)
  {
    forall q | IsPrefix(c, q) ensures IsPrefix(b, q) {
      assert q[..|b|] == q[..|c|][..|b|];
    }
  }

  /** What lies below one path and what lies below another that parts from it have nothing in common. */
  lemma ApartNotBelow(b: Path, p: Path, q: Path, r: Path)
    requires Apart(p, q) && IsPrefix(b + p, r)
    ensures !IsPrefix(b + q, r)
  {
    var k :| 0 <= k < |p| && k < |q| && p[k] != q[k];
    PrefixAt(b + p, r, |b| + k);
    if IsPrefix(b + q, r) {
      PrefixAt(b + q, r, |b| + k);
      assert false;
    }
  }

  lemma PrefixAt(p: Path, r: Path, k: nat)
    requires IsPrefix(p, r) && k < |p|
    ensures r[k] == p[k]
  {
    assert r[..|p|][k] == p[k];
  }
}
