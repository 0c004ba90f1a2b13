/** What scalars and lengths are, in numbers: which values there are of each type, and how many bytes they take up
    (ser/eval.c:12-27 and 714-774). */
module Scalars {
  import Digraph
  import opened Schema
  import opened Alignments
  import opened Layouts
  import opened Machine
  import opened Values
  import opened Emitter
  import opened Plans

  lemma Powers()
    ensures Pow256(1) == 0x100 && Pow256(2) == 0x1_0000 && Pow256(4) == 0x1_0000_0000
    ensures Pow256(8) == 0x1_0000_0000_0000_0000
  {
    assert Pow256(3) == 0x100_0000;
    assert Pow256(5) == 0x100_0000_0000 && Pow256(6) == 0x1_0000_0000_0000 && Pow256(7) == 0x100_0000_0000_0000;
  }

  // ----- values

  /** A scalar is any number of as many bits as its type has. */
  lemma ScalarsAre(ts: TypeTable, t: nat, v: Value)
    requires t < |ts| && ts[t].TypePrimitif?
    ensures Encodable(ts, t, v) <==>
            v.Num? &&
            match ts[t].primitif
            case U8 => v.n < 0x100
            case I8 => v.n < 0x100
            case Char => v.n < 0x100
            case Bool => v.n < 0x100
            case U16 => v.n < 0x1_0000
            case I16 => v.n < 0x1_0000
            case U32 => v.n < 0x1_0000_0000
            case I32 => v.n < 0x1_0000_0000
            case F32 => v.n < 0x1_0000_0000
            case U64 => v.n < 0x1_0000_0000_0000_0000
            case I64 => v.n < 0x1_0000_0000_0000_0000
            case F64 => v.n < 0x1_0000_0000_0000_0000
    ensures Conforms(ts, t, v) <==> Encodable(ts, t, v)
  {
    hide Pow256;
    Powers();
  }

  /** An array of a fixed size has as many elements; one of variable length has as many as its length has room for,
      in the least integer that is enough for its maximum; a struct has a value for each field. */
  lemma AggregatesAre(ts: TypeTable, t: nat, v: Value)
    requires t < |ts| && !ts[t].TypePrimitif?
    ensures Encodable(ts, t, v) <==>
            v.Agg? &&
            match ts[t]
            case TypeStruct(fields, _) =>
              |v.elems| == |fields| && forall i :: 0 <= i < |fields| ==> Encodable(ts, fields[i], v.elems[i])
            case TypeArray(sizing, size, _, elem) =>
              && (forall i :: 0 <= i < |v.elems| ==> Encodable(ts, elem, v.elems[i]))
              && if sizing == SizingFixed then |v.elems| == size
                 else if size <= 0xFF then |v.elems| < 0x100
                 else if size <= 0xFFFF then |v.elems| < 0x1_0000
                 else if size <= 0xFFFF_FFFF then |v.elems| < 0x1_0000_0000
                 else |v.elems| < 0x1_0000_0000_0000_0000
  {
    hide Pow256;
    Powers();
  }

  // ----- bytes

  /** Bytes of a number, the least significant first. */
  lemma LeastFirst(bs: seq<Byte>)
    ensures |bs| == 1 ==> FromBytes(bs) == bs[0]
    ensures |bs| == 2 ==> FromBytes(bs) == bs[0] as nat + 0x100 * (bs[1] as nat)
    ensures |bs| == 4 ==> FromBytes(bs) == bs[0] as nat + 0x100 * (bs[1] as nat) + 0x1_0000 * (bs[2] as nat) + 0x100_0000 * (bs[3] as nat)
    ensures |bs| == 8 ==> FromBytes(bs) == FromBytes(bs[..4]) + 0x1_0000_0000 * FromBytes(bs[4..])
  {
    if |bs| == 4 || |bs| == 8 {
      FourFirst(bs);
      FourFirst(bs[..4]);
    } else if |bs| == 2 {
      assert bs[1..][1..] == [];
    } else if |bs| == 1 {
      assert bs[1..] == [];
    }
  }

  lemma FourFirst(bs: seq<Byte>)
    requires |bs| >= 4
    ensures FromBytes(bs) ==
            bs[0] + 0x100 * (bs[1] as nat) + 0x1_0000 * (bs[2] as nat) + 0x100_0000 * (bs[3] as nat) + 0x1_0000_0000 * FromBytes(bs[4..])
  {
    assert bs[1..][1..] == bs[2..] && bs[2..][1..] == bs[3..] && bs[3..][1..] == bs[4..];
    assert FromBytes(bs) == bs[0] as nat + 0x100 * FromBytes(bs[1..]);
    assert FromBytes(bs[1..]) == bs[1] + 0x100 * FromBytes(bs[2..]);
    assert FromBytes(bs[2..]) == bs[2] + 0x100 * FromBytes(bs[3..]);
    assert FromBytes(bs[3..]) == bs[3] + 0x100 * FromBytes(bs[4..]);
  }

  /** The bytes of an image that is one scalar: how many there are, and which number. */
  ghost predicate IsScalarImage(plan: Plan, a: int, size: nat, n: nat) {
    && plan.end == a + size && |plan.writes| == 1
    && plan.writes[0].addr == a && |plan.writes[0].bytes| == size && FromBytes(plan.writes[0].bytes) == n
  }

  /** A scalar is put into as many bytes as its type has, and at an address that is a multiple of that number. */
  lemma ScalarTakesUp(p: Program, t: nat, n: nat, a: int)
    requires Valid(p) && t < |p.types| && p.types[t].TypePrimitif? && Encodable(p.types, t, Num(n))
    ensures Emits(p, t) && t < |p.align| && IsPo2(p.align[t])
    ensures var image := PlanOf(p, t, Num(n), CurrentAlignment(p.align[t], 0), a);
            match p.types[t].primitif
            case U8 => p.align[t] == 1 && IsScalarImage(image, a, 1, n)
            case I8 => p.align[t] == 1 && IsScalarImage(image, a, 1, n)
            case Char => p.align[t] == 1 && IsScalarImage(image, a, 1, n)
            case Bool => p.align[t] == 1 && IsScalarImage(image, a, 1, n)
            case U16 => p.align[t] == 2 && IsScalarImage(image, a, 2, n)
            case I16 => p.align[t] == 2 && IsScalarImage(image, a, 2, n)
            case U32 => p.align[t] == 4 && IsScalarImage(image, a, 4, n)
            case I32 => p.align[t] == 4 && IsScalarImage(image, a, 4, n)
            case F32 => p.align[t] == 4 && IsScalarImage(image, a, 4, n)
            case U64 => p.align[t] == 8 && IsScalarImage(image, a, 8, n)
            case I64 => p.align[t] == 8 && IsScalarImage(image, a, 8, n)
            case F64 => p.align[t] == 8 && IsScalarImage(image, a, 8, n)
  {
    hide Valid, PlanOf, Encodable, IsScalarImage, IsAlignment;
    OwnImage(p, t, n, a);
  }

  lemma ScalarLayout(p: Program, t: nat)
    requires Valid(p) && t < |p.types| && p.types[t].TypePrimitif?
    ensures t < |p.align| == |p.layouts| && p.layouts[t] == [FixedField([], p.types[t].primitif)]
    ensures p.align[t] == PrimSize(p.types[t].primitif)
  {
    var leaf := FixedField([], p.types[t].primitif);
    LayoutLeaves(p.types, p.align, t, p.layouts[t]);
    assert Leaves(p.types, t) == [leaf] && p.layouts[t][0] in p.layouts[t];
    assert IsAlignment(p.types, t, p.align[t]);
    OnlyItself(p.types, t, p.align[t]);
  }

  lemma OnlyItself(ts: TypeTable, t: nat, a: nat)
    requires t < |ts| && ts[t].TypePrimitif? && IsAlignment(ts, t, a)
    ensures a == PrimSize(ts[t].primitif)
  {
    var u: nat :| u < |ts| && Reaches(ts, t, u) && Base(ts[u]) == a;
    var q :| Digraph.IsPath(TypeGraph(ts), q) && q[0] == t && q[|q| - 1] == u;
    NoWayOn(TypeGraph(ts), q);
  }

  lemma NoWayOn(g: Digraph.Graph, q: seq<nat>)
    requires |q| > 0 && Digraph.IsPath(g, q) && q[0] in g && g[q[0]] == {}
    ensures |q| == 1
  {
    hide Digraph.IsPath;
    if |q| > 1 {
      FirstEdge(g, q);
    }
  }

  lemma FirstEdge(g: Digraph.Graph, q: seq<nat>)
    requires Digraph.IsPath(g, q) && |q| > 1
    ensures q[0] in g && q[1] in g[q[0]]
  {
  }

  lemma OwnImage(p: Program, t: nat, n: nat, a: int)
    requires Valid(p) && t < |p.types| && p.types[t].TypePrimitif? && Encodable(p.types, t, Num(n))
    ensures Emits(p, t) && t < |p.align| && p.align[t] == PrimSize(p.types[t].primitif)
    ensures IsScalarImage(PlanOf(p, t, Num(n), CurrentAlignment(p.align[t], 0), a), a, PrimSize(p.types[t].primitif), n)
  {
    hide Valid, Leaves, ToBytes, FromBytes, Pow256, ArraysOf, PlanOf;
    ScalarLayout(p, t);
    var al := CurrentAlignment(p.align[t], 0);
    ShapeIs(p, t, al);
    PlanParts(p, t, Num(n), al, a);
    BytesRoundTrip(n, PrimSize(p.types[t].primitif));
    OneFixed(p.layouts[t][0]);
  }

  lemma OneFixed(fa: FieldAccessor)
    requires fa.FixedField?
    ensures FixedCount([fa]) == 1 && [fa][..1] == [fa] && [fa][1..] == [] && TotalSize([fa]) == fa.Size()
  {
  }

  /** Inside anything else a scalar takes up as much: its store or load, and the offset of what follows it. */
  lemma LeafTakesUp(dir: Direction, ts: TypeTable, t: nat, off: nat, q: Path, prim: Prim, rest: seq<FieldAccessor>)
    ensures var size := match prim
              case U8 => 1
              case I8 => 1
              case Char => 1
              case Bool => 1
              case U16 => 2
              case I16 => 2
              case U32 => 4
              case I32 => 4
              case F32 => 4
              case U64 => 8
              case I64 => 8
              case F64 => 8;
            var to := AccessorTo(ts, t, q);
            FixedStmts(dir, ts, t, [FixedField(q, prim)] + rest, off) ==
            [if dir.Ser? then Store(off, size, to) else Load(off, size, to)] + FixedStmts(dir, ts, t, rest, off + size)
  {
    assert ([FixedField(q, prim)] + rest)[1..] == rest;
  }

  // ----- alignment

  /** A type is aligned for every scalar and every length it leads to. */
  lemma AlignedForAll(ts: TypeTable, t: nat, a: nat, u: nat)
    requires IsAlignment(ts, t, a) && u < |ts| && Reaches(ts, t, u)
    ensures match ts[u]
            case TypePrimitif(U8) => a >= 1
            case TypePrimitif(I8) => a >= 1
            case TypePrimitif(Char) => a >= 1
            case TypePrimitif(Bool) => a >= 1
            case TypePrimitif(U16) => a >= 2
            case TypePrimitif(I16) => a >= 2
            case TypePrimitif(U32) => a >= 4
            case TypePrimitif(I32) => a >= 4
            case TypePrimitif(F32) => a >= 4
            case TypePrimitif(U64) => a >= 8
            case TypePrimitif(I64) => a >= 8
            case TypePrimitif(F64) => a >= 8
            case TypeArray(SizingMax, size, _, _) =>
              if size <= 0xFF then a >= 1 else if size <= 0xFFFF then a >= 2 else if size <= 0xFFFF_FFFF then a >= 4 else a >= 8
            case _ => true
  {
  }

  /** And no more strictly than for one of them. */
  lemma AlignedForOne(ts: TypeTable, t: nat, a: nat) returns (u: nat)
    requires t < |ts| && IsAlignment(ts, t, a)
    ensures u < |ts| && Reaches(ts, t, u)
    ensures match ts[u]
            case TypePrimitif(U8) => a == 1
            case TypePrimitif(I8) => a == 1
            case TypePrimitif(Char) => a == 1
            case TypePrimitif(Bool) => a == 1
            case TypePrimitif(U16) => a == 2
            case TypePrimitif(I16) => a == 2
            case TypePrimitif(U32) => a == 4
            case TypePrimitif(I32) => a == 4
            case TypePrimitif(F32) => a == 4
            case TypePrimitif(U64) => a == 8
            case TypePrimitif(I64) => a == 8
            case TypePrimitif(F64) => a == 8
            case TypeArray(SizingMax, size, _, _) =>
              a == if size <= 0xFF then 1 else if size <= 0xFFFF then 2 else if size <= 0xFFFF_FFFF then 4 else 8
            case _ => a == 1
  {
    u :| u < |ts| && Reaches(ts, t, u) && Base(ts[u]) == a;
  }
}
