/** The serializers and deserializers the C backend emits for a layout (ser/codegen_c.c). */
module Emitter {
  import opened Collections
  import opened Schema
  import opened Alignments
  import opened Layouts
  import opened Machine

  /** What the backend works from. Struct objects without functions are the bodies of messages. */
  datatype Program = Program(types: TypeTable, align: seq<nat>, layouts: seq<seq<FieldAccessor>>)

  /** The elements of an array of variable length for which a serializer can be emitted. */
  predicate HasCode(ts: TypeTable, elem: nat) {
    && elem < |ts|
    && (IsMaxArray(ts[elem])
        || (ts[elem].TypeStruct? && ts[elem].hasFuncs)
        || (ts[elem].TypePrimitif? && ts[elem].primitif != F32 && ts[elem].primitif != F64))
  }

  ghost predicate Valid(p: Program) {
    && Finite(p.types)
    && |p.align| == |p.types| == |p.layouts|
    && (forall t: nat :: t < |p.types| ==> IsAlignment(p.types, t, p.align[t]))
    && (forall t: nat :: t < |p.types| ==> IsLayout(p.types, p.align, t, p.layouts[t]))
    && (forall t: nat :: t < |p.types| && IsMaxArray(p.types[t]) ==> HasCode(p.types, p.types[t].elem))
  }

  // ----- alignment relative to a known one (ser/codegen.h)

  predicate IsPo2(a: nat) {
    a == 1 || a == 2 || a == 4 || a == 8
  }

  datatype CurrentAlignment = CurrentAlignment(align: nat, offset: nat)

  function CalignAdd(al: CurrentAlignment, n: nat): CurrentAlignment
    requires al.align > 0
  {
    al.(offset := (al.offset + n) % al.align)
  }

  /** The padding after which the offset is a multiple of a: the offset negated, masked. */
  function CalignTo(al: CurrentAlignment, a: nat): (n: nat)
    requires IsPo2(a)
    ensures n < a && (al.offset + n) % a == 0
  {
    (-(al.offset as int)) % a
  }

  // ----- emission

  /** Each serializer has a deserializer of the same shape. */
  datatype Direction = Ser | Des

  function Leaf(dir: Direction, ts: TypeTable, t: nat, off: nat, fa: FieldAccessor): Stmt {
    var accessor := AccessorTo(ts, t, fa.indices);
    if dir.Ser? then Store(off, fa.Size(), accessor) else Load(off, fa.Size(), accessor)
  }

  /** The statements for leaves of a fixed size, one after the other without gaps. */
  function FixedStmts(dir: Direction, ts: TypeTable, t: nat, fs: seq<FieldAccessor>, off: nat): seq<Stmt> {
    if fs == [] then [] else [Leaf(dir, ts, t, off, fs[0])] + FixedStmts(dir, ts, t, fs[1..], off + fs[0].Size())
  }

  function TotalSize(fs: seq<FieldAccessor>): nat {
    if fs == [] then 0 else fs[0].Size() + TotalSize(fs[1..])
  }

  function AlignAfter(al: CurrentAlignment, fs: seq<FieldAccessor>): (r: CurrentAlignment)
    requires al.align > 0
    ensures r.align == al.align
    decreases |fs|
  {
    if fs == [] then al else AlignAfter(CalignAdd(al, fs[0].Size()), fs[1..])
  }

  ghost predicate ArraysOf(p: Program, t: nat, fs: seq<FieldAccessor>)
    requires Valid(p)
  {
    t < |p.types| && forall fa :: fa in fs ==> fa.ArrayField? && fa in Leaves(p.types, t)
  }

  /** Emission unfolds structs no further than one call, and arrays as deep as they are nested. */
  ghost function Unfolding(p: Program, t: nat, inline: bool): nat
    requires Valid(p) && t < |p.types|
  {
    if p.types[t].TypeStruct? && (inline || !p.types[t].hasFuncs) then 1 else 0
  }

  lemma ArrayInTable(p: Program, t: nat, fs: seq<FieldAccessor>, inline: bool)
    requires Valid(p) && ArraysOf(p, t, fs) && fs != []
    ensures HasCode(p.types, fs[0].elem) && fs[0].indices != [] && Unfolding(p, fs[0].elem, false) == 0
    ensures IsPo2(p.align[fs[0].elem])
    ensures IsMaxArray(p.types[t]) ==> Depths(p.types)[fs[0].elem] < Depths(p.types)[t]
    ensures p.types[t].TypeStruct? || IsMaxArray(p.types[t]) || Unbounded(p.types[t])
  {
    ArraysHaveLengths(p.types, t, fs[0]);
    var a := TypeAt(p.types, t, fs[0].indices[..|fs[0].indices| - 1]);
    assert IsMaxArray(p.types[a]);
    assert IsAlignment(p.types, fs[0].elem, p.align[fs[0].elem]);
  }

  /** The types an object is emitted for; an array of a fixed size is part of what contains it. */
  ghost predicate Emits(p: Program, t: nat)
    requires Valid(p)
  {
    t < |p.types| && (p.types[t].TypeStruct? || IsMaxArray(p.types[t]) || p.types[t].TypePrimitif?)
  }

  lemma LayoutIsEmittable(p: Program, t: nat)
    requires Valid(p) && t < |p.types|
    ensures var layout := p.layouts[t];
            && ArraysOf(p, t, layout[FixedCount(layout)..])
            && forall i :: 0 <= i < |layout| ==> IsPo2(FieldAlign(p.align, layout[i]))
  {
    var layout := p.layouts[t];
    LayoutLeaves(p.types, p.align, t, layout);
    LayoutOrder(p.align, layout);
    forall i | 0 <= i < |layout| ensures IsPo2(FieldAlign(p.align, layout[i])) {
      if layout[i].ArrayField? {
        var fs := [layout[i]];
        assert layout[i] in Leaves(p.types, t);
        ArrayInTable(p, t, fs, true);
      }
    }
  }

  lemma LayoutInTwo(p: Program, t: nat)
    requires Valid(p) && t < |p.types| && p.layouts[t] != []
    ensures var layout := p.layouts[t];
            var n := FixedCount(layout);
            && n <= |layout| && layout == layout[..n] + layout[n..] && ArraysOf(p, t, layout[n..])
            && IsPo2(FieldAlign(p.align, layout[0])) && (n < |layout| ==> IsPo2(FieldAlign(p.align, layout[n])))
            && forall i :: 0 <= i < |layout[..n]| ==> layout[..n][i].FixedField?
  {
    hide Valid, ArraysOf, IsPo2, FieldAlign, FixedCount;
    LayoutIsEmittable(p, t);
  }

  /** The numbers an emission works out: the offset of the first leaf, the leaves of a fixed size and the
      arrays, and how far the pointer is moved past the former. */
  datatype Shape = Shape(off: nat, fixed: seq<FieldAccessor>, arrays: seq<FieldAccessor>, next: nat)

  ghost function ShapeOf(p: Program, t: nat, al: CurrentAlignment): (sh: Shape)
    requires Valid(p) && t < |p.types| && IsPo2(al.align) && p.layouts[t] != []
    ensures ArraysOf(p, t, sh.arrays) && p.layouts[t] == sh.fixed + sh.arrays
    ensures forall i :: 0 <= i < |sh.fixed| ==> sh.fixed[i].FixedField?
  {
    LayoutInTwo(p, t);
    var layout := p.layouts[t];
    var n := FixedCount(layout);
    var off := al.offset + CalignTo(al, FieldAlign(p.align, layout[0]));
    var end, after := off + TotalSize(layout[..n]), AlignAfter(al, layout[..n]);
    var pad := CalignTo(after, if n < |layout| then FieldAlign(p.align, layout[n]) else al.align);
    Shape(off, layout[..n], layout[n..], end + pad)
  }

  lemma ShapeIs(p: Program, t: nat, al: CurrentAlignment)
    requires Valid(p) && t < |p.types| && IsPo2(al.align) && p.layouts[t] != []
    ensures |p.align| == |p.types| == |p.layouts|
    ensures var layout := p.layouts[t];
            var n := FixedCount(layout);
            var sh := ShapeOf(p, t, al);
            && IsPo2(FieldAlign(p.align, layout[0])) && (n < |layout| ==> IsPo2(FieldAlign(p.align, layout[n])))
            && sh.off == al.offset + CalignTo(al, FieldAlign(p.align, layout[0]))
            && sh.fixed == layout[..n] && sh.arrays == layout[n..]
            && sh.next == sh.off + TotalSize(layout[..n]) +
                 CalignTo(AlignAfter(al, layout[..n]), if n < |layout| then FieldAlign(p.align, layout[n]) else al.align)
  {
    hide ArraysOf, IsPo2, FieldAlign, FixedCount, TotalSize, AlignAfter, CalignTo, IsLayout;
    LayoutInTwo(p, t);
  }

  /** Calls pass a struct on as a whole; everything else is emitted in place. */
  predicate IsCall(p: Program, t: nat, inline: bool)
    requires t < |p.types|
  {
    p.types[t].TypeStruct? && p.types[t].hasFuncs && !inline
  }

  /** A body: the fixed leaves, the step past them, and when there are arrays their loops and the final padding. */
  function Assemble(fixed: seq<Stmt>, next: nat, loops: seq<Stmt>, to: nat): seq<Stmt> {
    if loops == [] then fixed + [Bump(next)] else fixed + ([Bump(next)] + (loops + [RoundUp(to)]))
  }

  /** The statements emitted for an object of type t, as write_type_serialization and
      write_type_deserialization put them together. */
  ghost function Emit(dir: Direction, p: Program, t: nat, al: CurrentAlignment, inline: bool): seq<Stmt>
    requires Valid(p) && Emits(p, t) && IsPo2(al.align)
    decreases Unfolding(p, t, inline), Depths(p.types)[t], 1, 0
  {
    if p.layouts[t] == [] then []
    else
      var sh := ShapeOf(p, t, al);
      if IsCall(p, t, inline) then [Call(t, sh.off)]
      else
        Assemble(FixedStmts(dir, p.types, t, sh.fixed, sh.off), sh.next, EmitArrays(dir, p, t, sh.arrays, inline), al.align)
  }

  /** A loop over the elements of each array. */
  ghost function EmitArrays(dir: Direction, p: Program, t: nat, fs: seq<FieldAccessor>, inline: bool): seq<Stmt>
    requires Valid(p) && Emits(p, t) && ArraysOf(p, t, fs)
    requires !IsCall(p, t, inline)
    ensures fs == [] <==> EmitArrays(dir, p, t, fs, inline) == []
    decreases Unfolding(p, t, inline), Depths(p.types)[t], 0, |fs|
  {
    if fs == [] then []
    else
      ArrayInTable(p, t, fs, inline);
      EmitArray(dir, p, t, fs[0], Emit(dir, p, fs[0].elem, CurrentAlignment(p.align[fs[0].elem], 0), false)) +
      EmitArrays(dir, p, t, fs[1..], inline)
  }

  ghost function EmitArray(dir: Direction, p: Program, t: nat, fa: FieldAccessor, body: seq<Stmt>): seq<Stmt>
    requires fa.indices != []
  {
    var data := AccessorTo(p.types, t, fa.indices);
    (if dir.Des? && IsHeapArray(p.types, t, fa.indices) then [Malloc(data)] else []) +
    [For(LengthPath(fa.indices), data, StorageOf(p.types, t, fa.indices), body)]
  }

  /** The functions of all structs that have them. */
  ghost function Functions(dir: Direction, p: Program): map<nat, seq<Stmt>>
    requires Valid(p)
  {
    map t: nat | t < |p.types| && p.types[t].TypeStruct? && p.types[t].hasFuncs ::
      Emit(dir, p, t, CurrentAlignment(AlignOf(p, t), 0), true)
  }

  ghost function AlignOf(p: Program, t: nat): (a: nat)
    requires Valid(p) && t < |p.types|
    ensures IsPo2(a) && a == p.align[t]
  {
    assert IsAlignment(p.types, t, p.align[t]);
    p.align[t]
  }

  lemma InTables(p: Program, t: nat)
    requires Valid(p) && Emits(p, t)
    ensures t < |p.types| == |p.align| == |p.layouts|
  {
  }

  lemma NoPadding(al: CurrentAlignment, f: nat)
    requires al.offset == 0 && IsPo2(f)
    ensures CalignTo(al, f) == 0
  {
  }

  lemma EmitsCall(dir: Direction, p: Program, t: nat, al: CurrentAlignment)
    requires Valid(p) && Emits(p, t) && IsCall(p, t, false) && p.layouts[t] != []
    requires IsPo2(al.align) && al == CurrentAlignment(AlignOf(p, t), 0)
    ensures Emit(dir, p, t, al, false) == [Call(t, 0)]
    ensures t in Functions(dir, p) && Functions(dir, p)[t] == Emit(dir, p, t, al, true)
  {
    hide Valid, ShapeOf, EmitArrays, FixedStmts, Assemble, AlignOf, IsPo2, FixedCount, TotalSize, AlignAfter, CalignTo,
      FieldAlign, ArraysOf;
    ShapeIs(p, t, al);
    NoPadding(al, FieldAlign(p.align, p.layouts[t][0]));
  }

  lemma EmitsParts(dir: Direction, p: Program, t: nat, al: CurrentAlignment, inline: bool)
    requires Valid(p) && Emits(p, t) && !IsCall(p, t, inline) && IsPo2(al.align) && p.layouts[t] != []
    ensures var sh := ShapeOf(p, t, al);
            Emit(dir, p, t, al, inline) ==
            Assemble(FixedStmts(dir, p.types, t, sh.fixed, sh.off), sh.next, EmitArrays(dir, p, t, sh.arrays, inline), al.align)
  {
    hide EmitArrays, FixedStmts, Assemble, ShapeOf;
  }

  /** The parts of a body run one after the other. */
  lemma RunBody(fns: map<nat, seq<Stmt>>, fuel: nat, fixed: seq<Stmt>, n: nat, loops: seq<Stmt>, to: nat, b: Path,
                st: State)
    requires to > 0
    ensures Exec(fns, fuel, Assemble(fixed, n, loops, to), b, st) ==
            match Exec(fns, fuel, fixed, b, st)
            case None => None
            case Some(st1) =>
              if loops == [] then Some(st1.(buf := st1.buf + n))
              else match Exec(fns, fuel, loops, b, st1.(buf := st1.buf + n))
                case None => None
                case Some(st2) => Some(st2.(buf := AlignUp(st2.buf, to)))
  {
    hide Exec, AlignUp;
    match Exec(fns, fuel, fixed, b, st) {
      case None => ExecConcat(fns, fuel, fixed, Assemble([], n, loops, to), b, st);
      case Some(st1) =>
        ExecConcat(fns, fuel, fixed, Assemble([], n, loops, to), b, st);
        ExecBump(fns, fuel, n, b, st1);
        if loops != [] {
          var st1' := st1.(buf := st1.buf + n);
          ExecConcat(fns, fuel, [Bump(n)], loops + [RoundUp(to)], b, st1);
          ExecConcat(fns, fuel, loops, [RoundUp(to)], b, st1');
          if Exec(fns, fuel, loops, b, st1').Some? {
            ExecRoundUp(fns, fuel, to, b, Exec(fns, fuel, loops, b, st1').value);
          }
        }
    }
    AssembleRest(fixed, n, loops, to);
  }

  lemma AssembleRest(fixed: seq<Stmt>, n: nat, loops: seq<Stmt>, to: nat)
    ensures Assemble(fixed, n, loops, to) == fixed + Assemble([], n, loops, to)
    ensures Assemble([], n, loops, to) == if loops == [] then [Bump(n)] else [Bump(n)] + (loops + [RoundUp(to)])
  {
    assert [] + [Bump(n)] == [Bump(n)];
    assert [] + ([Bump(n)] + (loops + [RoundUp(to)])) == [Bump(n)] + (loops + [RoundUp(to)]);
  }
}
