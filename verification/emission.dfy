/** The two emitting functions of the C backend (ser/codegen_c.c), statement by statement. */
module Emission {
  import opened Collections
  import opened Schema
  import opened Alignments
  import opened Layouts
  import opened Machine
  import opened Emitter

  class Writer {
    var out: seq<Stmt>

    constructor ()
      ensures out == []
    {
      out := [];
    }

    method Write(s: Stmt)
      modifies this
      ensures out == old(out) + [s]
    {
      out := out + [s];
    }
  }

  lemma {:induction false} OneMoreLeaf(dir: Direction, ts: TypeTable, t: nat, fs: seq<FieldAccessor>, off: nat,
                                       fa: FieldAccessor)
    ensures FixedStmts(dir, ts, t, fs + [fa], off) ==
            FixedStmts(dir, ts, t, fs, off) + [Leaf(dir, ts, t, off + TotalSize(fs), fa)]
    ensures TotalSize(fs + [fa]) == TotalSize(fs) + fa.Size()
    decreases |fs|
  {
    hide Leaf;
    if fs == [] {
      assert [fa][1..] == [];
    } else {
      assert (fs + [fa])[1..] == fs[1..] + [fa];
      OneMoreLeaf(dir, ts, t, fs[1..], off + fs[0].Size(), fa);
      var first, rest := [Leaf(dir, ts, t, off, fs[0])], FixedStmts(dir, ts, t, fs[1..], off + fs[0].Size());
      var last := [Leaf(dir, ts, t, off + TotalSize(fs), fa)];
      assert first + (rest + last) == (first + rest) + last;
    }
  }

  lemma {:induction false} OneMoreStep(al: CurrentAlignment, fs: seq<FieldAccessor>, fa: FieldAccessor)
    requires al.align > 0
    ensures AlignAfter(al, fs + [fa]) == CalignAdd(AlignAfter(al, fs), fa.Size())
    decreases |fs|
  {
    if fs == [] {
      assert [fa][1..] == [];
    } else {
      assert (fs + [fa])[1..] == fs[1..] + [fa];
      OneMoreStep(CalignAdd(al, fs[0].Size()), fs[1..], fa);
    }
  }

  lemma OneMore(dir: Direction, ts: TypeTable, t: nat, layout: seq<FieldAccessor>, i: nat, start: nat, al: CurrentAlignment)
    requires i < |layout| && al.align > 0
    ensures FixedStmts(dir, ts, t, layout[..i + 1], start) ==
            FixedStmts(dir, ts, t, layout[..i], start) + [Leaf(dir, ts, t, start + TotalSize(layout[..i]), layout[i])]
    ensures TotalSize(layout[..i + 1]) == TotalSize(layout[..i]) + layout[i].Size()
    ensures AlignAfter(al, layout[..i + 1]) == CalignAdd(AlignAfter(al, layout[..i]), layout[i].Size())
    ensures FixedCount(layout[i..]) == if layout[i].Size() != 0 then 1 + FixedCount(layout[i + 1..]) else 0
  {
    assert layout[..i + 1] == layout[..i] + [layout[i]] && layout[i..][1..] == layout[i + 1..];
    OneMoreLeaf(dir, ts, t, layout[..i], start, layout[i]);
    OneMoreStep(al, layout[..i], layout[i]);
  }

  /** The loop over the leaves of a fixed size. */
  method WriteLeaves(w: Writer, dir: Direction, ts: TypeTable, t: nat, layout: seq<FieldAccessor>,
                     al: CurrentAlignment, start: nat)
    returns (offset: nat, after: CurrentAlignment, i: nat)
    requires al.align > 0
    modifies w
    ensures i == FixedCount(layout) && offset == start + TotalSize(layout[..i]) && after == AlignAfter(al, layout[..i])
    ensures w.out == old(w.out) + FixedStmts(dir, ts, t, layout[..i], start)
  {
    hide FixedStmts, TotalSize, AlignAfter, FixedCount, Leaf, CalignAdd;
    NoLeaves(dir, ts, t, layout, start, al);
    offset, after, i := start, al, 0;
    while i < |layout| && layout[i].Size() != 0
      invariant i <= |layout| && FixedCount(layout) == i + FixedCount(layout[i..])
      invariant offset == start + TotalSize(layout[..i]) && after == AlignAfter(al, layout[..i])
      invariant w.out == old(w.out) + FixedStmts(dir, ts, t, layout[..i], start)
    {
      OneMore(dir, ts, t, layout, i, start, al);
      var fa := layout[i];
      w.Write(Leaf(dir, ts, t, offset, fa));
      offset := offset + fa.Size();
      after := CalignAdd(after, fa.Size());
      i := i + 1;
    }
    NoMoreLeaves(layout, i);
  }

  lemma NoLeaves(dir: Direction, ts: TypeTable, t: nat, layout: seq<FieldAccessor>, start: nat, al: CurrentAlignment)
    requires al.align > 0
    ensures FixedStmts(dir, ts, t, layout[..0], start) == [] && TotalSize(layout[..0]) == 0 && AlignAfter(al, layout[..0]) == al
    ensures layout[0..] == layout
  {
  }

  lemma NoMoreLeaves(layout: seq<FieldAccessor>, i: nat)
    requires i <= |layout| && (i == |layout| || layout[i].Size() == 0)
    ensures FixedCount(layout[i..]) == 0
  {
  }

  /** The next array of a body, and what its loop adds. */
  lemma NextArray(dir: Direction, p: Program, t: nat, fs: seq<FieldAccessor>, inline: bool)
    requires Valid(p) && Emits(p, t) && ArraysOf(p, t, fs) && fs != [] && !IsCall(p, t, inline)
    ensures ArraysOf(p, t, fs[1..]) && fs[0].ArrayField? && fs[0].indices != []
    ensures fs[0].elem < |p.types| == |p.align| && Emits(p, fs[0].elem) && IsPo2(p.align[fs[0].elem])
    ensures Unfolding(p, fs[0].elem, false) < Unfolding(p, t, inline) ||
            (Unfolding(p, fs[0].elem, false) == Unfolding(p, t, inline) && Depths(p.types)[fs[0].elem] < Depths(p.types)[t])
    ensures EmitArrays(dir, p, t, fs, inline) ==
            EmitArray(dir, p, t, fs[0], Emit(dir, p, fs[0].elem, CurrentAlignment(p.align[fs[0].elem], 0), false)) +
            EmitArrays(dir, p, t, fs[1..], inline)
  {
    hide Emit, EmitArray, Leaves, IsAlignment, IsLayout;
    ArrayInTable(p, t, fs, inline);
  }

  lemma NoArrays(dir: Direction, p: Program, t: nat, inline: bool)
    requires Valid(p) && Emits(p, t) && ArraysOf(p, t, []) && !IsCall(p, t, inline)
    ensures EmitArrays(dir, p, t, [], inline) == []
  {
  }

  lemma EmitsAtAll(dir: Direction, p: Program, t: nat, al: CurrentAlignment, inline: bool)
    requires Valid(p) && Emits(p, t) && IsPo2(al.align)
    ensures t < |p.types| == |p.align| == |p.layouts| && al.align > 0
    ensures p.layouts[t] == [] ==> Emit(dir, p, t, al, inline) == []
    ensures p.layouts[t] != [] && IsCall(p, t, inline) ==> Emit(dir, p, t, al, inline) == [Call(t, ShapeOf(p, t, al).off)]
    ensures p.layouts[t] != [] && !IsCall(p, t, inline) ==>
      var sh := ShapeOf(p, t, al);
      Emit(dir, p, t, al, inline) ==
      Assemble(FixedStmts(dir, p.types, t, sh.fixed, sh.off), sh.next, EmitArrays(dir, p, t, sh.arrays, inline), al.align)
  {
    hide EmitArrays, FixedStmts, Assemble, ShapeOf, IsAlignment, IsLayout;
  }

  /** The loops over the arrays of a layout, and where their memory is not part of the object its allocation. */
  method WriteArrays(w: Writer, dir: Direction, p: Program, t: nat, layout: seq<FieldAccessor>, from: nat,
                     alwaysInline: bool)
    requires Valid(p) && Emits(p, t) && !IsCall(p, t, alwaysInline)
    requires from <= |layout| && ArraysOf(p, t, layout[from..])
    modifies w
    ensures w.out == old(w.out) + EmitArrays(dir, p, t, layout[from..], alwaysInline)
    decreases Unfolding(p, t, alwaysInline), Depths(p.types)[t], 0
  {
    hide Valid, Emits, Emit, EmitArrays, ArraysOf, HasCode, IsHeapArray, Depths, Unfolding, IsCall, LengthPath, IsPo2,
      AccessorTo, StorageOf;
    var i := from;
    ghost var all := EmitArrays(dir, p, t, layout[from..], alwaysInline);
    while i < |layout|
      invariant from <= i <= |layout| && ArraysOf(p, t, layout[i..])
      invariant w.out + EmitArrays(dir, p, t, layout[i..], alwaysInline) == old(w.out) + all
      decreases |layout| - i
    {
      ghost var fs := layout[i..];
      NextArray(dir, p, t, fs, alwaysInline);
      var farr := layout[i];
      ghost var before, rest := w.out, EmitArrays(dir, p, t, layout[i + 1..], alwaysInline);
      assert fs[0] == farr && fs[1..] == layout[i + 1..];
      if dir.Des? && IsHeapArray(p.types, t, farr.indices) {
        w.Write(Malloc(AccessorTo(p.types, t, farr.indices)));
      }
      var body := new Writer();
      var start := CurrentAlignment(p.align[farr.elem], 0);
      WriteType(body, dir, p, farr.elem, start, false);
      assert body.out == Emit(dir, p, farr.elem, start, false);
      var data := AccessorTo(p.types, t, farr.indices);
      w.Write(For(LengthPath(farr.indices), data, StorageOf(p.types, t, farr.indices), body.out));
      assert w.out == before + EmitArray(dir, p, t, farr, body.out);
      assert w.out + rest == before + (EmitArray(dir, p, t, farr, body.out) + rest);
      i := i + 1;
    }
    assert layout[i..] == [];
    NoArrays(dir, p, t, alwaysInline);
  }

  lemma Assembled(out: seq<Stmt>, fixed: seq<Stmt>, next: nat, loops: seq<Stmt>, to: nat)
    ensures loops == [] ==> out + fixed + [Bump(next)] == out + Assemble(fixed, next, loops, to)
    ensures loops != [] ==> out + fixed + [Bump(next)] + loops + [RoundUp(to)] == out + Assemble(fixed, next, loops, to)
  {
  }

  /** write_type_serialization and write_type_deserialization. */
  method WriteType(w: Writer, dir: Direction, p: Program, t: nat, al: CurrentAlignment, alwaysInline: bool)
    requires Valid(p) && Emits(p, t) && IsPo2(al.align)
    modifies w
    ensures w.out == old(w.out) + Emit(dir, p, t, al, alwaysInline)
    decreases Unfolding(p, t, alwaysInline), Depths(p.types)[t], 1
  {
    hide Valid, Emits, Emit, EmitArrays, ShapeOf, FixedStmts, ArraysOf, TotalSize, AlignAfter, CalignTo, IsPo2,
      FixedCount, Depths, Unfolding, Assemble, FieldAlign, CalignAdd;
    EmitsAtAll(dir, p, t, al, alwaysInline);
    var layout := p.layouts[t];
    if |layout| == 0 {
      assert w.out == old(w.out) + [];
      return;
    }
    ShapeIs(p, t, al);
    var offset := al.offset;
    offset := offset + CalignTo(al, FieldAlign(p.align, layout[0]));
    if p.types[t].TypeStruct? && p.types[t].hasFuncs && !alwaysInline {
      w.Write(Call(t, offset));
      return;
    }
    var after: CurrentAlignment, i: nat;
    offset, after, i := WriteLeaves(w, dir, p.types, t, layout, al, offset);
    if i < |layout| {
      offset := offset + CalignTo(after, FieldAlign(p.align, layout[i]));
      w.Write(Bump(offset));
      WriteArrays(w, dir, p, t, layout, i, alwaysInline);
      w.Write(RoundUp(al.align));
    } else {
      offset := offset + CalignTo(after, al.align);
      w.Write(Bump(offset));
    }
    Assembled(old(w.out), FixedStmts(dir, p.types, t, layout[..i], ShapeOf(p, t, al).off), offset,
              EmitArrays(dir, p, t, layout[i..], alwaysInline), al.align);
  }
}
