/** The emitted deserializers, run on memory that holds the image of a value, build that value in an object that
    has a place for it, and store outside the object otherwise. */
module Deserializing {
  import opened Collections
  import opened Schema
  import opened Layouts
  import opened Machine
  import opened Values
  import opened Emitter
  import opened Plans

  // ----- what deserializing leaves alone

  ghost predicate BelowSome(b: Path, fs: seq<FieldAccessor>, r: Path) {
    exists i :: 0 <= i < |fs| && IsPrefix(b + fs[i].indices, r)
  }

  ghost predicate SameAt(before: Object, after: Object, r: Path) {
    (r in before <==> r in after) && (r in before ==> before[r] == after[r])
  }

  /** Only what lies below the given leaves may have changed. */
  ghost predicate Touches(before: Object, after: Object, b: Path, fs: seq<FieldAccessor>) {
    forall r :: !BelowSome(b, fs, r) ==> SameAt(before, after, r)
  }

  lemma TouchesInTurn(o1: Object, o2: Object, o3: Object, b: Path, f1: seq<FieldAccessor>, f2: seq<FieldAccessor>)
    requires Touches(o1, o2, b, f1) && Touches(o2, o3, b, f2)
    ensures Touches(o1, o3, b, f1 + f2)
  {
    forall r | !BelowSome(b, f1 + f2, r) ensures SameAt(o1, o3, r) {
      assert !BelowSome(b, f1, r) by {
        assert forall i :: 0 <= i < |f1| ==> (f1 + f2)[i] == f1[i];
      }
      assert !BelowSome(b, f2, r) by {
        assert forall i :: 0 <= i < |f2| ==> (f1 + f2)[|f1| + i] == f2[i];
      }
      assert SameAt(o1, o2, r) && SameAt(o2, o3, r);
    }
  }

  lemma TouchesBelow(before: Object, after: Object, b: Path, fs: seq<FieldAccessor>)
    requires Touches(before, after, b, fs)
    ensures SameOutside(before, after, b)
  {
    forall r | !IsPrefix(b, r) ensures SameAt(before, after, r) {
      forall i | 0 <= i < |fs| ensures !IsPrefix(b + fs[i].indices, r) {
        BelowBase(b, fs[i].indices, r);
      }
      assert !BelowSome(b, fs, r);
    }
  }

  lemma BelowBase(b: Path, q: Path, r: Path)
    ensures IsPrefix(b + q, r) ==> IsPrefix(b, r)
  {
    if IsPrefix(b + q, r) {
      assert r[..|b|] == r[..|b + q|][..|b|];
    }
  }

  lemma TouchesBack(before: Object, after: Object, b: Path, fs: seq<FieldAccessor>)
    requires Touches(before, after, b, fs)
    ensures Touches(after, before, b, fs)
  {
    forall r | !BelowSome(b, fs, r) ensures SameAt(after, before, r) {
      assert SameAt(before, after, r);
    }
  }

  lemma {:induction false} ViaIsAbove(ts: TypeTable, t: nat, p: Path, q: Path)
    requires q in Via(ts, t, p)
    ensures |q| < |p| && IsPrefix(q, p)
    decreases |p|
  {
    hide IsPrefix;
    if q == [] {
      NoPath(p);
    } else {
      var inner := Via(ts, Parts(ts[t])[p[0]], p[1..]);
      var k :| 0 <= k < |inner| && q == [p[0]] + inner[k];
      ViaIsAbove(ts, Parts(ts[t])[p[0]], p[1..], inner[k]);
      PrefixUnder(inner[k], p);
    }
  }

  lemma NoPath(p: Path)
    ensures IsPrefix([], p)
  {
  }

  lemma PrefixUnder(q: Path, p: Path)
    requires p != [] && IsPrefix(q, p[1..])
    ensures IsPrefix([p[0]] + q, p)
  {
    assert q == p[1..][..|q|];
    assert p[..|q| + 1] == [p[0]] + p[1..][..|q|];
  }

  /** Nothing at or above a path is touched by filling in leaves that it does not lead to. */
  lemma FollowsStill(ts: TypeTable, before: Object, after: Object, b: Path, t: nat, p: Path, fs: seq<FieldAccessor>)
    requires Touches(before, after, b, fs) && Follows(before, b, Via(ts, t, p))
    requires forall i :: 0 <= i < |fs| ==> Apart(p, fs[i].indices) || p == fs[i].indices
    ensures Follows(after, b, Via(ts, t, p))
  {
    forall q | q in Via(ts, t, p) ensures b + q in after {
      ViaIsAbove(ts, t, p, q);
      forall i | 0 <= i < |fs| ensures !IsPrefix(b + fs[i].indices, b + q) {
        NotBelowLonger(b, p, q, fs[i].indices);
      }
      assert !BelowSome(b, fs, b + q);
      assert SameAt(before, after, b + q);
    }
  }

  lemma NotBelowLonger(b: Path, p: Path, q: Path, f: Path)
    requires IsPrefix(q, p) && |q| < |p| && (Apart(p, f) || p == f)
    ensures !IsPrefix(b + f, b + q)
  {
    if IsPrefix(b + f, b + q) && p != f {
      assert b + q == (b + p)[..|b + q|];
      BelowBelow(b + f, b + q);
      assert IsPrefix(b + q, b + p);
      ApartNotBelow(b, p, f, b + p);
      assert false;
    }
  }

  /** What lies below a leaf is the same while leaves apart from it are filled in. */
  lemma SameBelowLeaf(before: Object, after: Object, b: Path, p: Path, fs: seq<FieldAccessor>)
    requires Touches(before, after, b, fs) && forall i :: 0 <= i < |fs| ==> Apart(p, fs[i].indices)
    ensures SameBelow(before, after, b + p)
  {
    forall r | IsPrefix(b + p, r) ensures SameAt(before, after, r) {
      forall i | 0 <= i < |fs| ensures !IsPrefix(b + fs[i].indices, r) {
        ApartNotBelow(b, p, fs[i].indices, r);
      }
      assert !BelowSome(b, fs, r);
    }
  }

  lemma SameIsAlike(before: Object, after: Object, b: Path, c: Path)
    requires SameBelow(before, after, b)
    ensures SetAlike(before, b + c, after, b + c)
  {
    forall q: Path ensures b + c + q in before <==> b + c + q in after {
      assert b + c + q == b + (c + q);
      assert IsPrefix(b, b + c + q);
    }
  }

  /** A leaf keeps what it holds while leaves apart from it are filled in. */
  lemma LeafStillHolds(ts: TypeTable, before: Object, after: Object, b: Path, t: nat, v: Value,
                       fa: FieldAccessor, fs: seq<FieldAccessor>)
    requires LeafHolds(ts, before, b, t, v, fa) && Touches(before, after, b, fs)
    requires forall i :: 0 <= i < |fs| ==> Apart(fa.indices, fs[i].indices)
    ensures LeafHolds(ts, after, b, t, v, fa)
  {
    hide Via, StorageOf, Touches, At, Apart;
    var p := b + fa.indices;
    FollowsStill(ts, before, after, b, t, fa.indices, fs);
    SameBelowLeaf(before, after, b, fa.indices, fs);
    assert IsPrefix(p, p);
    if fa.ArrayField? {
      var es := ElemsOf(At(ts, t, v, fa.indices));
      forall i | 0 <= i < |es| ensures Represents(ts, after, p + [i], fa.elem, es[i]) {
        BelowBelow(p, p + [i]);
        StillRepresents(ts, before, after, p + [i], fa.elem, es[i]);
      }
    }
  }

  /** And there is a place for it still if there was one. */
  lemma LeafStillTakes(ts: TypeTable, before: Object, after: Object, b: Path, t: nat, v: Value,
                       fa: FieldAccessor, fs: seq<FieldAccessor>)
    requires LeafTakes(ts, before, b, t, v, fa) && Touches(before, after, b, fs)
    requires forall i :: 0 <= i < |fs| ==> Apart(fa.indices, fs[i].indices)
    ensures LeafTakes(ts, after, b, t, v, fa)
  {
    hide Via, Touches, At, Apart, Follows;
    FollowsStill(ts, before, after, b, t, fa.indices, fs);
    SameBelowLeaf(before, after, b, fa.indices, fs);
    if fa.ArrayField? && StorageOf(ts, t, fa.indices).Inside? {
      hide StorageOf;
      var es := ElemsOf(At(ts, t, v, fa.indices));
      forall i | 0 <= i < |es| ensures Takes(ts, after, b + fa.indices + [i], fa.elem, es[i]) {
        SameIsAlike(before, after, b + fa.indices, [i]);
        TakesAlike(ts, before, b + fa.indices + [i], after, b + fa.indices + [i], fa.elem, es[i]);
      }
    }
  }

  lemma ApartFromAll(done: seq<FieldAccessor>, fs: seq<FieldAccessor>)
    requires AllApart(done + fs)
    ensures forall fa, i :: fa in done && 0 <= i < |fs| ==> Apart(fa.indices, fs[i].indices)
    ensures forall fa, i :: fa in fs && 0 <= i < |done| ==> Apart(fa.indices, done[i].indices)
  {
    forall i, j | 0 <= i < |done| && 0 <= j < |fs|
      ensures Apart(done[i].indices, fs[j].indices) && Apart(fs[j].indices, done[i].indices)
    {
      var all := done + fs;
      assert all[i] == done[i] && all[|done| + j] == fs[j];
      assert Apart(all[i].indices, all[|done| + j].indices);
    }
  }

  lemma AllStillHold(ts: TypeTable, before: Object, after: Object, b: Path, t: nat, v: Value,
                     done: seq<FieldAccessor>, fs: seq<FieldAccessor>)
    requires AllHold(ts, before, b, t, v, done) && Touches(before, after, b, fs) && AllApart(done + fs)
    ensures AllHold(ts, after, b, t, v, done)
  {
    hide LeafHolds, Touches, AllApart, Apart;
    ApartFromAll(done, fs);
    forall fa | fa in done ensures LeafHolds(ts, after, b, t, v, fa) {
      LeafStillHolds(ts, before, after, b, t, v, fa, fs);
    }
  }

  lemma AllStillTake(ts: TypeTable, before: Object, after: Object, b: Path, t: nat, v: Value,
                     done: seq<FieldAccessor>, fs: seq<FieldAccessor>)
    requires Touches(before, after, b, done) && AllApart(done + fs)
    ensures AllTake(ts, before, b, t, v, fs) <==> AllTake(ts, after, b, t, v, fs)
  {
    hide LeafTakes, Touches, AllApart, Apart;
    ApartFromAll(done, fs);
    TouchesBack(before, after, b, done);
    forall fa | fa in fs ensures LeafTakes(ts, before, b, t, v, fa) <==> LeafTakes(ts, after, b, t, v, fa) {
      if LeafTakes(ts, before, b, t, v, fa) {
        LeafStillTakes(ts, before, after, b, t, v, fa, done);
      }
      if LeafTakes(ts, after, b, t, v, fa) {
        LeafStillTakes(ts, after, before, b, t, v, fa, done);
      }
    }
  }

  lemma AllTakeBoth(ts: TypeTable, obj: Object, b: Path, t: nat, v: Value, f1: seq<FieldAccessor>, f2: seq<FieldAccessor>)
    ensures AllTake(ts, obj, b, t, v, f1 + f2) <==> AllTake(ts, obj, b, t, v, f1) && AllTake(ts, obj, b, t, v, f2)
  {
    hide LeafTakes;
    assert forall fa :: fa in f1 + f2 <==> fa in f1 || fa in f2;
  }

  lemma AllHoldBoth(ts: TypeTable, obj: Object, b: Path, t: nat, v: Value, f1: seq<FieldAccessor>, f2: seq<FieldAccessor>)
    requires AllHold(ts, obj, b, t, v, f1) && AllHold(ts, obj, b, t, v, f2)
    ensures AllHold(ts, obj, b, t, v, f1 + f2)
  {
  }

  lemma ApartParts(f1: seq<FieldAccessor>, f2: seq<FieldAccessor>)
    requires AllApart(f1 + f2)
    ensures AllApart(f1) && AllApart(f2)
  {
    forall i, j | 0 <= i < j < |f1| ensures Apart(f1[i].indices, f1[j].indices) {
      assert (f1 + f2)[i] == f1[i] && (f1 + f2)[j] == f1[j];
    }
    forall i, j | 0 <= i < j < |f2| ensures Apart(f2[i].indices, f2[j].indices) {
      assert (f1 + f2)[|f1| + i] == f2[i] && (f1 + f2)[|f1| + j] == f2[j];
    }
  }

  // ----- leaves of a fixed size

  /** How a run ends: the memory is the same, and the object filled in, if there is a place for every store. */
  function Finished(st: State, end: int, obj: Option<Object>): Option<State> {
    match obj
    case None => None
    case Some(o) => Some(State(st.mem, end, o))
  }

  lemma LoadLeaf(fns: map<nat, seq<Stmt>>, fuel: nat, ts: TypeTable, t: nat, v: Value, fa: FieldAccessor,
                 off: nat, b: Path, st: State) returns (obj: Option<Object>)
    requires fa.FixedField? && LeafEncodable(ts, t, v, fa)
    requires Holds(st.mem, [Write(st.buf + off, ToBytes(NumOf(At(ts, t, v, fa.indices)), fa.Size()))])
    ensures Exec(fns, fuel, [Leaf(Des, ts, t, off, fa)], b, st) == Finished(st, st.buf, obj)
    ensures obj.Some? <==> LeafTakes(ts, st.obj, b, t, v, fa)
    ensures obj.Some? ==> LeafHolds(ts, obj.value, b, t, v, fa) && Touches(st.obj, obj.value, b, [fa])
  {
    hide Via, At, Pow256;
    ExecSingle(fns, fuel, Leaf(Des, ts, t, off, fa), b, st);
    var n := NumOf(At(ts, t, v, fa.indices));
    var w := Write(st.buf + off, ToBytes(n, fa.Size()));
    assert [w][0] == w;
    BytesRoundTrip(n, fa.Size());
    hide ToBytes, FromBytes;
    if Follows(st.obj, b, Via(ts, t, fa.indices)) {
      var o := st.obj[b + fa.indices := n];
      obj := Some(o);
      forall r | !BelowSome(b, [fa], r) ensures SameAt(st.obj, o, r) {
        assert IsPrefix(b + fa.indices, b + fa.indices) && [fa][0] == fa;
      }
    } else {
      obj := None;
    }
  }

  lemma {:induction false} LoadLeaves(fns: map<nat, seq<Stmt>>, fuel: nat, ts: TypeTable, t: nat, v: Value,
                                      fs: seq<FieldAccessor>, off: nat, b: Path, st: State)
    returns (obj: Option<Object>)
    requires (forall i :: 0 <= i < |fs| ==> fs[i].FixedField? && LeafEncodable(ts, t, v, fs[i])) && AllApart(fs)
    requires Holds(st.mem, PlanLeaves(ts, t, v, fs, st.buf + off))
    ensures Exec(fns, fuel, FixedStmts(Des, ts, t, fs, off), b, st) == Finished(st, st.buf, obj)
    ensures obj.Some? <==> AllTake(ts, st.obj, b, t, v, fs)
    ensures obj.Some? ==> AllHold(ts, obj.value, b, t, v, fs) && Touches(st.obj, obj.value, b, fs)
    decreases |fs|
  {
    hide Exec, LeafHolds, LeafTakes, At, Holds, AllHold, AllTake, ToBytes, Touches, LeafEncodable, AllApart, Leaf;
    if fs == [] {
      obj := Some(st.obj);
      NothingLoaded(fns, fuel, ts, t, v, b, st);
    } else {
      var fa, rest := fs[0], fs[1..];
      var w := Write(st.buf + off, ToBytes(NumOf(At(ts, t, v, fa.indices)), fa.Size()));
      var ws := PlanLeaves(ts, t, v, rest, st.buf + off + fa.Size());
      assert PlanLeaves(ts, t, v, fs, st.buf + off) == [w] + ws;
      assert fs == [fa] + rest;
      HoldsBoth(st.mem, [w], ws);
      ApartParts([fa], rest);
      var first := LoadLeaf(fns, fuel, ts, t, v, fa, off, b, st);
      ExecConcat(fns, fuel, [Leaf(Des, ts, t, off, fa)], FixedStmts(Des, ts, t, rest, off + fa.Size()), b, st);
      OneTakes(ts, st.obj, b, t, v, fa);
      AllTakeBoth(ts, st.obj, b, t, v, [fa], rest);
      match first {
        case None => obj := None;
        case Some(o) =>
          obj := LoadLeaves(fns, fuel, ts, t, v, rest, off + fa.Size(), b, st.(obj := o));
          AllStillTake(ts, st.obj, o, b, t, v, [fa], rest);
          if obj.Some? {
            OneHolds(ts, o, b, t, v, fa);
            AllStillHold(ts, o, obj.value, b, t, v, [fa], rest);
            AllHoldBoth(ts, obj.value, b, t, v, [fa], rest);
            TouchesInTurn(st.obj, o, obj.value, b, [fa], rest);
          }
      }
    }
  }

  lemma OneTakes(ts: TypeTable, obj: Object, b: Path, t: nat, v: Value, fa: FieldAccessor)
    ensures AllTake(ts, obj, b, t, v, [fa]) <==> LeafTakes(ts, obj, b, t, v, fa)
  {
    hide LeafTakes;
    assert fa in [fa];
  }

  lemma OneHolds(ts: TypeTable, obj: Object, b: Path, t: nat, v: Value, fa: FieldAccessor)
    requires LeafHolds(ts, obj, b, t, v, fa)
    ensures AllHold(ts, obj, b, t, v, [fa])
  {
  }

  lemma NothingLoaded(fns: map<nat, seq<Stmt>>, fuel: nat, ts: TypeTable, t: nat, v: Value, b: Path, st: State)
    ensures Exec(fns, fuel, [], b, st) == Some(st)
    ensures AllHold(ts, st.obj, b, t, v, []) && AllTake(ts, st.obj, b, t, v, []) && Touches(st.obj, st.obj, b, [])
  {
  }

  // ----- arrays

  /** The elements from number i on hold their values. */
  ghost predicate ElemsHold(ts: TypeTable, obj: Object, data: Path, elem: nat, es: seq<Value>, i: nat, j: nat) {
    j <= |es| && forall k :: i <= k < j ==> Represents(ts, obj, data + [k], elem, es[k])
  }

  lemma ElemsStillHold(ts: TypeTable, before: Object, after: Object, data: Path, elem: nat, es: seq<Value>, i: nat,
                       j: nat)
    requires ElemsHold(ts, before, data, elem, es, i, j) && j < |es| && SameOutside(before, after, data + [j])
    requires Represents(ts, after, data + [j], elem, es[j]) && i <= j
    ensures ElemsHold(ts, after, data, elem, es, i, j + 1)
  {
    forall k | i <= k < j ensures Represents(ts, after, data + [k], elem, es[k]) {
      forall r | IsPrefix(data + [k], r) ensures SameAt(before, after, r) {
        assert Apart([k], [j]) by {
          assert [k][0] != [j][0];
        }
        ApartNotBelow(data, [k], [j], r);
      }
      StillRepresents(ts, before, after, data + [k], elem, es[k]);
    }
  }

  lemma OutsideInTurn(o1: Object, o2: Object, o3: Object, b: Path, c: Path)
    requires SameOutside(o1, o2, b) && SameOutside(o2, o3, b + c)
    ensures SameOutside(o1, o3, b)
  {
    forall r | !IsPrefix(b, r) ensures SameAt(o1, o3, r) {
      BelowBase(b, c, r);
      assert SameAt(o1, o2, r) && SameAt(o2, o3, r);
    }
  }

  ghost predicate Ready(p: Program, fuel: nat, t: nat, v: Value, al: CurrentAlignment, inline: bool)
    requires Valid(p) && Emits(p, t)
  {
    && IsPo2(al.align) && Encodable(p.types, t, v)
    && (IsCall(p, t, inline) ==> al == CurrentAlignment(AlignOf(p, t), 0))
    && fuel >= Size(v) + (if IsCall(p, t, inline) then 1 else 0)
  }

  /** There is a place for the elements from number i on. */
  ghost predicate ElemsTake(ts: TypeTable, obj: Object, data: Path, elem: nat, es: seq<Value>, i: nat) {
    forall k :: i <= k < |es| ==> Takes(ts, obj, data + [k], elem, es[k])
  }

  lemma SameBeside(before: Object, after: Object, data: Path, i: nat, k: nat)
    requires SameOutside(before, after, data + [i]) && k != i
    ensures SetAlike(before, data + [k], after, data + [k])
  {
    forall q: Path ensures data + [k] + q in before <==> data + [k] + q in after {
      assert Apart([k], [i]) by {
        assert [k][0] != [i][0];
      }
      assert IsPrefix(data + [k], data + [k] + q);
      ApartNotBelow(data, [k], [i], data + [k] + q);
    }
  }

  lemma ElemsStillTake(ts: TypeTable, before: Object, after: Object, data: Path, elem: nat, es: seq<Value>, i: nat)
    requires SameOutside(before, after, data + [i])
    ensures ElemsTake(ts, before, data, elem, es, i + 1) <==> ElemsTake(ts, after, data, elem, es, i + 1)
  {
    hide SameOutside;
    forall k | i < k < |es|
      ensures Takes(ts, before, data + [k], elem, es[k]) <==> Takes(ts, after, data + [k], elem, es[k])
    {
      SameBeside(before, after, data, i, k);
      if Takes(ts, before, data + [k], elem, es[k]) {
        TakesAlike(ts, before, data + [k], after, data + [k], elem, es[k]);
      }
      if Takes(ts, after, data + [k], elem, es[k]) {
        TakesAlike(ts, after, data + [k], before, data + [k], elem, es[k]);
      }
    }
  }

  lemma FirstTakes(ts: TypeTable, obj: Object, data: Path, elem: nat, es: seq<Value>, i: nat)
    requires i < |es|
    ensures ElemsTake(ts, obj, data, elem, es, i) <==>
            Takes(ts, obj, data + [i], elem, es[i]) && ElemsTake(ts, obj, data, elem, es, i + 1)
  {
  }

  lemma NoneTaken(ts: TypeTable, obj: Object, data: Path, elem: nat, es: seq<Value>)
    ensures ElemsTake(ts, obj, data, elem, es, |es|)
  {
  }

  /** The array is there as before once one of its elements is filled in. */
  lemma StillThere(before: Object, after: Object, data: Path, storage: Storage, i: nat)
    requires SameOutside(before, after, data + [i])
    ensures forall n :: HasElements(before, data, storage, n) <==> HasElements(after, data, storage, n)
  {
    assert !IsPrefix(data + [i], data);
  }

  lemma OneMoreThere(obj: Object, data: Path, storage: Storage, i: nat)
    ensures HasElements(obj, data, storage, i + 1) <==> HasElement(obj, data, storage, i)
    ensures forall n: nat :: i < n && HasElements(obj, data, storage, n) ==> HasElement(obj, data, storage, i)
  {
  }

  /** One more round of a loop. */
  lemma NextRound(fns: map<nat, seq<Stmt>>, fuel: nat, body: seq<Stmt>, data: Path, storage: Storage, i: nat, n: nat,
                  st: State)
    requires i < n
    ensures ExecLoop(fns, fuel, body, data, storage, i, n, st) ==
            if !HasElement(st.obj, data, storage, i) then None
            else match Exec(fns, fuel, body, data + [i], st)
              case None => None
              case Some(st') => ExecLoop(fns, fuel, body, data, storage, i + 1, n, st')
  {
  }

  lemma NoRound(fns: map<nat, seq<Stmt>>, fuel: nat, body: seq<Stmt>, data: Path, storage: Storage, n: nat, st: State)
    ensures ExecLoop(fns, fuel, body, data, storage, n, n, st) == Some(st)
  {
  }

  /** The plan of the elements from number i on. */
  lemma ElemsFrom(p: Program, elem: nat, es: seq<Value>, i: nat, a: int)
    requires Valid(p) && HasCode(p.types, elem) && i < |es|
    ensures Emits(p, elem)
    ensures var here := PlanOf(p, elem, es[i], CurrentAlignment(AlignOf(p, elem), 0), a);
            var rest := PlanElems(p, elem, es[i + 1..], here.end);
            PlanElems(p, elem, es[i..], a) == Plan(here.writes + rest.writes, rest.end)
  {
    hide Valid, Emits, HasCode, PlanOf, PlanElems, AlignOf;
    assert es[i..][0] == es[i] && es[i..][1..] == es[i + 1..];
    FirstElem(p, elem, es[i..], a);
  }

  /** Element i has been filled in. */
  lemma ElementFilled(ts: TypeTable, first: Object, before: Object, after: Object, data: Path, storage: Storage,
                      elem: nat, es: seq<Value>, i: nat)
    requires i < |es| && ElemsHold(ts, before, data, elem, es, 0, i) && SameOutside(first, before, data)
    requires HasElement(before, data, storage, i)
    requires Represents(ts, after, data + [i], elem, es[i]) && SameOutside(before, after, data + [i])
    ensures ElemsHold(ts, after, data, elem, es, 0, i + 1) && SameOutside(first, after, data)
    ensures HasElements(after, data, storage, i + 1)
    ensures HasElements(after, data, storage, |es|) <==> HasElements(before, data, storage, |es|)
    ensures ElemsTake(ts, before, data, elem, es, i + 1) <==> ElemsTake(ts, after, data, elem, es, i + 1)
  {
    hide ElemsHold, SameOutside, Represents, ElemsTake, HasElements, HasElement;
    OneMoreThere(before, data, storage, i);
    ElemsStillHold(ts, before, after, data, elem, es, 0, i);
    ElemsStillTake(ts, before, after, data, elem, es, i);
    StillThere(before, after, data, storage, i);
    OutsideInTurn(first, before, after, data, [i]);
  }

  /** What remains of the loop over the elements from number i on. */
  lemma {:induction false} DeserializesElems(p: Program, fuel: nat, elem: nat, es: seq<Value>, i: nat, data: Path,
                                             storage: Storage, st: State, first: Object)
    returns (obj: Option<Object>)
    requires Valid(p) && HasCode(p.types, elem) && i <= |es| && fuel > Sizes(es)
    requires forall j :: 0 <= j < |es| ==> Encodable(p.types, elem, es[j])
    requires Holds(st.mem, PlanElems(p, elem, es[i..], st.buf).writes)
    requires ElemsHold(p.types, st.obj, data, elem, es, 0, i) && SameOutside(first, st.obj, data)
    requires HasElements(st.obj, data, storage, i)
    ensures ExecLoop(Functions(Des, p), fuel, Emit(Des, p, elem, CurrentAlignment(AlignOf(p, elem), 0), false), data,
                     storage, i, |es|, st) ==
            Finished(st, PlanElems(p, elem, es[i..], st.buf).end, obj)
    ensures obj.Some? <==> HasElements(st.obj, data, storage, |es|) && ElemsTake(p.types, st.obj, data, elem, es, i)
    ensures obj.Some? ==> ElemsHold(p.types, obj.value, data, elem, es, 0, |es|) &&
                          HasElements(obj.value, data, storage, |es|) && SameOutside(first, obj.value, data)
    decreases Sizes(es), 5, |es| - i
  {
    hide Valid, Emits, Encodable, Exec, ElemsHold, SameOutside, Holds, Functions, Emit, PlanOf, HasCode, Represents,
      AlignOf, Takes, ElemsTake, HasElements, HasElement, ExecLoop, PlanElems, Size, Sizes;
    ElementEmits(p, elem);
    var al := CurrentAlignment(AlignOf(p, elem), 0);
    var fns, body := Functions(Des, p), Emit(Des, p, elem, al, false);
    if i == |es| {
      NoRound(fns, fuel, body, data, storage, i, st);
      obj := Some(st.obj);
      assert es[i..] == [];
      NoElems(p, elem, st.buf);
      NoneTaken(p.types, st.obj, data, elem, es);
    } else {
      PartIsSmaller(es, i);
      var here := PlanOf(p, elem, es[i], al, st.buf);
      ElemsFrom(p, elem, es, i, st.buf);
      HoldsBoth(st.mem, here.writes, PlanElems(p, elem, es[i + 1..], here.end).writes);
      FirstTakes(p.types, st.obj, data, elem, es, i);
      OneMoreThere(st.obj, data, storage, i);
      NextRound(fns, fuel, body, data, storage, i, |es|, st);
      obj := None;
      if HasElement(st.obj, data, storage, i) {
        var next := DeserializesPlan(p, fuel, elem, es[i], al, false, data + [i], st);
        if next.Some? {
          ElementFilled(p.types, first, st.obj, next.value, data, storage, elem, es, i);
          obj := DeserializesElems(p, fuel, elem, es, i + 1, data, storage, State(st.mem, here.end, next.value), first);
        }
      }
    }
  }

  lemma LengthNotBelow(b: Path, q: Path, q': Path)
    requires q != [] && q[|q| - 1] == 1 && q' == LengthPath(q)
    ensures !IsPrefix(b + q, b + q')
  {
    assert (b + q)[|b| + |q| - 1] == 1 && (b + q')[|b| + |q| - 1] == 0;
  }

  /** Fresh memory is all alike. */
  lemma FreshTakes(ts: TypeTable, obj: Object, data: Path, elem: nat, es: seq<Value>)
    ensures ElemsTake(ts, Allocated(obj, data), data, elem, es, 0) <==>
            forall i :: 0 <= i < |es| ==> Takes(ts, FRESH, [], elem, es[i])
  {
    var o := Allocated(obj, data);
    forall i | 0 <= i < |es| ensures Takes(ts, o, data + [i], elem, es[i]) <==> Takes(ts, FRESH, [], elem, es[i]) {
      forall q: Path ensures data + [i] + q in o <==> [] + q in FRESH {
        assert IsPrefix(data, data + [i] + q);
      }
      if Takes(ts, o, data + [i], elem, es[i]) {
        TakesAlike(ts, o, data + [i], FRESH, [], elem, es[i]);
      } else if Takes(ts, FRESH, [], elem, es[i]) {
        TakesAlike(ts, FRESH, [], o, data + [i], elem, es[i]);
      }
    }
  }

  /** What runs before the loop: the pointer to the elements is set when they are on the heap. */
  lemma AllocatesArray(p: Program, fuel: nat, t: nat, v: Value, fa: FieldAccessor, es: seq<Value>, body: seq<Stmt>,
                       b: Path, st: State) returns (st': State)
    requires Valid(p) && fa.ArrayField? && fa.indices != [] && fa.indices[|fa.indices| - 1] == 1
    requires b + LengthPath(fa.indices) in st.obj && Follows(st.obj, b, Via(p.types, t, fa.indices))
    requires es == ElemsOf(At(p.types, t, v, fa.indices))
    ensures st'.mem == st.mem && st'.buf == st.buf
    ensures b + LengthPath(fa.indices) in st'.obj &&
            st'.obj[b + LengthPath(fa.indices)] == st.obj[b + LengthPath(fa.indices)]
    ensures SameOutside(st.obj, st'.obj, b + fa.indices) && ElemsHold(p.types, st'.obj, b + fa.indices, fa.elem, es, 0, 0)
    ensures Exec(Functions(Des, p), fuel, EmitArray(Des, p, t, fa, body), b, st) ==
            Exec(Functions(Des, p), fuel,
                 [For(LengthPath(fa.indices), AccessorTo(p.types, t, fa.indices), StorageOf(p.types, t, fa.indices), body)],
                 b, st')
    ensures HasElements(st'.obj, b + fa.indices, StorageOf(p.types, t, fa.indices), |es|) &&
            ElemsTake(p.types, st'.obj, b + fa.indices, fa.elem, es, 0) <==>
            LeafTakes(p.types, st.obj, b, t, v, fa)
  {
    hide Valid, Exec, Functions, Represents, TypeAt, Takes, Via, Follows, At;
    var fns, q := Functions(Des, p), fa.indices;
    var data, storage := AccessorTo(p.types, t, q), StorageOf(p.types, t, q);
    var loop := [For(LengthPath(q), data, storage, body)];
    if IsHeapArray(p.types, t, q) {
      st' := st.(obj := Allocated(st.obj, b + q));
      LengthNotBelow(b, q, LengthPath(q));
      ExecSingle(fns, fuel, Malloc(data), b, st);
      ExecConcat(fns, fuel, [Malloc(data)], loop, b, st);
      FreshTakes(p.types, st.obj, b + q, fa.elem, es);
    } else {
      st' := st;
      assert [] + loop == loop;
    }
  }

  lemma NoWayThere(fns: map<nat, seq<Stmt>>, fuel: nat, p: Program, t: nat, fa: FieldAccessor, body: seq<Stmt>, b: Path,
                   st: State)
    requires fa.indices != [] && !Follows(st.obj, b, Via(p.types, t, fa.indices))
    ensures Exec(fns, fuel, EmitArray(Des, p, t, fa, body), b, st) == None
  {
    hide Via, StorageOf, TypeAt;
    assert EmitArray(Des, p, t, fa, body)[0].Malloc? || EmitArray(Des, p, t, fa, body)[0].For?;
  }

  /** The loop over one array, after malloc if its elements are on the heap. */
  lemma {:induction false} DeserializesArray(p: Program, fuel: nat, t: nat, v: Value, fa: FieldAccessor, b: Path,
                                             st: State)
    returns (obj: Option<Object>)
    requires Valid(p) && Emits(p, t) && Encodable(p.types, t, v) && fuel >= Size(v)
    requires fa.ArrayField? && HasCode(p.types, fa.elem)
    requires LeafEncodable(p.types, t, v, fa) && fa.indices != [] && fa.indices[|fa.indices| - 1] == 1
    requires var es := ElemsOf(At(p.types, t, v, fa.indices));
             b + LengthPath(fa.indices) in st.obj && st.obj[b + LengthPath(fa.indices)] == |es|
    requires Holds(st.mem, PlanElems(p, fa.elem, ElemsOf(At(p.types, t, v, fa.indices)), st.buf).writes)
    ensures var es := ElemsOf(At(p.types, t, v, fa.indices));
            var body := Emit(Des, p, fa.elem, CurrentAlignment(AlignOf(p, fa.elem), 0), false);
            Exec(Functions(Des, p), fuel, EmitArray(Des, p, t, fa, body), b, st) ==
            Finished(st, PlanElems(p, fa.elem, es, st.buf).end, obj)
    ensures obj.Some? <==> LeafTakes(p.types, st.obj, b, t, v, fa)
    ensures obj.Some? ==> LeafHolds(p.types, obj.value, b, t, v, fa) && Touches(st.obj, obj.value, b, [fa])
    decreases Size(v), 1
  {
    hide Valid, Emits, Encodable, Exec, ExecLoop, Holds, Functions, Emit, PlanElems, HasCode, SameOutside, Allocated,
      IsHeapArray, Represents, EmitArray, At, AlignOf, ElemsHold, ElemsTake, HasElements, StorageOf, Via, Takes, Follows,
      Touches, LeafHolds, LeafTakes, Size, Sizes, HasElement;
    ElementEmits(p, fa.elem);
    var es, q := ElemsOf(At(p.types, t, v, fa.indices)), fa.indices;
    var body := Emit(Des, p, fa.elem, CurrentAlignment(AlignOf(p, fa.elem), 0), false);
    ElementsAreSmaller(p.types, t, v, q);
    if !Follows(st.obj, b, Via(p.types, t, q)) {
      NoWayThere(Functions(Des, p), fuel, p, t, fa, body, b, st);
      NoPlace(p.types, st.obj, b, t, v, fa);
      obj := None;
    } else {
      var data, storage := AccessorTo(p.types, t, q), StorageOf(p.types, t, q);
      var st' := AllocatesArray(p, fuel, t, v, fa, es, body, b, st);
      assert es[0..] == es;
      NoElements(st'.obj, b + q, storage);
      obj := DeserializesElems(p, fuel, fa.elem, es, 0, b + q, storage, st', st.obj);
      ExecFor(Functions(Des, p), fuel, LengthPath(q), data, storage, body, b, st');
      FollowsIn(p.types, st.obj, st'.obj, b, t, fa);
      if obj.Some? {
        FollowsIn(p.types, st.obj, obj.value, b, t, fa);
        ElemsAreLeaf(p, t, v, fa, obj.value, b);
      }
    }
  }

  lemma NoPlace(ts: TypeTable, obj: Object, b: Path, t: nat, v: Value, fa: FieldAccessor)
    requires !Follows(obj, b, Via(ts, t, fa.indices))
    ensures !LeafTakes(ts, obj, b, t, v, fa)
  {
  }

  lemma NoElements(obj: Object, data: Path, storage: Storage)
    ensures HasElements(obj, data, storage, 0)
  {
  }

  lemma ElemsAreLeaf(p: Program, t: nat, v: Value, fa: FieldAccessor, obj: Object, b: Path)
    requires fa.ArrayField? && fa.indices != [] && Follows(obj, b, Via(p.types, t, fa.indices))
    requires var es := ElemsOf(At(p.types, t, v, fa.indices));
             ElemsHold(p.types, obj, b + fa.indices, fa.elem, es, 0, |es|) &&
             HasElements(obj, b + fa.indices, StorageOf(p.types, t, fa.indices), |es|)
    ensures LeafHolds(p.types, obj, b, t, v, fa)
  {
  }

  /** Only what lies below the path of its elements changes, so the way there stays. */
  lemma FollowsIn(ts: TypeTable, before: Object, after: Object, b: Path, t: nat, fa: FieldAccessor)
    requires SameOutside(before, after, b + fa.indices) && Follows(before, b, Via(ts, t, fa.indices))
    ensures Touches(before, after, b, [fa]) && Follows(after, b, Via(ts, t, fa.indices))
  {
    forall r | !BelowSome(b, [fa], r) ensures SameAt(before, after, r) {
      assert [fa][0] == fa;
    }
    FollowsStill(ts, before, after, b, t, fa.indices, [fa]);
  }

  /** The length of each array is among the leaves filled in already. */
  ghost predicate LengthsIn(ts: TypeTable, t: nat, fs: seq<FieldAccessor>, done: seq<FieldAccessor>) {
    forall fa :: fa in fs ==> HasLength(ts, t, fa, done)
  }

  lemma LengthLoaded(p: Program, obj: Object, b: Path, t: nat, v: Value, fa: FieldAccessor, done: seq<FieldAccessor>)
    requires Valid(p) && Emits(p, t) && Encodable(p.types, t, v) && fa in Leaves(p.types, t)
    requires AllHold(p.types, obj, b, t, v, done) && HasLength(p.types, t, fa, done)
    ensures fa.ArrayField? && fa.indices != [] && fa.indices[|fa.indices| - 1] == 1 && LeafEncodable(p.types, t, v, fa)
    ensures var es := ElemsOf(At(p.types, t, v, fa.indices));
            b + LengthPath(fa.indices) in obj && obj[b + LengthPath(fa.indices)] == |es|
  {
    LeavesEncodable(p.types, t, v, fa);
    var a := TypeAt(p.types, t, fa.indices[..|fa.indices| - 1]);
    assert LeafHolds(p.types, obj, b, t, v, FixedField(LengthPath(fa.indices), LengthPrim(p.types[a].size)));
  }

  lemma {:induction false} DeserializesArrays(p: Program, fuel: nat, t: nat, v: Value, done: seq<FieldAccessor>,
                                              fs: seq<FieldAccessor>, inline: bool, b: Path, st: State)
    returns (obj: Option<Object>)
    requires Valid(p) && Emits(p, t) && ArraysOf(p, t, fs) && !IsCall(p, t, inline)
    requires Encodable(p.types, t, v) && fuel >= Size(v)
    requires AllHold(p.types, st.obj, b, t, v, done) && AllApart(done + fs) && LengthsIn(p.types, t, fs, done)
    requires Holds(st.mem, PlanArrays(p, t, v, fs, st.buf).writes)
    ensures Exec(Functions(Des, p), fuel, EmitArrays(Des, p, t, fs, inline), b, st) ==
            Finished(st, PlanArrays(p, t, v, fs, st.buf).end, obj)
    ensures obj.Some? <==> AllTake(p.types, st.obj, b, t, v, fs)
    ensures obj.Some? ==> AllHold(p.types, obj.value, b, t, v, done + fs) && Touches(st.obj, obj.value, b, fs)
    decreases Size(v), 2, |fs|
  {
    hide Valid, Emits, ArraysOf, Encodable, Exec, PlanElems, Emit, EmitArray, Holds, Functions, HasCode, At, Leaves,
      HasLength, AllHold, AllTake, Touches, AllApart, LengthsIn, LeafEncodable, LeafHolds, LeafTakes, AlignOf;
    if fs == [] {
      obj := Some(st.obj);
      assert done + fs == done;
      NothingLoaded(Functions(Des, p), fuel, p.types, t, v, b, st);
    } else {
      var fa, rest := fs[0], fs[1..];
      assert fs == [fa] + rest && done + fs == done + [fa] + rest;
      ArrayInTable(p, t, fs, true);
      RestOfArrays(p, t, fs);
      ElementEmits(p, fa.elem);
      RestOfLengths(p.types, t, fs, done);
      var here := PlanElems(p, fa.elem, ElemsOf(At(p.types, t, v, fa.indices)), st.buf);
      HoldsBoth(st.mem, here.writes, PlanArrays(p, t, v, rest, here.end).writes);
      LengthLoaded(p, st.obj, b, t, v, fa, done);
      var first := DeserializesArray(p, fuel, t, v, fa, b, st);
      var loop := EmitArray(Des, p, t, fa, Emit(Des, p, fa.elem, CurrentAlignment(p.align[fa.elem], 0), false));
      ExecConcat(Functions(Des, p), fuel, loop, EmitArrays(Des, p, t, rest, inline), b, st);
      OneTakes(p.types, st.obj, b, t, v, fa);
      AllTakeBoth(p.types, st.obj, b, t, v, [fa], rest);
      match first {
        case None => obj := None;
        case Some(o) =>
          OneMoreFilled(p, t, v, done, fa, rest, b, st.obj, o);
          obj := DeserializesArrays(p, fuel, t, v, done + [fa], rest, inline, b, State(st.mem, here.end, o));
          if obj.Some? {
            TouchesInTurn(st.obj, o, obj.value, b, [fa], rest);
          }
      }
    }
  }

  /** An array has been filled in beside what was before. */
  lemma OneMoreFilled(p: Program, t: nat, v: Value, done: seq<FieldAccessor>, fa: FieldAccessor,
                      rest: seq<FieldAccessor>, b: Path, before: Object, after: Object)
    requires AllHold(p.types, before, b, t, v, done) && AllApart(done + [fa] + rest)
    requires LeafHolds(p.types, after, b, t, v, fa) && Touches(before, after, b, [fa])
    ensures AllHold(p.types, after, b, t, v, done + [fa])
    ensures AllTake(p.types, before, b, t, v, rest) <==> AllTake(p.types, after, b, t, v, rest)
  {
    hide AllHold, AllTake, AllApart, Touches, LeafHolds, LeafTakes;
    ApartParts(done + [fa], rest);
    assert done + [fa] + rest == done + ([fa] + rest);
    ApartParts(done, [fa] + rest);
    AllStillHold(p.types, before, after, b, t, v, done, [fa]);
    AllStillTake(p.types, before, after, b, t, v, [fa], rest);
    OneHolds(p.types, after, b, t, v, fa);
    AllHoldBoth(p.types, after, b, t, v, done, [fa]);
  }

  lemma RestOfLengths(ts: TypeTable, t: nat, fs: seq<FieldAccessor>, done: seq<FieldAccessor>)
    requires LengthsIn(ts, t, fs, done) && fs != []
    ensures HasLength(ts, t, fs[0], done) && LengthsIn(ts, t, fs[1..], done + [fs[0]])
  {
    assert forall x :: x in done ==> x in done + [fs[0]];
    forall fa | fa in fs[1..] ensures HasLength(ts, t, fa, done + [fs[0]]) {
      assert HasLength(ts, t, fa, done);
    }
  }

  // ----- whole objects

  /** The statements emitted for deserialization, run on memory that holds the bytes of the plan of v,
      succeed exactly if the object at b has a place for v. They make it hold v, change nothing else of it,
      and leave the pointer at the end of the plan. */
  lemma {:induction false} DeserializesPlan(p: Program, fuel: nat, t: nat, v: Value, al: CurrentAlignment, inline: bool,
                                            b: Path, st: State) returns (obj: Option<Object>)
    requires Valid(p) && Emits(p, t) && Ready(p, fuel, t, v, al, inline)
    requires Holds(st.mem, PlanOf(p, t, v, al, st.buf).writes)
    ensures Exec(Functions(Des, p), fuel, Emit(Des, p, t, al, inline), b, st) ==
            Finished(st, PlanOf(p, t, v, al, st.buf).end, obj)
    ensures obj.Some? <==> Takes(p.types, st.obj, b, t, v)
    ensures obj.Some? ==> Represents(p.types, obj.value, b, t, v) && SameOutside(st.obj, obj.value, b)
    decreases Size(v), 3 + (if IsCall(p, t, inline) then 1 else 0), 0
  {
    hide Valid, Emits, Encodable, Exec, PlanOf, Holds, Functions, Emit, Represents, SameOutside, AlignOf, Takes;
    InTables(p, t);
    if p.layouts[t] == [] {
      var same := EmptyObject(p, fuel, t, v, al, inline, b, st);
      obj := Some(same);
    } else if IsCall(p, t, inline) {
      EmitsCall(Des, p, t, al);
      obj := DeserializesPlan(p, fuel - 1, t, v, al, true, b, st);
      ExecCall(Functions(Des, p), fuel, t, b, st);
    } else {
      obj := DeserializesInPlace(p, fuel, t, v, al, inline, b, st);
    }
  }

  /** A type without leaves has one value, and nothing to read. */
  lemma EmptyObject(p: Program, fuel: nat, t: nat, v: Value, al: CurrentAlignment, inline: bool, b: Path, st: State)
    returns (obj: Object)
    requires Valid(p) && Emits(p, t) && Encodable(p.types, t, v) && IsPo2(al.align) && p.layouts[t] == []
    ensures Exec(Functions(Des, p), fuel, Emit(Des, p, t, al, inline), b, st) ==
            Some(State(st.mem, PlanOf(p, t, v, al, st.buf).end, obj))
    ensures Represents(p.types, obj, b, t, v) && SameOutside(st.obj, obj, b) && Takes(p.types, st.obj, b, t, v)
  {
    obj := st.obj;
    LayoutLeaves(p.types, p.align, t, p.layouts[t]);
    hide Valid, Represents, Takes, Encodable, Functions, Leaves;
    LeavesRepresent(p.types, obj, b, t, v);
    LeavesTake(p.types, obj, b, t, v);
    assert Emit(Des, p, t, al, inline) == [];
  }

  lemma ShapeForReading(p: Program, t: nat, v: Value, al: CurrentAlignment)
    requires Valid(p) && Emits(p, t) && IsPo2(al.align) && p.layouts[t] != [] && Encodable(p.types, t, v)
    ensures var sh := ShapeOf(p, t, al);
            && AllApart(sh.fixed) && AllApart(sh.fixed + sh.arrays) && LengthsIn(p.types, t, sh.arrays, sh.fixed)
            && forall i :: 0 <= i < |sh.fixed| ==> sh.fixed[i].FixedField? && LeafEncodable(p.types, t, v, sh.fixed[i])
  {
    var sh, layout := ShapeOf(p, t, al), p.layouts[t];
    LayoutLeaves(p.types, p.align, t, layout);
    ApartParts(sh.fixed, sh.arrays);
    forall i | 0 <= i < |sh.fixed| ensures LeafEncodable(p.types, t, v, sh.fixed[i]) {
      assert layout[i] == sh.fixed[i] && layout[i] in layout;
      LeavesEncodable(p.types, t, v, sh.fixed[i]);
    }
    forall fa | fa in sh.arrays ensures HasLength(p.types, t, fa, sh.fixed) {
      assert fa in layout;
      LengthIsThere(p.types, p.align, t, layout, fa);
      var a := TypeAt(p.types, t, fa.indices[..|fa.indices| - 1]);
      assert FixedField(LengthPath(fa.indices), LengthPrim(p.types[a].size)) !in sh.arrays;
    }
  }

  lemma LayoutRepresents(p: Program, t: nat, v: Value, b: Path, obj: Object, fs: seq<FieldAccessor>)
    requires Valid(p) && Emits(p, t) && Encodable(p.types, t, v)
    requires p.layouts[t] == fs && AllHold(p.types, obj, b, t, v, fs)
    ensures Represents(p.types, obj, b, t, v)
  {
    LayoutLeaves(p.types, p.align, t, fs);
    LeavesRepresent(p.types, obj, b, t, v);
  }

  /** There is a place for a value exactly if there is one for everything in its layout. */
  lemma LayoutTakes(p: Program, t: nat, v: Value, b: Path, obj: Object)
    requires Valid(p) && Emits(p, t) && Encodable(p.types, t, v)
    ensures AllTake(p.types, obj, b, t, v, p.layouts[t]) <==> Takes(p.types, obj, b, t, v)
  {
    LayoutLeaves(p.types, p.align, t, p.layouts[t]);
    hide Encodable, Takes, LeafTakes, Leaves;
    if AllTake(p.types, obj, b, t, v, p.layouts[t]) {
      LeavesTake(p.types, obj, b, t, v);
    }
    if Takes(p.types, obj, b, t, v) {
      forall fa | fa in p.layouts[t] ensures LeafTakes(p.types, obj, b, t, v, fa) {
        TakesLeaf(p.types, obj, b, t, v, fa);
      }
    }
  }

  lemma {:induction false} DeserializesInPlace(p: Program, fuel: nat, t: nat, v: Value, al: CurrentAlignment,
                                               inline: bool, b: Path, st: State)
    returns (obj: Option<Object>)
    requires Valid(p) && Emits(p, t) && !IsCall(p, t, inline) && Ready(p, fuel, t, v, al, inline) && p.layouts[t] != []
    requires Holds(st.mem, PlanOf(p, t, v, al, st.buf).writes)
    ensures Exec(Functions(Des, p), fuel, Emit(Des, p, t, al, inline), b, st) ==
            Finished(st, PlanOf(p, t, v, al, st.buf).end, obj)
    ensures obj.Some? <==> Takes(p.types, st.obj, b, t, v)
    ensures obj.Some? ==> Represents(p.types, obj.value, b, t, v) && SameOutside(st.obj, obj.value, b)
    decreases Size(v), 2, |p.layouts[t]| + 1
  {
    hide Valid, Emits, Represents, Encodable, Exec, PlanLeaves, FixedStmts, EmitArrays, PlanArrays, Holds, Takes,
      Functions, ArraysOf, ShapeOf, Emit, PlanOf, Assemble, AlignUp, AllHold, AllTake, Touches, AllApart, LengthsIn,
      SameOutside, LeafEncodable;
    InTables(p, t);
    var fns, sh := Functions(Des, p), ShapeOf(p, t, al);
    var fixed, loops := FixedStmts(Des, p.types, t, sh.fixed, sh.off), EmitArrays(Des, p, t, sh.arrays, inline);
    var leaves := PlanLeaves(p.types, t, v, sh.fixed, st.buf + sh.off);
    EmitsParts(Des, p, t, al, inline);
    PlanParts(p, t, v, al, st.buf);
    ShapeForReading(p, t, v, al);
    LayoutTakes(p, t, v, b, st.obj);
    RunBody(fns, fuel, fixed, sh.next, loops, al.align, b, st);
    if sh.arrays == [] {
      assert p.layouts[t] == sh.fixed;
      obj := LoadLeaves(fns, fuel, p.types, t, v, sh.fixed, sh.off, b, st);
      if obj.Some? {
        TouchesBelow(st.obj, obj.value, b, sh.fixed);
      }
    } else {
      var arrays := PlanArrays(p, t, v, sh.arrays, st.buf + sh.next);
      HoldsBoth(st.mem, leaves, arrays.writes);
      AllTakeBoth(p.types, st.obj, b, t, v, sh.fixed, sh.arrays);
      var first := LoadLeaves(fns, fuel, p.types, t, v, sh.fixed, sh.off, b, st);
      obj := None;
      if first.Some? {
        AllStillTake(p.types, st.obj, first.value, b, t, v, sh.fixed, sh.arrays);
        var bumped := State(st.mem, st.buf + sh.next, first.value);
        obj := DeserializesArrays(p, fuel, t, v, sh.fixed, sh.arrays, inline, b, bumped);
        if obj.Some? {
          TouchesInTurn(st.obj, first.value, obj.value, b, sh.fixed, sh.arrays);
          TouchesBelow(st.obj, obj.value, b, sh.fixed + sh.arrays);
        }
      }
    }
    if obj.Some? {
      LayoutRepresents(p, t, v, b, obj.value, p.layouts[t]);
    }
  }
}
