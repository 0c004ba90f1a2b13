/** What the emitted serializers and deserializers do: a small machine over bytes at absolute addresses
    and over the scalars of a C object, addressed by the path that leads to them. */
module Machine {
  import opened Collections
  import opened Schema
  import opened Layouts

  type Byte = b: nat | b < 256

  /** The bytes of a buffer, by address; an access outside is a fault. */
  type Memory = map<int, Byte>

  /** The scalars of an object, by path, and its pointers as far as they are set, whatever to. */
  type Object = map<Path, nat>

  /** Memory in which nothing is set. */
  const FRESH: Object := map[]

  /** base is the path of the object at hand, "val", "msg->info" or "e0"; buf is a pointer into memory. */
  datatype State = State(mem: Memory, buf: int, obj: Object)

  /** An accessor: a path, and the pointers to arrays of a fixed size that it follows. */
  datatype Accessor = Accessor(path: Path, via: seq<Path>)

  function AccessorTo(ts: TypeTable, t: nat, p: Path): Accessor {
    Accessor(p, Via(ts, t, p))
  }

  /** Where the elements of an array of variable length are: in the object itself, or behind a pointer. */
  datatype Storage = Inside(room: nat) | OnHeap

  function StorageOf(ts: TypeTable, t: nat, p: Path): Storage
    requires p != []
  {
    var a := TypeAt(ts, t, p[..|p| - 1]);
    if IsHeapArray(ts, t, p) then OnHeap
    else if a < |ts| && ts[a].TypeArray? then Inside(ts[a].size)
    else Inside(0)
  }

  datatype Stmt =
    | Store(off: nat, size: nat, from: Accessor)  // *(T *)&buf[off] = base.from;
    | Load(off: nat, size: nat, into: Accessor)   // base.into = *(T *)&buf[off];
    | Bump(n: nat)                                // buf += n;
    | Malloc(into: Accessor)                      // base.into = malloc(...);
    | For(len: Path, data: Accessor, storage: Storage, body: seq<Stmt>)
                                                  // for(size_t i = 0; i < base.len; i++) with e = base.data[i]
    | Call(fn: nat, off: nat)                     // buf += fn(base, &buf[off]);
    | RoundUp(to: nat)                            // buf = (((buf - 1) >> po2) + 1) << po2;

  // ----- scalars as bytes, least significant first

  function Pow256(n: nat): (p: nat)
    ensures p > 0
  {
    if n == 0 then 1 else 256 * Pow256(n - 1)
  }

  function ToBytes(n: nat, size: nat): (bs: seq<Byte>)
    ensures |bs| == size
  {
    if size == 0 then [] else [n % 256] + ToBytes(n / 256, size - 1)
  }

  function FromBytes(bs: seq<Byte>): nat {
    if bs == [] then 0 else bs[0] + 256 * FromBytes(bs[1..])
  }

  /** A scalar that fits its type comes back. */
  lemma {:induction false} BytesRoundTrip(n: nat, size: nat)
    requires n < Pow256(size)
    ensures FromBytes(ToBytes(n, size)) == n
  {
    if size > 0 {
      BytesRoundTrip(n / 256, size - 1);
      assert ToBytes(n, size)[1..] == ToBytes(n / 256, size - 1);
    }
  }

  /** And all bytes are those of a scalar that fits. */
  lemma {:induction false} BytesBack(bs: seq<Byte>)
    ensures ToBytes(FromBytes(bs), |bs|) == bs && FromBytes(bs) < Pow256(|bs|)
  {
    if bs != [] {
      BytesBack(bs[1..]);
      FirstByte(bs[0], FromBytes(bs[1..]));
    }
  }

  lemma FirstByte(b: Byte, n: nat)
    ensures (b + 256 * n) % 256 == b && (b + 256 * n) / 256 == n
  {
  }

  // ----- memory

  predicate InMemory(mem: Memory, a: int, n: nat) {
    forall x :: a <= x < a + n ==> x in mem
  }

  function WriteBytes(mem: Memory, a: int, bs: seq<Byte>): (r: Memory)
    requires InMemory(mem, a, |bs|)
    ensures r.Keys == mem.Keys
    ensures forall x :: x in mem ==> r[x] == if a <= x < a + |bs| then bs[x - a] else mem[x]
  {
    map x | x in mem :: if a <= x < a + |bs| then bs[x - a] else mem[x]
  }

  function ReadBytes(mem: Memory, a: int, n: nat): (bs: seq<Byte>)
    requires InMemory(mem, a, n)
    ensures |bs| == n && forall k :: 0 <= k < n ==> bs[k] == mem[a + k]
  {
    seq(n, k requires 0 <= k < n => mem[a + k])
  }

  /** write_align; also on address 0, where the subtraction wraps around. */
  function AlignUp(a: int, to: nat): int
    requires to > 0
  {
    ((a - 1) / to + 1) * to
  }

  // ----- execution

  predicate IsPrefix(p: Path, q: Path) {
    |p| <= |q| && q[..|p|] == p
  }

  /** A pointer to fresh memory: it is set, but nothing that it leads to. */
  function Allocated(obj: Object, path: Path): Object {
    (map q | q in obj && !IsPrefix(path, q) :: obj[q])[path := 0]
  }

  /** The pointers on the way are set. */
  predicate Follows(obj: Object, base: Path, via: seq<Path>) {
    forall q :: q in via ==> base + q in obj
  }

  /** There is an element number i. */
  predicate HasElement(obj: Object, data: Path, storage: Storage, i: nat) {
    match storage
    case Inside(room) => i < room
    case OnHeap => data in obj
  }

  /** Runs statements on the object at base. Calls nest at most fuel deep; None is a fault. */
  function Exec(fns: map<nat, seq<Stmt>>, fuel: nat, ss: seq<Stmt>, base: Path, st: State): Option<State>
    decreases fuel, ss, 0
  {
    if ss == [] then Some(st)
    else match ExecOne(fns, fuel, ss[0], base, st)
      case None => None
      case Some(st') => Exec(fns, fuel, ss[1..], base, st')
  }

  function ExecOne(fns: map<nat, seq<Stmt>>, fuel: nat, s: Stmt, base: Path, st: State): Option<State>
    decreases fuel, s, 1
  {
    match s
    case Store(off, size, from) =>
      if Follows(st.obj, base, from.via) && base + from.path in st.obj && InMemory(st.mem, st.buf + off, size) then
        Some(st.(mem := WriteBytes(st.mem, st.buf + off, ToBytes(st.obj[base + from.path], size))))
      else None
    case Load(off, size, into) =>
      if Follows(st.obj, base, into.via) && InMemory(st.mem, st.buf + off, size) then
        Some(st.(obj := st.obj[base + into.path := FromBytes(ReadBytes(st.mem, st.buf + off, size))]))
      else None
    case Bump(n) => Some(st.(buf := st.buf + n))
    case Malloc(into) =>
      if Follows(st.obj, base, into.via) then Some(st.(obj := Allocated(st.obj, base + into.path))) else None
    case For(len, data, storage, body) =>
      if Follows(st.obj, base, data.via) && base + len in st.obj then
        ExecLoop(fns, fuel, body, base + data.path, storage, 0, st.obj[base + len], st)
      else None
    case Call(fn, off) =>
      if fuel == 0 || fn !in fns then None
      else (match Exec(fns, fuel - 1, fns[fn], base, st.(buf := st.buf + off))
        case None => None
        case Some(st') => Some(st'.(buf := st.buf + (st'.buf - (st.buf + off)))))
    case RoundUp(to) => if to > 0 then Some(st.(buf := AlignUp(st.buf, to))) else None
  }

  function ExecLoop(fns: map<nat, seq<Stmt>>, fuel: nat, body: seq<Stmt>, data: Path, storage: Storage, i: nat,
                    n: nat, st: State): Option<State>
    decreases fuel, body, 1, n - i
  {
    if i >= n then Some(st)
    else if !HasElement(st.obj, data, storage, i) then None
    else match Exec(fns, fuel, body, data + [i], st)
      case None => None
      case Some(st') => ExecLoop(fns, fuel, body, data, storage, i + 1, n, st')
  }

  lemma {:induction false} ExecConcat(fns: map<nat, seq<Stmt>>, fuel: nat, s1: seq<Stmt>, s2: seq<Stmt>, base: Path,
                                      st: State)
    ensures Exec(fns, fuel, s1 + s2, base, st) ==
            match Exec(fns, fuel, s1, base, st) { case None => None case Some(st') => Exec(fns, fuel, s2, base, st') }
    decreases |s1|
  {
    if s1 == [] {
      assert s1 + s2 == s2;
    } else {
      assert (s1 + s2)[1..] == s1[1..] + s2;
      match ExecOne(fns, fuel, s1[0], base, st) {
        case None =>
        case Some(st') => ExecConcat(fns, fuel, s1[1..], s2, base, st');
      }
    }
  }

  lemma ExecSingle(fns: map<nat, seq<Stmt>>, fuel: nat, s: Stmt, base: Path, st: State)
    ensures Exec(fns, fuel, [s], base, st) == ExecOne(fns, fuel, s, base, st)
  {
    assert [s][1..] == [];
  }

  lemma ExecCall(fns: map<nat, seq<Stmt>>, fuel: nat, fn: nat, b: Path, st: State)
    requires fuel > 0 && fn in fns
    ensures Exec(fns, fuel, [Call(fn, 0)], b, st) == Exec(fns, fuel - 1, fns[fn], b, st)
  {
    ExecSingle(fns, fuel, Call(fn, 0), b, st);
    assert st.(buf := st.buf + 0) == st;
  }

  lemma ExecFor(fns: map<nat, seq<Stmt>>, fuel: nat, len: Path, data: Accessor, storage: Storage, body: seq<Stmt>,
                b: Path, st: State)
    requires b + len in st.obj
    ensures Exec(fns, fuel, [For(len, data, storage, body)], b, st) ==
            if Follows(st.obj, b, data.via) then
              ExecLoop(fns, fuel, body, b + data.path, storage, 0, st.obj[b + len], st)
            else None
  {
    ExecSingle(fns, fuel, For(len, data, storage, body), b, st);
  }

  lemma ExecBump(fns: map<nat, seq<Stmt>>, fuel: nat, n: nat, b: Path, st: State)
    ensures Exec(fns, fuel, [Bump(n)], b, st) == Some(st.(buf := st.buf + n))
  {
    ExecSingle(fns, fuel, Bump(n), b, st);
  }

  lemma ExecRoundUp(fns: map<nat, seq<Stmt>>, fuel: nat, n: nat, b: Path, st: State)
    requires n > 0
    ensures Exec(fns, fuel, [RoundUp(n)], b, st) == Some(st.(buf := AlignUp(st.buf, n)))
  {
    ExecSingle(fns, fuel, RoundUp(n), b, st);
  }

  // ----- calls that nest less deep than they may

  lemma {:induction false} MoreFuel(fns: map<nat, seq<Stmt>>, fuel: nat, fuel': nat, ss: seq<Stmt>, b: Path, st: State)
    requires fuel <= fuel' && Exec(fns, fuel, ss, b, st).Some?
    ensures Exec(fns, fuel', ss, b, st) == Exec(fns, fuel, ss, b, st)
    decreases fuel, ss, 0
  {
    if ss != [] {
      MoreFuelOne(fns, fuel, fuel', ss[0], b, st);
      MoreFuel(fns, fuel, fuel', ss[1..], b, ExecOne(fns, fuel, ss[0], b, st).value);
    }
  }

  lemma {:induction false} MoreFuelOne(fns: map<nat, seq<Stmt>>, fuel: nat, fuel': nat, s: Stmt, b: Path, st: State)
    requires fuel <= fuel' && ExecOne(fns, fuel, s, b, st).Some?
    ensures ExecOne(fns, fuel', s, b, st) == ExecOne(fns, fuel, s, b, st)
    decreases fuel, s, 1
  {
    hide Exec, ExecLoop, WriteBytes, ReadBytes, ToBytes, FromBytes, Allocated, AlignUp, InMemory, Follows;
    match s
    case For(len, data, storage, body) =>
      MoreFuelLoop(fns, fuel, fuel', body, b + data.path, storage, 0, st.obj[b + len], st);
    case Call(fn, off) =>
      MoreFuel(fns, fuel - 1, fuel' - 1, fns[fn], b, st.(buf := st.buf + off));
    case _ =>
  }

  lemma {:induction false} MoreFuelLoop(fns: map<nat, seq<Stmt>>, fuel: nat, fuel': nat, body: seq<Stmt>, data: Path,
                                        storage: Storage, i: nat, n: nat, st: State)
    requires fuel <= fuel' && ExecLoop(fns, fuel, body, data, storage, i, n, st).Some?
    ensures ExecLoop(fns, fuel', body, data, storage, i, n, st) == ExecLoop(fns, fuel, body, data, storage, i, n, st)
    decreases fuel, body, 1, n - i
  {
    if i < n {
      MoreFuel(fns, fuel, fuel', body, data + [i], st);
      MoreFuelLoop(fns, fuel, fuel', body, data, storage, i + 1, n, Exec(fns, fuel, body, data + [i], st).value);
    }
  }
}
