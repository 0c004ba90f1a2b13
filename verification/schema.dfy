/** The resolved type language of the schema compiler (ser/eval.h): a table of type objects that
    refer to each other by index, as the C objects do by pointer. */
module Schema {
  import opened Digraph

  datatype Prim = U8 | U16 | U32 | U64 | I8 | I16 | I32 | I64 | F32 | F64 | Char | Bool

  function PrimSize(p: Prim): (n: nat)
    ensures n == 1 || n == 2 || n == 4 || n == 8
  {
    match p
    case U8 | I8 | Char | Bool => 1
    case U16 | I16 => 2
    case U32 | I32 | F32 => 4
    case U64 | I64 | F64 => 8
  }

  /** The type of the length of an array bounded by size. */
  function LengthPrim(size: nat): Prim {
    if size <= 0xFF then U8
    else if size <= 0xFFFF then U16
    else if size <= 0xFFFF_FFFF then U32
    else U64
  }

  datatype Sizing = SizingMax | SizingFixed

  datatype TypeObject =
    | TypePrimitif(primitif: Prim)
    | TypeArray(sizing: Sizing, size: nat, heap: bool, elem: nat)
    | TypeStruct(fields: seq<nat>, hasFuncs: bool)

  type TypeTable = seq<TypeObject>

  /** The objects a type object points to. */
  function Children(o: TypeObject): seq<nat> {
    match o
    case TypePrimitif(_) => []
    case TypeArray(_, _, _, e) => [e]
    case TypeStruct(fs, _) => fs
  }

  ghost predicate InTable(ts: TypeTable, o: TypeObject) {
    forall t :: t in Children(o) ==> t < |ts|
  }

  /** Nested arrays come to an end; the cycle check of type declarations sees to it. */
  ghost predicate AreDepths(ts: TypeTable, d: seq<nat>) {
    && |d| == |ts|
    && forall t :: 0 <= t < |ts| && ts[t].TypeArray? && ts[t].elem < |ts| ==> d[ts[t].elem] < d[t]
  }

  ghost predicate WellFormed(ts: TypeTable) {
    && (forall t :: 0 <= t < |ts| ==> InTable(ts, ts[t]))
    && (forall t :: 0 <= t < |ts| && ts[t].TypeArray? ==> ts[t].size < 0x1_0000_0000_0000_0000)
    && exists d: seq<nat> :: AreDepths(ts, d)
  }

  ghost function Depths(ts: TypeTable): (d: seq<nat>)
    requires WellFormed(ts)
    ensures AreDepths(ts, d)
  {
    var d: seq<nat> :| AreDepths(ts, d);
    d
  }

  lemma ChildInTable(ts: TypeTable, t: nat, c: nat)
    requires WellFormed(ts) && t < |ts| && c in Children(ts[t])
    ensures c < |ts|
  {
    assert InTable(ts, ts[t]);
  }

  /** Arrays laid out inside their container: field arrays, and every array of a fixed size. */
  predicate Unbounded(o: TypeObject) {
    o.TypeArray? && (!o.heap || o.sizing.SizingFixed?)
  }

  /** What is left of a field's type once such arrays are skipped (ser/eval.c:619-621). */
  function Strip(ts: TypeTable, t: nat): (r: nat)
    requires WellFormed(ts) && t < |ts|
    ensures r < |ts| && !Unbounded(ts[r])
    decreases Depths(ts)[t]
  {
    if Unbounded(ts[t]) then
      assert InTable(ts, ts[t]) && ts[t].elem in Children(ts[t]);
      Strip(ts, ts[t].elem)
    else t
  }

  predicate IsStruct(ts: TypeTable, t: nat) {
    t < |ts| && ts[t].TypeStruct?
  }

  /** The structs that struct s contains without bounded heap indirection. */
  function Embedded(ts: TypeTable, s: nat): (r: set<nat>)
    requires WellFormed(ts) && IsStruct(ts, s)
  {
    assert forall k :: 0 <= k < |ts[s].fields| ==> ts[s].fields[k] in Children(ts[s]);
    assert InTable(ts, ts[s]);
    set k | 0 <= k < |ts[s].fields| && IsStruct(ts, Strip(ts, ts[s].fields[k])) :: Strip(ts, ts[s].fields[k])
  }

  function StructGraph(ts: TypeTable): (g: Graph)
    requires WellFormed(ts)
  {
    map s: nat | 0 <= s < |ts| && IsStruct(ts, s) :: Embedded(ts, s)
  }
}
