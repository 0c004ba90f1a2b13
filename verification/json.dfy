/** JSON trees, the flat records json.c writes for them, and what its parser makes of a text (json.c). */
module Json {
  import opened Collections
  import opened Machine

  /** The bits of a double. */
  type Bits = b: nat | b < 0x1_0000_0000_0000_0000

  /** Numbers are kept as the bits of their double. */
  datatype Tree =
    | String(bytes: seq<Byte>)
    | Number(bits: Bits)
    | Object(members: seq<Member>)
    | Array(elems: seq<Tree>)
    | Boolean(b: bool)
    | Null

  datatype Member = Member(key: seq<Byte>, value: Tree)

  // ----- the flat form

  /** align_8: adding 7 and masking would do the same, also for 0, where the subtraction wraps around. */
  function Align8(n: nat): (m: nat)
    ensures n <= m < n + 8 && m % 8 == 0
  {
    (n + 7) / 8 * 8
  }

  function Header(kind: nat, len: nat): (bs: seq<Byte>)
    ensures |bs| == 8
  {
    ToBytes(kind, 4) + ToBytes(len, 4)
  }

  function Zeros(n: nat): (bs: seq<Byte>)
    ensures |bs| == n && forall i :: 0 <= i < n ==> bs[i] == 0
  {
    seq(n, _ => 0)
  }

  function FlatString(bytes: seq<Byte>): (bs: seq<Byte>)
    ensures |bs| == 8 + Align8(|bytes|)
  {
    Header(1, |bytes|) + (bytes + Zeros(Align8(|bytes|) - |bytes|))
  }

  /** A header of type and length, then the contents. */
  function Flat(t: Tree): (bs: seq<Byte>)
    ensures |bs| >= 8
    decreases t
  {
    match t
    case String(bytes) => FlatString(bytes)
    case Number(bits) => Header(2, 8) + ToBytes(bits, 8)
    case Object(ms) => Header(3, |FlatMembers(ms)|) + FlatMembers(ms)
    case Array(ts) => Header(4, |FlatAll(ts)|) + FlatAll(ts)
    case Boolean(b) => Header(5, 8) + ToBytes(if b then 1 else 0, 8)
    case Null => Header(6, 0)
  }

  function FlatAll(ts: seq<Tree>): (bs: seq<Byte>)
    decreases ts
  {
    if ts == [] then [] else Flat(ts[0]) + FlatAll(ts[1..])
  }

  function FlatMembers(ms: seq<Member>): (bs: seq<Byte>)
    decreases ms
  {
    if ms == [] then [] else FlatString(ms[0].key) + (Flat(ms[0].value) + FlatMembers(ms[1..]))
  }

  predicate Aligned(n: int) {
    n % 8 == 0
  }

  lemma SumAligned(m: int, n: int)
    requires Aligned(m) && Aligned(n)
    ensures Aligned(m + n)
  {
  }

  lemma StringAligned(bytes: seq<Byte>)
    ensures Aligned(|FlatString(bytes)|)
  {
  }

  /** Every record is a multiple of 8 long. */
  lemma {:induction false} FlatAligned(t: Tree)
    ensures Aligned(|Flat(t)|)
    decreases t
  {
    hide Aligned, FlatString, FlatAll, FlatMembers, Header, ToBytes;
    assert Aligned(8) && Aligned(16) by { EightAligned(); }
    match t {
      case String(bytes) => StringAligned(bytes);
      case Object(ms) => MembersAligned(ms); SumAligned(8, |FlatMembers(ms)|);
      case Array(ts) => AllAligned(ts); SumAligned(8, |FlatAll(ts)|);
      case _ =>
    }
  }

  lemma EightAligned()
    ensures Aligned(0) && Aligned(8) && Aligned(16)
  {
  }

  lemma {:induction false} AllAligned(ts: seq<Tree>)
    ensures Aligned(|FlatAll(ts)|)
    decreases ts
  {
    hide Aligned, Flat;
    EightAligned();
    if ts != [] {
      FlatAligned(ts[0]);
      AllAligned(ts[1..]);
      SumAligned(|Flat(ts[0])|, |FlatAll(ts[1..])|);
    }
  }

  lemma {:induction false} MembersAligned(ms: seq<Member>)
    ensures Aligned(|FlatMembers(ms)|)
    decreases ms
  {
    hide Aligned, Flat, FlatString;
    EightAligned();
    if ms != [] {
      StringAligned(ms[0].key);
      FlatAligned(ms[0].value);
      MembersAligned(ms[1..]);
      SumAligned(|Flat(ms[0].value)|, |FlatMembers(ms[1..])|);
      SumAligned(|FlatString(ms[0].key)|, |Flat(ms[0].value)| + |FlatMembers(ms[1..])|);
    }
  }

  // ----- parsing

  datatype Error =
    | DstOverflow | SrcOverflow | BadKeyword | BadChar | StringBadChar | StringBadUnicode | StringBadEscape
    | NumberBadChar | ObjectBadChar

  /** What was parsed and where the next character is, or the error and where it was noticed. */
  datatype Outcome<T> = Ok(value: T, next: nat) | Fail(error: Error, at: nat)

  predicate IsWhitespace(c: Byte) {
    c == 0x20 || c == 0x09 || c == 0x0A
  }

  predicate IsDigit(c: Byte) {
    0x30 <= c <= 0x39
  }

  function Skip(s: seq<Byte>, i: nat): (j: nat)
    requires i <= |s|
    ensures i <= j <= |s| && (j < |s| ==> !IsWhitespace(s[j])) && forall k :: i <= k < j ==> IsWhitespace(s[k])
    decreases |s| - i
  {
    if i < |s| && IsWhitespace(s[i]) then Skip(s, i + 1) else i
  }

  function HexDigit(c: Byte): Option<nat> {
    if 0x30 <= c <= 0x39 then Some(c - 0x30)
    else if 0x61 <= c <= 0x66 then Some(c - 0x61 + 10)
    else if 0x41 <= c <= 0x46 then Some(c - 0x41 + 10)
    else None
  }

  /** One more digit for a code point in an int of 32 bits. */
  function ShiftIn(code: int, digit: nat): int {
    (code * 16 + 0x8000_0000) % 0x1_0000_0000 - 0x8000_0000 + digit
  }

  function Utf8(code: int): (bs: Option<seq<Byte>>)
    ensures bs.Some? ==> 1 <= |bs.value| <= 4
  {
    if code <= 0x7F then Some([code % 256])
    else if code <= 0x7FF then Some([0xC0 + code / 64 % 32, 0x80 + code % 64])
    else if code <= 0xFFFF then Some([0xE0 + code / 4096 % 16, 0x80 + code / 64 % 64, 0x80 + code % 64])
    else if code <= 0x10FFFF then
      Some([0xF0 + code / 262144 % 8, 0x80 + code / 4096 % 64, 0x80 + code / 64 % 64, 0x80 + code % 64])
    else None
  }

  /** What a character after a backslash stands for. */
  function Escaped(c: Byte): Option<Byte> {
    if c == 0x22 || c == 0x5C || c == 0x2F then Some(c)
    else if c == 0x62 then Some(0x08)
    else if c == 0x66 then Some(0x0C)
    else if c == 0x6E then Some(0x0A)
    else if c == 0x72 then Some(0x0D)
    else if c == 0x74 then Some(0x09)
    else None
  }

  /** After a backslash; or this many digits into a unicode escape, -1 outside one; the code point so far,
      which is not reset between escapes. */
  datatype InString = InString(esc: bool, unicode: int, code: int)

  const OUTSIDE := InString(false, -1, 0)

  /** Characters that a string may not contain as they are; char is signed, so bytes from 0x80 on count as negative. */
  predicate IsIllegal(c: Byte) {
    (c < 0x20 && c != 0x09) || c == 0x7F || c >= 0x80
  }

  /** One character of a string: an error, the end, or bytes to append. */
  datatype StringStep = Bad(error: Error) | Close | Go(next: InString, bs: seq<Byte>)

  function Step(st: InString, c: Byte): StringStep {
    if st.unicode >= 0 then
      match HexDigit(c)
      case None => Bad(StringBadUnicode)
      case Some(digit) =>
        var code := ShiftIn(st.code, digit);
        if st.unicode + 1 != 4 then Go(st.(unicode := st.unicode + 1, code := code), [])
        else match Utf8(code)
          case None => Bad(StringBadUnicode)
          case Some(bs) => Go(st.(unicode := -1, code := code), bs)
    else if st.esc then
      if c == 0x75 then Go(st.(esc := false, unicode := 0), [])
      else match Escaped(c)
        case None => Bad(StringBadEscape)
        case Some(r) => Go(st.(esc := false), [r])
    else if c == 0x5C then Go(st.(esc := true), [])
    else if c == 0x22 then Close
    else if IsIllegal(c) then Bad(StringBadChar)
    else Go(st, [c])
  }

  /** The rest of a string from s[i] on, when it has come to out; cap bytes are left after its header. */
  function Chars(s: seq<Byte>, i: nat, st: InString, out: seq<Byte>, cap: int): (r: Outcome<seq<Byte>>)
    requires |out| < cap
    ensures r.Ok? ==> i < r.next <= |s| && Align8(|r.value|) < cap
    decreases |s| - i
  {
    if i >= |s| then Fail(SrcOverflow, i)
    else match Step(st, s[i])
      case Bad(e) => Fail(e, i)
      case Close => if Align8(|out|) >= cap then Fail(DstOverflow, i) else Ok(out, i + 1)
      case Go(st', bs) =>
        if bs != [] && |out| + |bs| >= cap then Fail(DstOverflow, i) else Chars(s, i + 1, st', out + bs, cap)
  }

  /** A string; the character at i is passed over, whatever it is. */
  function StringAt(s: seq<Byte>, i: nat, cap: int): (r: Outcome<seq<Byte>>)
    ensures r.Ok? ==> i < r.next <= |s| && |FlatString(r.value)| < cap
  {
    if 8 >= cap then Fail(DstOverflow, i)
    else if i + 1 == |s| then Fail(SrcOverflow, i + 1)
    else Chars(s, i + 1, OUTSIDE, [], cap - 8)
  }

  function DigitsEnd(s: seq<Byte>, i: nat): (j: nat)
    requires i <= |s|
    ensures i <= j <= |s| && (forall k :: i <= k < j ==> IsDigit(s[k])) && (j < |s| ==> !IsDigit(s[j]))
    decreases |s| - i
  {
    if i < |s| && IsDigit(s[i]) then DigitsEnd(s, i + 1) else i
  }

  /** The end of the integer part that begins at i, after a sign. */
  function IntegerEnd(s: seq<Byte>, i: nat): (j: nat)
    requires i < |s|
    ensures i <= j <= |s|
  {
    if s[i] != 0x30 then DigitsEnd(s, i) else i + 1
  }

  function FractionEnd(s: seq<Byte>, i: nat): (r: Outcome<()>)
    requires i <= |s|
    ensures r.Ok? ==> i <= r.next <= |s|
  {
    if i < |s| && s[i] == 0x2E then
      if i + 1 >= |s| then Fail(SrcOverflow, i + 1)
      else if !IsDigit(s[i + 1]) then Fail(NumberBadChar, i + 1)
      else Ok((), DigitsEnd(s, i + 1))
    else Ok((), i)
  }

  function ExponentEnd(s: seq<Byte>, i: nat): (r: Outcome<()>)
    requires i <= |s|
    ensures r.Ok? ==> i <= r.next <= |s|
  {
    if i < |s| && (s[i] == 0x65 || s[i] == 0x45) then
      if i + 1 >= |s| then Fail(SrcOverflow, i + 1)
      else if s[i + 1] == 0x2B || s[i + 1] == 0x2D then
        if i + 2 >= |s| then Fail(SrcOverflow, i + 2) else Ok((), DigitsEnd(s, i + 2))
      else Ok((), DigitsEnd(s, i + 1))
    else Ok((), i)
  }

  predicate StartsNumber(c: Byte) {
    c == 0x2D || IsDigit(c)
  }

  /** Where a number ends; a sign alone will do for one. */
  function NumberEnd(s: seq<Byte>, i: nat): (r: Outcome<()>)
    requires i < |s| && StartsNumber(s[i])
    ensures r.Ok? ==> i < r.next <= |s|
  {
    var j := if s[i] == 0x2D then i + 1 else i;
    if j >= |s| then Fail(SrcOverflow, j)
    else match FractionEnd(s, IntegerEnd(s, j))
      case Fail(e, at) => Fail(e, at)
      case Ok(_, k) => ExponentEnd(s, k)
  }

  /** The bits of the double that the characters of a number come to. */
  type Doubles = seq<Byte> -> Bits

  function NumberAt(s: seq<Byte>, i: nat, cap: int, f: Doubles): (r: Outcome<Tree>)
    requires i < |s| && StartsNumber(s[i])
    ensures r.Ok? ==> i < r.next <= |s| && |Flat(r.value)| < cap
  {
    if 16 >= cap then Fail(DstOverflow, i)
    else match NumberEnd(s, i)
      case Fail(e, at) => Fail(e, at)
      case Ok(_, j) => Ok(Number(f(s[i..j])), j)
  }

  const TRUE: seq<Byte> := [0x74, 0x72, 0x75, 0x65]
  const FALSE: seq<Byte> := [0x66, 0x61, 0x6C, 0x73, 0x65]
  const NULL: seq<Byte> := [0x6E, 0x75, 0x6C, 0x6C]

  function Keyword(s: seq<Byte>, i: nat, word: seq<Byte>, t: Tree): (r: Outcome<Tree>)
    ensures r.Ok? ==> r.next == i + |word| <= |s| && r.value == t
  {
    if i + |word| > |s| then Fail(SrcOverflow, i)
    else if s[i..i + |word|] != word then Fail(BadKeyword, i)
    else Ok(t, i + |word|)
  }

  function BooleanAt(s: seq<Byte>, i: nat, cap: int): (r: Outcome<Tree>)
    requires i < |s|
    ensures r.Ok? ==> i < r.next <= |s| && |Flat(r.value)| < cap
  {
    if 16 >= cap then Fail(DstOverflow, i)
    else if s[i] == 0x74 then Keyword(s, i, TRUE, Boolean(true))
    else if s[i] == 0x66 then Keyword(s, i, FALSE, Boolean(false))
    else Fail(BadKeyword, i)
  }

  function NullAt(s: seq<Byte>, i: nat, cap: int): (r: Outcome<Tree>)
    ensures r.Ok? ==> i < r.next <= |s| && |Flat(r.value)| < cap
  {
    if 8 >= cap then Fail(DstOverflow, i) else Keyword(s, i, NULL, Null)
  }

  /** A value after whitespace, with cap bytes left for its flat form, not all of which it may take. */
  function ValueAt(s: seq<Byte>, i: nat, cap: int, f: Doubles): (r: Outcome<Tree>)
    requires i <= |s|
    ensures r.Ok? ==> i < r.next <= |s| && |Flat(r.value)| < cap
    decreases |s| - i, 2
  {
    var j := Skip(s, i);
    if j == |s| then Fail(SrcOverflow, j)
    else if s[j] == 0x22 then
      (match StringAt(s, j, cap)
       case Fail(e, at) => Fail(e, at)
       case Ok(bytes, n) => Ok(String(bytes), n))
    else if StartsNumber(s[j]) then NumberAt(s, j, cap, f)
    else if s[j] == 0x7B then ObjectAt(s, j, cap, f)
    else if s[j] == 0x5B then ArrayAt(s, j, cap, f)
    else if s[j] == 0x74 || s[j] == 0x66 then BooleanAt(s, j, cap)
    else if s[j] == 0x6E then NullAt(s, j, cap)
    else Fail(BadChar, j)
  }

  function ArrayAt(s: seq<Byte>, i: nat, cap: int, f: Doubles): (r: Outcome<Tree>)
    requires i < |s|
    ensures r.Ok? ==> i < r.next <= |s| && |Flat(r.value)| < cap
    decreases |s| - i, 1
  {
    if 8 >= cap then Fail(DstOverflow, i)
    else
      var j := Skip(s, i + 1);
      if j == |s| then Fail(SrcOverflow, j)
      else if s[j] == 0x5D then Ok(Array([]), j + 1)
      else match ElementsAt(s, j, cap - 8, f)
        case Fail(e, at) => Fail(e, at)
        case Ok(ts, n) => Ok(Array(ts), n)
  }

  /** After an element or a member: a comma, or what closes the container. */
  function SeparatorAt(s: seq<Byte>, i: nat, close: Byte): (r: Outcome<bool>)
    requires i <= |s|
    ensures r.Ok? ==> i < r.next <= |s|
  {
    var j := Skip(s, i);
    if j == |s| then Fail(SrcOverflow, j)
    else if s[j] == 0x2C then Ok(true, j + 1)
    else if s[j] == close then Ok(false, j + 1)
    else Fail(BadChar, j)
  }

  function Prepend<T>(done: seq<T>, r: Outcome<seq<T>>): Outcome<seq<T>> {
    match r
    case Ok(ts, n) => Ok(done + ts, n)
    case Fail(e, at) => Fail(e, at)
  }

  function ElementsAt(s: seq<Byte>, i: nat, cap: int, f: Doubles): (r: Outcome<seq<Tree>>)
    requires i <= |s|
    ensures r.Ok? ==> i < r.next <= |s| && |FlatAll(r.value)| < cap
    decreases |s| - i, 3
  {
    match ValueAt(s, i, cap, f)
    case Fail(e, at) => Fail(e, at)
    case Ok(t, n) =>
      assert [t][1..] == [] && |Flat(t)| < cap;
      match SeparatorAt(s, n, 0x5D)
      case Fail(e, at) => Fail(e, at)
      case Ok(more, n') =>
        if !more then Ok([t], n')
        else
          var r := ElementsAt(s, n', cap - |Flat(t)|, f);
          assert r.Ok? ==> ([t] + r.value)[1..] == r.value;
          Prepend([t], r)
  }

  function ObjectAt(s: seq<Byte>, i: nat, cap: int, f: Doubles): (r: Outcome<Tree>)
    requires i < |s|
    ensures r.Ok? ==> i < r.next <= |s| && |Flat(r.value)| < cap
    decreases |s| - i, 1
  {
    if 8 >= cap then Fail(DstOverflow, i)
    else
      var j := Skip(s, i + 1);
      if j == |s| then Fail(SrcOverflow, j)
      else if s[j] == 0x7D then Ok(Object([]), j + 1)
      else match MembersAt(s, j, cap - 8, f)
        case Fail(e, at) => Fail(e, at)
        case Ok(ms, n) => Ok(Object(ms), n)
  }

  /** A key, a colon and a value. */
  function MemberAt(s: seq<Byte>, i: nat, cap: int, f: Doubles): (r: Outcome<Member>)
    requires i <= |s|
    ensures r.Ok? ==> i < r.next <= |s| && |FlatString(r.value.key)| + |Flat(r.value.value)| < cap
    decreases |s| - i, 3
  {
    match StringAt(s, Skip(s, i), cap)
    case Fail(e, at) => Fail(e, at)
    case Ok(key, n) =>
      var j := Skip(s, n);
      if j == |s| then Fail(SrcOverflow, j)
      else if s[j] != 0x3A then Fail(ObjectBadChar, j)
      else match ValueAt(s, j + 1, cap - |FlatString(key)|, f)
        case Fail(e, at) => Fail(e, at)
        case Ok(t, n') => Ok(Member(key, t), n')
  }

  function MembersAt(s: seq<Byte>, i: nat, cap: int, f: Doubles): (r: Outcome<seq<Member>>)
    requires i <= |s|
    ensures r.Ok? ==> i < r.next <= |s| && |FlatMembers(r.value)| < cap
    decreases |s| - i, 4
  {
    match MemberAt(s, i, cap, f)
    case Fail(e, at) => Fail(e, at)
    case Ok(m, n) =>
      assert [m][1..] == [];
      match SeparatorAt(s, n, 0x7D)
      case Fail(e, at) => Fail(e, at)
      case Ok(more, n') =>
        if !more then Ok([m], n')
        else
          var r := MembersAt(s, n', cap - (|FlatString(m.key)| + |Flat(m.value)|), f);
          assert r.Ok? ==> ([m] + r.value)[1..] == r.value;
          Prepend([m], r)
  }
}
