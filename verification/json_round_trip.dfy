/** Printing and parsing JSON: documents of RFC 8259, with all the freedom a printer has, and the flat form
    the parser gives them. */
module JsonRoundTrip {
  import opened Collections
  import opened Machine
  import opened Json

  // ----- texts inside texts

  /** text is found in s from i on. */
  predicate At(s: seq<Byte>, i: nat, text: seq<Byte>) {
    i + |text| <= |s| && s[i..i + |text|] == text
  }

  lemma AtBoth(s: seq<Byte>, i: nat, x: seq<Byte>, y: seq<Byte>)
    requires At(s, i, x + y)
    ensures At(s, i, x) && At(s, i + |x|, y)
  {
    assert s[i..i + |x|] == (x + y)[..|x|];
    assert s[i + |x|..i + |x| + |y|] == (x + y)[|x|..];
  }

  lemma AtFirst(s: seq<Byte>, i: nat, c: Byte, text: seq<Byte>)
    requires At(s, i, [c] + text)
    ensures i < |s| && s[i] == c && At(s, i + 1, text)
  {
    AtBoth(s, i, [c], text);
    assert s[i..i + 1][0] == c;
  }

  predicate AllWhitespace(ws: seq<Byte>) {
    forall i :: 0 <= i < |ws| ==> IsWhitespace(ws[i])
  }

  lemma {:induction false} SkipsAll(s: seq<Byte>, i: nat, ws: seq<Byte>)
    requires At(s, i, ws) && AllWhitespace(ws)
    requires i + |ws| < |s| ==> !IsWhitespace(s[i + |ws|])
    ensures Skip(s, i) == i + |ws|
    decreases |ws|
  {
    if ws != [] {
      assert ws == [ws[0]] + ws[1..];
      AtFirst(s, i, ws[0], ws[1..]);
      SkipsAll(s, i + 1, ws[1..]);
    }
  }

  // ----- strings

  /** A character of a string as it is, as a short escape, or as four hexadecimal digits. */
  datatype Char = Plain(c: Byte) | Short(c: Byte) | Unicode(digits: seq<Byte>)

  predicate IsHex(c: Byte) {
    HexDigit(c).Some?
  }

  predicate IsChar(c: Char) {
    match c
    case Plain(b) => !IsIllegal(b) && b != 0x22 && b != 0x5C
    case Short(b) => Escaped(b).Some?
    case Unicode(h) => |h| == 4 && IsHex(h[0]) && IsHex(h[1]) && IsHex(h[2]) && IsHex(h[3])
  }

  function Digit(c: Byte): (d: nat)
    ensures d < 16
  {
    match HexDigit(c)
    case None => 0
    case Some(d) => d
  }

  /** The code point that four digits denote. */
  function CodePoint(h: seq<Byte>): (n: nat)
    requires |h| == 4
    ensures n < 0x1_0000
  {
    Digit(h[0]) * 4096 + Digit(h[1]) * 256 + Digit(h[2]) * 16 + Digit(h[3])
  }

  function CharText(c: Char): (bs: seq<Byte>)
    ensures bs != []
  {
    match c
    case Plain(b) => [b]
    case Short(b) => [0x5C, b]
    case Unicode(h) => [0x5C, 0x75] + h
  }

  /** The bytes a character stands for. */
  function CharBytes(c: Char): (bs: seq<Byte>)
    requires IsChar(c)
    ensures bs != []
  {
    match c
    case Plain(b) => [b]
    case Short(b) => [Escaped(b).value]
    case Unicode(h) => Utf8(CodePoint(h)).value
  }

  function CharsText(cs: seq<Char>): seq<Byte> {
    if cs == [] then [] else CharText(cs[0]) + CharsText(cs[1..])
  }

  predicate AreChars(cs: seq<Char>) {
    forall i :: 0 <= i < |cs| ==> IsChar(cs[i])
  }

  function CharsBytes(cs: seq<Char>): seq<Byte>
    requires AreChars(cs)
  {
    if cs == [] then [] else CharBytes(cs[0]) + CharsBytes(cs[1..])
  }

  /** The accumulator after the digits of an escape. */
  function Accumulated(code: int, h: seq<Byte>): int
    requires |h| == 4
  {
    ShiftIn(ShiftIn(ShiftIn(ShiftIn(code, Digit(h[0])), Digit(h[1])), Digit(h[2])), Digit(h[3]))
  }

  /** An escape after one with code point last is encoded correctly. */
  predicate IsFaithful(last: nat, code: nat) {
    last == 0 || (last >= 0x8000 && code <= 0x7F)
  }

  /** last is the code point of the escape before, or 0. */
  predicate AllFaithful(cs: seq<Char>, last: nat)
    requires AreChars(cs)
  {
    if cs == [] then true
    else match cs[0]
      case Unicode(h) => IsFaithful(last, CodePoint(h)) && AllFaithful(cs[1..], CodePoint(h))
      case _ => AllFaithful(cs[1..], last)
  }

  lemma ShiftWraps(code: int, digit: nat) returns (q: int)
    requires digit < 16
    ensures ShiftIn(code, digit) == code * 16 + digit - 0x1_0000_0000 * q
    ensures -0x8000_0000 <= ShiftIn(code, digit) < 0x8000_0000
  {
    q := (code * 16 + 0x8000_0000) / 0x1_0000_0000;
    var low := (code * 16 + 0x8000_0000) % 0x1_0000_0000;
    assert code * 16 + 0x8000_0000 == 0x1_0000_0000 * q + low;
    assert low % 16 == 0 by {
      assert low == 16 * (code + 0x800_0000 - 0x1000_0000 * q);
    }
  }

  lemma AccumulatedWraps(code: int, h: seq<Byte>) returns (q: int)
    requires |h| == 4
    ensures Accumulated(code, h) == code * 0x1_0000 + CodePoint(h) - 0x1_0000_0000 * q
    ensures -0x8000_0000 <= Accumulated(code, h) < 0x8000_0000
  {
    hide ShiftIn, Digit;
    var c1 := ShiftIn(code, Digit(h[0]));
    var c2 := ShiftIn(c1, Digit(h[1]));
    var c3 := ShiftIn(c2, Digit(h[2]));
    var q1 := ShiftWraps(code, Digit(h[0]));
    var q2 := ShiftWraps(c1, Digit(h[1]));
    var q3 := ShiftWraps(c2, Digit(h[2]));
    var q4 := ShiftWraps(c3, Digit(h[3]));
    q := q1 * 4096 + q2 * 256 + q3 * 16 + q4;
  }

  /** What is left of the escape before is the upper half of the accumulator. */
  lemma AccumulatedIs(code: int, h: seq<Byte>)
    requires |h| == 4
    ensures var last := code % 0x1_0000;
            Accumulated(code, h) ==
            last * 0x1_0000 + CodePoint(h) - (if last >= 0x8000 then 0x1_0000_0000 else 0)
    ensures Accumulated(code, h) % 0x1_0000 == CodePoint(h)
  {
    hide Accumulated, CodePoint;
    var q := AccumulatedWraps(code, h);
    var last, m := code % 0x1_0000, code / 0x1_0000;
    assert code == 0x1_0000 * m + last;
    var k := q - m;
    assert Accumulated(code, h) == last * 0x1_0000 + CodePoint(h) - 0x1_0000_0000 * k;
    if last >= 0x8000 {
      assert k == 1;
    } else {
      assert k == 0;
    }
  }

  /** The code point is not reset: an escape comes out right exactly if it is the first of its string,
      if the one before it was for 0, or if the leftover makes the sum negative and the low byte happens to do. */
  lemma EscapeIsFaithful(code: int, h: seq<Byte>)
    requires |h| == 4
    ensures Utf8(Accumulated(code, h)) == Utf8(CodePoint(h)) <==> IsFaithful(code % 0x1_0000, CodePoint(h))
  {
    hide Accumulated, CodePoint, Utf8;
    AccumulatedIs(code, h);
    var last, n, sum := code % 0x1_0000, CodePoint(h), Accumulated(code, h);
    Utf8Length(n);
    Utf8Length(sum);
    if last >= 0x8000 {
      LowByte(last, n);
    }
  }

  lemma Utf8Length(n: int)
    ensures n <= 0x7F ==> Utf8(n) == Some([n % 256])
    ensures 0x7F < n <= 0xFFFF ==> Utf8(n).Some? && |Utf8(n).value| > 1
    ensures n <= 0xFFFF ==> Utf8(n).Some? && |Utf8(n).value| < 4
    ensures n > 0xFFFF && Utf8(n).Some? ==> |Utf8(n).value| == 4
  {
  }

  lemma LowByte(last: nat, n: nat)
    ensures (last * 0x1_0000 + n - 0x1_0000_0000) % 256 == n % 256
  {
    SameLowByte(256 * last - 0x100_0000, n / 256, n % 256);
    assert n == 256 * (n / 256) + n % 256;
  }

  lemma SameLowByte(k: int, q: int, r: int)
    requires 0 <= r < 256
    ensures (256 * k + (256 * q + r)) % 256 == r
  {
    assert 256 * k + (256 * q + r) == 256 * (k + q) + r;
  }

  /** One character moves a string's parser on, if it yields bytes for which there is room. */
  lemma OneStep(s: seq<Byte>, i: nat, st: InString, out: seq<Byte>, cap: int, st': InString, bs: seq<Byte>)
    requires i < |s| && |out| < cap && Step(st, s[i]) == Go(st', bs)
    ensures if bs != [] && |out| + |bs| >= cap then Chars(s, i, st, out, cap) == Fail(DstOverflow, i)
            else Chars(s, i, st, out, cap) == Chars(s, i + 1, st', out + bs, cap)
  {
    hide Step;
  }

  lemma NoBytesStep(s: seq<Byte>, i: nat, st: InString, out: seq<Byte>, cap: int, st': InString)
    requires i < |s| && |out| < cap && Step(st, s[i]) == Go(st', [])
    ensures Chars(s, i, st, out, cap) == Chars(s, i + 1, st', out, cap)
  {
    hide Step, Chars;
    OneStep(s, i, st, out, cap, st', []);
    assert out + [] == out;
  }

  function After(code: int, c: Char): int
    requires IsChar(c)
  {
    if c.Unicode? then Accumulated(code, c.digits) else code
  }

  predicate Reads(s: seq<Byte>, i: nat, c: Char, code: int, out: seq<Byte>, cap: int)
    requires IsChar(c) && |out| < cap
  {
    var r := Chars(s, i, InString(false, -1, code), out, cap);
    if |out| + |CharBytes(c)| >= cap then r.Fail? && r.error == DstOverflow
    else r == Chars(s, i + |CharText(c)|, InString(false, -1, After(code, c)), out + CharBytes(c), cap)
  }

  lemma PlainRead(s: seq<Byte>, i: nat, c: Char, code: int, out: seq<Byte>, cap: int)
    requires IsChar(c) && !c.Unicode? && At(s, i, CharText(c)) && |out| < cap
    ensures Reads(s, i, c, code, out, cap)
  {
    hide Chars, IsIllegal, Escaped, At;
    match c {
      case Plain(b) =>
        assert [b] == [b] + [];
        AtFirst(s, i, b, []);
        PlainTaken(s, i, b, code, out, cap);
      case Short(b) =>
        assert CharText(c) == [0x5C] + [b] && [b] == [b] + [];
        AtFirst(s, i, 0x5C, [b]);
        AtFirst(s, i + 1, b, []);
        ShortTaken(s, i, b, code, out, cap);
    }
  }

  lemma PlainTaken(s: seq<Byte>, i: nat, b: Byte, code: int, out: seq<Byte>, cap: int)
    requires i < |s| && s[i] == b && !IsIllegal(b) && b != 0x22 && b != 0x5C && |out| < cap
    ensures Reads(s, i, Plain(b), code, out, cap)
  {
    hide Chars, IsIllegal;
    var st := InString(false, -1, code);
    OneStep(s, i, st, out, cap, st, [b]);
  }

  lemma ShortTaken(s: seq<Byte>, i: nat, b: Byte, code: int, out: seq<Byte>, cap: int)
    requires i + 1 < |s| && s[i] == 0x5C && s[i + 1] == b && Escaped(b).Some? && |out| < cap
    ensures Reads(s, i, Short(b), code, out, cap)
  {
    hide Chars, Escaped;
    var st := InString(false, -1, code);
    NoBytesStep(s, i, st, out, cap, st.(esc := true));
    NotU(b);
    OneStep(s, i + 1, st.(esc := true), out, cap, st, [Escaped(b).value]);
  }

  lemma NotU(b: Byte)
    requires Escaped(b).Some?
    ensures b != 0x75
  {
  }

  lemma DigitRead(s: seq<Byte>, i: nat, n: int, code: int, out: seq<Byte>, cap: int)
    requires i < |s| && IsHex(s[i]) && |out| < cap && 0 <= n < 3
    ensures Chars(s, i, InString(false, n, code), out, cap) ==
            Chars(s, i + 1, InString(false, n + 1, ShiftIn(code, Digit(s[i]))), out, cap)
  {
    hide Chars, ShiftIn, HexDigit;
    NoBytesStep(s, i, InString(false, n, code), out, cap, InString(false, n + 1, ShiftIn(code, Digit(s[i]))));
  }

  /** A unicode escape is read as whatever the accumulator comes to. */
  lemma EscapeTaken(s: seq<Byte>, i: nat, h: seq<Byte>, code: int, out: seq<Byte>, cap: int)
    requires |h| == 4 && IsHex(h[0]) && IsHex(h[1]) && IsHex(h[2]) && IsHex(h[3])
    requires At(s, i, [0x5C, 0x75] + h) && |out| < cap
    ensures var r := Chars(s, i, InString(false, -1, code), out, cap);
            match Utf8(Accumulated(code, h))
            case None => r == Fail(StringBadUnicode, i + 5)
            case Some(bs) =>
              if |out| + |bs| >= cap then r == Fail(DstOverflow, i + 5)
              else r == Chars(s, i + 6, InString(false, -1, Accumulated(code, h)), out + bs, cap)
  {
    hide Chars, ShiftIn, HexDigit, Utf8, IsHex, At;
    var st := InString(false, -1, code);
    DigitsAt(s, i, h);
    NoBytesStep(s, i, st, out, cap, st.(esc := true));
    NoBytesStep(s, i + 1, st.(esc := true), out, cap, InString(false, 0, code));
    var c1 := ShiftIn(code, Digit(h[0]));
    var c2 := ShiftIn(c1, Digit(h[1]));
    var c3 := ShiftIn(c2, Digit(h[2]));
    DigitRead(s, i + 2, 0, code, out, cap);
    DigitRead(s, i + 3, 1, c1, out, cap);
    DigitRead(s, i + 4, 2, c2, out, cap);
    LastRead(s, i + 5, c3, out, cap);
  }

  lemma LastRead(s: seq<Byte>, i: nat, code: int, out: seq<Byte>, cap: int)
    requires i < |s| && IsHex(s[i]) && |out| < cap
    ensures var r := Chars(s, i, InString(false, 3, code), out, cap);
            var sum := ShiftIn(code, Digit(s[i]));
            match Utf8(sum)
            case None => r == Fail(StringBadUnicode, i)
            case Some(bs) =>
              if |out| + |bs| >= cap then r == Fail(DstOverflow, i)
              else r == Chars(s, i + 1, InString(false, -1, sum), out + bs, cap)
  {
    hide ShiftIn, HexDigit, Utf8, Chars;
    var sum := ShiftIn(code, Digit(s[i]));
    if Utf8(sum).Some? {
      LastDigit(code, s[i]);
      OneStep(s, i, InString(false, 3, code), out, cap, InString(false, -1, sum), Utf8(sum).value);
    } else {
      BadStep(s, i, InString(false, 3, code), out, cap, StringBadUnicode);
    }
  }

  lemma BadStep(s: seq<Byte>, i: nat, st: InString, out: seq<Byte>, cap: int, e: Error)
    requires i < |s| && |out| < cap && Step(st, s[i]) == Bad(e)
    ensures Chars(s, i, st, out, cap) == Fail(e, i)
  {
    hide Step;
  }

  lemma EscapeRead(s: seq<Byte>, i: nat, c: Char, code: int, out: seq<Byte>, cap: int)
    requires IsChar(c) && c.Unicode? && At(s, i, CharText(c)) && |out| < cap
    requires IsFaithful(code % 0x1_0000, CodePoint(c.digits))
    ensures Reads(s, i, c, code, out, cap)
  {
    hide Chars, Accumulated, Utf8, IsHex, At, CodePoint;
    EscapeTaken(s, i, c.digits, code, out, cap);
    EscapeIsFaithful(code, c.digits);
    Utf8Length(CodePoint(c.digits));
  }

  lemma LastDigit(code: int, c: Byte)
    requires IsHex(c) && Utf8(ShiftIn(code, Digit(c))).Some?
    ensures Step(InString(false, 3, code), c) ==
            Go(InString(false, -1, ShiftIn(code, Digit(c))), Utf8(ShiftIn(code, Digit(c))).value)
  {
    hide ShiftIn, Utf8;
  }

  lemma DigitsAt(s: seq<Byte>, i: nat, h: seq<Byte>)
    requires |h| == 4 && At(s, i, [0x5C, 0x75] + h)
    ensures i + 6 <= |s| && s[i] == 0x5C && s[i + 1] == 0x75
    ensures s[i + 2] == h[0] && s[i + 3] == h[1] && s[i + 4] == h[2] && s[i + 5] == h[3]
  {
    var text := s[i..i + 6];
    assert text[0] == s[i] && text[1] == s[i + 1] && text[2] == s[i + 2] && text[3] == s[i + 3];
    assert text[4] == s[i + 4] && text[5] == s[i + 5];
  }

  /** The characters of a string and its closing quote. */
  lemma {:induction false} CharsRead(s: seq<Byte>, i: nat, cs: seq<Char>, code: int, out: seq<Byte>, cap: int)
    requires AreChars(cs) && AllFaithful(cs, code % 0x1_0000) && At(s, i, CharsText(cs) + [0x22]) && |out| < cap
    ensures var r := Chars(s, i, InString(false, -1, code), out, cap);
            var all := out + CharsBytes(cs);
            if Align8(|all|) < cap then r == Ok(all, i + |CharsText(cs)| + 1) else r.Fail? && r.error == DstOverflow
    decreases |cs|
  {
    hide Chars, CharText, CharBytes, Accumulated, Align8, IsChar;
    if cs == [] {
      assert CharsText(cs) + [0x22] == [0x22] + [] && out + CharsBytes(cs) == out;
      AtFirst(s, i, 0x22, []);
      Closes(s, i, code, out, cap);
    } else {
      var c, rest := cs[0], cs[1..];
      assert CharsText(cs) + [0x22] == CharText(c) + (CharsText(rest) + [0x22]);
      AtBoth(s, i, CharText(c), CharsText(rest) + [0x22]);
      if c.Unicode? {
        EscapeRead(s, i, c, code, out, cap);
        DigitCount(c);
        AccumulatedIs(code, c.digits);
      } else {
        PlainRead(s, i, c, code, out, cap);
      }
      assert out + CharsBytes(cs) == out + CharBytes(c) + CharsBytes(rest);
      if |out| + |CharBytes(c)| < cap {
        CharsRead(s, i + |CharText(c)|, rest, After(code, c), out + CharBytes(c), cap);
      }
    }
  }

  lemma DigitCount(c: Char)
    requires IsChar(c) && c.Unicode?
    ensures |c.digits| == 4
  {
  }

  lemma Closes(s: seq<Byte>, i: nat, code: int, out: seq<Byte>, cap: int)
    requires i < |s| && s[i] == 0x22 && |out| < cap
    ensures Chars(s, i, InString(false, -1, code), out, cap) ==
            if Align8(|out|) >= cap then Fail(DstOverflow, i) else Ok(out, i + 1)
  {
  }

  function StringText(cs: seq<Char>): seq<Byte> {
    [0x22] + (CharsText(cs) + [0x22])
  }

  predicate IsString(cs: seq<Char>) {
    AreChars(cs) && AllFaithful(cs, 0)
  }

  lemma StringRead(s: seq<Byte>, i: nat, cs: seq<Char>, cap: int)
    requires IsString(cs) && At(s, i, StringText(cs))
    ensures var r := StringAt(s, i, cap);
            var bytes := CharsBytes(cs);
            if |FlatString(bytes)| < cap then r == Ok(bytes, i + |StringText(cs)|) else r.Fail? && r.error == DstOverflow
  {
    hide Chars, CharsText, CharsBytes, AllFaithful, AreChars;
    AtFirst(s, i, 0x22, CharsText(cs) + [0x22]);
    if 8 < cap {
      CharsRead(s, i + 1, cs, 0, [], cap - 8);
      assert [] + CharsBytes(cs) == CharsBytes(cs);
    }
  }

  // ----- numbers

  /** minus, integer part, fraction with its dot, and exponent with its letter and sign (section 6 of RFC 8259). */
  datatype NumberText = NumberText(minus: bool, whole: seq<Byte>, frac: seq<Byte>, exp: seq<Byte>, expDigits: seq<Byte>)

  predicate AreDigits(ds: seq<Byte>) {
    forall i :: 0 <= i < |ds| ==> IsDigit(ds[i])
  }

  predicate IsNumber(n: NumberText) {
    && n.whole != [] && AreDigits(n.whole) && (n.whole[0] == 0x30 ==> |n.whole| == 1)
    && (n.frac != [] ==> n.frac[0] == 0x2E && |n.frac| > 1 && AreDigits(n.frac[1..]))
    && (n.exp == [] ==> n.expDigits == [])
    && (n.exp != [] ==>
          && (n.exp[0] == 0x65 || n.exp[0] == 0x45) && n.expDigits != [] && AreDigits(n.expDigits)
          && (|n.exp| == 1 || (|n.exp| == 2 && (n.exp[1] == 0x2B || n.exp[1] == 0x2D))))
  }

  function Minus(n: NumberText): seq<Byte> {
    if n.minus then [0x2D] else []
  }

  function NumberBytes(n: NumberText): seq<Byte> {
    Minus(n) + (n.whole + (n.frac + (n.exp + n.expDigits)))
  }

  /** Nothing at k that a number could go on with. */
  predicate NumberStops(s: seq<Byte>, k: nat) {
    k < |s| ==> !IsDigit(s[k]) && s[k] != 0x2E && s[k] != 0x65 && s[k] != 0x45
  }

  lemma {:induction false} DigitsRead(s: seq<Byte>, i: nat, ds: seq<Byte>)
    requires At(s, i, ds) && AreDigits(ds) && (i + |ds| < |s| ==> !IsDigit(s[i + |ds|]))
    ensures DigitsEnd(s, i) == i + |ds|
    decreases |ds|
  {
    if ds != [] {
      assert ds == [ds[0]] + ds[1..];
      AtFirst(s, i, ds[0], ds[1..]);
      DigitsRead(s, i + 1, ds[1..]);
    }
  }

  lemma AtIndex(s: seq<Byte>, i: nat, text: seq<Byte>, k: nat)
    requires At(s, i, text) && k < |text|
    ensures i + |text| <= |s| && s[i + k] == text[k]
  {
    assert s[i..i + |text|][k] == s[i + k];
  }

  lemma FirstDigit(ds: seq<Byte>)
    requires AreDigits(ds) && ds != []
    ensures IsDigit(ds[0])
  {
  }

  lemma ExponentRead(s: seq<Byte>, i: nat, n: NumberText)
    requires IsNumber(n) && At(s, i, n.exp + n.expDigits) && NumberStops(s, i + |n.exp + n.expDigits|)
    ensures ExponentEnd(s, i) == Ok((), i + |n.exp + n.expDigits|)
    ensures n.frac == [] ==> FractionEnd(s, i) == Ok((), i)
    ensures i < |s| ==> !IsDigit(s[i])
  {
    hide DigitsEnd, At, AreDigits;
    AtBoth(s, i, n.exp, n.expDigits);
    if n.exp != [] {
      DigitsRead(s, i + |n.exp|, n.expDigits);
      AtIndex(s, i, n.exp, 0);
      AtIndex(s, i + |n.exp|, n.expDigits, 0);
      FirstDigit(n.expDigits);
      if |n.exp| == 2 {
        AtIndex(s, i, n.exp, 1);
      }
    } else {
      assert n.exp + n.expDigits == [];
    }
  }

  lemma FractionRead(s: seq<Byte>, i: nat, n: NumberText)
    requires IsNumber(n) && At(s, i, n.frac + (n.exp + n.expDigits))
    requires NumberStops(s, i + |n.frac + (n.exp + n.expDigits)|)
    ensures FractionEnd(s, i) == Ok((), i + |n.frac|)
    ensures ExponentEnd(s, i + |n.frac|) == Ok((), i + |n.frac + (n.exp + n.expDigits)|)
    ensures i < |s| ==> !IsDigit(s[i])
  {
    hide DigitsEnd, ExponentEnd, FractionEnd, At, NumberStops, AreDigits;
    AtBoth(s, i, n.frac, n.exp + n.expDigits);
    ExponentRead(s, i + |n.frac|, n);
    if n.frac != [] {
      assert n.frac == [0x2E] + n.frac[1..];
      AtFirst(s, i, 0x2E, n.frac[1..]);
      FractionTaken(s, i, n.frac[1..]);
    }
  }

  lemma FractionTaken(s: seq<Byte>, i: nat, ds: seq<Byte>)
    requires i < |s| && s[i] == 0x2E && At(s, i + 1, ds) && ds != [] && AreDigits(ds)
    requires i + 1 + |ds| < |s| ==> !IsDigit(s[i + 1 + |ds|])
    ensures FractionEnd(s, i) == Ok((), i + 1 + |ds|)
  {
    hide DigitsEnd;
    DigitsRead(s, i + 1, ds);
    assert s[i + 1..i + 1 + |ds|][0] == s[i + 1];
  }

  lemma WholeRead(s: seq<Byte>, j: nat, whole: seq<Byte>)
    requires At(s, j, whole) && whole != [] && AreDigits(whole) && (whole[0] == 0x30 ==> |whole| == 1)
    requires j + |whole| < |s| ==> !IsDigit(s[j + |whole|])
    ensures s[j] == whole[0] && IsDigit(s[j]) && IntegerEnd(s, j) == j + |whole|
  {
    hide DigitsEnd;
    assert s[j..j + |whole|][0] == s[j];
    FirstIsDigit(whole);
    if whole[0] != 0x30 {
      DigitsRead(s, j, whole);
    }
  }

  lemma NumberHasWhole(n: NumberText)
    requires IsNumber(n)
    ensures n.whole != [] && AreDigits(n.whole) && (n.whole[0] == 0x30 ==> |n.whole| == 1)
    ensures n.frac + (n.exp + n.expDigits) == [] || n.frac != [] || n.exp != []
  {
  }

  lemma NumberRead(s: seq<Byte>, i: nat, n: NumberText)
    requires IsNumber(n) && At(s, i, NumberBytes(n)) && NumberStops(s, i + |NumberBytes(n)|)
    ensures i < |s| && StartsNumber(s[i]) && NumberEnd(s, i) == Ok((), i + |NumberBytes(n)|)
  {
    hide DigitsEnd, FractionEnd, ExponentEnd, AreDigits, IntegerEnd, NumberStops, At, IsNumber;
    NumberHasWhole(n);
    var tail := n.frac + (n.exp + n.expDigits);
    var j := i + |Minus(n)|;
    AtBoth(s, i, Minus(n), n.whole + tail);
    AtBoth(s, j, n.whole, tail);
    FractionRead(s, j + |n.whole|, n);
    WholeRead(s, j, n.whole);
    if n.minus {
      assert [0x2D] + [] == [0x2D];
      AtFirst(s, i, 0x2D, []);
    }
  }

  lemma FirstIsDigit(ds: seq<Byte>)
    requires AreDigits(ds) && ds != []
    ensures IsDigit(ds[0])
  {
  }

  // ----- documents

  /** A value with the whitespace before it; blank is what stands in an empty container. */
  datatype Doc =
    | DNull(ws: seq<Byte>)
    | DBoolean(ws: seq<Byte>, b: bool)
    | DNumber(ws: seq<Byte>, n: NumberText)
    | DString(ws: seq<Byte>, cs: seq<Char>)
    | DArray(ws: seq<Byte>, blank: seq<Byte>, items: seq<Item>)
    | DObject(ws: seq<Byte>, blank: seq<Byte>, members: seq<Pair>)

  /** An element and the whitespace after it. */
  datatype Item = Item(value: Doc, after: seq<Byte>)

  datatype Pair = Pair(before: seq<Byte>, key: seq<Char>, between: seq<Byte>, value: Doc, after: seq<Byte>)

  predicate IsDoc(d: Doc)
    decreases d
  {
    AllWhitespace(d.ws) &&
    match d
    case DNull(_) => true
    case DBoolean(_, _) => true
    case DNumber(_, n) => IsNumber(n)
    case DString(_, cs) => IsString(cs)
    case DArray(_, blank, items) => AllWhitespace(blank) && AreItems(items)
    case DObject(_, blank, ms) => AllWhitespace(blank) && ArePairs(ms)
  }

  predicate AreItems(items: seq<Item>)
    decreases items
  {
    items == [] || (AllWhitespace(items[0].after) && IsDoc(items[0].value) && AreItems(items[1..]))
  }

  predicate ArePairs(ms: seq<Pair>)
    decreases ms
  {
    ms == [] || (IsPair(ms[0]) && IsDoc(ms[0].value) && ArePairs(ms[1..]))
  }

  predicate IsPair(m: Pair) {
    AllWhitespace(m.before) && AllWhitespace(m.between) && AllWhitespace(m.after) && IsString(m.key)
  }

  /** The text of a document. */
  function Text(d: Doc): seq<Byte>
    decreases d, 1
  {
    d.ws + Core(d)
  }

  function Core(d: Doc): seq<Byte>
    decreases d, 0
  {
    match d
    case DNull(_) => NULL
    case DBoolean(_, b) => if b then TRUE else FALSE
    case DNumber(_, n) => NumberBytes(n)
    case DString(_, cs) => StringText(cs)
    case DArray(_, blank, items) => [0x5B] + (if items == [] then blank + [0x5D] else ItemsText(items))
    case DObject(_, blank, ms) => [0x7B] + (if ms == [] then blank + [0x7D] else PairsText(ms))
  }

  function ItemsText(items: seq<Item>): seq<Byte>
    requires items != []
    decreases items
  {
    Text(items[0].value) + (items[0].after + (if |items| == 1 then [0x5D] else [0x2C] + ItemsText(items[1..])))
  }

  function PairText(m: Pair, value: seq<Byte>): seq<Byte> {
    m.before + (StringText(m.key) + (m.between + ([0x3A] + value)))
  }

  function PairsText(ms: seq<Pair>): seq<Byte>
    requires ms != []
    decreases ms
  {
    PairText(ms[0], Text(ms[0].value)) + (ms[0].after + (if |ms| == 1 then [0x7D] else [0x2C] + PairsText(ms[1..])))
  }

  /** The tree that a document denotes. */
  function TreeOf(d: Doc, f: Doubles): Tree
    requires IsDoc(d)
    decreases d
  {
    match d
    case DNull(_) => Null
    case DBoolean(_, b) => Boolean(b)
    case DNumber(_, n) => Number(f(NumberBytes(n)))
    case DString(_, cs) => String(CharsBytes(cs))
    case DArray(_, _, items) => Array(TreesOf(items, f))
    case DObject(_, _, ms) => Object(MembersOf(ms, f))
  }

  function TreesOf(items: seq<Item>, f: Doubles): (ts: seq<Tree>)
    requires AreItems(items)
    ensures |ts| == |items|
    decreases items
  {
    if items == [] then [] else [TreeOf(items[0].value, f)] + TreesOf(items[1..], f)
  }

  function MembersOf(ms: seq<Pair>, f: Doubles): (rs: seq<Member>)
    requires ArePairs(ms)
    ensures |rs| == |ms|
    decreases ms
  {
    if ms == [] then [] else [Member(CharsBytes(ms[0].key), TreeOf(ms[0].value, f))] + MembersOf(ms[1..], f)
  }

  // ----- parsing undoes printing

  /** The value if it fits, and otherwise the error that it does not. */
  predicate Yields<T(==)>(r: Outcome<T>, v: T, next: nat, size: nat, cap: int) {
    if size < cap then r == Ok(v, next) else r.Fail? && r.error == DstOverflow
  }

  /** Whitespace and then a character that ends an element. */
  lemma StopsNumber(s: seq<Byte>, k: nat, ws: seq<Byte>, c: Byte, rest: seq<Byte>)
    requires AllWhitespace(ws) && At(s, k, ws + ([c] + rest)) && c in {0x2C, 0x5D, 0x7D}
    ensures NumberStops(s, k) && Skip(s, k) == k + |ws| < |s| && s[k + |ws|] == c
  {
    hide At;
    AtBoth(s, k, ws, [c] + rest);
    AtFirst(s, k + |ws|, c, rest);
    SkipsAll(s, k, ws);
    if ws != [] {
      assert ws == [ws[0]] + ws[1..];
      AtFirst(s, k, ws[0], ws[1..]);
    }
  }

  lemma WordRead(s: seq<Byte>, i: nat, word: seq<Byte>, t: Tree)
    requires At(s, i, word)
    ensures Keyword(s, i, word, t) == Ok(t, i + |word|)
  {
  }

  /** What a document without its whitespace starts with. */
  predicate Starts(c: Byte, d: Doc) {
    !IsWhitespace(c) && c != 0x5D && c != 0x7D &&
    match d
    case DNull(_) => c == 0x6E
    case DBoolean(_, b) => c == if b then 0x74 else 0x66
    case DNumber(_, _) => StartsNumber(c)
    case DString(_, _) => c == 0x22
    case DArray(_, _, _) => c == 0x5B
    case DObject(_, _, _) => c == 0x7B
  }

  lemma CoreStarts(s: seq<Byte>, i: nat, d: Doc)
    requires IsDoc(d) && At(s, i, Core(d)) && (d.DNumber? ==> NumberStops(s, i + |Core(d)|))
    ensures i < |s| && Starts(s[i], d)
  {
    hide At, CharsText, IsNumber, NumberBytes, AreItems, ArePairs, ItemsText, PairsText, IsString, AllWhitespace,
      NumberStops;
    match d {
      case DNull(_) => assert NULL == [0x6E] + NULL[1..]; AtFirst(s, i, 0x6E, NULL[1..]);
      case DBoolean(_, b) =>
        assert TRUE == [0x74] + TRUE[1..] && FALSE == [0x66] + FALSE[1..];
        AtFirst(s, i, if b then 0x74 else 0x66, if b then TRUE[1..] else FALSE[1..]);
      case DNumber(_, n) => NumberRead(s, i, n);
      case DString(_, cs) => AtFirst(s, i, 0x22, CharsText(cs) + [0x22]);
      case DArray(_, blank, items) => AtFirst(s, i, 0x5B, if items == [] then blank + [0x5D] else ItemsText(items));
      case DObject(_, blank, ms) => AtFirst(s, i, 0x7B, if ms == [] then blank + [0x7D] else PairsText(ms));
    }
  }

  lemma DocStarts(s: seq<Byte>, i: nat, d: Doc)
    requires IsDoc(d) && At(s, i, Text(d)) && (d.DNumber? ==> NumberStops(s, i + |Text(d)|))
    ensures var j := Skip(s, i); j == i + |d.ws| < |s| && Starts(s[j], d) && At(s, j, Core(d))
    ensures d.DNumber? ==> NumberStops(s, i + |d.ws| + |Core(d)|)
  {
    hide At, Core, Skip, Starts, NumberStops;
    AtBoth(s, i, d.ws, Core(d));
    assert i + |Text(d)| == i + |d.ws| + |Core(d)|;
    CoreStarts(s, i + |d.ws|, d);
    NotWhitespace(s[i + |d.ws|], d);
    SkipsAll(s, i, d.ws);
  }

  lemma NotWhitespace(c: Byte, d: Doc)
    requires Starts(c, d)
    ensures !IsWhitespace(c)
  {
  }

  lemma SkipAgain(s: seq<Byte>, i: nat)
    requires i <= |s|
    ensures Skip(s, Skip(s, i)) == Skip(s, i)
  {
  }

  /** Whitespace before an element or a member may be skipped early. */
  lemma SkippedEarly(s: seq<Byte>, i: nat, cap: int, f: Doubles)
    requires i <= |s|
    ensures ElementsAt(s, Skip(s, i), cap, f) == ElementsAt(s, i, cap, f)
    ensures MembersAt(s, Skip(s, i), cap, f) == MembersAt(s, i, cap, f)
  {
    hide ValueAt, MemberAt, SeparatorAt, Flat, FlatString, Skip, FlatMembers, FlatAll;
    SkippedValue(s, i, cap, f);
    SkippedMember(s, i, cap, f);
  }

  lemma SkippedValue(s: seq<Byte>, i: nat, cap: int, f: Doubles)
    requires i <= |s|
    ensures ValueAt(s, Skip(s, i), cap, f) == ValueAt(s, i, cap, f)
  {
    hide StringAt, NumberAt, ObjectAt, ArrayAt, BooleanAt, NullAt, Flat, FlatString, Skip;
    SkipAgain(s, i);
  }

  lemma SkippedMember(s: seq<Byte>, i: nat, cap: int, f: Doubles)
    requires i <= |s|
    ensures MemberAt(s, Skip(s, i), cap, f) == MemberAt(s, i, cap, f)
  {
    hide StringAt, ValueAt, Flat, FlatString, Skip;
    SkipAgain(s, i);
  }

  /** What stands between an element or a member and the next, or the end of the container. */
  lemma Separated(s: seq<Byte>, k: nat, ws: seq<Byte>, c: Byte, close: Byte, rest: seq<Byte>)
    requires AllWhitespace(ws) && At(s, k, ws + ([c] + rest)) && close in {0x5D, 0x7D} && c in {0x2C, close}
    ensures NumberStops(s, k) && SeparatorAt(s, k, close) == Ok(c == 0x2C, k + |ws| + 1)
    ensures At(s, k + |ws| + 1, rest)
  {
    hide At, NumberStops, Skip;
    StopsNumber(s, k, ws, c, rest);
    AtBoth(s, k, ws, [c] + rest);
    AtFirst(s, k + |ws|, c, rest);
  }

  function MoreItems(items: seq<Item>): seq<Byte> {
    if |items| <= 1 then [] else ItemsText(items[1..])
  }

  lemma ItemsStart(s: seq<Byte>, i: nat, items: seq<Item>)
    requires items != [] && AreItems(items) && At(s, i, ItemsText(items))
    ensures IsDoc(items[0].value) && AreItems(items[1..]) && At(s, i, Text(items[0].value))
    ensures var k := i + |Text(items[0].value)|;
            && NumberStops(s, k)
            && SeparatorAt(s, k, 0x5D) == Ok(|items| > 1, k + |items[0].after| + 1)
            && At(s, k + |items[0].after| + 1, MoreItems(items))
            && i + |ItemsText(items)| == k + |items[0].after| + 1 + |MoreItems(items)|
  {
    hide At, Text, IsDoc, SeparatorAt, NumberStops, AllWhitespace;
    var it, rest := items[0], MoreItems(items);
    var c: Byte := if |items| == 1 then 0x5D else 0x2C;
    assert ItemsText(items) == Text(it.value) + (it.after + ([c] + rest));
    AtBoth(s, i, Text(it.value), it.after + ([c] + rest));
    Separated(s, i + |Text(it.value)|, it.after, c, 0x5D, rest);
  }

  function MorePairs(ms: seq<Pair>): seq<Byte> {
    if |ms| <= 1 then [] else PairsText(ms[1..])
  }

  lemma PairsStart(s: seq<Byte>, i: nat, ms: seq<Pair>)
    requires ms != [] && ArePairs(ms) && At(s, i, PairsText(ms))
    ensures IsPair(ms[0]) && IsDoc(ms[0].value) && ArePairs(ms[1..]) && At(s, i, PairText(ms[0], Text(ms[0].value)))
    ensures var k := i + |PairText(ms[0], Text(ms[0].value))|;
            && NumberStops(s, k)
            && SeparatorAt(s, k, 0x7D) == Ok(|ms| > 1, k + |ms[0].after| + 1)
            && At(s, k + |ms[0].after| + 1, MorePairs(ms))
            && i + |PairsText(ms)| == k + |ms[0].after| + 1 + |MorePairs(ms)|
  {
    hide At, Text, IsDoc, SeparatorAt, NumberStops, AllWhitespace, IsString, PairText;
    var m, rest := ms[0], MorePairs(ms);
    var text := PairText(m, Text(m.value));
    var c: Byte := if |ms| == 1 then 0x7D else 0x2C;
    assert PairsText(ms) == text + (m.after + ([c] + rest));
    AtBoth(s, i, text, m.after + ([c] + rest));
    Separated(s, i + |text|, m.after, c, 0x7D, rest);
  }

  /** A key, and the colon after it. */
  lemma KeyRead(s: seq<Byte>, i: nat, m: Pair, value: seq<Byte>, cap: int)
    requires IsPair(m) && At(s, i, PairText(m, value))
    ensures var r := StringAt(s, Skip(s, i), cap);
            var key := CharsBytes(m.key);
            var n := i + |m.before| + |StringText(m.key)|;
            && i <= |s| && Yields(r, key, n, |FlatString(key)|, cap)
            && n + |m.between| < |s| && Skip(s, n) == n + |m.between| && s[n + |m.between|] == 0x3A
            && At(s, n + |m.between| + 1, value)
            && i + |PairText(m, value)| == n + |m.between| + 1 + |value|
  {
    hide At, Skip, IsString, StringAt, CharsBytes, FlatString, AllWhitespace, CharsText;
    var text := StringText(m.key);
    var n := i + |m.before| + |text|;
    AtBoth(s, i, m.before, text + (m.between + ([0x3A] + value)));
    AtBoth(s, i + |m.before|, text, m.between + ([0x3A] + value));
    AtBoth(s, n, m.between, [0x3A] + value);
    AtFirst(s, n + |m.between|, 0x3A, value);
    AtFirst(s, i + |m.before|, 0x22, CharsText(m.key) + [0x22]);
    SkipsAll(s, i, m.before);
    SkipsAll(s, n, m.between);
    StringRead(s, i + |m.before|, m.key, cap);
  }

  // ----- the theorem

  /** What json_parse_value hands a document over to. */
  function Handed(s: seq<Byte>, j: nat, d: Doc, cap: int, f: Doubles): Outcome<Tree>
    requires j < |s| && Starts(s[j], d)
  {
    match d
    case DNull(_) => NullAt(s, j, cap)
    case DBoolean(_, _) => BooleanAt(s, j, cap)
    case DNumber(_, _) => NumberAt(s, j, cap, f)
    case DString(_, _) =>
      (match StringAt(s, j, cap)
       case Fail(e, at) => Fail(e, at)
       case Ok(bytes, n) => Ok(String(bytes), n))
    case DArray(_, _, _) => ArrayAt(s, j, cap, f)
    case DObject(_, _, _) => ObjectAt(s, j, cap, f)
  }

  lemma HandsOver(s: seq<Byte>, i: nat, d: Doc, cap: int, f: Doubles)
    requires i <= |s| && Skip(s, i) < |s| && Starts(s[Skip(s, i)], d)
    ensures ValueAt(s, i, cap, f) == Handed(s, Skip(s, i), d, cap, f)
  {
    hide StringAt, NumberAt, ObjectAt, ArrayAt, BooleanAt, NullAt, Skip;
  }

  /** Parsing a printed document gives its tree and stops at its end, if the flat form of the tree is shorter
      than the room for it; if it is not, the parser says so. */
  lemma {:induction false} DocRead(s: seq<Byte>, i: nat, d: Doc, cap: int, f: Doubles)
    requires IsDoc(d) && At(s, i, Text(d)) && (d.DNumber? ==> NumberStops(s, i + |Text(d)|))
    ensures i <= |s| && Yields(ValueAt(s, i, cap, f), TreeOf(d, f), i + |Text(d)|, |Flat(TreeOf(d, f))|, cap)
    decreases d, 2
  {
    hide At, Core, Skip, NumberStops, Starts, IsDoc, TreeOf, Flat, ValueAt, Handed, Yields;
    DocStarts(s, i, d);
    HandsOver(s, i, d, cap, f);
    CoreRead(s, i + |d.ws|, d, cap, f);
    assert i + |d.ws| + |Core(d)| == i + |Text(d)|;
  }

  lemma {:induction false} CoreRead(s: seq<Byte>, j: nat, d: Doc, cap: int, f: Doubles)
    requires IsDoc(d) && j < |s| && Starts(s[j], d) && At(s, j, Core(d)) && (d.DNumber? ==> NumberStops(s, j + |Core(d)|))
    ensures Yields(Handed(s, j, d, cap, f), TreeOf(d, f), j + |Core(d)|, |Flat(TreeOf(d, f))|, cap)
    decreases d, 1
  {
    hide At, NumberStops, StringAt, ArrayAt, ObjectAt, NumberEnd, ItemsText, PairsText, CharsText, AreItems, ArePairs,
      IsString, IsNumber, NumberBytes, CharsBytes, TreesOf, MembersOf, FlatAll, FlatMembers, FlatString, ToBytes, Keyword,
      AllWhitespace;
    match d {
      case DNull(_) => WordRead(s, j, NULL, Null);
      case DBoolean(_, b) => WordRead(s, j, if b then TRUE else FALSE, Boolean(b));
      case DNumber(_, n) => NumberTaken(s, j, n);
      case DString(_, cs) => StringRead(s, j, cs, cap);
      case DArray(_, blank, items) => ArrayRead(s, j, d, cap, f);
      case DObject(_, blank, ms) => ObjectRead(s, j, d, cap, f);
    }
  }

  lemma NumberTaken(s: seq<Byte>, j: nat, n: NumberText)
    requires IsNumber(n) && At(s, j, NumberBytes(n)) && NumberStops(s, j + |NumberBytes(n)|)
    ensures j < |s| && StartsNumber(s[j]) && NumberEnd(s, j) == Ok((), j + |NumberBytes(n)|)
    ensures j + |NumberBytes(n)| <= |s| && s[j..j + |NumberBytes(n)|] == NumberBytes(n)
  {
    hide NumberEnd, IsNumber, NumberBytes, NumberStops;
    NumberRead(s, j, n);
  }

  /** A container without contents, and one whose contents are yielded. */
  lemma EmptyYields(w: Outcome<Tree>, t: Tree, j: nat, next: nat, size: nat, cap: int)
    requires size == 8 && w == if 8 >= cap then Fail(DstOverflow, j) else Ok(t, next)
    ensures Yields(w, t, next, size, cap)
  {
  }

  lemma ArrayYields(w: Outcome<Tree>, r: Outcome<seq<Tree>>, ts: seq<Tree>, j: nat, next: nat, size: nat, cap: int)
    requires Yields(r, ts, next, size, cap - 8)
    requires w == if 8 >= cap then Fail(DstOverflow, j)
                  else match r { case Fail(e, at) => Fail(e, at) case Ok(ts, n) => Ok(Array(ts), n) }
    ensures Yields(w, Array(ts), next, 8 + size, cap)
  {
  }

  lemma ObjectYields(w: Outcome<Tree>, r: Outcome<seq<Member>>, ms: seq<Member>, j: nat, next: nat, size: nat, cap: int)
    requires Yields(r, ms, next, size, cap - 8)
    requires w == if 8 >= cap then Fail(DstOverflow, j)
                  else match r { case Fail(e, at) => Fail(e, at) case Ok(ms, n) => Ok(Object(ms), n) }
    ensures Yields(w, Object(ms), next, 8 + size, cap)
  {
  }

  lemma ContainerCores(d: Doc)
    ensures d.DArray? ==> Core(d) == [0x5B] + (if d.items == [] then d.blank + [0x5D] else ItemsText(d.items))
    ensures d.DObject? ==> Core(d) == [0x7B] + (if d.members == [] then d.blank + [0x7D] else PairsText(d.members))
  {
  }

  lemma {:induction false} ArrayRead(s: seq<Byte>, j: nat, d: Doc, cap: int, f: Doubles)
    requires IsDoc(d) && d.DArray? && At(s, j, Core(d)) && j < |s|
    ensures Yields(ArrayAt(s, j, cap, f), TreeOf(d, f), j + |Core(d)|, |Flat(TreeOf(d, f))|, cap)
    decreases d, 0
  {
    hide *;
    ArrayDoc(d, f);
    ContainerCores(d);
    if d.items == [] {
      EmptyRead(s, j, 0x5B, 0x5D, d.blank);
      EmptyContainers(s, j, cap, f);
      NoTrees(f);
      EmptyYields(ArrayAt(s, j, cap, f), Array([]), j, j + |Core(d)|, |Flat(TreeOf(d, f))|, cap);
    } else {
      ItemsFirst(s, j, d.items);
      ItemsRead(s, j + 1, d.items, cap - 8, f);
      SkippedEarly(s, j + 1, cap - 8, f);
      FilledArray(s, j, cap, f);
      var ts := TreesOf(d.items, f);
      ArrayYields(ArrayAt(s, j, cap, f), ElementsAt(s, j + 1, cap - 8, f), ts, j, j + |Core(d)|, |FlatAll(ts)|, cap);
    }
  }

  lemma EmptyContainers(s: seq<Byte>, j: nat, cap: int, f: Doubles)
    requires j < |s| && Skip(s, j + 1) < |s|
    ensures var k := Skip(s, j + 1);
            && (s[k] == 0x5D ==> ArrayAt(s, j, cap, f) == if 8 >= cap then Fail(DstOverflow, j) else Ok(Array([]), k + 1))
            && (s[k] == 0x7D ==> ObjectAt(s, j, cap, f) == if 8 >= cap then Fail(DstOverflow, j) else Ok(Object([]), k + 1))
  {
    hide Skip, ElementsAt, MembersAt, Flat;
  }

  lemma FilledArray(s: seq<Byte>, j: nat, cap: int, f: Doubles)
    requires j < |s| && Skip(s, j + 1) < |s| && s[Skip(s, j + 1)] != 0x5D
    ensures 8 >= cap ==> ArrayAt(s, j, cap, f) == Fail(DstOverflow, j)
    ensures 8 < cap ==>
      ArrayAt(s, j, cap, f) ==
      match ElementsAt(s, Skip(s, j + 1), cap - 8, f) { case Fail(e, at) => Fail(e, at) case Ok(ts, n) => Ok(Array(ts), n) }
  {
    hide Skip, ElementsAt, Flat;
  }

  lemma FilledObject(s: seq<Byte>, j: nat, cap: int, f: Doubles)
    requires j < |s| && Skip(s, j + 1) < |s| && s[Skip(s, j + 1)] != 0x7D
    ensures 8 >= cap ==> ObjectAt(s, j, cap, f) == Fail(DstOverflow, j)
    ensures 8 < cap ==>
      ObjectAt(s, j, cap, f) ==
      match MembersAt(s, Skip(s, j + 1), cap - 8, f) { case Fail(e, at) => Fail(e, at) case Ok(ms, n) => Ok(Object(ms), n) }
  {
    hide Skip, MembersAt, Flat;
  }

  lemma ArrayDoc(d: Doc, f: Doubles)
    requires IsDoc(d) && d.DArray?
    ensures AllWhitespace(d.blank) && AreItems(d.items) && TreeOf(d, f) == Array(TreesOf(d.items, f))
    ensures |Flat(TreeOf(d, f))| == 8 + |FlatAll(TreesOf(d.items, f))|
    ensures d.items == [] ==> TreeOf(d, f) == Array([])
  {
  }

  lemma NoTrees(f: Doubles)
    ensures AreItems([]) && TreesOf([], f) == [] && FlatAll([]) == []
    ensures ArePairs([]) && MembersOf([], f) == [] && FlatMembers([]) == []
  {
  }

  lemma EmptyRead(s: seq<Byte>, j: nat, open: Byte, close: Byte, blank: seq<Byte>)
    requires At(s, j, [open] + (blank + [close])) && AllWhitespace(blank) && close in {0x5D, 0x7D}
    ensures j + 1 <= |s| && Skip(s, j + 1) == j + 1 + |blank| < |s| && s[j + 1 + |blank|] == close
  {
    hide At, Skip;
    AtFirst(s, j, open, blank + [close]);
    AtBoth(s, j + 1, blank, [close]);
    assert [close] + [] == [close];
    AtFirst(s, j + 1 + |blank|, close, []);
    SkipsAll(s, j + 1, blank);
  }

  lemma ItemsFirst(s: seq<Byte>, j: nat, items: seq<Item>)
    requires items != [] && AreItems(items) && At(s, j, [0x5B] + ItemsText(items))
    ensures j + 1 <= |s| && Skip(s, j + 1) < |s| && s[Skip(s, j + 1)] != 0x5D && At(s, j + 1, ItemsText(items))
  {
    hide At, Skip, ItemsText, AreItems, SeparatorAt, Text, IsDoc, NumberStops;
    AtFirst(s, j, 0x5B, ItemsText(items));
    ItemsStart(s, j + 1, items);
    DocStarts(s, j + 1, items[0].value);
  }

  /** The elements of an array. */
  lemma {:induction false} ItemsRead(s: seq<Byte>, i: nat, items: seq<Item>, cap: int, f: Doubles)
    requires items != [] && AreItems(items) && At(s, i, ItemsText(items))
    ensures i <= |s|
    ensures Yields(ElementsAt(s, i, cap, f), TreesOf(items, f), i + |ItemsText(items)|, |FlatAll(TreesOf(items, f))|, cap)
    decreases items
  {
    hide At, Text, IsDoc, ItemsText, SeparatorAt, NumberStops, TreeOf, Flat, ValueAt;
    ItemsStart(s, i, items);
    var d, k := items[0].value, i + |Text(items[0].value)|;
    DocRead(s, i, d, cap, f);
    var t := TreeOf(d, f);
    var ts := TreesOf(items[1..], f);
    assert TreesOf(items, f) == [t] + ts && ([t] + ts)[1..] == ts;
    if |items| > 1 && |Flat(t)| < cap {
      ItemsRead(s, k + |items[0].after| + 1, items[1..], cap - |Flat(t)|, f);
    } else if |items| == 1 {
      assert items[1..] == [];
      NoTrees(f);
      assert [t] + ts == [t];
    }
  }

  lemma {:induction false} ObjectRead(s: seq<Byte>, j: nat, d: Doc, cap: int, f: Doubles)
    requires IsDoc(d) && d.DObject? && At(s, j, Core(d)) && j < |s|
    ensures Yields(ObjectAt(s, j, cap, f), TreeOf(d, f), j + |Core(d)|, |Flat(TreeOf(d, f))|, cap)
    decreases d, 0
  {
    hide *;
    ObjectDoc(d, f);
    ContainerCores(d);
    if d.members == [] {
      EmptyRead(s, j, 0x7B, 0x7D, d.blank);
      EmptyContainers(s, j, cap, f);
      NoTrees(f);
      EmptyYields(ObjectAt(s, j, cap, f), Object([]), j, j + |Core(d)|, |Flat(TreeOf(d, f))|, cap);
    } else {
      PairsFirst(s, j, d.members);
      PairsRead(s, j + 1, d.members, cap - 8, f);
      SkippedEarly(s, j + 1, cap - 8, f);
      FilledObject(s, j, cap, f);
      var ms := MembersOf(d.members, f);
      ObjectYields(ObjectAt(s, j, cap, f), MembersAt(s, j + 1, cap - 8, f), ms, j, j + |Core(d)|, |FlatMembers(ms)|, cap);
    }
  }

  lemma ObjectDoc(d: Doc, f: Doubles)
    requires IsDoc(d) && d.DObject?
    ensures AllWhitespace(d.blank) && ArePairs(d.members) && TreeOf(d, f) == Object(MembersOf(d.members, f))
    ensures |Flat(TreeOf(d, f))| == 8 + |FlatMembers(MembersOf(d.members, f))|
    ensures d.members == [] ==> TreeOf(d, f) == Object([])
  {
  }

  lemma PairsFirst(s: seq<Byte>, j: nat, ms: seq<Pair>)
    requires ms != [] && ArePairs(ms) && At(s, j, [0x7B] + PairsText(ms))
    ensures j + 1 <= |s| && Skip(s, j + 1) < |s| && s[Skip(s, j + 1)] != 0x7D && At(s, j + 1, PairsText(ms))
  {
    hide At, Skip, PairsText, ArePairs, SeparatorAt, Text, IsDoc, NumberStops, PairText, IsPair;
    AtFirst(s, j, 0x7B, PairsText(ms));
    PairsStart(s, j + 1, ms);
    KeyStarts(s, j + 1, ms[0], Text(ms[0].value));
  }

  lemma KeyStarts(s: seq<Byte>, i: nat, m: Pair, value: seq<Byte>)
    requires IsPair(m) && At(s, i, PairText(m, value))
    ensures i <= |s| && Skip(s, i) < |s| && s[Skip(s, i)] == 0x22
  {
    hide At, Skip, IsString, AllWhitespace, CharsText;
    var rest := m.between + ([0x3A] + value);
    AtBoth(s, i, m.before, StringText(m.key) + rest);
    AtBoth(s, i + |m.before|, StringText(m.key), rest);
    AtFirst(s, i + |m.before|, 0x22, CharsText(m.key) + [0x22]);
    SkipsAll(s, i, m.before);
  }

  function MemberOf(m: Pair, f: Doubles): Member
    requires IsPair(m) && IsDoc(m.value)
  {
    Member(CharsBytes(m.key), TreeOf(m.value, f))
  }

  lemma {:induction false} PairRead(s: seq<Byte>, i: nat, m: Pair, cap: int, f: Doubles)
    requires IsPair(m) && IsDoc(m.value) && At(s, i, PairText(m, Text(m.value)))
    requires NumberStops(s, i + |PairText(m, Text(m.value))|)
    ensures i <= |s|
    ensures var r := MemberOf(m, f);
            Yields(MemberAt(s, i, cap, f), r, i + |PairText(m, Text(m.value))|, |FlatString(r.key)| + |Flat(r.value)|, cap)
    decreases m, 0
  {
    hide At, Text, IsDoc, NumberStops, TreeOf, Flat, FlatString, ValueAt, StringAt, Skip, PairText, CharsBytes,
      StringText;
    KeyRead(s, i, m, Text(m.value), cap);
    var key := CharsBytes(m.key);
    DocRead(s, i + |m.before| + |StringText(m.key)| + |m.between| + 1, m.value, cap - |FlatString(key)|, f);
  }

  lemma LastMember(s: seq<Byte>, i: nat, cap: int, f: Doubles, m: Member, n: nat, end: nat)
    requires i <= |s| && n <= |s| && MemberAt(s, i, cap, f) == Ok(m, n) && SeparatorAt(s, n, 0x7D) == Ok(false, end)
    ensures MembersAt(s, i, cap, f) == Ok([m], end)
  {
    hide MemberAt, SeparatorAt;
  }

  lemma MoreMembers(s: seq<Byte>, i: nat, cap: int, f: Doubles, m: Member, n: nat, next: nat)
    requires i <= |s| && n <= |s| && MemberAt(s, i, cap, f) == Ok(m, n) && SeparatorAt(s, n, 0x7D) == Ok(true, next)
    ensures next <= |s|
    ensures MembersAt(s, i, cap, f) == Prepend([m], MembersAt(s, next, cap - (|FlatString(m.key)| + |Flat(m.value)|), f))
  {
    hide MemberAt, SeparatorAt, FlatString, Flat;
  }

  lemma NoFirstMember(s: seq<Byte>, i: nat, cap: int, f: Doubles)
    requires i <= |s| && MemberAt(s, i, cap, f).Fail? && MemberAt(s, i, cap, f).error == DstOverflow
    ensures MembersAt(s, i, cap, f).Fail? && MembersAt(s, i, cap, f).error == DstOverflow
  {
    hide MemberAt;
  }

  lemma FlatFirst(m: Member, rest: seq<Member>)
    ensures |FlatMembers([m] + rest)| == |FlatString(m.key)| + |Flat(m.value)| + |FlatMembers(rest)|
    ensures FlatMembers([]) == []
  {
    hide FlatString, Flat;
    assert ([m] + rest)[1..] == rest;
  }

  lemma MembersFirst(ms: seq<Pair>, f: Doubles)
    requires ms != [] && ArePairs(ms)
    ensures ArePairs(ms[1..]) && MembersOf(ms, f) == [MemberOf(ms[0], f)] + MembersOf(ms[1..], f)
    ensures |ms| == 1 ==> MembersOf(ms[1..], f) == []
  {
    hide IsPair, TreeOf, CharsBytes;
  }

  /** The members of an object. */
  lemma {:induction false} PairsRead(s: seq<Byte>, i: nat, ms: seq<Pair>, cap: int, f: Doubles)
    requires ms != [] && ArePairs(ms) && At(s, i, PairsText(ms))
    ensures i <= |s|
    ensures Yields(MembersAt(s, i, cap, f), MembersOf(ms, f), i + |PairsText(ms)|, |FlatMembers(MembersOf(ms, f))|, cap)
    decreases ms
  {
    hide At, Text, IsDoc, PairsText, PairText, SeparatorAt, NumberStops, TreeOf, Flat, FlatString, MemberAt, IsPair,
      CharsBytes, MembersAt, MembersOf, FlatMembers, ArePairs, MemberOf;
    PairsStart(s, i, ms);
    PairRead(s, i, ms[0], cap, f);
    MembersFirst(ms, f);
    var k, m, rest := i + |PairText(ms[0], Text(ms[0].value))|, MemberOf(ms[0], f), MembersOf(ms[1..], f);
    var size := |FlatString(m.key)| + |Flat(m.value)|;
    FlatFirst(m, rest);
    if size >= cap {
      NoFirstMember(s, i, cap, f);
    } else if |ms| == 1 {
      LastMember(s, i, cap, f, m, k, k + |ms[0].after| + 1);
      assert [m] + rest == [m];
    } else {
      MoreMembers(s, i, cap, f, m, k, k + |ms[0].after| + 1);
      PairsRead(s, k + |ms[0].after| + 1, ms[1..], cap - size, f);
    }
  }

  /** json_parse on a printed document, whatever follows it. */
  lemma ParseInvertsPrint(d: Doc, rest: seq<Byte>, cap: nat, f: Doubles)
    requires IsDoc(d) && (d.DNumber? ==> NumberStops(Text(d) + rest, |Text(d)|))
    ensures Yields(ValueAt(Text(d) + rest, 0, cap, f), TreeOf(d, f), |Text(d)|, |Flat(TreeOf(d, f))|, cap)
  {
    hide Text, IsDoc, Yields, ValueAt, TreeOf, Flat;
    var s := Text(d) + rest;
    assert s[0..0 + |Text(d)|] == Text(d);
    DocRead(s, 0, d, cap, f);
  }
}
