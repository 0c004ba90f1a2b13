/** The parser itself (json.c): cursors into source and destination, headers patched once lengths are known. */
module JsonParser {
  import opened Collections
  import opened Machine
  import opened Json
  import opened JsonNumbers

  /** before with bs in place from a on. */
  function Overwrite(before: seq<Byte>, a: nat, bs: seq<Byte>): (after: seq<Byte>)
    requires a + |bs| <= |before|
    ensures |after| == |before|
  {
    before[..a] + bs + before[a + |bs|..]
  }

  lemma OverwriteNext(before: seq<Byte>, a: nat, x: seq<Byte>, y: seq<Byte>)
    requires a + |x| + |y| <= |before|
    ensures Overwrite(Overwrite(before, a, x), a + |x|, y) == Overwrite(before, a, x + y)
  {
  }

  /** The second half of a header is filled in last. */
  lemma Patch(before: seq<Byte>, a: nat, kind: seq<Byte>, len: seq<Byte>, len': seq<Byte>, body: seq<Byte>)
    requires |kind| == |len| == |len'| == 4 && a + 8 + |body| <= |before|
    ensures Overwrite(Overwrite(before, a, kind + len + body), a + 4, len') == Overwrite(before, a, kind + len' + body)
  {
  }

  lemma PrefixStays(before: seq<Byte>, a: nat, bs: seq<Byte>)
    requires a + |bs| <= |before|
    ensures Overwrite(before, a, bs)[..a] == before[..a]
  {
  }

  class Parser {
    const src: seq<Byte>
    const dst: array<Byte>
    const encode: real -> Bits
    ghost const doubles: Doubles := Rounded(encode)
    var buf: nat
    var pos: nat
    var jerrno: Option<Error>

    constructor (src: seq<Byte>, dst: array<Byte>, encode: real -> Bits)
      ensures this.src == src && this.dst == dst && this.encode == encode
      ensures buf == 0 && pos == 0 && jerrno == None
    {
      this.src, this.dst, this.encode := src, dst, encode;
      buf, pos, jerrno := 0, 0, None;
    }

    method SetJerrno(e: Error) returns (ok: bool)
      modifies this`jerrno
      ensures !ok && jerrno == Some(e)
    {
      jerrno := Some(e);
      ok := false;
    }

    method SkipWhitespaces()
      requires buf <= |src|
      modifies this`buf
      ensures buf == Skip(src, old(buf))
    {
      while buf < |src| && IsWhitespace(src[buf])
        invariant buf <= |src| && Skip(src, buf) == Skip(src, old(buf))
      {
        buf := buf + 1;
      }
    }

    /** Stores bytes one after the other and leaves the cursor behind them. */
    method Store(bs: seq<Byte>)
      requires pos + |bs| <= dst.Length
      modifies this`pos, dst
      ensures pos == old(pos) + |bs| && dst[..] == Overwrite(old(dst[..]), old(pos), bs)
    {
      var i := 0;
      while i < |bs|
        invariant 0 <= i <= |bs| && pos == old(pos) + i
        invariant dst[..] == Overwrite(old(dst[..]), old(pos), bs[..i])
      {
        ghost var now := dst[..];
        dst[pos] := bs[i];
        pos := pos + 1;
        i := i + 1;
        assert dst[..] == Overwrite(now, old(pos) + (i - 1), [bs[i - 1]]);
        OverwriteNext(old(dst[..]), old(pos), bs[..i - 1], [bs[i - 1]]);
        assert bs[..i] == bs[..i - 1] + [bs[i - 1]];
      }
      assert bs[..i] == bs;
    }

    /** Sets the length in the header at h. */
    method SetLen(h: nat, len: nat)
      requires h + 8 <= dst.Length
      modifies dst
      ensures dst[..] == Overwrite(old(dst[..]), h + 4, ToBytes(len, 4))
    {
      var bs := ToBytes(len, 4);
      dst[h + 4], dst[h + 5], dst[h + 6], dst[h + 7] := bs[0], bs[1], bs[2], bs[3];
    }

    // ----- strings

    /** What the loop over a string has come to: its header at h and out after it. */
    ghost predicate StringSoFar(before: seq<Byte>, h: nat, out: seq<Byte>)
      reads `pos, dst
    {
      && pos == h + 8 + |out| && pos < dst.Length == |before|
      && dst[..] == Overwrite(before, h, Header(1, |out|) + out)
    }

    /** Appends to a string and to the length in its header. */
    method Append(bs: seq<Byte>, h: nat, len: nat, ghost before: seq<Byte>, ghost out: seq<Byte>)
      requires StringSoFar(before, h, out) && len == |out| && pos + |bs| < dst.Length
      modifies this`pos, dst
      ensures StringSoFar(before, h, out + bs)
    {
      hide ToBytes, Overwrite;
      Store(bs);
      ghost var kind := ToBytes(1, 4);
      OverwriteNext(before, h, Header(1, |out|) + out, bs);
      assert Header(1, |out|) + out + bs == kind + ToBytes(|out|, 4) + (out + bs);
      SetLen(h, len + |bs|);
      Patch(before, h, kind, ToBytes(|out|, 4), ToBytes(|out + bs|, 4), out + bs);
      assert kind + ToBytes(|out + bs|, 4) + (out + bs) == Header(1, |out + bs|) + (out + bs);
    }

    /** json_parse_string, from the header to the first character. */
    method ParseString() returns (ok: bool)
      requires pos <= dst.Length
      modifies this, dst
      ensures match StringAt(src, old(buf), dst.Length - old(pos))
              case Ok(bytes, n) =>
                ok && buf == n && pos == old(pos) + |FlatString(bytes)| <= dst.Length
                && dst[..] == Overwrite(old(dst[..]), old(pos), FlatString(bytes))
              case Fail(e, at) => !ok && buf == at && jerrno == Some(e) && dst[..old(pos)] == old(dst[..pos])
    {
      hide ToBytes, Overwrite, Chars, FlatString;
      if pos + 8 >= dst.Length {
        ok := SetJerrno(DstOverflow);
        return;
      }
      ghost var before := dst[..];
      var h := pos;
      Store(Header(1, 0));
      PrefixStays(before, h, Header(1, 0));
      buf := buf + 1;
      if buf == |src| {
        ok := SetJerrno(SrcOverflow);
        return;
      }
      ghost var nothing: seq<Byte> := [];
      assert Header(1, 0) == Header(1, |nothing|) + nothing;
      ok := ParseChars(h, before);
    }

    /** The loop of json_parse_string. */
    method ParseChars(h: nat, ghost before: seq<Byte>) returns (ok: bool)
      requires StringSoFar(before, h, [])
      modifies this, dst
      ensures match Chars(src, old(buf), OUTSIDE, [], dst.Length - h - 8)
              case Ok(bytes, n) =>
                ok && buf == n && pos == h + |FlatString(bytes)| <= dst.Length == |before|
                && dst[..] == Overwrite(before, h, FlatString(bytes))
              case Fail(e, at) => !ok && buf == at && jerrno == Some(e) && h <= |before| && dst[..h] == before[..h]
    {
      hide ToBytes, Overwrite, FlatString, Header, Utf8, Escaped, IsIllegal, HexDigit, ShiftIn;
      var st, len := OUTSIDE, 0;
      ghost var out: seq<Byte> := [];
      ghost var cap := dst.Length - h - 8;
      while buf < |src|
        invariant StringSoFar(before, h, out) && len == |out| < cap
        invariant Chars(src, buf, st, out, cap) == Chars(src, old(buf), OUTSIDE, [], cap)
        decreases |src| - buf
      {
        PrefixStays(before, h, Header(1, |out|) + out);
        var c := src[buf];
        var step := Step(st, c);
        match step {
          case Bad(e) =>
            ok := SetJerrno(e);
            return;
          case Close =>
            if pos + (Align8(len) - len) >= dst.Length {
              ok := SetJerrno(DstOverflow);
              return;
            }
            Close(h, len, before, out);
            buf := buf + 1;
            return true;
          case Go(st', bs) =>
            if bs != [] {
              if pos + |bs| >= dst.Length {
                ok := SetJerrno(DstOverflow);
                return;
              }
              Append(bs, h, len, before, out);
            }
            assert bs == [] ==> out + bs == out;
            st, len := st', len + |bs|;
            out := out + bs;
            buf := buf + 1;
        }
      }
      PrefixStays(before, h, Header(1, |out|) + out);
      ok := SetJerrno(SrcOverflow);
    }

    /** The padding after the closing quote. */
    method Close(h: nat, len: nat, ghost before: seq<Byte>, ghost out: seq<Byte>)
      requires StringSoFar(before, h, out) && len == |out| && pos + (Align8(len) - len) <= dst.Length
      modifies this`pos, dst
      ensures pos == h + |FlatString(out)| <= dst.Length && dst[..] == Overwrite(before, h, FlatString(out))
    {
      hide ToBytes, Overwrite, Header, Align8;
      var padding := Zeros(Align8(len) - len);
      Store(padding);
      OverwriteNext(before, h, Header(1, |out|) + out, padding);
      assert Header(1, |out|) + out + padding == FlatString(out);
    }

    // ----- numbers and words

    /** Moves over digits. */
    method ScanDigits() returns (value: real)
      requires buf <= |src|
      modifies this`buf
      ensures buf == DigitsEnd(src, old(buf)) && value == Decimal(src[old(buf)..buf]) as real
    {
      hide Decimal;
      DecimalNone(src, buf);
      value := 0.0;
      while buf < |src| && IsDigit(src[buf])
        invariant old(buf) <= buf <= |src| && DigitsEnd(src, buf) == DigitsEnd(src, old(buf))
        invariant value == Decimal(src[old(buf)..buf]) as real
      {
        DecimalNext(src, old(buf), buf);
        value := value * 10.0;
        value := value + (src[buf] as int - '0' as int) as real;
        buf := buf + 1;
      }
    }

    /** Digits behind the dot, each worth a tenth of the one before. */
    method ScanPlaces(value: real) returns (sum: real)
      requires buf <= |src|
      modifies this`buf
      ensures buf == DigitsEnd(src, old(buf))
      ensures sum == value + Decimal(src[old(buf)..buf]) as real * Tenths(buf - old(buf))
    {
      hide Decimal, Tenths;
      DecimalNone(src, buf);
      FirstPlace();
      sum := value;
      var place := 0.1;
      while buf < |src| && IsDigit(src[buf])
        invariant old(buf) <= buf <= |src| && DigitsEnd(src, buf) == DigitsEnd(src, old(buf))
        invariant place == Tenths(buf - old(buf) + 1)
        invariant sum == value + Decimal(src[old(buf)..buf]) as real * Tenths(buf - old(buf))
      {
        ghost var n, digit := buf - old(buf), src[buf] as int - '0' as int;
        DecimalNext(src, old(buf), buf);
        PlaceNext(Decimal(src[old(buf)..buf]), digit, n);
        PlaceNext(0, 0, n + 1);
        sum := sum + (src[buf] as int - '0' as int) as real * place;
        place := place * 0.1;
        buf := buf + 1;
      }
    }

    /** The digits of an exponent; it is kept as an integer. */
    method ScanPower() returns (exp: int)
      requires buf <= |src|
      modifies this`buf
      ensures buf == DigitsEnd(src, old(buf)) && exp == Decimal(src[old(buf)..buf])
    {
      hide Decimal;
      DecimalNone(src, buf);
      exp := 0;
      while buf < |src| && IsDigit(src[buf])
        invariant old(buf) <= buf <= |src| && DigitsEnd(src, buf) == DigitsEnd(src, old(buf))
        invariant exp == Decimal(src[old(buf)..buf])
      {
        DecimalNext(src, old(buf), buf);
        exp := exp * 10;
        exp := exp + (src[buf] as int - '0' as int);
        buf := buf + 1;
      }
    }

    method ScanFraction(value: real) returns (ok: bool, sum: real)
      requires buf <= |src|
      modifies this`buf, this`jerrno
      ensures match FractionEnd(src, old(buf))
              case Ok(_, n) => ok && buf == n
              case Fail(e, at) => !ok && buf == at && jerrno == Some(e)
      ensures ok ==> old(buf) <= buf <= |src| && WithPlaces(value, src[old(buf)..buf], sum)
    {
      hide DigitsEnd, Decimal, Tenths;
      NoPlaces(src, buf, value);
      sum := value;
      if buf < |src| && src[buf] == 0x2E {
        buf := buf + 1;
        if buf >= |src| {
          ok := SetJerrno(SrcOverflow);
          return;
        }
        if !IsDigit(src[buf]) {
          ok := SetJerrno(NumberBadChar);
          return;
        }
        sum := ScanPlaces(value);
        assert src[old(buf)..buf][1..] == src[old(buf) + 1..buf];
      }
      ok := true;
    }

    method ScanExponent(value: real) returns (ok: bool, product: real)
      requires buf <= |src|
      modifies this`buf, this`jerrno
      ensures match ExponentEnd(src, old(buf))
              case Ok(_, n) => ok && buf == n
              case Fail(e, at) => !ok && buf == at && jerrno == Some(e)
      ensures ok ==> SignEnd(src, old(buf)) <= buf <= |src|
      ensures ok ==> WithPower(value, src[old(buf)..SignEnd(src, old(buf))], src[SignEnd(src, old(buf))..buf], product)
    {
      hide DigitsEnd, Decimal, Power;
      NoPower(src, buf, value);
      product := value;
      if buf < |src| && (src[buf] == 0x65 || src[buf] == 0x45) {
        var expSign := 1;
        buf := buf + 1;
        if buf >= |src| {
          ok := SetJerrno(SrcOverflow);
          return;
        }
        if src[buf] == 0x2B || src[buf] == 0x2D {
          expSign := if src[buf] == 0x2D then -1 else 1;
          buf := buf + 1;
          if buf >= |src| {
            ok := SetJerrno(SrcOverflow);
            return;
          }
        }
        var exp := ScanPower();
        exp := exp * expSign;
        product := value * Power(exp);
      }
      ok := true;
    }

    /** The characters of a number: sign, integer part, fraction, exponent; and their value. */
    method ScanNumber() returns (ok: bool, value: real)
      requires buf < |src| && StartsNumber(src[buf])
      modifies this`buf, this`jerrno
      ensures match NumberEnd(src, old(buf))
              case Ok(_, n) => ok && buf == n
              case Fail(e, at) => !ok && buf == at && jerrno == Some(e)
      ensures ok ==> old(buf) <= buf <= |src| && value == NumberValue(src[old(buf)..buf])
    {
      hide DigitsEnd, FractionEnd, ExponentEnd, Decimal, WithPlaces, WithPower, NumberValue, SignEnd;
      var sign := 1.0;
      value := 0.0;
      if src[buf] == 0x2D {
        buf := buf + 1;
        sign := -1.0;
      }
      if buf >= |src| {
        ok := SetJerrno(SrcOverflow);
        return;
      }
      ghost var a := buf;
      if src[buf] != 0x30 {
        value := ScanDigits();
      } else {
        ZeroIs(src, buf);
        buf := buf + 1;
      }
      ghost var m, j := value, buf;
      ok, value := ScanFraction(value);
      if ok {
        ghost var f, k := value, buf;
        ok, value := ScanExponent(value);
        if ok {
          AddedUp(src, old(buf), buf, a, j, k, m, f, value);
          value := value * sign;
        }
      }
    }

    /** What parsing a value with outcome r has done to the cursors and to the destination, which was before. */
    twostate predicate Parsed(r: Outcome<Tree>, ok: bool)
      reads this, dst
    {
      match r
      case Ok(t, n) =>
        && ok && buf == n && pos == old(pos) + |Flat(t)| <= dst.Length
        && dst[..] == Overwrite(old(dst[..]), old(pos), Flat(t))
      case Fail(e, at) =>
        !ok && buf == at && jerrno == Some(e) && old(pos) <= dst.Length && dst[..old(pos)] == old(dst[..pos])
    }

    method ParseNumber() returns (ok: bool)
      requires pos <= dst.Length && buf < |src| && StartsNumber(src[buf])
      modifies this, dst
      ensures Parsed(NumberAt(src, old(buf), dst.Length - old(pos), doubles), ok)
    {
      hide ToBytes, Overwrite, DigitsEnd;
      if pos + 8 + 8 >= dst.Length {
        ok := SetJerrno(DstOverflow);
        return;
      }
      ghost var before, a := dst[..], pos;
      ghost var start := buf;
      Store(Header(2, 8));
      PrefixStays(before, a, Header(2, 8));
      var value;
      ok, value := ScanNumber();
      if ok {
        Store(ToBytes(encode(value), 8));
        OverwriteNext(before, a, Header(2, 8), ToBytes(doubles(src[start..buf]), 8));
      }
    }

    method ParseBoolean() returns (ok: bool)
      requires pos <= dst.Length && buf < |src|
      modifies this, dst
      ensures Parsed(BooleanAt(src, old(buf), dst.Length - old(pos)), ok)
    {
      hide ToBytes, Overwrite;
      if pos + 8 + 8 >= dst.Length {
        ok := SetJerrno(DstOverflow);
        return;
      }
      ghost var before, a := dst[..], pos;
      Store(Header(5, 8));
      PrefixStays(before, a, Header(5, 8));
      if src[buf] == 0x74 {
        ok := ParseWord(TRUE);
        if ok {
          Store(ToBytes(1, 8));
          OverwriteNext(before, a, Header(5, 8), ToBytes(1, 8));
        }
      } else if src[buf] == 0x66 {
        ok := ParseWord(FALSE);
        if ok {
          Store(ToBytes(0, 8));
          OverwriteNext(before, a, Header(5, 8), ToBytes(0, 8));
        }
      } else {
        ok := SetJerrno(BadKeyword);
      }
    }

    /** Compares the next characters with a word. */
    method ParseWord(word: seq<Byte>) returns (ok: bool)
      modifies this`buf, this`jerrno
      ensures match Keyword(src, old(buf), word, Null)
              case Ok(_, n) => ok && buf == n
              case Fail(e, at) => !ok && buf == at && jerrno == Some(e)
    {
      if buf + |word| > |src| {
        ok := SetJerrno(SrcOverflow);
        return;
      }
      if src[buf..buf + |word|] != word {
        ok := SetJerrno(BadKeyword);
        return;
      }
      buf := buf + |word|;
      ok := true;
    }

    method ParseNull() returns (ok: bool)
      requires pos <= dst.Length
      modifies this, dst
      ensures Parsed(NullAt(src, old(buf), dst.Length - old(pos)), ok)
    {
      hide ToBytes, Overwrite;
      if pos + 8 >= dst.Length {
        ok := SetJerrno(DstOverflow);
        return;
      }
      ghost var before, a := dst[..], pos;
      Store(Header(6, 0));
      PrefixStays(before, a, Header(6, 0));
      ok := ParseWord(NULL);
    }

    // ----- containers

    /** json_parse_value. */
    method ParseValue() returns (ok: bool)
      requires pos <= dst.Length && buf <= |src|
      modifies this, dst
      ensures Parsed(ValueAt(src, old(buf), dst.Length - old(pos), doubles), ok)
      decreases |src| - buf, 2
    {
      hide ToBytes, Overwrite, StringAt, NumberAt, BooleanAt, NullAt, ArrayAt, ObjectAt, FlatString;
      SkipWhitespaces();
      if buf == |src| {
        ok := SetJerrno(SrcOverflow);
        return;
      }
      if src[buf] == 0x22 {
        ok := ParseString();
      } else if StartsNumber(src[buf]) {
        ok := ParseNumber();
      } else if src[buf] == 0x7B {
        ok := ParseObject();
      } else if src[buf] == 0x5B {
        ok := ParseArray();
      } else if src[buf] == 0x74 || src[buf] == 0x66 {
        ok := ParseBoolean();
      } else if src[buf] == 0x6E {
        ok := ParseNull();
      } else {
        ok := SetJerrno(BadChar);
      }
    }

    /** What the loop over the contents of a container has come to: a header of that type at h, whose
        length is still to come, and body after it. */
    ghost predicate ContainerSoFar(before: seq<Byte>, h: nat, kind: nat, body: seq<Byte>)
      reads `pos, dst
    {
      && pos == h + 8 + |body| && pos < dst.Length == |before|
      && dst[..] == Overwrite(before, h, ToBytes(kind, 4) + before[h + 4..h + 8] + body)
    }

    /** Makes room for a header. */
    method Open(kind: nat)
      requires pos + 8 < dst.Length
      modifies this`pos, dst
      ensures ContainerSoFar(old(dst[..]), old(pos), kind, [])
    {
      hide ToBytes;
      Store(ToBytes(kind, 4));
      pos := pos + 4;
      ghost var before, h := old(dst[..]), old(pos);
      assert Overwrite(before, h, ToBytes(kind, 4)) == Overwrite(before, h, ToBytes(kind, 4) + before[h + 4..h + 8] + []);
    }

    /** Fills in the length. */
    method Finish(h: nat, kind: nat, ghost before: seq<Byte>, ghost body: seq<Byte>)
      requires ContainerSoFar(before, h, kind, body)
      modifies dst
      ensures dst[..] == Overwrite(before, h, Header(kind, |body|) + body)
    {
      hide ToBytes, Overwrite;
      SetLen(h, pos - (h + 8));
      Patch(before, h, ToBytes(kind, 4), before[h + 4..h + 8], ToBytes(|body|, 4), body);
    }

    /** What comes before the container is as it was. */
    lemma ContainerPrefix(before: seq<Byte>, h: nat, kind: nat, body: seq<Byte>)
      requires ContainerSoFar(before, h, kind, body)
      ensures pos == h + 8 + |body| && pos < dst.Length == |before| && dst[..h] == before[..h]
    {
      hide ToBytes;
      PrefixStays(before, h, ToBytes(kind, 4) + before[h + 4..h + 8] + body);
    }

    /** A comma, or what closes a container. */
    method ParseSeparator(close: Byte) returns (ok: bool, more: bool)
      requires buf <= |src|
      modifies this`buf, this`jerrno
      ensures match SeparatorAt(src, old(buf), close)
              case Ok(m, n) => ok && more == m && buf == n
              case Fail(e, at) => !ok && buf == at && jerrno == Some(e)
    {
      more := false;
      SkipWhitespaces();
      if buf == |src| {
        ok := SetJerrno(SrcOverflow);
        return;
      }
      if src[buf] == 0x2C {
        buf := buf + 1;
        return true, true;
      } else if src[buf] == close {
        buf := buf + 1;
        return true, false;
      }
      ok := SetJerrno(BadChar);
    }

    /** A value inside a container. */
    method ParseInto(h: nat, kind: nat, ghost before: seq<Byte>, ghost body: seq<Byte>) returns (ok: bool)
      requires ContainerSoFar(before, h, kind, body) && buf <= |src|
      modifies this, dst
      ensures match ValueAt(src, old(buf), dst.Length - old(pos), doubles)
              case Ok(t, n) => ok && buf == n && ContainerSoFar(before, h, kind, body + Flat(t))
              case Fail(e, at) => !ok && buf == at && jerrno == Some(e) && dst[..h] == before[..h]
      decreases |src| - buf, 3
    {
      hide ToBytes, Overwrite, ValueAt, Flat;
      ghost var now, r := dst[..], ValueAt(src, buf, dst.Length - pos, doubles);
      ContainerPrefix(before, h, kind, body);
      ok := ParseValue();
      if ok {
        Extend(before, h, ToBytes(kind, 4) + before[h + 4..h + 8], body, Flat(r.value));
      } else {
        assert dst[..h] == dst[..h + 8 + |body|][..h];
        assert now[..h] == now[..h + 8 + |body|][..h];
      }
    }

    /** A key inside an object. */
    method ParseKeyInto(h: nat, ghost before: seq<Byte>, ghost body: seq<Byte>) returns (ok: bool)
      requires ContainerSoFar(before, h, 3, body) && buf <= |src|
      modifies this, dst
      ensures match StringAt(src, old(buf), dst.Length - old(pos))
              case Ok(key, n) => ok && buf == n && ContainerSoFar(before, h, 3, body + FlatString(key))
              case Fail(e, at) => !ok && buf == at && jerrno == Some(e) && dst[..h] == before[..h]
    {
      hide ToBytes, Overwrite, StringAt, FlatString;
      ghost var now, r := dst[..], StringAt(src, buf, dst.Length - pos);
      ContainerPrefix(before, h, 3, body);
      ok := ParseString();
      if ok {
        Extend(before, h, ToBytes(3, 4) + before[h + 4..h + 8], body, FlatString(r.value));
      } else {
        assert dst[..h] == dst[..h + 8 + |body|][..h];
        assert now[..h] == now[..h + 8 + |body|][..h];
      }
    }

    /** json_parse_array. */
    method ParseArray() returns (ok: bool)
      requires pos <= dst.Length && buf < |src|
      modifies this, dst
      ensures Parsed(ArrayAt(src, old(buf), dst.Length - old(pos), doubles), ok)
      decreases |src| - buf, 1
    {
      hide ToBytes, Overwrite, ElementsAt, Header;
      if pos + 8 >= dst.Length {
        ok := SetJerrno(DstOverflow);
        return;
      }
      ghost var before := dst[..];
      var h := pos;
      Open(4);
      ContainerPrefix(before, h, 4, []);
      buf := buf + 1;
      SkipWhitespaces();
      if buf == |src| {
        ok := SetJerrno(SrcOverflow);
        return;
      }
      if src[buf] == 0x5D {
        buf := buf + 1;
        Finish(h, 4, before, []);
        return true;
      }
      ok := ParseElements(h, before);
    }

    /** The loop of json_parse_array. */
    method ParseElements(h: nat, ghost before: seq<Byte>) returns (ok: bool)
      requires ContainerSoFar(before, h, 4, []) && buf <= |src|
      modifies this, dst
      ensures match ElementsAt(src, old(buf), dst.Length - h - 8, doubles)
              case Ok(ts, n) =>
                && ok && buf == n && pos == h + |Flat(Array(ts))| <= dst.Length == |before|
                && dst[..] == Overwrite(before, h, Flat(Array(ts)))
              case Fail(e, at) => !ok && buf == at && jerrno == Some(e) && h <= |before| && dst[..h] == before[..h]
      decreases |src| - buf, 4
    {
      hide *;
      ghost var done: seq<Tree>, cap := [], dst.Length - h - 8;
      NothingFlat(src, buf, cap, doubles);
      ContainerPrefix(before, h, 4, []);
      var more := true;
      while more
        invariant old(buf) <= buf <= |src| && |FlatAll(done)| < cap == dst.Length - h - 8
        invariant ContainerSoFar(before, h, 4, FlatAll(done))
        invariant ElementsAt(src, old(buf), cap, doubles) ==
                  if more then Prepend(done, ElementsAt(src, buf, cap - |FlatAll(done)|, doubles)) else Ok(done, buf)
        decreases more, |src| - buf
      {
        ContainerPrefix(before, h, 4, FlatAll(done));
        ghost var r := ValueAt(src, buf, cap - |FlatAll(done)|, doubles);
        ElementsStep(done, src, buf, cap - |FlatAll(done)|, doubles);
        ok := ParseInto(h, 4, before, FlatAll(done));
        if !ok {
          return;
        }
        ghost var t := r.value;
        FlatOneMore(done, t);
        ContainerPrefix(before, h, 4, FlatAll(done + [t]));
        ok, more := ParseSeparator(0x5D);
        if !ok {
          return;
        }
        done := done + [t];
      }
      ContainerPrefix(before, h, 4, FlatAll(done));
      Finish(h, 4, before, FlatAll(done));
      FlatContainers(done, []);
      ok := true;
    }

    /** json_parse_object. */
    method ParseObject() returns (ok: bool)
      requires pos <= dst.Length && buf < |src|
      modifies this, dst
      ensures Parsed(ObjectAt(src, old(buf), dst.Length - old(pos), doubles), ok)
      decreases |src| - buf, 1
    {
      hide ToBytes, Overwrite, MembersAt, Header;
      if pos + 8 >= dst.Length {
        ok := SetJerrno(DstOverflow);
        return;
      }
      ghost var before := dst[..];
      var h := pos;
      Open(3);
      ContainerPrefix(before, h, 3, []);
      buf := buf + 1;
      SkipWhitespaces();
      if buf == |src| {
        ok := SetJerrno(SrcOverflow);
        return;
      }
      if src[buf] == 0x7D {
        buf := buf + 1;
        Finish(h, 3, before, []);
        return true;
      }
      ok := ParseMembers(h, before);
    }

    /** One round of the loop of json_parse_object, up to the value. */
    method ParseMember(h: nat, ghost before: seq<Byte>, ghost body: seq<Byte>) returns (ok: bool)
      requires ContainerSoFar(before, h, 3, body) && buf <= |src|
      modifies this, dst
      ensures match MemberAt(src, old(buf), dst.Length - h - 8 - |body|, doubles)
              case Ok(m, n) => ok && buf == n && ContainerSoFar(before, h, 3, body + (FlatString(m.key) + Flat(m.value)))
              case Fail(e, at) => !ok && buf == at && jerrno == Some(e) && dst[..h] == before[..h]
      decreases |src| - buf, 4
    {
      hide ToBytes, Overwrite, ValueAt, StringAt, Flat, FlatString, Skip, ContainerSoFar;
      SkipWhitespaces();
      ghost var cap := dst.Length - h - 8 - |body|;
      ContainerPrefix(before, h, 3, body);
      ghost var k := StringAt(src, buf, cap);
      ok := ParseKeyInto(h, before, body);
      if !ok {
        return;
      }
      ghost var key := k.value;
      ContainerPrefix(before, h, 3, body + FlatString(key));
      SkipWhitespaces();
      if buf == |src| {
        ok := SetJerrno(SrcOverflow);
        return;
      }
      if src[buf] != 0x3A {
        ok := SetJerrno(ObjectBadChar);
        return;
      }
      buf := buf + 1;
      ghost var r := ValueAt(src, buf, cap - |FlatString(key)|, doubles);
      ok := ParseInto(h, 3, before, body + FlatString(key));
      if ok {
        assert body + FlatString(key) + Flat(r.value) == body + (FlatString(key) + Flat(r.value));
      }
    }

    /** The loop of json_parse_object. */
    method ParseMembers(h: nat, ghost before: seq<Byte>) returns (ok: bool)
      requires ContainerSoFar(before, h, 3, []) && buf <= |src|
      modifies this, dst
      ensures match MembersAt(src, old(buf), dst.Length - h - 8, doubles)
              case Ok(ms, n) =>
                && ok && buf == n && pos == h + |Flat(Object(ms))| <= dst.Length == |before|
                && dst[..] == Overwrite(before, h, Flat(Object(ms)))
              case Fail(e, at) => !ok && buf == at && jerrno == Some(e) && h <= |before| && dst[..h] == before[..h]
      decreases |src| - buf, 5
    {
      hide *;
      ghost var done: seq<Member>, cap := [], dst.Length - h - 8;
      NothingFlat(src, buf, cap, doubles);
      ContainerPrefix(before, h, 3, []);
      var more := true;
      while more
        invariant old(buf) <= buf <= |src| && |FlatMembers(done)| < cap == dst.Length - h - 8
        invariant ContainerSoFar(before, h, 3, FlatMembers(done))
        invariant MembersAt(src, old(buf), cap, doubles) ==
                  if more then Prepend(done, MembersAt(src, buf, cap - |FlatMembers(done)|, doubles)) else Ok(done, buf)
        decreases more, |src| - buf
      {
        ContainerPrefix(before, h, 3, FlatMembers(done));
        ghost var r := MemberAt(src, buf, cap - |FlatMembers(done)|, doubles);
        MembersStep(done, src, buf, cap - |FlatMembers(done)|, doubles);
        ok := ParseMember(h, before, FlatMembers(done));
        if !ok {
          return;
        }
        ghost var m := r.value;
        FlatOneMoreMember(done, m);
        ContainerPrefix(before, h, 3, FlatMembers(done + [m]));
        ok, more := ParseSeparator(0x7D);
        if !ok {
          return;
        }
        done := done + [m];
      }
      ContainerPrefix(before, h, 3, FlatMembers(done));
      Finish(h, 3, before, FlatMembers(done));
      FlatContainers([], done);
      ok := true;
    }

    /** json_parse; what follows the value is not looked at. */
    method Parse() returns (rc: int, errorLocation: nat)
      requires buf == 0 && pos == 0
      modifies this, dst
      ensures match ValueAt(src, 0, dst.Length, doubles)
              case Ok(t, n) => rc == 0 && errorLocation == n && |Flat(t)| < dst.Length && dst[..] == Flat(t) + old(dst[..])[|Flat(t)|..]
              case Fail(e, at) => rc == -1 && errorLocation == at && jerrno == Some(e)
    {
      hide ValueAt, Flat;
      var ok := ParseValue();
      rc := if ok then 0 else -1;
      errorLocation := buf;
    }
  }

  lemma PrependOneMore<T>(done: seq<T>, t: T, r: Outcome<seq<T>>)
    ensures Prepend(done, Prepend([t], r)) == Prepend(done + [t], r)
  {
    if r.Ok? {
      assert done + ([t] + r.value) == done + [t] + r.value;
    }
  }

  lemma ElementsStep(done: seq<Tree>, s: seq<Byte>, i: nat, cap: int, f: Doubles)
    requires i <= |s|
    ensures match ValueAt(s, i, cap, f)
            case Fail(e, at) => Prepend(done, ElementsAt(s, i, cap, f)) == Fail(e, at)
            case Ok(t, n) =>
              match SeparatorAt(s, n, 0x5D)
              case Fail(e, at) => Prepend(done, ElementsAt(s, i, cap, f)) == Fail(e, at)
              case Ok(more, n') =>
                Prepend(done, ElementsAt(s, i, cap, f)) ==
                if more then Prepend(done + [t], ElementsAt(s, n', cap - |Flat(t)|, f)) else Ok(done + [t], n')
  {
    hide ValueAt, SeparatorAt, Flat, FlatString;
    var r := ValueAt(s, i, cap, f);
    if r.Ok? {
      var t, sep := r.value, SeparatorAt(s, r.next, 0x5D);
      if sep.Ok? {
        PrependOneMore(done, t, ElementsAt(s, sep.next, cap - |Flat(t)|, f));
      }
    }
  }

  lemma MembersStep(done: seq<Member>, s: seq<Byte>, i: nat, cap: int, f: Doubles)
    requires i <= |s|
    ensures match MemberAt(s, i, cap, f)
            case Fail(e, at) => Prepend(done, MembersAt(s, i, cap, f)) == Fail(e, at)
            case Ok(m, n) =>
              match SeparatorAt(s, n, 0x7D)
              case Fail(e, at) => Prepend(done, MembersAt(s, i, cap, f)) == Fail(e, at)
              case Ok(more, n') =>
                Prepend(done, MembersAt(s, i, cap, f)) ==
                if more then Prepend(done + [m], MembersAt(s, n', cap - (|FlatString(m.key)| + |Flat(m.value)|), f)) else Ok(done + [m], n')
  {
    hide MemberAt, SeparatorAt, Flat, FlatString;
    var r := MemberAt(s, i, cap, f);
    if r.Ok? {
      var m, sep := r.value, SeparatorAt(s, r.next, 0x7D);
      if sep.Ok? {
        PrependOneMore(done, m, MembersAt(s, sep.next, cap - (|FlatString(m.key)| + |Flat(m.value)|), f));
      }
    }
  }

  lemma NothingFlat(s: seq<Byte>, i: nat, cap: int, f: Doubles)
    requires i <= |s|
    ensures FlatAll([]) == [] && FlatMembers([]) == []
    ensures ElementsAt(s, i, cap, f) == Prepend([], ElementsAt(s, i, cap, f))
    ensures MembersAt(s, i, cap, f) == Prepend([], MembersAt(s, i, cap, f))
  {
    hide ElementsAt, MembersAt;
    assert forall ts: seq<Tree> :: [] + ts == ts;
    assert forall ms: seq<Member> :: [] + ms == ms;
  }

  lemma FlatContainers(ts: seq<Tree>, ms: seq<Member>)
    ensures Flat(Array(ts)) == Header(4, |FlatAll(ts)|) + FlatAll(ts)
    ensures Flat(Object(ms)) == Header(3, |FlatMembers(ms)|) + FlatMembers(ms)
  {
  }

  lemma {:induction false} FlatOneMore(ts: seq<Tree>, t: Tree)
    ensures FlatAll(ts + [t]) == FlatAll(ts) + Flat(t)
    decreases |ts|
  {
    hide Flat;
    if ts == [] {
      assert [t][1..] == [] && [] + [t] == [t];
    } else {
      assert (ts + [t])[1..] == ts[1..] + [t];
      FlatOneMore(ts[1..], t);
    }
  }

  lemma {:induction false} FlatOneMoreMember(ms: seq<Member>, m: Member)
    ensures FlatMembers(ms + [m]) == FlatMembers(ms) + (FlatString(m.key) + Flat(m.value))
    decreases |ms|
  {
    hide Flat, FlatString;
    if ms == [] {
      assert [m][1..] == [] && [] + [m] == [m];
    } else {
      assert (ms + [m])[1..] == ms[1..] + [m];
      FlatOneMoreMember(ms[1..], m);
    }
  }

  lemma Extend(before: seq<Byte>, h: nat, head: seq<Byte>, body: seq<Byte>, more: seq<Byte>)
    requires h + |head| + |body| + |more| <= |before|
    ensures Overwrite(Overwrite(before, h, head + body), h + |head| + |body|, more) == Overwrite(before, h, head + (body + more))
  {
    OverwriteNext(before, h, head + body, more);
    assert head + body + more == head + (body + more);
  }
}
