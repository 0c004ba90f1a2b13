/** Unicode escapes in whole strings: a string is read as the bytes it stands for only if all of its escapes are
    encoded correctly, since what a misread escape leaves can not be made up for (json.c). */
module JsonEscapes {
  import opened Collections
  import opened Machine
  import opened Json
  import opened JsonRoundTrip

  /** A byte with which only the encoding of a code point above 0xFFFF begins. */
  predicate HasHigh(bs: seq<Byte>) {
    exists i :: 0 <= i < |bs| && bs[i] >= 0xF0
  }

  lemma HighAnywhere(xs: seq<Byte>, ys: seq<Byte>)
    requires HasHigh(xs) || HasHigh(ys)
    ensures HasHigh(xs + ys)
  {
    if HasHigh(xs) {
      var i :| 0 <= i < |xs| && xs[i] >= 0xF0;
      assert (xs + ys)[i] == xs[i];
    } else {
      var i :| 0 <= i < |ys| && ys[i] >= 0xF0;
      assert (xs + ys)[|xs| + i] == ys[i];
    }
  }

  lemma LowBoth(xs: seq<Byte>, ys: seq<Byte>)
    requires !HasHigh(xs) && !HasHigh(ys)
    ensures !HasHigh(xs + ys)
  {
  }

  lemma Utf8High(n: int)
    ensures 0 <= n <= 0xFFFF ==> Utf8(n).Some? && !HasHigh(Utf8(n).value)
    ensures n > 0xFFFF && Utf8(n).Some? ==> Utf8(n).value[0] >= 0xF0 && HasHigh(Utf8(n).value)
    ensures n < 0 ==> Utf8(n).Some? && |Utf8(n).value| == 1
  {
  }

  /** What a string stands for has no such byte: its escapes are 16 bits each. */
  lemma CharIsLow(c: Char)
    requires IsChar(c)
    ensures !HasHigh(CharBytes(c))
  {
    hide Utf8, IsHex;
    if c.Unicode? {
      Utf8High(CodePoint(c.digits));
    }
  }

  lemma {:induction false} CharsAreLow(cs: seq<Char>)
    requires AreChars(cs)
    ensures !HasHigh(CharsBytes(cs))
    decreases |cs|
  {
    hide CharBytes, IsChar;
    if cs != [] {
      CharIsLow(cs[0]);
      CharsAreLow(cs[1..]);
      LowBoth(CharBytes(cs[0]), CharsBytes(cs[1..]));
    }
  }

  /** An escape that comes out wrong comes out with a high byte, or too short. */
  lemma Misread(code: int, h: seq<Byte>)
    requires |h| == 4 && !IsFaithful(code % 0x1_0000, CodePoint(h)) && Utf8(Accumulated(code, h)).Some?
    ensures var bs := Utf8(Accumulated(code, h)).value;
            HasHigh(bs) || |bs| < |Utf8(CodePoint(h)).value|
  {
    hide Accumulated, CodePoint, Utf8;
    AccumulatedIs(code, h);
    Utf8High(Accumulated(code, h));
    Utf8Length(CodePoint(h));
  }

  /** What has been read after out is some bytes with a high one among them, or no more than n bytes. */
  predicate HighOrShort(r: Outcome<seq<Byte>>, out: seq<Byte>, n: int) {
    r.Ok? ==> out <= r.value && (HasHigh(r.value[|out|..]) || |r.value| <= |out| + n)
  }

  lemma HighOrShortLater(r: Outcome<seq<Byte>>, out: seq<Byte>, bs: seq<Byte>, n: int, m: int)
    requires HighOrShort(r, out + bs, n) && (HasHigh(bs) || |bs| + n <= m)
    ensures HighOrShort(r, out, m)
  {
    if r.Ok? {
      var tail := r.value[|out + bs|..];
      assert r.value == (out + bs) + tail;
      assert r.value[|out|..] == bs + tail;
      if HasHigh(bs) || HasHigh(tail) {
        HighAnywhere(bs, tail);
      }
    }
  }

  /** What the characters of a string are read as has no more bytes than they stand for or a high one, and fewer
      if some escape is misread. */
  lemma {:induction false} CharsTaken(s: seq<Byte>, i: nat, cs: seq<Char>, code: int, out: seq<Byte>, cap: int)
    requires AreChars(cs) && At(s, i, CharsText(cs) + [0x22]) && |out| < cap
    ensures HighOrShort(Chars(s, i, InString(false, -1, code), out, cap), out,
                        |CharsBytes(cs)| - (if AllFaithful(cs, code % 0x1_0000) then 0 else 1))
    decreases |cs|
  {
    hide At, Chars, CharText, CharBytes, Accumulated, Align8, IsChar, IsFaithful, HighOrShort, Utf8, CodePoint;
    if cs == [] {
      assert CharsText(cs) + [0x22] == [0x22] + [];
      AtFirst(s, i, 0x22, []);
      Closes(s, i, code, out, cap);
      NothingMore(Chars(s, i, InString(false, -1, code), out, cap), out);
    } else {
      var c, rest := cs[0], cs[1..];
      assert CharsText(cs) + [0x22] == CharText(c) + (CharsText(rest) + [0x22]);
      AtBoth(s, i, CharText(c), CharsText(rest) + [0x22]);
      var r := Chars(s, i, InString(false, -1, code), out, cap);
      if c.Unicode? {
        EscapeParts(c);
        EscapeTaken(s, i, c.digits, code, out, cap);
        var sum := Accumulated(code, c.digits);
        if Utf8(sum).Some? && |out| + |Utf8(sum).value| < cap {
          var bs := Utf8(sum).value;
          CharsTaken(s, i + 6, rest, sum, out + bs, cap);
          AccumulatedIs(code, c.digits);
          EscapeIsFaithful(code, c.digits);
          if !IsFaithful(code % 0x1_0000, CodePoint(c.digits)) {
            Misread(code, c.digits);
          }
          var n := |CharsBytes(rest)| - (if AllFaithful(rest, CodePoint(c.digits)) then 0 else 1);
          HighOrShortLater(r, out, bs, n, |CharsBytes(cs)| - (if AllFaithful(cs, code % 0x1_0000) then 0 else 1));
        } else {
          Nothing(r, out, |CharsBytes(cs)| - (if AllFaithful(cs, code % 0x1_0000) then 0 else 1));
        }
      } else {
        PlainRead(s, i, c, code, out, cap);
        if |out| + |CharBytes(c)| < cap {
          CharsTaken(s, i + |CharText(c)|, rest, code, out + CharBytes(c), cap);
          var n := |CharsBytes(rest)| - (if AllFaithful(rest, code % 0x1_0000) then 0 else 1);
          HighOrShortLater(r, out, CharBytes(c), n, |CharsBytes(cs)| - (if AllFaithful(cs, code % 0x1_0000) then 0 else 1));
        } else {
          Nothing(r, out, |CharsBytes(cs)| - (if AllFaithful(cs, code % 0x1_0000) then 0 else 1));
        }
      }
    }
  }

  lemma EscapeParts(c: Char)
    requires IsChar(c) && c.Unicode?
    ensures var h := c.digits;
            && |h| == 4 && IsHex(h[0]) && IsHex(h[1]) && IsHex(h[2]) && IsHex(h[3])
            && CharText(c) == [0x5C, 0x75] + h && Utf8(CodePoint(h)).Some? && CharBytes(c) == Utf8(CodePoint(h)).value
  {
    hide Utf8, IsHex;
    Utf8Length(CodePoint(c.digits));
  }

  lemma NothingMore(r: Outcome<seq<Byte>>, out: seq<Byte>)
    requires r.Ok? ==> r.value == out
    ensures HighOrShort(r, out, 0)
  {
  }

  lemma Nothing(r: Outcome<seq<Byte>>, out: seq<Byte>, n: int)
    requires r.Fail?
    ensures HighOrShort(r, out, n)
  {
  }

  /** A string for which there is room is read as the bytes it stands for exactly if each of its unicode escapes is the
      first, follows one for 0, or is ASCII and follows one of at least 0x8000. */
  lemma StringReadIff(s: seq<Byte>, i: nat, cs: seq<Char>, cap: int)
    requires AreChars(cs) && At(s, i, StringText(cs)) && |FlatString(CharsBytes(cs))| < cap
    ensures StringAt(s, i, cap) == Ok(CharsBytes(cs), i + |StringText(cs)|) <==> AllFaithful(cs, 0)
  {
    hide At, Chars, CharsText, CharsBytes, AllFaithful, AreChars, HighOrShort, FlatString, StringAt;
    if AllFaithful(cs, 0) {
      StringRead(s, i, cs, cap);
    } else {
      StringIsChars(s, i, cs, cap);
      CharsTaken(s, i + 1, cs, 0, [], cap - 8);
      CharsAreLow(cs);
      NeitherHighNorShort(Chars(s, i + 1, OUTSIDE, [], cap - 8), CharsBytes(cs));
    }
  }

  lemma StringIsChars(s: seq<Byte>, i: nat, cs: seq<Char>, cap: int)
    requires At(s, i, StringText(cs)) && AreChars(cs) && |FlatString(CharsBytes(cs))| < cap
    ensures 8 < cap && At(s, i + 1, CharsText(cs) + [0x22])
    ensures StringAt(s, i, cap) == Chars(s, i + 1, OUTSIDE, [], cap - 8)
  {
    hide At, Chars, CharsText, CharsBytes, AreChars;
    AtFirst(s, i, 0x22, CharsText(cs) + [0x22]);
    AtBoth(s, i + 1, CharsText(cs), [0x22]);
    assert [0x22] + [] == [0x22];
    AtFirst(s, i + 1 + |CharsText(cs)|, 0x22, []);
  }

  lemma NeitherHighNorShort(r: Outcome<seq<Byte>>, bytes: seq<Byte>)
    requires HighOrShort(r, [], |bytes| - 1) && !HasHigh(bytes)
    ensures r.Ok? ==> r.value != bytes
  {
    if r.Ok? {
      assert r.value[0..] == r.value;
    }
  }

  /** A string of two escapes, for U+0001 and A. */
  const TWO_ESCAPES: seq<Char> := [Unicode([0x30, 0x30, 0x30, 0x31]), Unicode([0x30, 0x30, 0x34, 0x31])]

  lemma TwoEscapes()
    ensures AreChars(TWO_ESCAPES) && CodePoint(TWO_ESCAPES[0].digits) == 1 && CodePoint(TWO_ESCAPES[1].digits) == 0x41
    ensures CharsText(TWO_ESCAPES) == [0x5C, 0x75, 0x30, 0x30, 0x30, 0x31, 0x5C, 0x75, 0x30, 0x30, 0x34, 0x31]
    ensures CharsBytes(TWO_ESCAPES) == [0x01, 0x41] && |FlatString(CharsBytes(TWO_ESCAPES))| == 16
    ensures IsHex(0x30) && IsHex(0x31) && IsHex(0x34)
  {
    assert CharsText(TWO_ESCAPES[1..]) == CharText(TWO_ESCAPES[1]) + CharsText([]);
    assert CharsBytes(TWO_ESCAPES[1..]) == CharBytes(TWO_ESCAPES[1]) + CharsBytes([]);
  }

  lemma Encodings()
    ensures Utf8(1) == Some([0x01]) && Utf8(0x1_0041) == Some([0xF0, 0x90, 0x81, 0x81]) && Align8(5) == 8
  {
  }

  /** They are read as U+0001 and then the one character U+10041. */
  lemma EscapesRunTogether(s: seq<Byte>, i: nat, cap: int)
    requires At(s, i, StringText(TWO_ESCAPES)) && cap > 16
    ensures StringAt(s, i, cap) == Ok([0x01, 0xF0, 0x90, 0x81, 0x81], i + 14)
  {
    hide At, Chars, CharsText, CharsBytes, AreChars, CharText, Accumulated, CodePoint, Utf8, IsHex, Align8, FlatString;
    TwoEscapes();
    StringIsChars(s, i, TWO_ESCAPES, cap);
    var one, a := TWO_ESCAPES[0].digits, TWO_ESCAPES[1].digits;
    assert CharsText(TWO_ESCAPES) + [0x22] == ([0x5C, 0x75] + one) + (([0x5C, 0x75] + a) + [0x22]);
    AtBoth(s, i + 1, [0x5C, 0x75] + one, ([0x5C, 0x75] + a) + [0x22]);
    AtBoth(s, i + 7, [0x5C, 0x75] + a, [0x22]);
    assert [0x22] + [] == [0x22];
    AtFirst(s, i + 13, 0x22, []);
    AccumulatedIs(0, one);
    AccumulatedIs(1, a);
    Encodings();
    EscapeTaken(s, i + 1, one, 0, [], cap - 8);
    assert [] + [0x01] == [0x01];
    EscapeTaken(s, i + 7, a, 1, [0x01], cap - 8);
    assert [0x01] + [0xF0, 0x90, 0x81, 0x81] == [0x01, 0xF0, 0x90, 0x81, 0x81];
    Closes(s, i + 13, 0x1_0041, [0x01, 0xF0, 0x90, 0x81, 0x81], cap - 8);
  }
}
