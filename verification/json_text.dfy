/** The grammar of JSON texts, in characters: what the specification of the parser takes for words, escapes, digits and
    whitespace, and exactly which texts it takes for a number (json.c). */
module JsonText {
  import opened Collections
  import opened Machine
  import opened Json
  import opened JsonRoundTrip

  /** The bytes of a text of ASCII characters. */
  function Ascii(text: string): (bs: seq<Byte>)
    requires forall i :: 0 <= i < |text| ==> text[i] as nat < 128
    ensures |bs| == |text|
  {
    seq(|text|, i requires 0 <= i < |text| => text[i] as nat)
  }

  lemma PunctuationIs()
    ensures Ascii("[") == [0x5B] && Ascii(",") == [0x2C] && Ascii("]") == [0x5D]
    ensures Ascii("{") == [0x7B] && Ascii(":") == [0x3A] && Ascii("}") == [0x7D] && Ascii("\"") == [0x22]
  {
  }

  /** Elements stand between brackets, with a comma after each but the last. */
  lemma ArrayTextIs(x: Doc, y: Doc)
    ensures Core(DArray([], [], [])) == Ascii("[") + Ascii("]")
    ensures Core(DArray([], [], [Item(x, []), Item(y, [])])) == Ascii("[") + (Text(x) + (Ascii(",") + (Text(y) + Ascii("]"))))
  {
    hide Text, Ascii;
    PunctuationIs();
    var i0, i1 := Item(x, []), Item(y, []);
    assert [i0, i1][1..] == [i1];
    assert ItemsText([i1]) == Text(y) + ([] + [0x5D]);
    assert ItemsText([i0, i1]) == Text(x) + ([] + ([0x2C] + ItemsText([i1])));
  }

  /** Members stand between braces, each a string and a value with a colon between, and a comma after each but the last. */
  lemma ObjectTextIs(k: seq<Char>, x: Doc, rest: seq<Pair>)
    requires rest != []
    ensures Core(DObject([], [], [])) == Ascii("{") + Ascii("}")
    ensures var p := Pair([], k, [], x, []);
            var member := StringText(k) + (Ascii(":") + Text(x));
            && Core(DObject([], [], [p])) == Ascii("{") + (member + Ascii("}"))
            && Core(DObject([], [], [p] + rest)) == Ascii("{") + (member + (Ascii(",") + PairsText(rest)))
  {
    hide Text, Ascii, StringText, PairText;
    PunctuationIs();
    PairTextIs(k, x);
    var p := Pair([], k, [], x, []);
    assert ([p] + rest)[1..] == rest;
    assert PairsText([p]) == PairText(p, Text(x)) + ([] + [0x7D]);
    assert PairsText([p] + rest) == PairText(p, Text(x)) + ([] + ([0x2C] + PairsText(rest)));
  }

  /** A string stands between quotes. */
  lemma StringTextIs(cs: seq<Char>)
    ensures StringText(cs) == Ascii("\"") + (CharsText(cs) + Ascii("\""))
  {
    PunctuationIs();
  }

  lemma PairTextIs(k: seq<Char>, x: Doc)
    ensures PairText(Pair([], k, [], x, []), Text(x)) == StringText(k) + ([0x3A] + Text(x))
  {
    hide Text, StringText;
  }

  lemma NumbersAre()
    ensures IsNumber(NumberText(true, Ascii("10"), Ascii(".50"), Ascii("e"), Ascii("07")))
    ensures NumberBytes(NumberText(true, Ascii("10"), Ascii(".50"), Ascii("e"), Ascii("07"))) == Ascii("-10.50e07")
    ensures IsNumber(NumberText(false, Ascii("0"), [], Ascii("E+"), Ascii("9"))) && IsNumber(NumberText(false, Ascii("0"), [], Ascii("e-"), Ascii("0")))
    ensures NumberBytes(NumberText(false, Ascii("0"), [], Ascii("E+"), Ascii("9"))) == Ascii("0E+9")
  {
  }

  lemma TrueIs(cap: int, f: Doubles)
    requires cap > 16
    ensures ValueAt(Ascii("true"), 0, cap, f) == Ok(Boolean(true), 4)
  {
    hide Flat, StringAt, NumberAt, ArrayAt, ObjectAt, NullAt;
    assert Ascii("true")[0..4] == TRUE;
  }

  lemma FalseIs(cap: int, f: Doubles)
    requires cap > 16
    ensures ValueAt(Ascii("false"), 0, cap, f) == Ok(Boolean(false), 5)
  {
    hide Flat, StringAt, NumberAt, ArrayAt, ObjectAt, NullAt;
    assert Ascii("false")[0..5] == FALSE;
  }

  lemma NullIs(cap: int, f: Doubles)
    requires cap > 8
    ensures ValueAt(Ascii("null"), 0, cap, f) == Ok(Null, 4)
  {
    hide Flat, StringAt, NumberAt, ArrayAt, ObjectAt, BooleanAt;
    assert Ascii("null")[0..4] == NULL;
  }

  /** Spaces, tabs and line feeds stand between tokens, and nothing else does. */
  lemma WhitespaceIs(c: char)
    requires c as nat < 128
    ensures AllWhitespace(Ascii([c])) <==> c == ' ' || c == '\t' || c == '\n'
  {
    var w := Ascii([c]);
    assert w[0] == c as nat;
    assert AllWhitespace(w) <==> IsWhitespace(w[0]);
  }

  // ----- errors, and where they are noticed

  lemma NoValueStarts(cap: int, f: Doubles)
    ensures ValueAt(Ascii("?"), 0, cap, f) == Fail(BadChar, 0)
    ensures ValueAt(Ascii(" \r1"), 0, cap, f) == Fail(BadChar, 1)
    ensures ValueAt(Ascii(""), 0, cap, f) == Fail(SrcOverflow, 0)
  {
    hide StringAt, NumberAt, ArrayAt, ObjectAt, BooleanAt, NullAt;
    assert Skip(Ascii(" \r1"), 0) == 1;
  }

  lemma WordsBreakOff(cap: int, f: Doubles)
    requires cap > 16
    ensures ValueAt(Ascii("tru"), 0, cap, f) == Fail(SrcOverflow, 0)
    ensures ValueAt(Ascii("nulp"), 0, cap, f) == Fail(BadKeyword, 0)
  {
    hide StringAt, NumberAt, ArrayAt, ObjectAt, Flat;
    assert Ascii("nulp")[0..4][3] != NULL[3];
  }

  lemma NumbersBreakOff(cap: int, f: Doubles)
    requires cap > 16
    ensures ValueAt(Ascii("-"), 0, cap, f) == Fail(SrcOverflow, 1)
    ensures ValueAt(Ascii("0.x"), 0, cap, f) == Fail(NumberBadChar, 2)
    ensures ValueAt(Ascii("0."), 0, cap, f) == Fail(SrcOverflow, 2)
    ensures ValueAt(Ascii("0e"), 0, cap, f) == Fail(SrcOverflow, 2)
  {
    hide StringAt, BooleanAt, NullAt, ArrayAt, ObjectAt, Flat;
  }

  lemma StringsBreakOff(cap: int, f: Doubles)
    requires cap > 16
    ensures StringAt(Ascii("\"\n\""), 0, cap) == Fail(StringBadChar, 1)
    ensures StringAt(Ascii("\"\\q\""), 0, cap) == Fail(StringBadEscape, 2)
    ensures StringAt(Ascii("\"\\ug\""), 0, cap) == Fail(StringBadUnicode, 3)
    ensures StringAt(Ascii("\"\\u"), 0, cap) == Fail(SrcOverflow, 3)
  {
  }

  lemma ContainersBreakOff(close: Byte)
    requires close == ']' as nat || close == '}' as nat
    ensures SeparatorAt(Ascii(" 1"), 0, close) == Fail(BadChar, 1)
    ensures SeparatorAt(Ascii(" "), 0, close) == Fail(SrcOverflow, 1)
  {
  }

  lemma KeysBreakOff(cap: int, f: Doubles)
    requires cap > 16
    ensures MemberAt(Ascii("\"\" 1"), 0, cap, f) == Fail(ObjectBadChar, 3)
    ensures MemberAt(Ascii("\"\""), 0, cap, f) == Fail(SrcOverflow, 2)
  {
    hide ValueAt, Flat;
    var s, t := Ascii("\"\" 1"), Ascii("\"\"");
    assert StringAt(s, 0, cap) == Ok([], 2) && StringAt(t, 0, cap) == Ok([], 2);
    assert Skip(s, 2) == 3 && Skip(t, 2) == 2;
  }

  /** Room is asked for before anything is looked at: 8 bytes for what has a header, 16 with a number or a boolean. */
  lemma RoomFirst(s: seq<Byte>, cap: int, f: Doubles)
    requires s != []
    ensures cap <= 8 && s[0] in {'"' as nat, '[' as nat, '{' as nat, 'n' as nat} ==> ValueAt(s, 0, cap, f) == Fail(DstOverflow, 0)
    ensures cap <= 16 && (s[0] in {'-' as nat, 't' as nat, 'f' as nat} || '0' as nat <= s[0] <= '9' as nat) ==>
              ValueAt(s, 0, cap, f) == Fail(DstOverflow, 0)
  {
    hide NumberEnd, ElementsAt, MembersAt, Keyword, Chars;
  }

  // ----- strings

  /** The characters that stand for themselves in a string. */
  lemma PlainAre(b: Byte)
    ensures IsChar(Plain(b)) <==> b == '\t' as nat || (' ' as nat <= b <= '~' as nat && b != '"' as nat && b != '\\' as nat)
  {
  }

  predicate Denotes(escape: string, bytes: seq<Byte>)
    requires |escape| == 2 && escape[0] as nat < 128 && escape[1] as nat < 128
  {
    var c := Short(escape[1] as nat);
    IsChar(c) && CharText(c) == Ascii(escape) && CharBytes(c) == bytes
  }

  /** The short escapes, and what they stand for. */
  lemma EscapesAre(b: Byte)
    ensures Denotes("\\\"", Ascii("\"")) && Denotes("\\\\", Ascii("\\")) && Denotes("\\/", Ascii("/"))
    ensures Denotes("\\b", [8]) && Denotes("\\f", [12])
    ensures Denotes("\\n", Ascii("\n")) && Denotes("\\r", Ascii("\r")) && Denotes("\\t", Ascii("\t"))
    ensures IsChar(Short(b)) <==> b in Ascii("\"\\/bfnrt")
  {
    var letters := Ascii("\"\\/bfnrt");
    assert letters == [0x22, 0x5C, 0x2F, 0x62, 0x66, 0x6E, 0x72, 0x74];
  }

  const LOWER: string := "0123456789abcdef"
  const UPPER: string := "0123456789ABCDEF"

  lemma HexDigitsAre(d: nat)
    requires d < 16
    ensures HexDigit(Ascii(LOWER)[d]) == Some(d) && HexDigit(Ascii(UPPER)[d]) == Some(d)
  {
    assert LOWER[d] as nat == if d < 10 then 0x30 + d else 0x61 + d - 10;
    assert UPPER[d] as nat == if d < 10 then 0x30 + d else 0x41 + d - 10;
  }

  lemma OnlyHexDigits(c: Byte)
    requires HexDigit(c).Some?
    ensures c in Ascii(LOWER) || c in Ascii(UPPER)
  {
    var d := HexDigit(c).value;
    assert d < 16;
    if c < 0x60 {
      assert Ascii(UPPER)[d] == c;
    } else {
      assert Ascii(LOWER)[d] == c;
    }
  }

  /** Four digits, the most significant first, denote the number written with them. */
  lemma CodePointIs(d3: nat, d2: nat, d1: nat, d0: nat, digits: string)
    requires d3 < 16 && d2 < 16 && d1 < 16 && d0 < 16 && digits in {LOWER, UPPER}
    ensures var d := Ascii(digits); CodePoint([d[d3], d[d2], d[d1], d[d0]]) == 0x1000 * d3 + 0x100 * d2 + 0x10 * d1 + d0
  {
    hide HexDigit;
    HexDigitsAre(d3);
    HexDigitsAre(d2);
    HexDigitsAre(d1);
    HexDigitsAre(d0);
  }

  predicate Continues(b: Byte) {
    0x80 <= b < 0xC0
  }

  /** The code point that some bytes encode, by the table of section 3 of RFC 3629. */
  function Decoded(bs: seq<Byte>): Option<nat> {
    if |bs| == 1 && bs[0] < 0x80 then Some(bs[0])
    else if |bs| == 2 && 0xC2 <= bs[0] < 0xE0 && Continues(bs[1]) then Some((bs[0] as nat - 0xC0) * 0x40 + (bs[1] - 0x80))
    else if |bs| == 3 && 0xE0 <= bs[0] < 0xF0 && Continues(bs[1]) && Continues(bs[2]) && (bs[0] == 0xE0 ==> bs[1] >= 0xA0) then
      Some((bs[0] as nat - 0xE0) * 0x1000 + (bs[1] as nat - 0x80) * 0x40 + (bs[2] - 0x80))
    else if |bs| == 4 && 0xF0 <= bs[0] < 0xF5 && Continues(bs[1]) && Continues(bs[2]) && Continues(bs[3])
            && (bs[0] == 0xF0 ==> bs[1] >= 0x90) then
      Some((bs[0] as nat - 0xF0) * 0x4_0000 + (bs[1] as nat - 0x80) * 0x1000 + (bs[2] as nat - 0x80) * 0x40 + (bs[3] - 0x80))
    else None
  }

  /** Every code point is encoded as the bytes that decode to it. */
  lemma Utf8IsDecoded(n: nat)
    requires n <= 0x10_FFFF
    ensures Utf8(n).Some? && Decoded(Utf8(n).value) == Some(n)
  {
    if 0x7F < n <= 0x7FF {
      TwoBytesOf(n);
    } else if 0x7FF < n <= 0xFFFF {
      ThreeBytesOf(n);
    } else if 0xFFFF < n {
      FourBytesOf(n);
    }
  }

  lemma TwoBytesOf(n: nat)
    requires 0x7F < n <= 0x7FF
    ensures Utf8(n).Some? && Decoded(Utf8(n).value) == Some(n)
  {
    assert 2 <= n / 64 < 32;
  }

  lemma ThreeBytesOf(n: nat)
    requires 0x7FF < n <= 0xFFFF
    ensures Utf8(n).Some? && Decoded(Utf8(n).value) == Some(n)
  {
    var x, y, z := n / 4096, n / 64 % 64, n % 64;
    Sixes(n);
    assert x < 16 && x % 16 == x && (x == 0 ==> y >= 32);
    assert Utf8(n) == Some([0xE0 + x, 0x80 + y, 0x80 + z]);
  }

  lemma FourBytesOf(n: nat)
    requires 0xFFFF < n <= 0x10_FFFF
    ensures Utf8(n).Some? && Decoded(Utf8(n).value) == Some(n)
  {
    var w, x, y, z := n / 262144, n / 4096 % 64, n / 64 % 64, n % 64;
    Sixes(n);
    Sixes(n / 64);
    Quotients(n);
    assert n == 262144 * w + 4096 * x + 64 * y + z;
    assert w < 5 && w % 8 == w && (w == 0 ==> x >= 16);
    assert Utf8(n) == Some([0xF0 + w, 0x80 + x, 0x80 + y, 0x80 + z]);
  }

  lemma Quotients(n: nat)
    ensures n / 64 / 64 == n / 4096 && n / 64 / 4096 == n / 262144
  {
  }

  lemma Sixes(n: nat)
    ensures n == 4096 * (n / 4096) + 64 * (n / 64 % 64) + n % 64
  {
    Quotients(n);
  }

  lemma DigitsAre(c: char)
    requires c as nat < 128
    ensures AreDigits(Ascii([c])) <==> '0' <= c <= '9'
  {
    var w := Ascii([c]);
    assert w[0] == c as nat;
    assert AreDigits(w) <==> IsDigit(w[0]);
  }
}
