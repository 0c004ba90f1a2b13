/** Numbers of JSON texts: exactly which characters the parser takes for one, and what number it makes of them but for
    rounding (json.c:229-346). */
module JsonNumbers {
  import opened Collections
  import opened Machine
  import opened Json
  import opened JsonRoundTrip

  // ----- whole texts

  /** A number of RFC 8259, or a sign with a fraction or an exponent but no integer part. */
  predicate IsLoose(n: NumberText) {
    IsNumber(n) || (n.minus && n.whole == [] && (n.frac != [] || n.exp != []) && IsNumber(n.(whole := [0x30])))
  }

  lemma LooseRead(s: seq<Byte>, n: NumberText)
    requires IsLoose(n) && s == NumberBytes(n)
    ensures s != [] && StartsNumber(s[0]) && NumberEnd(s, 0) == Ok((), |s|)
  {
    hide NumberEnd, NumberBytes, StartsNumber;
    assert s[0..|s|] == s;
    if IsNumber(n) {
      NumberRead(s, 0, n);
    } else {
      NoWhole(s, n);
    }
  }

  lemma NoWhole(s: seq<Byte>, n: NumberText)
    requires IsLoose(n) && n.whole == [] && s == NumberBytes(n)
    ensures s != [] && StartsNumber(s[0]) && NumberEnd(s, 0) == Ok((), |s|)
  {
    hide FractionEnd, ExponentEnd, IntegerEnd, IsLoose, IsNumber, IsDigit, NumberStops;
    StartsWithSign(s, n);
    var rest := n.frac + (n.exp + n.expDigits);
    assert s == [0x2D] + rest;
    assert s[1..1 + |rest|] == rest;
    FractionRead(s, 1, n.(whole := [0x30]));
    NoIntegerPart(s);
  }

  lemma StartsWithSign(s: seq<Byte>, n: NumberText)
    requires IsLoose(n) && n.whole == [] && s == NumberBytes(n)
    ensures n.minus && IsNumber(n.(whole := [0x30])) && |s| > 1 && !IsDigit(s[1]) && NumberStops(s, |s|)
  {
    assert s == [0x2D] + (n.frac + (n.exp + n.expDigits));
    assert s[1] == if n.frac != [] then n.frac[0] else n.exp[0];
  }

  lemma NoIntegerPart(s: seq<Byte>)
    requires |s| > 1 && !IsDigit(s[1])
    ensures IntegerEnd(s, 1) == 1
  {
  }

  lemma WholePart(s: seq<Byte>, i: nat)
    requires i < |s|
    ensures var w := s[i..IntegerEnd(s, i)];
            && AreDigits(w) && (w != [] && w[0] == 0x30 ==> |w| == 1) && (w == [] ==> !IsDigit(s[i]))
  {
  }

  lemma FractionPart(s: seq<Byte>, j: nat)
    requires j <= |s| && FractionEnd(s, j).Ok?
    ensures var w := s[j..FractionEnd(s, j).next]; w != [] ==> w[0] == 0x2E && |w| > 1 && AreDigits(w[1..])
  {
  }

  /** Where the digits of an exponent begin. */
  function AfterSign(s: seq<Byte>, k: nat): (e: nat)
    requires k <= |s|
    ensures k <= e <= |s|
  {
    if k == |s| then k else if k + 1 < |s| && (s[k + 1] == 0x2B || s[k + 1] == 0x2D) then k + 2 else k + 1
  }

  lemma ExponentPart(s: seq<Byte>, k: nat)
    requires k <= |s| && ExponentEnd(s, k) == Ok((), |s|)
    ensures var w, d := s[k..AfterSign(s, k)], s[AfterSign(s, k)..];
            && AreDigits(d) && (w == [] ==> d == [])
            && (w != [] ==>
                  && (w[0] == 0x65 || w[0] == 0x45) && d != []
                  && (|w| == 1 || (|w| == 2 && (w[1] == 0x2B || w[1] == 0x2D))))
  {
  }

  /** The number that a text is, if it is taken as a whole. */
  lemma LooseParts(s: seq<Byte>) returns (n: NumberText)
    requires s != [] && StartsNumber(s[0]) && NumberEnd(s, 0) == Ok((), |s|)
    ensures IsLoose(n) && s == NumberBytes(n)
  {
    hide IntegerEnd, FractionEnd, ExponentEnd, AfterSign, AreDigits;
    var i := if s[0] == 0x2D then 1 else 0;
    var j := IntegerEnd(s, i);
    var k := FractionEnd(s, j).next;
    var e := AfterSign(s, k);
    WholePart(s, i);
    FractionPart(s, j);
    ExponentPart(s, k);
    n := NumberText(i == 1, s[i..j], s[j..k], s[k..e], s[e..]);
    Pieces(s, i, j, k, e);
    AreDigitsOfZero();
  }

  lemma Pieces(s: seq<Byte>, i: nat, j: nat, k: nat, e: nat)
    requires i <= j <= k <= e <= |s|
    ensures s == s[..i] + (s[i..j] + (s[j..k] + (s[k..e] + s[e..])))
    ensures i == 1 ==> s[..i] == [s[0]]
  {
    assert s[0..|s|] == s && s[e..|s|] == s[e..] && s[0..i] == s[..i];
    Cut(s, k, e, |s|);
    Cut(s, j, k, |s|);
    Cut(s, i, j, |s|);
    Cut(s, 0, i, |s|);
  }

  lemma AreDigitsOfZero()
    ensures AreDigits([0x30])
  {
  }

  /** A text that begins like a number is taken for one as a whole exactly if it is a number of RFC 8259, or a sign
      with a fraction or an exponent but no integer part. */
  lemma WholeTextIff(s: seq<Byte>)
    requires s != [] && StartsNumber(s[0])
    ensures NumberEnd(s, 0) == Ok((), |s|) <==> exists n: NumberText :: IsLoose(n) && s == NumberBytes(n)
  {
    hide NumberEnd, NumberBytes, StartsNumber, IsLoose;
    if NumberEnd(s, 0) == Ok((), |s|) {
      var n := LooseParts(s);
    }
    if n: NumberText :| IsLoose(n) && s == NumberBytes(n) {
      LooseRead(s, n);
    }
  }

  // ----- numbers inside a text

  /** A number as the parser takes it from a text: the integer part may be missing after a sign, and the digits of an
      exponent may be missing if anything at all follows. */
  predicate IsTaken(n: NumberText) {
    && AreDigits(n.whole) && (n.whole != [] && n.whole[0] == 0x30 ==> |n.whole| == 1) && (n.whole == [] ==> n.minus)
    && (n.frac != [] ==> n.frac[0] == 0x2E && |n.frac| > 1 && AreDigits(n.frac[1..]))
    && AreDigits(n.expDigits) && (n.exp == [] ==> n.expDigits == [])
    && (n.exp != [] ==>
          && (n.exp[0] == 0x65 || n.exp[0] == 0x45)
          && (|n.exp| == 1 || (|n.exp| == 2 && (n.exp[1] == 0x2B || n.exp[1] == 0x2D))))
  }

  predicate IsNext(s: seq<Byte>, k: nat, c: Byte) {
    k < |s| && s[k] == c
  }

  predicate DigitNext(s: seq<Byte>, k: nat) {
    k < |s| && IsDigit(s[k])
  }

  /** None of its parts could be longer or be there as well: j ends the integer part, k the fraction, e the letter and
      sign of the exponent, and end the whole. */
  predicate IsLongest(s: seq<Byte>, n: NumberText, j: nat, k: nat, e: nat, end: nat) {
    && (n.whole != [0x30] ==> !DigitNext(s, j))
    && (if n.frac == [] then !IsNext(s, j, 0x2E) else !DigitNext(s, k))
    && (if n.exp == [] then !IsNext(s, k, 0x65) && !IsNext(s, k, 0x45) else !DigitNext(s, end) && e < |s|)
    && (|n.exp| == 1 ==> !IsNext(s, e, 0x2B) && !IsNext(s, e, 0x2D))
    && (n.minus && n.whole == [] ==> j < |s|)
  }

  ghost predicate NumberLies(s: seq<Byte>, i: nat, n: NumberText, end: nat) {
    var j := i + |Minus(n)| + |n.whole|;
    var k := j + |n.frac|;
    var e := k + |n.exp|;
    && IsTaken(n) && end == e + |n.expDigits| <= |s| && s[i..end] == NumberBytes(n)
    && IsLongest(s, n, j, k, e, end)
  }

  lemma DigitsTaken(s: seq<Byte>, i: nat, ds: seq<Byte>)
    requires At(s, i, ds) && AreDigits(ds) && !DigitNext(s, i + |ds|)
    ensures DigitsEnd(s, i) == i + |ds|
  {
    DigitsRead(s, i, ds);
  }

  lemma FractionTaken(s: seq<Byte>, j: nat, w: seq<Byte>)
    requires At(s, j, w) && (w != [] ==> w[0] == 0x2E && |w| > 1 && AreDigits(w[1..]))
    requires if w == [] then !IsNext(s, j, 0x2E) else !DigitNext(s, j + |w|)
    ensures FractionEnd(s, j) == Ok((), j + |w|)
  {
    if w != [] {
      assert w == [w[0]] + w[1..];
      AtBoth(s, j, [w[0]], w[1..]);
      AtIndex(s, j, w, 0);
      AtIndex(s, j, w, 1);
      FirstIsDigit(w[1..]);
      DigitsTaken(s, j + 1, w[1..]);
    }
  }

  lemma ExponentTaken(s: seq<Byte>, k: nat, w: seq<Byte>, ds: seq<Byte>)
    requires At(s, k, w) && At(s, k + |w|, ds) && AreDigits(ds)
    requires w == [] ==> ds == [] && !IsNext(s, k, 0x65) && !IsNext(s, k, 0x45)
    requires w != [] ==>
      && (w[0] == 0x65 || w[0] == 0x45) && (|w| == 1 || (|w| == 2 && (w[1] == 0x2B || w[1] == 0x2D)))
      && !DigitNext(s, k + |w| + |ds|) && k + |w| < |s|
    requires |w| == 1 ==> !IsNext(s, k + 1, 0x2B) && !IsNext(s, k + 1, 0x2D)
    ensures ExponentEnd(s, k) == Ok((), k + |w| + |ds|)
  {
    if w != [] {
      AtIndex(s, k, w, 0);
      if |w| == 2 {
        AtIndex(s, k, w, 1);
      }
      DigitsTaken(s, k + |w|, ds);
    }
  }

  lemma WholeTaken(s: seq<Byte>, i: nat, w: seq<Byte>)
    requires i < |s| && At(s, i, w) && AreDigits(w) && (w != [] && w[0] == 0x30 ==> |w| == 1)
    requires w != [0x30] ==> !DigitNext(s, i + |w|)
    ensures IntegerEnd(s, i) == i + |w|
  {
    if w != [] {
      AtIndex(s, i, w, 0);
    }
    if w != [0x30] {
      DigitsTaken(s, i, w);
      assert w == [] ==> s[i] != 0x30;
    }
  }

  /** What lies at i is taken for a number up to end exactly if it is one in this sense and could not be longer. */
  lemma TakenIff(s: seq<Byte>, i: nat, end: nat)
    requires i < |s| && StartsNumber(s[i])
    ensures NumberEnd(s, i) == Ok((), end) <==> exists n :: NumberLies(s, i, n, end)
  {
    hide NumberLies, NumberEnd;
    if NumberEnd(s, i) == Ok((), end) {
      TakenLies(s, i, end);
    }
    if n :| NumberLies(s, i, n, end) {
      LyingIsTaken(s, i, n, end);
    }
  }

  lemma LyingIsTaken(s: seq<Byte>, i: nat, n: NumberText, end: nat)
    requires i < |s| && StartsNumber(s[i]) && NumberLies(s, i, n, end)
    ensures NumberEnd(s, i) == Ok((), end)
  {
    hide IntegerEnd, FractionEnd, ExponentEnd, AreDigits, At, IsDigit, DigitNext, IsNext, NumberBytes, NumberEnd;
    var a := i + |Minus(n)|;
    var j := a + |n.whole|;
    NumberPieces(s, i, n, end);
    SignDecides(s, i, n);
    WholeTaken(s, a, n.whole);
    FractionTaken(s, j, n.frac);
    ExponentTaken(s, j + |n.frac|, n.exp, n.expDigits);
    EndFromParts(s, i, a, j, j + |n.frac|, end);
  }

  lemma EndFromParts(s: seq<Byte>, i: nat, a: nat, j: nat, k: nat, end: nat)
    requires i < |s| && StartsNumber(s[i]) && a == (if s[i] == 0x2D then i + 1 else i) < |s|
    requires IntegerEnd(s, a) == j && FractionEnd(s, j) == Ok((), k) && ExponentEnd(s, k) == Ok((), end)
    ensures NumberEnd(s, i) == Ok((), end)
  {
    hide IntegerEnd, FractionEnd, ExponentEnd;
  }

  lemma NumberPieces(s: seq<Byte>, i: nat, n: NumberText, end: nat)
    requires i <= end <= |s| && s[i..end] == NumberBytes(n)
    ensures var a := i + |Minus(n)|;
            var b := a + |n.whole|;
            var c := b + |n.frac|;
            && At(s, i, Minus(n)) && At(s, a, n.whole) && At(s, b, n.frac) && At(s, c, n.exp) && At(s, c + |n.exp|, n.expDigits)
  {
    hide At, Minus;
    AtIs(s, i, end, NumberBytes(n));
    AtBoth(s, i, Minus(n), n.whole + (n.frac + (n.exp + n.expDigits)));
    AtBoth(s, i + |Minus(n)|, n.whole, n.frac + (n.exp + n.expDigits));
    AtBoth(s, i + |Minus(n)| + |n.whole|, n.frac, n.exp + n.expDigits);
    AtBoth(s, i + |Minus(n)| + |n.whole| + |n.frac|, n.exp, n.expDigits);
  }

  lemma AtIs(s: seq<Byte>, i: nat, end: nat, text: seq<Byte>)
    requires i <= end <= |s| && s[i..end] == text
    ensures At(s, i, text)
  {
  }

  lemma SignDecides(s: seq<Byte>, i: nat, n: NumberText)
    requires i < |s| && At(s, i, Minus(n)) && At(s, i + |Minus(n)|, n.whole) && IsTaken(n)
    requires n.minus && n.whole == [] ==> i + 1 < |s|
    ensures s[i] == 0x2D <==> n.minus
    ensures i + |Minus(n)| < |s| && |Minus(n)| == if n.minus then 1 else 0
  {
    if n.minus {
      AtIndex(s, i, [0x2D], 0);
    } else {
      AtIndex(s, i, n.whole, 0);
      FirstIsDigit(n.whole);
    }
    if n.whole != [] {
      AtIndex(s, i + |Minus(n)|, n.whole, 0);
    }
  }

  /** The parts of what is taken, after a sign that ends at a. */
  function Taken(s: seq<Byte>, i: nat, a: nat, end: nat): (n: NumberText)
    requires i <= a <= i + 1 && a < |s| && FractionEnd(s, IntegerEnd(s, a)).Ok?
    requires SignEnd(s, FractionEnd(s, IntegerEnd(s, a)).next) <= end <= |s|
  {
    var j := IntegerEnd(s, a);
    var k := FractionEnd(s, j).next;
    NumberText(a == i + 1, s[a..j], s[j..k], s[k..SignEnd(s, k)], s[SignEnd(s, k)..end])
  }

  function AfterMinus(s: seq<Byte>, i: nat): nat
    requires i < |s|
  {
    if s[i] == 0x2D then i + 1 else i
  }

  lemma EndsOfParts(s: seq<Byte>, i: nat, end: nat)
    requires i < |s| && StartsNumber(s[i]) && NumberEnd(s, i).Ok? && NumberEnd(s, i).next == end
    ensures var a := AfterMinus(s, i);
            && a < |s| && FractionEnd(s, IntegerEnd(s, a)).Ok?
            && var k := FractionEnd(s, IntegerEnd(s, a)).next; ExponentEnd(s, k).Ok? && ExponentEnd(s, k).next == end
  {
    hide IntegerEnd, FractionEnd, ExponentEnd;
  }

  /** How the parts of what is taken at i end. */
  predicate PartsEnd(s: seq<Byte>, i: nat, a: nat, j: nat, k: nat, e: nat, end: nat) {
    && i < |s| && StartsNumber(s[i]) && NumberEnd(s, i).Ok? && NumberEnd(s, i).next == end
    && a == AfterMinus(s, i) < |s| && j == IntegerEnd(s, a) && FractionEnd(s, j).Ok? && FractionEnd(s, j).next == k
    && ExponentEnd(s, k).Ok? && ExponentEnd(s, k).next == end && e == SignEnd(s, k) <= end
  }

  lemma TakenIsTaken(s: seq<Byte>, i: nat, a: nat, j: nat, k: nat, e: nat, end: nat)
    requires PartsEnd(s, i, a, j, k, e, end)
    ensures IsTaken(NumberText(a == i + 1, s[a..j], s[j..k], s[k..e], s[e..end]))
  {
    hide IntegerEnd, FractionEnd, ExponentEnd, AreDigits, IsDigit, DigitNext, IsNext, SignEnd, NumberEnd;
    WholeStops(s, a);
    FractionStops(s, j);
    ExponentStops(s, k);
    StartsOtherwise(s[i]);
  }

  lemma TakenIsLongest(s: seq<Byte>, i: nat, a: nat, j: nat, k: nat, e: nat, end: nat)
    requires PartsEnd(s, i, a, j, k, e, end)
    ensures IsLongest(s, NumberText(a == i + 1, s[a..j], s[j..k], s[k..e], s[e..end]), j, k, e, end)
  {
    hide IntegerEnd, FractionEnd, ExponentEnd, AreDigits, IsDigit, DigitNext, IsNext, SignEnd, NumberEnd;
    WholeStops(s, a);
    FractionStops(s, j);
    ExponentStops(s, k);
  }

  lemma TakenLies(s: seq<Byte>, i: nat, end: nat)
    requires i < |s| && StartsNumber(s[i]) && NumberEnd(s, i).Ok? && NumberEnd(s, i).next == end
    ensures var a := AfterMinus(s, i);
            && a < |s| && FractionEnd(s, IntegerEnd(s, a)).Ok?
            && SignEnd(s, FractionEnd(s, IntegerEnd(s, a)).next) <= end <= |s|
            && NumberLies(s, i, Taken(s, i, a, end), end)
  {
    hide IntegerEnd, FractionEnd, ExponentEnd, AreDigits, IsDigit, DigitNext, IsNext, SignEnd, NumberEnd, IsTaken,
      IsLongest;
    EndsOfParts(s, i, end);
    var a := AfterMinus(s, i);
    var j := IntegerEnd(s, a);
    var k := FractionEnd(s, j).next;
    var e := SignEnd(s, k);
    ExponentStops(s, k);
    TakenIsTaken(s, i, a, j, k, e, end);
    TakenIsLongest(s, i, a, j, k, e, end);
    FivePieces(s, i, a, j, k, e, end);
  }

  lemma StartsOtherwise(c: Byte)
    requires StartsNumber(c)
    ensures c == 0x2D || IsDigit(c)
  {
  }

  lemma FivePieces(s: seq<Byte>, i: nat, a: nat, j: nat, k: nat, e: nat, end: nat)
    requires i <= a <= j <= k <= e <= end <= |s|
    ensures s[i..end] == s[i..a] + (s[a..j] + (s[j..k] + (s[k..e] + s[e..end])))
    ensures a == i ==> s[i..a] == []
    ensures a == i + 1 ==> s[i..a] == [s[i]]
  {
    Cut(s, k, e, end);
    Cut(s, j, k, end);
    Cut(s, a, j, end);
    Cut(s, i, a, end);
  }

  lemma Cut(s: seq<Byte>, i: nat, j: nat, k: nat)
    requires i <= j <= k <= |s|
    ensures s[i..k] == s[i..j] + s[j..k]
  {
  }

  /** Where the digits of an exponent begin, if there is one. */
  function SignEnd(s: seq<Byte>, k: nat): (e: nat)
    requires k <= |s|
    ensures k <= e <= |s|
  {
    if !IsNext(s, k, 0x65) && !IsNext(s, k, 0x45) then k
    else if IsNext(s, k + 1, 0x2B) || IsNext(s, k + 1, 0x2D) then k + 2
    else k + 1
  }

  lemma WholeStops(s: seq<Byte>, i: nat)
    requires i < |s|
    ensures var w := s[i..IntegerEnd(s, i)];
            && AreDigits(w) && (w != [] && w[0] == 0x30 ==> |w| == 1) && (w == [] ==> !IsDigit(s[i]))
            && (w != [0x30] ==> !DigitNext(s, IntegerEnd(s, i)))
  {
  }

  lemma FractionStops(s: seq<Byte>, j: nat)
    requires j <= |s| && FractionEnd(s, j).Ok?
    ensures var k := FractionEnd(s, j).next;
            var w := s[j..k];
            && (w != [] ==> w[0] == 0x2E && |w| > 1 && AreDigits(w[1..]))
            && (if w == [] then !IsNext(s, j, 0x2E) else !DigitNext(s, k))
  {
  }

  lemma ExponentStops(s: seq<Byte>, k: nat)
    requires k <= |s| && ExponentEnd(s, k).Ok?
    ensures var e, end := SignEnd(s, k), ExponentEnd(s, k).next;
            var w := s[k..e];
            && e <= end && AreDigits(s[e..end]) && (w == [] ==> end == e)
            && (w != [] ==>
                  && (w[0] == 0x65 || w[0] == 0x45) && (|w| == 1 || (|w| == 2 && (w[1] == 0x2B || w[1] == 0x2D)))
                  && !DigitNext(s, end) && e < |s|)
            && (w == [] ==> !IsNext(s, k, 0x65) && !IsNext(s, k, 0x45))
            && (|w| == 1 ==> !IsNext(s, e, 0x2B) && !IsNext(s, e, 0x2D))
  {
  }

  // ----- values

  /** The number that decimal digits denote. */
  function Decimal(ds: seq<Byte>): int
    decreases |ds|
  {
    if ds == [] then 0 else Decimal(ds[..|ds| - 1]) * 10 + (ds[|ds| - 1] as int - '0' as int)
  }

  /** The digits of a number. */
  function Digits(n: nat): (ds: seq<Byte>) {
    if n < 10 then ['0' as nat + n] else Digits(n / 10) + ['0' as nat + n % 10]
  }

  lemma {:induction false} DigitsDenote(n: nat)
    ensures AreDigits(Digits(n)) && Decimal(Digits(n)) == n
    decreases n
  {
    var ds := Digits(n);
    if n < 10 {
      assert ds[..0] == [] && Decimal([]) == 0;
    } else {
      DigitsDenote(n / 10);
      assert ds[..|ds| - 1] == Digits(n / 10);
    }
  }

  /** 0.1 to the power of n. */
  function Tenths(n: nat): real {
    if n == 0 then 1.0 else Tenths(n - 1) * 0.1
  }

  function Tens(n: nat): real {
    if n == 0 then 1.0 else Tens(n - 1) * 10.0
  }

  function Power(e: int): real {
    if e >= 0 then Tens(e) else Tenths(-e)
  }

  /** The digits of a fraction, without its dot. */
  function FractionDigits(frac: seq<Byte>): seq<Byte> {
    if frac == [] then [] else frac[1..]
  }

  predicate IsNegative(exp: seq<Byte>) {
    |exp| == 2 && exp[1] == '-' as nat
  }

  /** What stands before the exponent, and the exponent. */
  function Mantissa(n: NumberText): real {
    var f := FractionDigits(n.frac);
    Decimal(n.whole) as real + Decimal(f) as real * Tenths(|f|)
  }

  function Exponent(n: NumberText): int {
    if IsNegative(n.exp) then -Decimal(n.expDigits) else Decimal(n.expDigits)
  }

  /** The number that a text denotes. */
  function Denoted(n: NumberText): real {
    var x := Mantissa(n) * Power(Exponent(n));
    if n.minus then -x else x
  }

  /** The parts of a text that was taken for a number. */
  function Split(text: seq<Byte>): NumberText
    requires text != []
  {
    var a := AfterMinus(text, 0);
    var j := DigitsEnd(text, a);
    var k := if IsNext(text, j, 0x2E) then DigitsEnd(text, j + 1) else j;
    var e := SignEnd(text, k);
    NumberText(a == 1, text[a..j], text[j..k], text[k..e], text[e..])
  }

  /** The number that such a text denotes. */
  function NumberValue(text: seq<Byte>): real {
    if text == [] then 0.0 else Denoted(Split(text))
  }

  lemma PartEnds(s: seq<Byte>, i: nat, w: seq<Byte>, rest: seq<Byte>)
    requires At(s, i, w + rest) && i + |w + rest| == |s| && AreDigits(w) && (rest == [] || !IsDigit(rest[0]))
    ensures DigitsEnd(s, i) == i + |w|
  {
    hide At;
    AtBoth(s, i, w, rest);
    if rest != [] {
      AtIndex(s, i + |w|, rest, 0);
    }
    DigitsRead(s, i, w);
  }

  lemma TailsLie(s: seq<Byte>, n: NumberText)
    requires s == NumberBytes(n)
    ensures var a := |Minus(n)|;
            var j := a + |n.whole|;
            var k := j + |n.frac|;
            && At(s, 0, Minus(n)) && At(s, a, n.whole + (n.frac + (n.exp + n.expDigits)))
            && At(s, j, n.frac + (n.exp + n.expDigits)) && At(s, k, n.exp + n.expDigits) && |s| == k + |n.exp| + |n.expDigits|
  {
    hide At, Minus;
    assert s[0..|s|] == s;
    AtIs(s, 0, |s|, s);
    AtBoth(s, 0, Minus(n), n.whole + (n.frac + (n.exp + n.expDigits)));
    AtBoth(s, |Minus(n)|, n.whole, n.frac + (n.exp + n.expDigits));
    AtBoth(s, |Minus(n)| + |n.whole|, n.frac, n.exp + n.expDigits);
  }

  /** What may follow an integer part or a fraction. */
  lemma ExponentStarts(n: NumberText)
    requires IsTaken(n)
    ensures var t := n.exp + n.expDigits; t == [] || t[0] == 0x65 || t[0] == 0x45
    ensures var t := n.frac + (n.exp + n.expDigits); t == [] || t[0] == 0x2E || t[0] == 0x65 || t[0] == 0x45
    ensures n.frac != [] ==> n.frac[0] == 0x2E
    ensures n.frac == [] ==> n.frac + (n.exp + n.expDigits) == n.exp + n.expDigits
  {
    hide AreDigits;
    var t, u := n.exp + n.expDigits, n.frac + (n.exp + n.expDigits);
    assert n.exp != [] ==> t[0] == n.exp[0];
    assert n.frac != [] ==> u[0] == n.frac[0];
    assert n.frac == [] ==> u == t;
  }

  lemma SplitWhole(s: seq<Byte>, n: NumberText)
    requires IsTaken(n) && s == NumberBytes(n)
    ensures s != [] && AfterMinus(s, 0) == |Minus(n)| && DigitsEnd(s, |Minus(n)|) == |Minus(n)| + |n.whole|
  {
    hide At, DigitsEnd, NumberBytes;
    TailsLie(s, n);
    ExponentStarts(n);
    var tail := n.frac + (n.exp + n.expDigits);
    PartEnds(s, |Minus(n)|, n.whole, tail);
    if n.minus {
      AtIndex(s, 0, [0x2D], 0);
    } else {
      AtIndex(s, 0, n.whole + tail, 0);
      FirstIsDigit(n.whole);
    }
  }

  lemma SplitFraction(s: seq<Byte>, n: NumberText, j: nat)
    requires IsTaken(n) && s == NumberBytes(n) && j == |Minus(n)| + |n.whole|
    ensures j <= |s| && (IsNext(s, j, 0x2E) <==> n.frac != [])
    ensures n.frac != [] ==> j + 1 <= |s| && DigitsEnd(s, j + 1) == j + |n.frac|
  {
    hide At, DigitsEnd, NumberBytes, Minus;
    TailsLie(s, n);
    ExponentStarts(n);
    var t := n.exp + n.expDigits;
    AtFits(s, j, n.frac + t);
    if n.frac + t != [] {
      AtIndex(s, j, n.frac + t, 0);
    }
    if n.frac != [] {
      var ds := n.frac[1..];
      assert n.frac + t == [n.frac[0]] + (ds + t);
      AtBoth(s, j, [n.frac[0]], ds + t);
      PartEnds(s, j + 1, ds, t);
    }
  }

  lemma AtFits(s: seq<Byte>, i: nat, text: seq<Byte>)
    requires At(s, i, text)
    ensures i + |text| <= |s|
  {
  }

  lemma SplitExponent(s: seq<Byte>, n: NumberText, k: nat)
    requires IsTaken(n) && s == NumberBytes(n) && k == |Minus(n)| + |n.whole| + |n.frac|
    ensures k <= |s| && SignEnd(s, k) == k + |n.exp|
  {
    hide At, NumberBytes, Minus;
    TailsLie(s, n);
    var t := n.exp + n.expDigits;
    AtFits(s, k, t);
    if n.exp != [] {
      AtIndex(s, k, t, 0);
      if |t| > 1 {
        AtIndex(s, k, t, 1);
      }
      if |n.exp| == 1 && n.expDigits != [] {
        FirstIsDigit(n.expDigits);
        assert t[1] == n.expDigits[0];
      }
    }
  }

  lemma PartsLie(s: seq<Byte>, n: NumberText)
    requires s == NumberBytes(n)
    ensures var a := |Minus(n)|;
            var j := a + |n.whole|;
            var k := j + |n.frac|;
            var e := k + |n.exp|;
            e <= |s| && s[a..j] == n.whole && s[j..k] == n.frac && s[k..e] == n.exp && s[e..] == n.expDigits
  {
    assert s[0..|s|] == s;
    NumberPieces(s, 0, n, |s|);
  }

  /** Splitting undoes putting together, so a text is one number only. */
  lemma SplitIs(n: NumberText)
    requires IsTaken(n)
    ensures NumberBytes(n) != [] && Split(NumberBytes(n)) == n
    ensures NumberValue(NumberBytes(n)) == Denoted(n)
  {
    hide DigitsEnd, Denoted, AreDigits, NumberBytes, SignEnd, IsNext, IsTaken, AfterMinus;
    var s := NumberBytes(n);
    var j := |Minus(n)| + |n.whole|;
    SplitWhole(s, n);
    SplitFraction(s, n, j);
    SplitExponent(s, n, j + |n.frac|);
    PartsLie(s, n);
  }

  /** The bits of a number, for some way of rounding. */
  function Rounded(encode: real -> Bits): Doubles {
    text => encode(NumberValue(text))
  }

  lemma {:induction false} TenthsUndoTens(n: nat)
    ensures Tens(n) * Tenths(n) == 1.0
  {
    if n > 0 {
      TenthsUndoTens(n - 1);
      var t, u := Tens(n - 1), Tenths(n - 1);
      assert (t * 10.0) * (u * 0.1) == t * u;
    }
  }

  /** An integer denotes itself. */
  lemma IntegerDenotes(n: nat)
    ensures Denoted(NumberText(false, Digits(n), [], [], [])) == n as real
  {
    DigitsDenote(n);
    assert Decimal([]) == 0 && Power(0) == 1.0;
  }

  /** A digit behind the dot counts a tenth of the one before. */
  lemma PlaceDenotes(n: NumberText, d: nat)
    requires d < 10 && n.frac != []
    ensures Mantissa(n.(frac := n.frac + ['0' as nat + d])) == Mantissa(n) + d as real * Tenths(|n.frac|)
    ensures Mantissa(n.(frac := ['.' as nat])) == Decimal(n.whole) as real
  {
    hide Tenths, Decimal;
    OneMoreDigit(n.frac, d);
    PlaceNext(Decimal(n.frac[1..]), d, |n.frac| - 1);
    NoDigits();
  }

  lemma NoDigits()
    ensures Decimal([]) == 0
  {
  }

  /** An exponent counts powers of ten, with a minus of a tenth. */
  lemma ExponentDenotes(n: NumberText, e: nat)
    ensures Exponent(n.(exp := [], expDigits := [])) == 0
    ensures Exponent(n.(exp := ['e' as nat], expDigits := Digits(e))) == e
    ensures Exponent(n.(exp := ['e' as nat, '+' as nat], expDigits := Digits(e))) == e
    ensures Exponent(n.(exp := ['e' as nat, '-' as nat], expDigits := Digits(e))) == -(e as int)
  {
    hide Decimal, Digits;
    DigitsDenote(e);
    NoDigits();
  }

  lemma OneMoreDigit(frac: seq<Byte>, d: nat)
    requires d < 10 && frac != []
    ensures var more := frac + ['0' as nat + d];
            more[1..] == frac[1..] + ['0' as nat + d] && Decimal(more[1..]) == Decimal(frac[1..]) * 10 + d
  {
    var more := frac + ['0' as nat + d];
    assert more[1..] == frac[1..] + ['0' as nat + d];
    assert more[1..][..|frac| - 1] == frac[1..];
  }

  /** In a document every number is kept as the one it denotes, rounded. */
  lemma RoundedIs(encode: real -> Bits, n: NumberText)
    requires IsNumber(n)
    ensures Rounded(encode)(NumberBytes(n)) == encode(Denoted(n))
  {
    hide Denoted, NumberValue;
    SplitIs(n);
  }

  // ----- adding up digits

  lemma DecimalNext(s: seq<Byte>, a: nat, m: nat)
    requires a <= m < |s|
    ensures Decimal(s[a..m + 1]) == Decimal(s[a..m]) * 10 + (s[m] as int - '0' as int)
  {
    var ds := s[a..m + 1];
    assert ds[..|ds| - 1] == s[a..m];
  }

  lemma DecimalNone(s: seq<Byte>, a: nat)
    requires a <= |s|
    ensures Decimal(s[a..a]) == 0
  {
  }

  lemma PlaceNext(d: int, digit: int, n: nat)
    ensures (d * 10 + digit) as real * Tenths(n + 1) == d as real * Tenths(n) + digit as real * Tenths(n + 1)
    ensures Tenths(n + 1) == Tenths(n) * 0.1
  {
    var t := Tenths(n);
    assert (d * 10 + digit) as real == d as real * 10.0 + digit as real;
    assert (d as real * 10.0 + digit as real) * (t * 0.1) == d as real * t + digit as real * (t * 0.1);
  }

  lemma FirstPlace()
    ensures Tenths(0) == 1.0 && Tenths(1) == 0.1
  {
  }

  lemma ZeroIs(s: seq<Byte>, i: nat)
    requires i < |s| && s[i] == 0x30
    ensures Decimal(s[i..i + 1]) == 0
  {
    DecimalNext(s, i, i);
  }

  /** A fraction has been added. */
  predicate WithPlaces(m: real, frac: seq<Byte>, sum: real) {
    var ds := FractionDigits(frac);
    sum == m + Decimal(ds) as real * Tenths(|ds|)
  }

  /** An exponent has been applied. */
  predicate WithPower(f: real, exp: seq<Byte>, ds: seq<Byte>, product: real) {
    product == f * Power(if IsNegative(exp) then -Decimal(ds) else Decimal(ds))
  }

  lemma NoPlaces(s: seq<Byte>, i: nat, m: real)
    requires i <= |s|
    ensures WithPlaces(m, s[i..i], m)
  {
  }

  lemma NoPower(s: seq<Byte>, i: nat, f: real)
    requires i <= |s|
    ensures SignEnd(s, i) == i ==> WithPower(f, s[i..i], s[i..i], f)
  {
  }

  /** What was added up is the number denoted. */
  lemma AddedUp(s: seq<Byte>, i: nat, end: nat, a: nat, j: nat, k: nat, m: real, f: real, x: real)
    requires i < |s| && StartsNumber(s[i]) && NumberEnd(s, i).Ok? && NumberEnd(s, i).next == end
    requires a == AfterMinus(s, i) < |s| && j == IntegerEnd(s, a) && FractionEnd(s, j).Ok? && FractionEnd(s, j).next == k
    requires SignEnd(s, k) <= end <= |s|
    requires m == Decimal(s[a..j]) as real && WithPlaces(m, s[j..k], f)
    requires WithPower(f, s[k..SignEnd(s, k)], s[SignEnd(s, k)..end], x)
    ensures NumberValue(s[i..end]) == if s[i] == 0x2D then -x else x
  {
    hide IntegerEnd, FractionEnd, ExponentEnd, NumberEnd, NumberLies, Split, SignEnd, Power, Tenths, IsNegative,
      FractionDigits, NumberValue, NumberBytes, Decimal;
    TakenLies(s, i, end);
    var n := Taken(s, i, a, end);
    LiesIs(s, i, n, end);
    SplitIs(n);
  }

  lemma LiesIs(s: seq<Byte>, i: nat, n: NumberText, end: nat)
    requires NumberLies(s, i, n, end)
    ensures i <= end <= |s| && IsTaken(n) && s[i..end] == NumberBytes(n)
  {
    hide IsTaken, IsLongest;
  }
}
