/** The numbers of section 6 of RFC 8259, spelled out in literals, and what they are read as. */
module NumberGrammar {
  import opened Bytes
  import opened Decimals
  import opened JsonNumber

  datatype ExponentText = ExponentText(mark: Byte, sign: Option<Byte>, digits: seq<Byte>)

  datatype Numeral = Numeral(negative: bool, whole: seq<Byte>, fraction: Option<seq<Byte>>, exponent: Option<ExponentText>)

  function FractionOf(n: Numeral): seq<Byte> {
    match n.fraction
    case None => []
    case Some(f) => f
  }

  /** Somewhat more than RFC 8259 allows: leading zeros, and no digits on one side of the point. */
  predicate IsNumeral(n: Numeral) {
    && AreDigits(n.whole) && AreDigits(FractionOf(n)) && n.whole + FractionOf(n) != []
    && (n.exponent.Some? ==>
          var e := n.exponent.value;
          (e.mark == 69 || e.mark == 101) && (e.sign == None || e.sign == Some(43) || e.sign == Some(45))
          && e.digits != [] && AreDigits(e.digits))
  }

  function SignText(negative: bool): seq<Byte> {
    if negative then [45] else []
  }

  function FractionText(fraction: Option<seq<Byte>>): seq<Byte> {
    match fraction
    case None => []
    case Some(f) => [46] + f
  }

  function ExponentBytes(exponent: Option<ExponentText>): seq<Byte> {
    match exponent
    case None => []
    case Some(e) => [e.mark] + (if e.sign.Some? then [e.sign.value] else []) + e.digits
  }

  function NumeralText(n: Numeral): seq<Byte> {
    SignText(n.negative) + (n.whole + (FractionText(n.fraction) + ExponentBytes(n.exponent)))
  }

  function ExponentValue(exponent: Option<ExponentText>): int
    requires exponent.Some? ==> AreDigits(exponent.value.digits)
  {
    match exponent
    case None => 0
    case Some(e) => if e.sign == Some(45) then 0 - DigitValue(e.digits) else DigitValue(e.digits)
  }

  function Over(n: nat, p: nat): real
    requires p > 0
  {
    n as real / p as real
  }

  /** `x` times ten to `e`. */
  function Tenfold(x: real, e: int): real {
    if e >= 0 then x * TenTo(e) as real else x / TenTo(-e) as real
  }

  /** The number that the digits on both sides of the point spell, over ten to as many as there are behind it, times ten to
      the exponent. */
  function NumeralValue(n: Numeral): real
    requires IsNumeral(n)
  {
    var digits := DigitValue(n.whole + FractionOf(n));
    var magnitude := Tenfold(Over(digits, TenTo(|FractionOf(n)|)), ExponentValue(n.exponent));
    if n.negative then -magnitude else magnitude
  }

  /** A byte that can be part of a number. */
  predicate NumberByte(b: Byte) {
    48 <= b <= 57 || b == 43 || b == 45 || b == 46 || b == 69 || b == 101
  }

  /** Nothing that could be more of the number. */
  predicate Ends(t: seq<Byte>) {
    t == [] || !NumberByte(t[0])
  }

  // ---- digits ----

  lemma SameTens(n: nat)
    ensures Pow10(n) == TenTo(n)
  {
  }

  lemma LastDigit(d: seq<Byte>)
    requires AreDigits(d) && d != []
    ensures DigitValue(d) == 10 * DigitValue(d[..|d| - 1]) + (d[|d| - 1] - 48)
  {
  }

  lemma {:induction false} Joined(a: seq<Byte>, f: seq<Byte>)
    requires AreDigits(a) && AreDigits(f)
    ensures AreDigits(a + f) && DigitValue(a + f) == DigitValue(a) * TenTo(|f|) + DigitValue(f)
  {
    hide DigitValue, TenTo;
    if f == [] {
      assert a + f == a;
      NothingSpelled();
    } else {
      var n := |f| - 1;
      Joined(a, f[..n]);
      assert (a + f)[..|a + f| - 1] == a + f[..n];
      LastDigit(a + f);
      LastDigit(f);
      TenfoldStep(DigitValue(a), n, DigitValue(f[..n]));
    }
  }

  lemma JoinedOver(a: nat, f: nat, p: nat, joined: nat)
    requires p > 0 && joined == a * p + f
    ensures a as real + f as real / p as real == Over(joined, p)
  {
    assert (a * p) as real == a as real * p as real;
  }

  // ---- reading ----

  lemma ExponentIsRead(e: ExponentText)
    requires IsNumeral(Numeral(false, [48], None, Some(e)))
    ensures Exponent(ExponentBytes(Some(e))) == (|ExponentBytes(Some(e))|, ExponentValue(Some(e)))
  {
    hide DigitRun, DigitCount, DigitValue;
    var s := ExponentBytes(Some(e));
    var t := s[1..];
    RunIsValue(e.digits, [], 0);
    assert e.digits + [] == e.digits;
    if e.sign.Some? {
      assert t == [e.sign.value] + e.digits && t[1..] == e.digits;
    } else {
      assert t == e.digits && t[0..] == t;
    }
  }

  /** `t` is `i` digits, perhaps a point and `f` digits that spell `fraction`, and `rest`. */
  predicate Parts(t: seq<Byte>, i: nat, point: bool, f: nat, fraction: nat, rest: seq<Byte>) {
    && DigitCount(t) == i
    && (point <==> i < |t| && t[i] == 46)
    && (point ==>
          && DigitCount(t[i + 1..]) == f && DigitRun(t[i + 1..], 0) == fraction
          && i + 1 + f <= |t| && t[i + 1 + f..] == rest)
    && (!point ==> f == fraction == 0 && i <= |t| && t[i..] == rest)
    && (f == 0 ==> fraction == 0)
  }

  lemma PointSplits(a: seq<Byte>, f: seq<Byte>, rest: seq<Byte>)
    ensures var t := a + ([46] + f + rest);
            && |a| < |t| && t[|a|] == 46 && t[|a| + 1..] == f + rest
            && |a| + 1 + |f| <= |t| && t[|a| + 1 + |f|..] == rest
  {
    var t := a + ([46] + f + rest);
    assert t == (a + [46]) + (f + rest);
    assert t == (a + [46] + f) + rest;
  }

  lemma WithPoint(a: seq<Byte>, f: seq<Byte>, rest: seq<Byte>)
    requires AreDigits(a) && AreDigits(f) && (rest != [] ==> rest[0] == 69 || rest[0] == 101)
    ensures var t := a + ([46] + f + rest);
            DigitRun(t, 0) == DigitValue(a) && Parts(t, |a|, true, |f|, DigitValue(f), rest)
  {
    hide DigitRun, DigitCount, DigitValue;
    PointSplits(a, f, rest);
    RunIsValue(a, [46] + f + rest, 0);
    RunIsValue(f, rest, 0);
    NothingSpelled();
    assert f == [] ==> DigitValue(f) == 0;
  }

  lemma WithoutPoint(a: seq<Byte>, rest: seq<Byte>)
    requires AreDigits(a) && (rest != [] ==> rest[0] == 69 || rest[0] == 101)
    ensures DigitRun(a + rest, 0) == DigitValue(a) && Parts(a + rest, |a|, false, 0, 0, rest)
  {
    hide DigitRun, DigitCount, DigitValue;
    RunIsValue(a, rest, 0);
    assert (a + rest)[|a|..] == rest;
  }

  lemma MantissaIsRead(a: seq<Byte>, fraction: Option<seq<Byte>>, f: seq<Byte>, rest: seq<Byte>)
    requires AreDigits(a) && AreDigits(f) && f == (if fraction.Some? then fraction.value else [])
    requires rest != [] ==> rest[0] == 69 || rest[0] == 101
    ensures var t := a + (FractionText(fraction) + rest);
            DigitRun(t, 0) == DigitValue(a) && Parts(t, |a|, fraction.Some?, |f|, DigitValue(f), rest)
  {
    hide DigitRun, DigitCount, DigitValue, Parts;
    if fraction.Some? {
      WithPoint(a, f, rest);
    } else {
      WithoutPoint(a, rest);
      NothingSpelled();
      assert FractionText(fraction) + rest == rest;
    }
  }

  /** `strtod` from its parts: the sign, the digits around the point, and the exponent. */
  lemma StrtodOfParts(s: seq<Byte>, t: seq<Byte>, i: nat, point: bool, f: nat, fraction: nat, rest: seq<Byte>)
    requires s[SignLength(s)..] == t && Parts(t, i, point, f, fraction, rest) && i + f > 0
    ensures Strtod(s) == (Signed(s, Scaled(DigitRun(t, 0) as real + fraction as real / Pow10(f) as real, Exponent(rest).1)),
                          SignLength(s) + (if point then i + 1 + f else i) + Exponent(rest).0)
  {
    hide DigitRun, DigitCount, Exponent, Scaled, Signed, Pow10;
  }

  lemma NumeralShape(n: Numeral)
    requires IsNumeral(n)
    ensures var s := NumeralText(n);
            && s[SignLength(s)..] == n.whole + (FractionText(n.fraction) + ExponentBytes(n.exponent))
            && SignLength(s) == (if n.negative then 1 else 0) && (s[0] == 45 <==> n.negative)
  {
    hide ExponentBytes;
    StartsUnsigned(n);
  }

  lemma TenfoldIsScaled(x: real, e: int)
    ensures Scaled(x, e) == Tenfold(x, e)
  {
    SameTens(if e >= 0 then e else -e);
  }

  lemma Magnitude(n: Numeral)
    requires IsNumeral(n)
    ensures var f := FractionOf(n); var s := NumeralText(n);
            Signed(s, Scaled(DigitValue(n.whole) as real + DigitValue(f) as real / Pow10(|f|) as real,
                             ExponentValue(n.exponent)))
            == NumeralValue(n)
  {
    hide NumeralText, ExponentValue, DigitValue, Scaled, Tenfold, Over, TenTo, Pow10;
    NumeralShape(n);
    TextIsThere(n);
    var f := FractionOf(n);
    Joined(n.whole, f);
    SameTens(|f|);
    JoinedOver(DigitValue(n.whole), DigitValue(f), TenTo(|f|), DigitValue(n.whole + f));
    TenfoldIsScaled(Over(DigitValue(n.whole + f), TenTo(|f|)), ExponentValue(n.exponent));
  }

  lemma StrtodIsValue(n: Numeral)
    requires IsNumeral(n)
    ensures Strtod(NumeralText(n)) == (NumeralValue(n), |NumeralText(n)|)
  {
    hide DigitRun, DigitCount, DigitValue, Exponent, ExponentBytes, ExponentValue, Scaled, Signed, Strtod, Parts, NumeralValue,
         SignLength;
    var s, rest, f := NumeralText(n), ExponentBytes(n.exponent), FractionOf(n);
    var t := n.whole + (FractionText(n.fraction) + rest);
    ExponentStarts(n.exponent);
    NumeralShape(n);
    MantissaIsRead(n.whole, n.fraction, f, rest);
    if n.exponent.Some? {
      ExponentIsRead(n.exponent.value);
    } else {
      NoExponent();
    }
    StrtodOfParts(s, t, |n.whole|, n.fraction.Some?, |f|, DigitValue(f), rest);
    Magnitude(n);
  }

  lemma NothingSpelled()
    ensures DigitValue([]) == 0 && TenTo(0) == 1
  {
  }

  lemma NoExponent()
    ensures Exponent(ExponentBytes(None)) == (0, 0) && ExponentBytes(None) == [] && ExponentValue(None) == 0
  {
  }

  lemma ExponentStarts(exponent: Option<ExponentText>)
    requires IsNumeral(Numeral(false, [48], None, exponent))
    ensures ExponentBytes(exponent) != [] ==> ExponentBytes(exponent)[0] == 69 || ExponentBytes(exponent)[0] == 101
  {
  }

  /** Behind the sign there is a digit or a point. */
  lemma StartsUnsigned(n: Numeral)
    requires IsNumeral(n)
    ensures var t := n.whole + (FractionText(n.fraction) + ExponentBytes(n.exponent)); t != [] && (48 <= t[0] <= 57 || t[0] == 46)
  {
    hide ExponentBytes;
    if n.whole == [] {
      assert n.fraction.Some?;
    }
  }

  lemma AllNumberBytes(n: Numeral)
    requires IsNumeral(n)
    ensures forall i :: 0 <= i < |NumeralText(n)| ==> InNumber(NumeralText(n)[i])
  {
  }

  /** A number of RFC 8259 is read as the value that its digits spell, and what follows is left alone. */
  lemma NumeralIsRead(n: Numeral, t: seq<Byte>)
    requires IsNumeral(n) && Ends(t)
    ensures Parse(NumeralText(n) + t) == Some((NumeralValue(n), t))
  {
    hide Strtod, NumeralText, NumeralValue, IsNumeral;
    var s := NumeralText(n);
    AllNumberBytes(n);
    RunOf(s, t);
    StrtodIsValue(n);
    TextIsThere(n);
    assert (s + t)[..|s|] == s && (s + t)[|s|..] == t;
  }

  lemma TextIsThere(n: Numeral)
    requires IsNumeral(n)
    ensures |NumeralText(n)| > 0
  {
    hide ExponentBytes;
    StartsUnsigned(n);
  }

  /** Text that starts, behind its sign, neither with a digit nor with a point and a digit. */
  predicate NoDigits(t: seq<Byte>) {
    t == [] || (!(48 <= t[0] <= 57) && (t[0] == 46 && |t| >= 2 ==> !(48 <= t[1] <= 57)))
  }

  lemma StrtodOfNothing(s: seq<Byte>)
    requires NoDigits(s[SignLength(s)..])
    ensures Strtod(s).1 == 0
  {
    hide Exponent, Scaled, Signed, Pow10, DigitRun;
    var t := s[SignLength(s)..];
    assert DigitCount(t) == 0;
    if t != [] && t[0] == 46 {
      assert |t| >= 2 ==> t[1..][0] == t[1];
      assert DigitCount(t[1..]) == 0;
    }
  }

  /** Without a digit behind the minus sign, or behind a point there, nothing is read. */
  lemma NoDigitsIsRefused(negative: bool, t: seq<Byte>)
    requires NoDigits(t) && (!negative && t != [] ==> t[0] != 43 && t[0] != 45)
    ensures Parse(SignText(negative) + t) == None
  {
    hide Strtod, NoDigits;
    var s := SignText(negative) + t;
    var n := RunLength(s);
    var text := s[..n];
    if text == [] {
      assert text[SignLength(text)..] == [];
      Nothing();
    } else {
      assert text[0] == s[0];
      var k := SignLength(text);
      assert k == |SignText(negative)|;
      assert s[k..] == t && text[k..] == t[..n - k];
      PrefixHasNone(t, n - k);
    }
    StrtodOfNothing(text);
  }

  lemma Nothing()
    ensures NoDigits([])
  {
  }

  lemma PrefixHasNone(t: seq<Byte>, n: nat)
    requires NoDigits(t) && n <= |t|
    ensures NoDigits(t[..n])
  {
  }

  // ---- printing ----

  /** A printed integer is a numeral that has its value: a sign if it is negative, and its digits. */
  lemma PrintedIsNumeral(n: int)
    ensures var numeral := Numeral(n < 0, Digits(if n < 0 then -n else n), None, None);
            IsNumeral(numeral) && IntText(n) == NumeralText(numeral) && NumeralValue(numeral) == n as real
  {
    hide DigitValue;
    var m := if n < 0 then -n else n;
    DigitsAreCanonical(m);
    var d := Digits(m);
    assert d + [] == d && d + ([] + []) == d;
    assert [45] + (d + ([] + [])) == [45] + d;
    assert TenTo(0) == 1;
    assert n < 0 ==> -(m as real) == n as real;
  }
}
