/** JSON numbers as cJSON reads and prints them, over exact reals. */
module JsonNumber {
  import opened Bytes
  import opened Decimals

  const INT_MAX: int := 0x7FFF_FFFF
  const INT_MIN: int := -0x8000_0000
  const PLUS: Byte := 43
  const MINUS: Byte := 45
  const POINT: Byte := 46

  predicate IsExponentMark(b: Byte) {
    b == 69 || b == 101
  }

  /** The characters that the number parser collects before it converts them. */
  predicate InNumber(b: Byte) {
    IsDigit(b) || b == PLUS || b == MINUS || b == POINT || IsExponentMark(b)
  }

  function RunLength(s: seq<Byte>): (n: nat)
    ensures n <= |s|
    ensures forall i :: 0 <= i < n ==> InNumber(s[i])
    ensures n < |s| ==> !InNumber(s[n])
  {
    if s != [] && InNumber(s[0]) then 1 + RunLength(s[1..]) else 0
  }

  function Pow10(n: nat): (p: nat)
    ensures p >= 1
  {
    if n == 0 then 1 else 10 * Pow10(n - 1)
  }

  function SignLength(s: seq<Byte>): (n: nat)
    ensures n <= 1 && n <= |s|
  {
    if s != [] && (s[0] == PLUS || s[0] == MINUS) then 1 else 0
  }

  function Signed(s: seq<Byte>, magnitude: real): real {
    if s != [] && s[0] == MINUS then -magnitude else magnitude
  }

  /** An exponent part, if there is a complete one: its length and value. */
  function Exponent(s: seq<Byte>): (r: (nat, int))
    ensures r.0 <= |s|
  {
    if s == [] || !IsExponentMark(s[0]) then (0, 0)
    else
      var t := s[1..];
      var k := SignLength(t);
      var n := DigitCount(t[k..]);
      if n == 0 then (0, 0)
      else (1 + k + n, if k == 1 && t[0] == MINUS then 0 - DigitRun(t[k..], 0) else DigitRun(t[k..], 0))
  }

  function Scaled(x: real, e: int): real {
    if e >= 0 then x * Pow10(e) as real else x / Pow10(-e) as real
  }

  /** C's `strtod` on characters of a number: the value of the longest prefix that is a decimal number, and the length of
      that prefix, which is 0 when there is none. */
  function Strtod(s: seq<Byte>): (r: (real, nat))
    ensures r.1 <= |s|
  {
    var k := SignLength(s);
    var t := s[k..];
    var i := DigitCount(t);
    var whole := DigitRun(t, 0) as real;
    var f := if i < |t| && t[i] == POINT then DigitCount(t[i + 1..]) else 0;
    if i + f == 0 then (0.0, 0)
    else
      var fraction := if f == 0 then 0.0 else DigitRun(t[i + 1..], 0) as real / Pow10(f) as real;
      var m := if i < |t| && t[i] == POINT then i + 1 + f else i;
      var e := Exponent(t[m..]);
      (Signed(s, Scaled(whole + fraction, e.1)), k + m + e.0)
  }

  /** A number at the start of `s`: its value and what follows. */
  function Parse(s: seq<Byte>): (r: Option<(real, seq<Byte>)>)
    ensures r.Some? ==> |r.value.1| < |s|
  {
    var n := Strtod(s[..RunLength(s)]);
    if n.1 == 0 then None else Some((n.0, s[n.1..]))
  }

  /** Parses the number at `offset`. */
  method ParseNumber(content: seq<Byte>, offset: nat) returns (number: Option<real>, next: nat)
    requires offset <= |content|
    ensures match Parse(content[offset..])
            case None => number == None
            case Some(r) => number == Some(r.0) && next <= |content| && content[next..] == r.1
  {
    hide Strtod;
    var length := 0;
    while offset + length < |content| && InNumber(content[offset + length])
      invariant offset + length <= |content|
      invariant RunLength(content[offset..]) == length + RunLength(content[offset + length..])
    {
      assert content[offset + length..][1..] == content[offset + length + 1..];
      length := length + 1;
    }
    var text := content[offset..offset + length];
    assert RunLength(content[offset + length..]) == 0;
    assert content[offset..][..length] == text;
    var n := Strtod(text);
    if n.1 == 0 {
      return None, offset;
    }
    return Some(n.0), offset + n.1;
  }

  // ---- printing ----

  /** The `valueint` that goes with a number: truncated toward zero and saturated. */
  function ValueInt(x: real): (n: int)
    ensures INT_MIN <= n <= INT_MAX
  {
    if x >= INT_MAX as real then INT_MAX
    else if x <= INT_MIN as real then INT_MIN
    else if x >= 0.0 then x.Floor
    else -((-x).Floor)
  }

  /** The numbers that are printed as integers. */
  predicate IsIntRange(x: real) {
    x == ValueInt(x) as real
  }

  lemma IntRange(n: int)
    requires -2147483648 <= n <= 2147483647
    ensures ValueInt(n as real) == n && IsIntRange(n as real)
  {
    assert (-n) as real == -(n as real);
  }

  /** A number is truncated toward zero and held to 32 bits; so it equals its integer exactly when it is a 32-bit integer. */
  lemma ValueIntIs(x: real)
    ensures x >= 2147483647.0 ==> ValueInt(x) == 2147483647
    ensures x <= -2147483648.0 ==> ValueInt(x) == -2147483648
    ensures 0.0 <= x < 2147483647.0 ==> ValueInt(x) as real <= x < ValueInt(x) as real + 1.0
    ensures -2147483648.0 < x <= 0.0 ==> ValueInt(x) as real - 1.0 < x <= ValueInt(x) as real
    ensures IsIntRange(x) <==> -2147483648.0 <= x <= 2147483647.0 && x.Floor as real == x
  {
    assert -((-x).Floor) as real == -((-x).Floor as real);
  }

  /** printf's `%d`. */
  function IntText(n: int): (s: seq<Byte>)
    ensures s != [] && (s[0] == MINUS || IsDigit(s[0]))
    ensures forall i :: 0 <= i < |s| ==> InNumber(s[i])
  {
    if n < 0 then [MINUS] + Digits(-n) else Digits(n)
  }

  lemma {:induction false} RunOf(s: seq<Byte>, t: seq<Byte>)
    requires (forall i :: 0 <= i < |s| ==> InNumber(s[i])) && (t != [] ==> !InNumber(t[0]))
    ensures RunLength(s + t) == |s|
  {
    if s == [] {
      assert s + t == t;
    } else {
      RunOf(s[1..], t);
      assert (s + t)[1..] == s[1..] + t;
    }
  }

  lemma Unscaled(x: real)
    ensures Scaled(x, 0) == x
  {
    assert Pow10(0) as real == 1.0;
  }

  /** A sign, if any, and digits only. */
  lemma StrtodOfInteger(s: seq<Byte>, d: seq<Byte>)
    requires d != [] && DigitCount(d) == |d| && s[SignLength(s)..] == d
    ensures Strtod(s) == (Signed(s, DigitRun(d, 0) as real), |s|)
  {
    hide DigitCount, DigitRun, Scaled, Signed;
    assert d[|d|..] == [];
    Unscaled(DigitRun(d, 0) as real);
  }

  lemma StrtodOfDigits(n: nat)
    ensures Strtod(Digits(n)) == (n as real, |Digits(n)|)
    ensures Strtod([MINUS] + Digits(n)) == (-(n as real), 1 + |Digits(n)|)
  {
    hide Strtod;
    var d := Digits(n);
    DigitsRoundTrip(n, []);
    assert d + [] == d && d[0..] == d;
    StrtodOfInteger(d, d);
    var s := [MINUS] + d;
    assert s[1..] == d;
    StrtodOfInteger(s, d);
  }

  /** A printed integer, followed by anything that cannot belong to a number, reads back as itself. */
  lemma ParseIntText(n: int, t: seq<Byte>)
    requires t != [] ==> !InNumber(t[0])
    ensures Parse(IntText(n) + t) == Some((n as real, t))
  {
    hide Strtod;
    var s := IntText(n);
    RunOf(s, t);
    assert (s + t)[..|s|] == s && (s + t)[|s|..] == t;
    StrtodOfDigits(if n < 0 then -n else n);
    assert n < 0 ==> -((-n) as real) == n as real;
  }
}
