/** Decimal digits. */
module Decimals {
  import opened Bytes

  predicate IsDigit(b: Byte) {
    48 <= b <= 57
  }

  /** The number that the leading digits of `s` spell, behind the digits already read into `acc`. */
  function DigitRun(s: seq<Byte>, acc: nat): nat {
    if s != [] && IsDigit(s[0]) then DigitRun(s[1..], 10 * acc + (s[0] - 48)) else acc
  }

  function DigitCount(s: seq<Byte>): (n: nat)
    ensures n <= |s|
    ensures n < |s| ==> !IsDigit(s[n])
    ensures forall i :: 0 <= i < n ==> IsDigit(s[i])
  {
    if s != [] && IsDigit(s[0]) then 1 + DigitCount(s[1..]) else 0
  }

  /** A number as printf's `%d` writes it, without its sign. */
  function Digits(n: nat): (s: seq<Byte>)
    ensures s != []
    ensures forall i :: 0 <= i < |s| ==> IsDigit(s[i])
  {
    if n < 10 then [48 + n] else Digits(n / 10) + [48 + n % 10]
  }

  lemma {:induction false} DigitRunOfPrefix(s: seq<Byte>, b: Byte, t: seq<Byte>, acc: nat)
    requires (forall i :: 0 <= i < |s| ==> IsDigit(s[i])) && IsDigit(b) && (t != [] ==> !IsDigit(t[0]))
    ensures DigitRun(s + [b] + t, acc) == 10 * DigitRun(s, acc) + (b - 48)
    decreases |s|
  {
    if s == [] {
      var u := [b] + t;
      assert [] + [b] + t == u && u[1..] == t;
      assert DigitRun(t, 10 * acc + (b - 48)) == 10 * acc + (b - 48);
    } else {
      DigitRunOfPrefix(s[1..], b, t, 10 * acc + (s[0] - 48));
      assert (s + [b] + t)[1..] == s[1..] + [b] + t;
    }
  }

  lemma {:induction false} CountOf(s: seq<Byte>, t: seq<Byte>)
    requires (forall i :: 0 <= i < |s| ==> IsDigit(s[i])) && (t != [] ==> !IsDigit(t[0]))
    ensures DigitCount(s + t) == |s|
  {
    if s == [] {
      assert s + t == t;
    } else {
      CountOf(s[1..], t);
      assert (s + t)[1..] == s[1..] + t;
    }
  }

  /** Printed digits read back as the number, up to the next character that is no digit. */
  lemma {:induction false} DigitsRoundTrip(n: nat, t: seq<Byte>)
    requires t != [] ==> !IsDigit(t[0])
    ensures DigitRun(Digits(n) + t, 0) == n && DigitCount(Digits(n) + t) == |Digits(n)|
  {
    if n < 10 {
      assert (Digits(n) + t)[1..] == t;
      assert DigitRun(t, n) == n;
    } else {
      DigitsRoundTrip(n / 10, []);
      assert Digits(n / 10) + [] == Digits(n / 10);
      DigitRunOfPrefix(Digits(n / 10), 48 + n % 10, t, 0);
    }
    CountOf(Digits(n), t);
  }

  // ---- digit texts and what they spell ----

  predicate AreDigits(d: seq<Byte>) {
    forall i :: 0 <= i < |d| ==> 48 <= d[i] <= 57
  }

  /** The number that a digit text spells. */
  function DigitValue(d: seq<Byte>): (n: nat)
    requires AreDigits(d)
  {
    if d == [] then 0 else 10 * DigitValue(d[..|d| - 1]) + (d[|d| - 1] - 48)
  }

  function TenTo(n: nat): (p: nat)
    ensures p > 0
  {
    if n == 0 then 1 else 10 * TenTo(n - 1)
  }

  lemma {:induction false} RunIsValue(d: seq<Byte>, t: seq<Byte>, acc: nat)
    requires AreDigits(d) && (t != [] ==> !(48 <= t[0] <= 57))
    ensures DigitRun(d + t, acc) == acc * TenTo(|d|) + DigitValue(d)
    ensures DigitCount(d + t) == |d|
  {
    CountOf(d, t);
    if d == [] {
      assert d + t == t;
    } else {
      var n := |d| - 1;
      RunIsValue(d[..n], [], acc);
      assert d[..n] + [] == d[..n] && d[..n] + [d[n]] == d;
      if acc == 0 {
        DigitRunOfPrefix(d[..n], d[n], t, 0);
      } else {
        DigitRunOfPrefix(d[..n], d[n], t, acc);
      }
      TenfoldStep(acc, n, DigitValue(d[..n]));
    }
  }

  lemma TenfoldStep(acc: nat, n: nat, v: nat)
    ensures 10 * (acc * TenTo(n) + v) == acc * TenTo(n + 1) + 10 * v
  {
  }

  /** Digits are printed without leading zeros. */
  lemma {:induction false} DigitsAreCanonical(n: nat)
    ensures AreDigits(Digits(n)) && DigitValue(Digits(n)) == n
    ensures if n < 10 then |Digits(n)| == 1 else Digits(n)[0] != 48
  {
    if n >= 10 {
      DigitsAreCanonical(n / 10);
      var d := Digits(n);
      assert d[..|d| - 1] == Digits(n / 10);
    } else {
      assert Digits(n)[..0] == [];
    }
  }
}
