/** The C string searches that the connection reader relies on. */
module HttpText {
  import opened Bytes
  import opened Decimals

  function Lower(b: Byte): Byte {
    if 65 <= b <= 90 then b + 32 else b
  }

  function LowerAll(s: seq<Byte>): (r: seq<Byte>)
    ensures |r| == |s|
  {
    seq(|s|, i requires 0 <= i < |s| => Lower(s[i]))
  }

  predicate MatchesAt(s: seq<Byte>, p: seq<Byte>, i: nat) {
    i + |p| <= |s| && s[i..i + |p|] == p
  }

  /** Position of the first occurrence of `p` in `s`, from `i` on. */
  function FindFrom(s: seq<Byte>, p: seq<Byte>, i: nat): (r: Option<nat>)
    ensures r.Some? ==> i <= r.value && MatchesAt(s, p, r.value) && forall j :: i <= j < r.value ==> !MatchesAt(s, p, j)
    ensures r.None? ==> forall j :: i <= j ==> !MatchesAt(s, p, j)
    decreases |s| - i
  {
    if i + |p| > |s| then None
    else if MatchesAt(s, p, i) then Some(i)
    else FindFrom(s, p, i + 1)
  }

  /** `strstr` and `strcasestr`. */
  function Find(s: seq<Byte>, p: seq<Byte>): (r: Option<nat>)
    ensures r.Some? ==> MatchesAt(s, p, r.value) && forall j :: 0 <= j < r.value ==> !MatchesAt(s, p, j)
    ensures r.None? ==> forall j :: 0 <= j ==> !MatchesAt(s, p, j)
  {
    FindFrom(s, p, 0)
  }

  function FindNoCase(s: seq<Byte>, p: seq<Byte>): (r: Option<nat>)
    ensures r.Some? ==> r.value + |p| <= |s|
  {
    Find(LowerAll(s), LowerAll(p))
  }

  lemma FindIs(s: seq<Byte>, p: seq<Byte>, i: nat)
    requires MatchesAt(s, p, i) && forall j :: 0 <= j < i ==> !MatchesAt(s, p, j)
    ensures Find(s, p) == Some(i)
  {
    var r := Find(s, p);
    assert r.Some?;
    assert !(r.value < i) && !(i < r.value);
  }

  lemma MatchInPrefix(s: seq<Byte>, t: seq<Byte>, p: seq<Byte>, j: nat)
    requires j + |p| <= |s|
    ensures MatchesAt(s + t, p, j) <==> MatchesAt(s, p, j)
  {
    assert (s + t)[j..j + |p|] == s[j..j + |p|];
  }

  /** Text appended behind the first occurrence does not move it. */
  lemma FindInExtension(s: seq<Byte>, t: seq<Byte>, p: seq<Byte>)
    requires Find(s, p).Some?
    ensures Find(s + t, p) == Find(s, p)
  {
    var i := Find(s, p).value;
    forall j | 0 <= j <= i
      ensures MatchesAt(s + t, p, j) <==> MatchesAt(s, p, j)
    {
      MatchInPrefix(s, t, p, j);
    }
    FindIs(s + t, p, i);
  }

  lemma LowerAllConcat(s: seq<Byte>, t: seq<Byte>)
    ensures LowerAll(s + t) == LowerAll(s) + LowerAll(t)
  {
  }

  lemma FindNoCaseInExtension(s: seq<Byte>, t: seq<Byte>, p: seq<Byte>)
    ensures FindNoCase(s, p).Some? ==> FindNoCase(s + t, p) == FindNoCase(s, p)
  {
    if FindNoCase(s, p).Some? {
      LowerAllConcat(s, t);
      FindInExtension(LowerAll(s), LowerAll(t), LowerAll(p));
    }
  }

  // ---- atoi ----

  predicate IsSpace(b: Byte) {
    b == 32 || 9 <= b <= 13
  }

  function SkipSpaces(s: seq<Byte>): seq<Byte> {
    if s != [] && IsSpace(s[0]) then SkipSpaces(s[1..]) else s
  }

  function SignedRun(s: seq<Byte>): int {
    if s != [] && s[0] == 45 then 0 - DigitRun(s[1..], 0)
    else if s != [] && s[0] == 43 then DigitRun(s[1..], 0)
    else DigitRun(s, 0)
  }

  /** `strtol` without its limits: the number that the text starts with. */
  function Number(s: seq<Byte>): int {
    SignedRun(SkipSpaces(s))
  }

  /** A number held to 64 bits and then cut to 32. C leaves `atoi` undefined beyond the `int` range; this is what it
      comes to where it is the conversion of `strtol`. */
  function ToInt(n: int): (i: int)
    ensures -0x8000_0000 <= i < 0x8000_0000
    ensures -0x8000_0000 <= n < 0x8000_0000 ==> i == n
  {
    var held := if n < -0x8000_0000_0000_0000 then -0x8000_0000_0000_0000
                else if n > 0x7FFF_FFFF_FFFF_FFFF then 0x7FFF_FFFF_FFFF_FFFF
                else n;
    (held + 0x8000_0000) % 0x1_0000_0000 - 0x8000_0000
  }

  function Atoi(s: seq<Byte>): int {
    ToInt(Number(s))
  }

  lemma {:induction false} DigitRunStops(s: seq<Byte>, t: seq<Byte>, acc: nat)
    requires s != [] && !IsDigit(s[|s| - 1])
    ensures DigitRun(s + t, acc) == DigitRun(s, acc)
    decreases |s|
  {
    if IsDigit(s[0]) {
      DigitRunStops(s[1..], t, 10 * acc + (s[0] - 48));
      assert (s + t)[1..] == s[1..] + t;
    }
  }

  lemma OneCharacter(s: seq<Byte>)
    requires |s| == 1 && !IsDigit(s[0])
    ensures Number(s) == 0
  {
    assert s[1..] == [];
    assert SkipSpaces([]) == [] && DigitRun([], 0) == 0;
    if IsSpace(s[0]) {
      assert SkipSpaces(s) == [];
    }
  }

  /** A number that ends inside a line is not changed by what follows the line. */
  lemma AtoiStable(s: seq<Byte>, t: seq<Byte>)
    requires s != [] && !IsDigit(s[|s| - 1]) && Atoi(s) != 0
    ensures Atoi(s + t) == Atoi(s)
  {
    hide Number;
    NumberStable(s, t);
  }

  lemma {:induction false} NumberStable(s: seq<Byte>, t: seq<Byte>)
    requires s != [] && !IsDigit(s[|s| - 1]) && Number(s) != 0
    ensures Number(s + t) == Number(s)
  {
    if |s| == 1 {
      OneCharacter(s);
    } else if IsSpace(s[0]) {
      NumberStable(s[1..], t);
      assert (s + t)[1..] == s[1..] + t;
    } else if s[0] == 45 || s[0] == 43 {
      DigitRunStops(s[1..], t, 0);
      assert (s + t)[1..] == s[1..] + t;
    } else {
      DigitRunStops(s, t, 0);
    }
  }

  // ---- what is read as which number ----

  /** The white space of C: tab, line feed, vertical tab, form feed, carriage return and space. */
  predicate AreSpaces(s: seq<Byte>) {
    forall i :: 0 <= i < |s| ==> s[i] == 9 || s[i] == 10 || s[i] == 11 || s[i] == 12 || s[i] == 13 || s[i] == 32
  }

  /** A number as `atoi` takes it: white space, perhaps a sign, and digits. */
  datatype NumberText = NumberText(spaces: seq<Byte>, sign: Option<Byte>, digits: seq<Byte>)

  predicate IsNumberText(x: NumberText) {
    && AreSpaces(x.spaces) && (x.sign == None || x.sign == Some(43) || x.sign == Some(45))
    && x.digits != [] && AreDigits(x.digits)
  }

  function NumberBytes(x: NumberText): seq<Byte> {
    x.spaces + ((if x.sign.Some? then [x.sign.value] else []) + x.digits)
  }

  function NumberValue(x: NumberText): int
    requires AreDigits(x.digits)
  {
    if x.sign == Some(45) then 0 - DigitValue(x.digits) else DigitValue(x.digits)
  }

  lemma {:induction false} SpacesAreSkipped(spaces: seq<Byte>, t: seq<Byte>)
    requires AreSpaces(spaces) && t != [] && !IsSpace(t[0])
    ensures SkipSpaces(spaces + t) == t
  {
    if spaces == [] {
      assert spaces + t == t;
    } else {
      SpacesAreSkipped(spaces[1..], t);
      assert (spaces + t)[1..] == spaces[1..] + t;
    }
  }

  lemma NumberIsTaken(x: NumberText, t: seq<Byte>)
    requires IsNumberText(x) && (t != [] ==> !(48 <= t[0] <= 57))
    ensures Number(NumberBytes(x) + t) == NumberValue(x)
  {
    hide SkipSpaces, DigitRun, DigitValue;
    var sign: seq<Byte> := if x.sign.Some? then [x.sign.value] else [];
    var unspaced := sign + x.digits + t;
    assert NumberBytes(x) + t == x.spaces + unspaced;
    SpacesAreSkipped(x.spaces, unspaced);
    RunIsValue(x.digits, t, 0);
    if x.sign.Some? {
      assert unspaced[1..] == x.digits + t;
    } else {
      assert unspaced == x.digits + t;
    }
  }

  /** `atoi` takes white space, a sign and digits, up to the first other byte, for the number that they spell. A number that
      64 bits hold is cut to 32; a greater one is -1, and one that is too small is 0. */
  lemma AtoiIsRead(x: NumberText, t: seq<Byte>)
    requires IsNumberText(x) && (t != [] ==> !(48 <= t[0] <= 57))
    ensures var n, i := NumberValue(x), Atoi(NumberBytes(x) + t);
            && -0x8000_0000 <= i < 0x8000_0000
            && (-0x8000_0000 <= n < 0x8000_0000 ==> i == n)
            && (-0x8000_0000_0000_0000 <= n < 0x8000_0000_0000_0000 ==> (n - i) % 0x1_0000_0000 == 0)
            && (n >= 0x8000_0000_0000_0000 ==> i == -1) && (n < -0x8000_0000_0000_0000 ==> i == 0)
  {
    hide Number, NumberValue;
    NumberIsTaken(x, t);
  }

  /** Anything else reads as 0: text that begins, behind its white space, with neither a sign nor a digit, or with a sign and
      no digit behind it. */
  lemma OtherTextIsZero(spaces: seq<Byte>, t: seq<Byte>)
    requires AreSpaces(spaces)
    requires t != [] ==> !(9 <= t[0] <= 13) && t[0] != 32 && !(48 <= t[0] <= 57)
    requires |t| >= 2 && (t[0] == 43 || t[0] == 45) ==> !(48 <= t[1] <= 57)
    ensures Atoi(spaces + t) == 0
  {
    if t == [] {
      assert spaces + t == spaces;
      OnlySpaces(spaces);
    } else {
      SpacesAreSkipped(spaces, t);
      assert |t| >= 2 ==> t[1..][0] == t[1];
    }
  }

  lemma {:induction false} OnlySpaces(spaces: seq<Byte>)
    requires AreSpaces(spaces)
    ensures SkipSpaces(spaces) == []
  {
    if spaces != [] {
      OnlySpaces(spaces[1..]);
    }
  }
}
