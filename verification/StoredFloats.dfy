/** What the 32-bit words of a stored vector stand for, and what the two metrics make of them. */
module StoredFloats {
  import opened Bytes
  import opened Distance
  import ResultSlots

  // ---- powers of two ----

  lemma PowerStep(n: int)
    ensures PowerOfTwo(0) == 1.0 && PowerOfTwo(n + 1) == 2.0 * PowerOfTwo(n)
  {
  }

  lemma EightDoublings(n: int)
    ensures PowerOfTwo(n + 8) == 256.0 * PowerOfTwo(n)
  {
    hide PowerOfTwo;
    PowerStep(n);
    PowerStep(n + 1);
    PowerStep(n + 2);
    PowerStep(n + 3);
    PowerStep(n + 4);
    PowerStep(n + 5);
    PowerStep(n + 6);
    PowerStep(n + 7);
  }

  function Times(p: nat, x: real): real {
    p as real * x
  }

  lemma TimesSteps(p: nat, x: real)
    ensures Times(1, x) == x && 256.0 * Times(p, x) == Times(256 * p, x)
  {
    assert (256 * p) as real == 256.0 * p as real;
  }

  lemma {:induction false} ManyDoublings(n: int, k: nat)
    ensures PowerOfTwo(n + 8 * k) == Times(Power256(k), PowerOfTwo(n))
    decreases k
  {
    hide PowerOfTwo, Times;
    if k > 0 {
      ManyDoublings(n, k - 1);
      EightDoublings(n + 8 * (k - 1));
      TimesSteps(Power256(k - 1), PowerOfTwo(n));
    } else {
      TimesSteps(1, PowerOfTwo(n));
    }
  }

  function Power256(k: nat): nat {
    if k == 0 then 1 else 256 * Power256(k - 1)
  }

  // ---- words ----

  /** The magnitude that an exponent and a mantissa make. */
  lemma Magnitude(w: Word32, exponent: nat, mantissa: nat)
    requires w == exponent * 0x80_0000 + mantissa && exponent < 0x100 && mantissa < 0x80_0000
    ensures FloatValue(w) == if exponent == 0 then mantissa as real * PowerOfTwo(-149)
                             else (0x80_0000 + mantissa) as real * PowerOfTwo(exponent - 150)
  {
    hide PowerOfTwo;
    assert w / 0x80_0000 == exponent && w % 0x80_0000 == mantissa;
  }

  /** The top bit of a word is its sign. */
  lemma SignNegates(w: Word32)
    requires w < 0x8000_0000
    ensures FloatValue(w + 0x8000_0000) == -FloatValue(w)
  {
    hide PowerOfTwo;
    var v := w + 0x8000_0000;
    assert v / 0x80_0000 == w / 0x80_0000 + 0x100 && v % 0x80_0000 == w % 0x80_0000;
  }

  lemma Fewer(m: nat, n: nat, p: real)
    requires m < n && p > 0.0
    ensures m as real * p < n as real * p
  {
  }

  lemma {:induction false} NextIsGreater(w: Word32)
    requires w + 1 < 0x8000_0000
    ensures FloatValue(w) < FloatValue(w + 1)
  {
    hide PowerOfTwo, FloatValue;
    var e, m := w / 0x80_0000, w % 0x80_0000;
    Magnitude(w, e, m);
    if m + 1 < 0x80_0000 {
      Magnitude(w + 1, e, m + 1);
      if e == 0 {
        Fewer(m, m + 1, PowerOfTwo(-149));
      } else {
        Fewer(0x80_0000 + m, 0x80_0000 + m + 1, PowerOfTwo(e - 150));
      }
    } else {
      Magnitude(w + 1, e + 1, 0);
      PowerStep(e - 150);
      if e == 0 {
        Fewer(m, 0x80_0000, PowerOfTwo(-149));
      } else {
        Fewer(0x80_0000 + m, 0x100_0000, PowerOfTwo(e - 150));
        Doubled(PowerOfTwo(e - 150));
      }
    }
  }

  lemma Doubled(p: real)
    ensures 0x100_0000 as real * p == 0x80_0000 as real * (2.0 * p)
  {
  }

  /** Words without the sign bit are in the order of their values. */
  lemma {:induction false} ValuesIncrease(v: Word32, w: Word32)
    requires v < w < 0x8000_0000
    ensures FloatValue(v) < FloatValue(w)
    decreases w - v
  {
    hide FloatValue;
    NextIsGreater(w - 1);
    if v < w - 1 {
      ValuesIncrease(v, w - 1);
    }
  }

  /** One more in the exponent doubles a normal number. */
  lemma ExponentDoubles(w: Word32)
    requires 0x80_0000 <= w < 0x7F80_0000
    ensures FloatValue(w + 0x80_0000) == 2.0 * FloatValue(w)
  {
    hide PowerOfTwo, FloatValue;
    var e, m := w / 0x80_0000, w % 0x80_0000;
    Magnitude(w, e, m);
    Magnitude(w + 0x80_0000, e + 1, m);
    PowerStep(e - 150);
    TwiceAll(0x80_0000 + m, PowerOfTwo(e - 150));
  }

  lemma TwiceAll(n: nat, p: real)
    ensures n as real * (2.0 * p) == 2.0 * (n as real * p)
  {
  }

  /** Words of the same exponent are evenly spaced; the first step into the next exponent is as wide. */
  lemma EvenlySpaced(v: Word32, w: Word32)
    requires v / 0x80_0000 == w / 0x80_0000 && v + 1 < 0x8000_0000 && w + 1 < 0x8000_0000
    ensures FloatValue(v + 1) - FloatValue(v) == FloatValue(w + 1) - FloatValue(w)
  {
    hide FloatValue;
    StepWidth(v);
    StepWidth(w);
  }

  lemma StepWidth(w: Word32)
    requires w + 1 < 0x8000_0000
    ensures var e := w / 0x80_0000;
            FloatValue(w + 1) - FloatValue(w) == PowerOfTwo(if e == 0 then -149 else e - 150)
  {
    hide PowerOfTwo, FloatValue;
    var e, m := w / 0x80_0000, w % 0x80_0000;
    Magnitude(w, e, m);
    if m + 1 < 0x80_0000 {
      Magnitude(w + 1, e, m + 1);
    } else {
      Magnitude(w + 1, e + 1, 0);
      PowerStep(e - 150);
      Doubled(PowerOfTwo(e - 150));
    }
  }

  /** Zero, one, and the largest finite number, which an empty result slot shows for its distance. */
  lemma KnownValues()
    ensures FloatValue(0) == 0.0 && FloatValue(0x3F80_0000) == 1.0
    ensures FloatValue(0x7F7F_FFFF) == 340282346638528859811704183484516925440.0 == ResultSlots.FLT_MAX
  {
    hide PowerOfTwo, FloatValue;
    Magnitude(0, 0, 0);
    Magnitude(0x3F80_0000, 127, 0);
    PowerStep(0);
    ManyDoublings(-24, 3);
    assert Power256(3) == 0x100_0000;
    PowerStep(-24);
    Magnitude(0x7F7F_FFFF, 254, 0x7F_FFFF);
    ManyDoublings(0, 13);
    assert Power256(13) == 0x1_0000_0000_0000_0000_0000_0000_00;
  }

  /** A stored vector stands for the numbers of its words, in order. */
  lemma VectorInOrder(v: seq<Word32>, w: Word32)
    ensures Values([]) == [] && Values(v + [w]) == Values(v) + [FloatValue(w)]
  {
    hide FloatValue;
  }

  // ---- the metrics ----

  /** In a table with the cosine metric, or an unknown one, the distance of vectors that are not zero falls short of 1 by
      their dot product over the product of their lengths. */
  lemma CosineTable(metric: MetricType, sqrt: real -> real, a: seq<real>, b: seq<real>)
    requires IsSqrt(sqrt) && !metric.MetricEuclidean? && |a| == |b|
    ensures var d := TableMetric(metric, sqrt)(a, b);
            if Dot(a, a) == 0.0 || Dot(b, b) == 0.0 then d == 1.0
            else (1.0 - d) * (sqrt(Dot(a, a)) * sqrt(Dot(b, b))) == Dot(a, b)
  {
    hide Dot;
    DotSelf(a);
    DotSelf(b);
    if Dot(a, a) != 0.0 && Dot(b, b) != 0.0 {
      RootPositive(Dot(a, a), sqrt(Dot(a, a)));
      RootPositive(Dot(b, b), sqrt(Dot(b, b)));
      PositiveProduct(sqrt(Dot(a, a)), sqrt(Dot(b, b)));
      Divided(Dot(a, b), sqrt(Dot(a, a)) * sqrt(Dot(b, b)));
    }
  }

  lemma Divided(p: real, c: real)
    requires c > 0.0
    ensures Quotient(p, c) * c == p
  {
  }

  /** And vectors that point the same way are at distance 0 there, whatever their lengths. */
  lemma ParallelTable(metric: MetricType, sqrt: real -> real, a: seq<real>, b: seq<real>, c: real)
    requires IsSqrt(sqrt) && !metric.MetricEuclidean? && Parallel(a, b, c) && c > 0.0 && Dot(a, a) != 0.0
    ensures TableMetric(metric, sqrt)(a, b) == 0.0
  {
    hide Dot, CosineDistance, Parallel;
    assert |a| == |b| by { SameSize(a, b, c); }
    SameDirectionIsZero(a, b, c, sqrt);
  }

  lemma SameSize(a: seq<real>, b: seq<real>, c: real)
    requires Parallel(a, b, c)
    ensures |a| == |b|
  {
  }

  lemma NoCoordinates()
    ensures Dot([], []) == 0.0 && SquaredDistance([], []) == 0.0
  {
  }

  lemma LastSquare(a: seq<real>, b: seq<real>)
    requires |a| == |b| && a != []
    ensures SquaredDistance(a, b)
         == SquaredDistance(a[..|a| - 1], b[..|b| - 1]) + Square(b[|b| - 1] - a[|a| - 1])
  {
    hide Square;
  }

  lemma SquareIs(x: real)
    ensures Square(x) == x * x
  {
  }

  /** Both metrics look at all coordinates alike: each adds the product, or the squared difference, of its two numbers. */
  lemma EveryCoordinateCounts(a: seq<real>, b: seq<real>, x: real, y: real)
    requires |a| == |b|
    ensures Dot([], []) == 0.0 && SquaredDistance([], []) == 0.0
    ensures Dot(a + [x], b + [y]) == Dot(a, b) + x * y
    ensures SquaredDistance(a + [x], b + [y]) == SquaredDistance(a, b) + (y - x) * (y - x)
  {
    hide Dot, SquaredDistance, Square;
    NoCoordinates();
    SquareIs(y - x);
    DotStep(a + [x], b + [y]);
    LastSquare(a + [x], b + [y]);
    assert (a + [x])[..|a|] == a && (b + [y])[..|b|] == b;
  }
}
