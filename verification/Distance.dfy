/** The two distance metrics over exact real arithmetic. */
module Distance {
  import opened Bytes

  datatype MetricType = MetricCosine | MetricEuclidean | MetricUnknown(code: Word32)

  type Metric = (seq<real>, seq<real>) -> real

  // ---- floats as they are stored ----

  function PowerOfTwo(n: int): (p: real)
    ensures p > 0.0
    decreases if n < 0 then -n else n
  {
    if n == 0 then 1.0 else if n > 0 then 2.0 * PowerOfTwo(n - 1) else PowerOfTwo(n + 1) / 2.0
  }

  /** The number that a 32-bit binary interchange pattern stands for (exponent 255 is read like the others). */
  function FloatValue(w: Word32): real {
    var exponent, mantissa := w / 0x80_0000 % 0x100, w % 0x80_0000;
    var magnitude := if exponent == 0 then mantissa as real * PowerOfTwo(-149)
                     else (0x80_0000 + mantissa) as real * PowerOfTwo(exponent - 150);
    if w >= 0x8000_0000 then -magnitude else magnitude
  }

  function Values(v: seq<Word32>): (r: seq<real>)
    ensures |r| == |v|
  {
    seq(|v|, i requires 0 <= i < |v| => FloatValue(v[i]))
  }

  // ---- what the loops accumulate ----

  function Dot(a: seq<real>, b: seq<real>): real
    requires |a| == |b|
  {
    if a == [] then 0.0
    else Dot(a[..|a| - 1], b[..|b| - 1]) + a[|a| - 1] * b[|b| - 1]
  }

  function Square(x: real): (y: real)
    ensures y >= 0.0
  {
    x * x
  }

  function SquaredDistance(a: seq<real>, b: seq<real>): (d: real)
    requires |a| == |b|
    ensures d >= 0.0
  {
    if a == [] then 0.0
    else
      var gap := b[|b| - 1] - a[|a| - 1];
      SquaredDistance(a[..|a| - 1], b[..|b| - 1]) + Square(gap)
  }

  /** The library's square root, over the reals. */
  ghost predicate IsSqrt(sqrt: real -> real) {
    forall x: real :: x >= 0.0 ==> sqrt(x) >= 0.0 && sqrt(x) * sqrt(x) == x
  }

  function Quotient(p: real, c: real): real
    requires c != 0.0
  {
    p / c
  }

  function CosineOf(dot: real, modA: real, modB: real, sqrt: real -> real): real
    requires modA >= 0.0 && modB >= 0.0 && IsSqrt(sqrt)
  {
    if modA == 0.0 || modB == 0.0 then 1.0
    else
      RootPositive(modA, sqrt(modA));
      RootPositive(modB, sqrt(modB));
      1.0 - Quotient(dot, sqrt(modA) * sqrt(modB))
  }

  function CosineDistance(a: seq<real>, b: seq<real>, sqrt: real -> real): real
    requires |a| == |b| && IsSqrt(sqrt)
  {
    DotSelf(a);
    DotSelf(b);
    CosineOf(Dot(a, b), Dot(a, a), Dot(b, b), sqrt)
  }

  function EuclideanDistance(a: seq<real>, b: seq<real>, sqrt: real -> real): (d: real)
    requires |a| == |b| && IsSqrt(sqrt)
    ensures d >= 0.0 && d * d == SquaredDistance(a, b)
  {
    sqrt(SquaredDistance(a, b))
  }

  // ---- the loops ----

  method Cosine(vec: seq<real>, query: seq<real>, sqrt: real -> real) returns (d: real)
    requires |vec| == |query| && IsSqrt(sqrt)
    ensures d == CosineDistance(vec, query, sqrt)
  {
    var dot, modA, modB := 0.0, 0.0, 0.0;
    for i := 0 to |vec|
      invariant dot == Dot(vec[..i], query[..i])
      invariant modA == Dot(vec[..i], vec[..i])
      invariant modB == Dot(query[..i], query[..i])
    {
      assert vec[..i + 1][..i] == vec[..i] && query[..i + 1][..i] == query[..i];
      dot := dot + vec[i] * query[i];
      modA := modA + vec[i] * vec[i];
      modB := modB + query[i] * query[i];
    }
    assert vec[..|vec|] == vec && query[..|query|] == query;
    DotSelf(vec);
    DotSelf(query);
    if modA == 0.0 || modB == 0.0 {
      return 1.0;
    }
    RootPositive(modA, sqrt(modA));
    RootPositive(modB, sqrt(modB));
    var similarity := Quotient(dot, sqrt(modA) * sqrt(modB));
    return 1.0 - similarity;
  }

  method Euclidean(vec: seq<real>, query: seq<real>, sqrt: real -> real) returns (d: real)
    requires |vec| == |query| && IsSqrt(sqrt)
    ensures d == EuclideanDistance(vec, query, sqrt)
  {
    var sum := 0.0;
    for i := 0 to |vec|
      invariant sum == SquaredDistance(vec[..i], query[..i])
    {
      assert vec[..i + 1][..i] == vec[..i] && query[..i + 1][..i] == query[..i];
      sum := sum + (query[i] - vec[i]) * (query[i] - vec[i]);
    }
    assert vec[..|vec|] == vec && query[..|query|] == query;
    return sqrt(sum);
  }

  /** The metric a table was created with; an unknown code falls back to cosine. */
  function GetDistance(metric: MetricType, a: seq<real>, b: seq<real>, sqrt: real -> real): real
    requires |a| == |b| && IsSqrt(sqrt)
  {
    match metric
    case MetricCosine => CosineDistance(a, b, sqrt)
    case MetricEuclidean => EuclideanDistance(a, b, sqrt)
    case MetricUnknown(_) => CosineDistance(a, b, sqrt)
  }

  /** The same as a metric on vectors of any length. */
  ghost function TableMetric(metric: MetricType, sqrt: real -> real): Metric
    requires IsSqrt(sqrt)
  {
    (a: seq<real>, b: seq<real>) => if |a| == |b| then GetDistance(metric, a, b, sqrt) else 0.0
  }

  // ---- bounds ----

  lemma {:induction false} DotSelf(a: seq<real>)
    ensures Dot(a, a) >= 0.0
  {
    if a != [] {
      DotSelf(a[..|a| - 1]);
    }
  }

  lemma Distribute(c: real, x: real, y: real, z: real)
    requires z == x + y
    ensures c * z == c * x + c * y
  {
  }

  lemma SquareExpanded(x: real, y: real, t: real, u: real, w: real)
    requires u == 2.0 * t && w == t * t
    ensures x * x - u * (x * y) + w * (y * y) >= 0.0
  {
    var z := x - t * y;
    assert z * z >= 0.0;
    assert z * z == x * x - 2.0 * t * (x * y) + t * t * (y * y);
  }

  lemma DotStep(a: seq<real>, b: seq<real>)
    requires |a| == |b| > 0
    ensures Dot(a, b) == Dot(a[..|a| - 1], b[..|b| - 1]) + a[|a| - 1] * b[|b| - 1]
  {
  }

  /** The squared length of `a - t * b`, expanded, is not negative. */
  lemma {:induction false} Quadratic(a: seq<real>, b: seq<real>, t: real, u: real, w: real)
    requires |a| == |b| && u == 2.0 * t && w == t * t
    ensures Dot(a, a) - u * Dot(a, b) + w * Dot(b, b) >= 0.0
  {
    if a != [] {
      hide Dot;
      var n := |a| - 1;
      Quadratic(a[..n], b[..n], t, u, w);
      DotStep(a, a);
      DotStep(a, b);
      DotStep(b, b);
      Distribute(u, Dot(a[..n], b[..n]), a[n] * b[n], Dot(a, b));
      Distribute(w, Dot(b[..n], b[..n]), b[n] * b[n], Dot(b, b));
      SquareExpanded(a[n], b[n], t, u, w);
    }
  }

  lemma CauchySchwarz(a: seq<real>, b: seq<real>)
    requires |a| == |b| && Dot(b, b) > 0.0
    ensures Dot(a, b) * Dot(a, b) <= Dot(a, a) * Dot(b, b)
  {
    hide Dot;
    CauchyCore(a, b, Dot(a, a), Dot(a, b), Dot(b, b));
  }

  lemma CauchyCore(a: seq<real>, b: seq<real>, aa: real, ab: real, bb: real)
    requires |a| == |b| && aa == Dot(a, a) && ab == Dot(a, b) && bb == Dot(b, b) && bb > 0.0
    ensures ab * ab <= aa * bb
  {
    hide Dot;
    var t := ab / bb;
    Quadratic(a, b, t, 2.0 * t, t * t);
    Discriminant(aa, ab, bb, t, 2.0 * t, t * t);
  }

  lemma Discriminant(aa: real, ab: real, bb: real, t: real, u: real, w: real)
    requires bb > 0.0 && t * bb == ab && u == 2.0 * t && w == t * t
    requires aa - u * ab + w * bb >= 0.0
    ensures ab * ab <= aa * bb
  {
    assert w * bb == t * ab;
    assert u * ab == 2.0 * (t * ab);
    ScaleBoth(t * ab, aa, bb);
    assert t * ab * bb == ab * (t * bb);
  }

  lemma ScaleBoth(x: real, y: real, c: real)
    requires x <= y && c >= 0.0
    ensures x * c <= y * c
  {
  }

  lemma PositiveProduct(x: real, y: real)
    requires x > 0.0 && y > 0.0
    ensures x * y > 0.0
  {
  }

  lemma RatioBound(p: real, c: real)
    requires c > 0.0 && p * p <= c * c
    ensures -1.0 <= Quotient(p, c) <= 1.0
  {
    assert p > c ==> p * p > c * c;
    assert p < -c ==> p * p > c * c;
    assert p / c * c == p;
  }

  lemma RootsBound(p: real, m: real, n: real, x: real, y: real)
    requires x > 0.0 && y > 0.0 && x * x == m && y * y == n && p * p <= m * n
    ensures x * y > 0.0 && -1.0 <= Quotient(p, x * y) <= 1.0
  {
    PositiveProduct(x, y);
    assert (x * y) * (x * y) == (x * x) * (y * y);
    RatioBound(p, x * y);
  }

  lemma RootPositive(m: real, x: real)
    requires x >= 0.0 && x * x == m && m != 0.0
    ensures x > 0.0
  {
    assert x == 0.0 ==> x * x == 0.0;
  }

  lemma CosineOfBound(dot: real, modA: real, modB: real, sqrt: real -> real)
    requires modA >= 0.0 && modB >= 0.0 && IsSqrt(sqrt) && dot * dot <= modA * modB
    ensures 0.0 <= CosineOf(dot, modA, modB, sqrt) <= 2.0
  {
    if modA != 0.0 && modB != 0.0 {
      RootPositive(modA, sqrt(modA));
      RootPositive(modB, sqrt(modB));
      RootsBound(dot, modA, modB, sqrt(modA), sqrt(modB));
    }
  }

  /** The cosine distance of any two vectors lies between 0 and 2, and is exactly 1 when one of them is zero. */
  lemma CosineBound(a: seq<real>, b: seq<real>, sqrt: real -> real)
    requires |a| == |b| && IsSqrt(sqrt)
    ensures 0.0 <= CosineDistance(a, b, sqrt) <= 2.0
    ensures Dot(a, a) == 0.0 || Dot(b, b) == 0.0 ==> CosineDistance(a, b, sqrt) == 1.0
  {
    hide Dot;
    DotSelf(a);
    DotSelf(b);
    if Dot(b, b) > 0.0 && Dot(a, a) > 0.0 {
      CauchySchwarz(a, b);
      CosineOfBound(Dot(a, b), Dot(a, a), Dot(b, b), sqrt);
    }
  }

  predicate Parallel(a: seq<real>, b: seq<real>, c: real) {
    |a| == |b| && forall i :: 0 <= i < |a| ==> b[i] == c * a[i]
  }

  lemma ParallelSplit(a: seq<real>, b: seq<real>, c: real)
    requires Parallel(a, b, c) && a != []
    ensures Parallel(a[..|a| - 1], b[..|b| - 1], c)
    ensures b[|b| - 1] == c * a[|a| - 1]
  {
  }

  lemma {:induction false} DotScale(a: seq<real>, b: seq<real>, c: real, k: real)
    requires |a| == |b| && Parallel(a, b, c) && k == c * c
    ensures Dot(a, b) == c * Dot(a, a)
    ensures Dot(b, b) == k * Dot(a, a)
  {
    if a != [] {
      hide Dot, Parallel;
      var n := |a| - 1;
      ParallelSplit(a, b, c);
      DotScale(a[..n], b[..n], c, k);
      DotStep(a, a);
      DotStep(a, b);
      DotStep(b, b);
      Distribute(c, Dot(a[..n], a[..n]), a[n] * a[n], Dot(a, a));
      Distribute(k, Dot(a[..n], a[..n]), a[n] * a[n], Dot(a, a));
      ScaledSquares(a[n], b[n], c, k);
    }
  }

  lemma ScaledSquares(x: real, y: real, c: real, k: real)
    requires y == c * x && k == c * c
    ensures x * y == c * (x * x) && y * y == k * (x * x)
  {
  }

  lemma QuotientSelf(p: real, c: real)
    requires p == c && c > 0.0
    ensures Quotient(p, c) == 1.0
  {
    var q := Quotient(p, c);
    assert q * c == c;
    if q > 1.0 {
      PositiveProduct(q - 1.0, c);
    } else if q < 1.0 {
      PositiveProduct(1.0 - q, c);
    }
  }

  lemma UnitRatio(p: real, m: real, n: real, c: real, k: real, x: real, y: real)
    requires m > 0.0 && c > 0.0 && x >= 0.0 && y >= 0.0 && p == c * m && k == c * c && n == k * m
    requires x * x == m && y * y == n
    ensures n > 0.0 && x * y > 0.0 && Quotient(p, x * y) == 1.0
  {
    RootPositive(m, x);
    var s := c * x;
    PositiveProduct(c, x);
    PositiveProduct(c, m);
    PositiveProduct(c, c * m);
    assert s * s == y * y;
    assert (s - y) * (s + y) == 0.0;
    assert s == y;
    assert x * y == c * m;
    QuotientSelf(p, x * y);
  }

  /** The bound is reached at the near end by every pair of vectors that point the same way. */
  lemma SameDirectionIsZero(a: seq<real>, b: seq<real>, c: real, sqrt: real -> real)
    requires Parallel(a, b, c) && IsSqrt(sqrt) && c > 0.0 && Dot(a, a) != 0.0
    ensures CosineDistance(a, b, sqrt) == 0.0
  {
    hide Dot;
    DotSelf(a);
    DotSelf(b);
    DotScale(a, b, c, c * c);
    UnitRatio(Dot(a, b), Dot(a, a), Dot(b, b), c, c * c, sqrt(Dot(a, a)), sqrt(Dot(b, b)));
  }
}
