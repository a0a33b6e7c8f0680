/** Bytes, machine words and the little-endian integer layout that every file of the store uses. */
module Bytes {
  type Byte = b: int | 0 <= b < 256
  type Word32 = w: int | 0 <= w < 0x1_0000_0000
  type Word64 = w: int | 0 <= w < 0x1_0000_0000_0000_0000

  datatype Option<+T> = None | Some(value: T)

  function Zeros(n: nat): (z: seq<Byte>)
    ensures |z| == n
  {
    seq(n, _ => 0)
  }

  function Pow256(n: nat): (p: nat)
    ensures p >= 1
  {
    if n == 0 then 1 else 256 * Pow256(n - 1)
  }

  lemma Pow256Values()
    ensures Pow256(4) == 0x1_0000_0000
    ensures Pow256(8) == 0x1_0000_0000_0000_0000
  {
    assert Pow256(2) == 65536;
    assert Pow256(4) == 65536 * Pow256(2);
    assert Pow256(6) == 65536 * Pow256(4);
    assert Pow256(8) == 65536 * Pow256(6);
  }

  /** The low `width` bytes of `v`, least significant first. */
  function LittleEndian(v: nat, width: nat): (s: seq<Byte>)
    ensures |s| == width
  {
    seq(width, i requires 0 <= i < width => v / Pow256(i) % 256)
  }

  function FromLittleEndian(s: seq<Byte>): (v: nat)
    ensures v < Pow256(|s|)
  {
    if s == [] then 0 else s[0] + 256 * FromLittleEndian(s[1..])
  }

  lemma DivideTwice(v: nat, p: nat)
    requires p > 0
    ensures v / (256 * p) == v / 256 / p
  {
    var q := v / 256 / p;
    assert v / 256 == q * p + v / 256 % p;
    assert v == 256 * (q * p) + 256 * (v / 256 % p) + v % 256;
    assert 0 <= 256 * (v / 256 % p) + v % 256 < 256 * p;
    assert v == q * (256 * p) + (256 * (v / 256 % p) + v % 256);
    QuotientUnique(v, 256 * p, q, 256 * (v / 256 % p) + v % 256);
  }

  lemma QuotientUnique(v: nat, d: nat, q: nat, r: nat)
    requires d > 0 && v == q * d + r && r < d
    ensures v / d == q
  {
    var q' := v / d;
    assert v == q' * d + v % d;
    assert q' < q ==> (q' + 1) * d <= q * d;
    assert q' > q ==> (q + 1) * d <= q' * d;
  }

  lemma LittleEndianTail(v: nat, width: nat)
    requires width > 0
    ensures LittleEndian(v, width) == [v % 256] + LittleEndian(v / 256, width - 1)
  {
    forall i | 0 < i < width
      ensures LittleEndian(v, width)[i] == v / 256 / Pow256(i - 1) % 256
    {
      DivideTwice(v, Pow256(i - 1));
    }
  }

  lemma {:induction false} LittleEndianRoundTrip(v: nat, width: nat)
    requires v < Pow256(width)
    ensures FromLittleEndian(LittleEndian(v, width)) == v
  {
    if width > 0 {
      LittleEndianRoundTrip(v / 256, width - 1);
      LittleEndianTail(v, width);
    }
  }

  /** Conversely, a number that is put together from bytes is laid out as these bytes. */
  lemma {:induction false} BytesOfNumber(s: seq<Byte>)
    ensures LittleEndian(FromLittleEndian(s), |s|) == s
  {
    if s != [] {
      var high := FromLittleEndian(s[1..]);
      BytesOfNumber(s[1..]);
      LittleEndianTail(s[0] + 256 * high, |s|);
      assert (s[0] + 256 * high) % 256 == s[0] && (s[0] + 256 * high) / 256 == high;
    }
  }

  /** Consecutive fixed-width words, as one `fwrite` of an array lays them out. */
  function EncodeWords(ws: seq<nat>, width: nat): (s: seq<Byte>)
    ensures |s| == width * |ws|
  {
    if ws == [] then [] else LittleEndian(ws[0], width) + EncodeWords(ws[1..], width)
  }

  function DecodeWords(s: seq<Byte>, width: nat, n: nat): (ws: seq<nat>)
    requires |s| == width * n
    ensures |ws| == n
    ensures forall i :: 0 <= i < n ==> ws[i] < Pow256(width)
    decreases n
  {
    if n == 0 then [] else
      assert |s| - width == width * (n - 1) >= 0;
      [FromLittleEndian(s[..width])] + DecodeWords(s[width..], width, n - 1)
  }

  lemma {:induction false} WordsRoundTrip(ws: seq<nat>, width: nat)
    requires forall i :: 0 <= i < |ws| ==> ws[i] < Pow256(width)
    ensures DecodeWords(EncodeWords(ws, width), width, |ws|) == ws
  {
    if ws != [] {
      var s := EncodeWords(ws, width);
      LittleEndianRoundTrip(ws[0], width);
      WordsRoundTrip(ws[1..], width);
      assert s[..width] == LittleEndian(ws[0], width);
      assert s[width..] == EncodeWords(ws[1..], width);
    }
  }

  // ---- concatenations ----

  lemma Regroup3(a: seq<Byte>, b: seq<Byte>, c: seq<Byte>)
    ensures a + b + c == a + (b + c)
  {
  }

  lemma Regroup4(a: seq<Byte>, b: seq<Byte>, c: seq<Byte>, d: seq<Byte>)
    ensures a + b + c + d == a + (b + (c + d))
  {
  }

  lemma Regroup5(a: seq<Byte>, b: seq<Byte>, c: seq<Byte>, d: seq<Byte>, e: seq<Byte>)
    ensures a + b + c + d + e == a + (b + (c + (d + e)))
  {
  }
}
