/** UTF-8 as section 3 of RFC 3629 defines it. */
module Utf8 {
  import opened Bytes

  /** A Unicode scalar value: a code point that is not a UTF-16 surrogate. */
  predicate IsScalar(c: nat) {
    c < 0xD800 || 0xE000 <= c <= 0x10FFFF
  }

  function Length(c: nat): (n: nat)
    ensures 1 <= n <= 4
  {
    if c < 0x80 then 1 else if c < 0x800 then 2 else if c < 0x10000 then 3 else 4
  }

  /** The bytes of a code point, most significant bits first, six bits to a continuation byte. */
  function Encode(c: nat): (bytes: seq<Byte>)
    requires c <= 0x10FFFF
    ensures |bytes| == Length(c)
  {
    if c < 0x80 then [c]
    else if c < 0x800 then [0xC0 + c / 64, 0x80 + c % 64]
    else if c < 0x10000 then [0xE0 + c / 64 / 64, 0x80 + c / 64 % 64, 0x80 + c % 64]
    else [0xF0 + c / 64 / 64 / 64, 0x80 + c / 64 / 64 % 64, 0x80 + c / 64 % 64, 0x80 + c % 64]
  }

  predicate IsContinuation(b: Byte) {
    0x80 <= b < 0xC0
  }

  /** The number spelled by a lead byte's payload and the continuation bytes behind it. */
  function Payload(lead: nat, rest: seq<Byte>): Option<nat> {
    if rest == [] then Some(lead)
    else
      match Payload(lead, rest[..|rest| - 1])
      case None => None
      case Some(high) => if IsContinuation(rest[|rest| - 1]) then Some(64 * high + (rest[|rest| - 1] - 0x80)) else None
  }

  /** What a decoder makes of one whole sequence: its lead byte fixes the length, overlong forms, surrogates and code
      points beyond the last plane are refused. */
  function Decode(bytes: seq<Byte>): Option<nat> {
    if bytes == [] then None
    else
      var b := bytes[0];
      var c :=
        if b < 0x80 && |bytes| == 1 then Some(b)
        else if 0xC0 <= b < 0xE0 && |bytes| == 2 then Payload(b - 0xC0, bytes[1..])
        else if 0xE0 <= b < 0xF0 && |bytes| == 3 then Payload(b - 0xE0, bytes[1..])
        else if 0xF0 <= b < 0xF8 && |bytes| == 4 then Payload(b - 0xF0, bytes[1..])
        else None;
      if c.Some? && IsScalar(c.value) && Length(c.value) == |bytes| then c else None
  }

  lemma Payload1(lead: nat, x: Byte)
    ensures Payload(lead, [x]) == if IsContinuation(x) then Some(64 * lead + (x - 0x80)) else None
  {
    var s: seq<Byte> := [x];
    assert s[..0] == [];
  }

  lemma Payload2(lead: nat, x: Byte, y: Byte)
    ensures Payload(lead, [x, y])
         == if IsContinuation(x) && IsContinuation(y) then Some(64 * (64 * lead + (x - 0x80)) + (y - 0x80)) else None
  {
    var s: seq<Byte> := [x, y];
    assert s[..1] == [x];
    Payload1(lead, x);
  }

  lemma Payload3(lead: nat, x: Byte, y: Byte, z: Byte)
    ensures Payload(lead, [x, y, z])
         == if IsContinuation(x) && IsContinuation(y) && IsContinuation(z)
            then Some(64 * (64 * (64 * lead + (x - 0x80)) + (y - 0x80)) + (z - 0x80)) else None
  {
    var s: seq<Byte> := [x, y, z];
    assert s[..2] == [x, y];
    Payload2(lead, x, y);
  }

  /** Every scalar value is read back from its own bytes. */
  lemma DecodeEncode(c: nat)
    requires IsScalar(c)
    ensures Decode(Encode(c)) == Some(c)
  {
    var s := Encode(c);
    if |s| == 2 {
      assert s[1..] == [s[1]];
      Payload1(s[0] - 0xC0, s[1]);
    } else if |s| == 3 {
      assert s[1..] == [s[1], s[2]];
      Payload2(s[0] - 0xE0, s[1], s[2]);
    } else if |s| == 4 {
      assert s[1..] == [s[1], s[2], s[3]];
      Payload3(s[0] - 0xF0, s[1], s[2], s[3]);
    }
  }

  lemma SixBits(high: nat, low: nat)
    requires low < 64
    ensures (64 * high + low) / 64 == high && (64 * high + low) % 64 == low
  {
  }

  lemma EncodeDecode2(a: Byte, b: Byte)
    requires Decode([a, b]).Some?
    ensures Encode(Decode([a, b]).value) == [a, b]
  {
    var s: seq<Byte> := [a, b];
    assert s[1..] == [b];
    hide Payload;
    Payload1(a - 0xC0, b);
    SixBits(a - 0xC0, b - 0x80);
  }

  lemma EncodeDecode3(a: Byte, b: Byte, c: Byte)
    requires Decode([a, b, c]).Some?
    ensures Encode(Decode([a, b, c]).value) == [a, b, c]
  {
    var s: seq<Byte> := [a, b, c];
    assert s[1..] == [b, c];
    hide Payload;
    Payload2(a - 0xE0, b, c);
    SixBits(a - 0xE0, b - 0x80);
    SixBits(64 * (a - 0xE0) + (b - 0x80), c - 0x80);
  }

  lemma EncodeDecode4(a: Byte, b: Byte, c: Byte, d: Byte)
    requires Decode([a, b, c, d]).Some?
    ensures Encode(Decode([a, b, c, d]).value) == [a, b, c, d]
  {
    var s: seq<Byte> := [a, b, c, d];
    assert s[1..] == [b, c, d];
    hide Payload;
    Payload3(a - 0xF0, b, c, d);
    SixBits(a - 0xF0, b - 0x80);
    SixBits(64 * (a - 0xF0) + (b - 0x80), c - 0x80);
    SixBits(64 * (64 * (a - 0xF0) + (b - 0x80)) + (c - 0x80), d - 0x80);
  }

  /** And those bytes are the only ones it is read from. */
  lemma EncodeDecode(s: seq<Byte>)
    requires Decode(s).Some?
    ensures Encode(Decode(s).value) == s
  {
    if |s| == 1 {
      assert s == [s[0]];
    } else if |s| == 2 {
      assert s == [s[0], s[1]];
      EncodeDecode2(s[0], s[1]);
    } else if |s| == 3 {
      assert s == [s[0], s[1], s[2]];
      EncodeDecode3(s[0], s[1], s[2]);
    } else {
      assert s == [s[0], s[1], s[2], s[3]];
      EncodeDecode4(s[0], s[1], s[2], s[3]);
    }
  }

  /** A code point with its last `k` groups of six bits shifted out. */
  function Shifted(c: nat, k: nat): nat {
    if k == 0 then c else Shifted(c, k - 1) / 64
  }

  function LeadMark(n: nat): nat {
    if n <= 1 then 0 else if n == 2 then 0xC0 else if n == 3 then 0xE0 else 0xF0
  }

  /** The bytes as the shifts produce them, from the last one to the first. */
  lemma EncodeAt(c: nat, j: nat)
    requires c <= 0x10FFFF && j < Length(c)
    ensures Encode(c)[j] == if j == 0 then LeadMark(Length(c)) + Shifted(c, Length(c) - 1)
                            else 0x80 + Shifted(c, Length(c) - 1 - j) % 64
  {
    assert Shifted(c, 1) == c / 64;
    assert Shifted(c, 2) == c / 64 / 64;
    assert Shifted(c, 3) == c / 64 / 64 / 64;
  }

  /** Writes a code point back to front. The masks of the source set and clear bits that are known to be clear or set, so
      they are sums here. */
  method Write(c: nat, output: array<Byte>, at: nat) returns (end: nat)
    requires c <= 0x10FFFF && at + Length(c) <= output.Length
    modifies output
    ensures end == at + Length(c)
    ensures output[..] == old(output[..at]) + Encode(c) + old(output[end..])
  {
    hide Encode, Length, LeadMark;
    var n := Length(c);
    ghost var bytes := Encode(c);
    var code, position := c, n - 1;
    while position > 0
      invariant 0 <= position < n
      invariant code == Shifted(c, n - 1 - position)
      invariant forall i :: 0 <= i <= at + position ==> output[i] == old(output[i])
      invariant forall i :: at + position < i < at + n ==> output[i] == bytes[i - at]
      invariant forall i :: at + n <= i < output.Length ==> output[i] == old(output[i])
    {
      EncodeAt(c, position);
      output[at + position] := 0x80 + code % 64;
      code := code / 64;
      position := position - 1;
    }
    EncodeAt(c, 0);
    output[at] := LeadMark(n) + code;
    end := at + n;
    assert output[at..end] == bytes;
    assert output[..] == output[..at] + output[at..end] + output[end..];
  }
}
