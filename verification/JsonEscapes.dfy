/** What string escapes mean, and that printed strings read back as themselves. */
module JsonEscapes {
  import opened Bytes
  import opened CStrings
  import opened JsonString
  import Utf8

  // ---- reading: section 7 of RFC 8259 ----

  /** `s` is the escape `\uXXXX` of a 16-bit code unit, in digits of either case. */
  predicate IsUnit(s: seq<Byte>, unit: nat) {
    |s| == 6 && s[0] == BACKSLASH && s[1] == LETTER_U && AllHex(s[2..]) && HexNumber(s[2..]) == unit
  }

  /** `s` is the escaped form of a code point: one unit, or beyond the basic plane a UTF-16 surrogate pair. */
  predicate IsEscapeOf(s: seq<Byte>, c: nat) {
    && Utf8.IsScalar(c)
    && if c < 0x10000 then IsUnit(s, c)
       else |s| == 12 && IsUnit(s[..6], 0xD800 + (c - 0x10000) / 1024) && IsUnit(s[6..], 0xDC00 + (c - 0x10000) % 1024)
  }

  lemma UnitCode(s: seq<Byte>, unit: nat)
    requires |s| >= 6 && IsUnit(s[..6], unit)
    ensures Code(s) == unit && AllHex(s[2..6]) && s[0] == BACKSLASH && s[1] == LETTER_U
  {
    assert s[..6][2..] == s[2..6];
  }

  lemma SurrogatesJoin(c: nat)
    requires 0x10000 <= c <= 0x10FFFF
    ensures IsHigh(0xD800 + (c - 0x10000) / 1024) && IsLow(0xDC00 + (c - 0x10000) % 1024)
    ensures Joined(0xD800 + (c - 0x10000) / 1024, 0xDC00 + (c - 0x10000) % 1024) == c
  {
  }

  lemma JoinedSplits(high: nat, low: nat)
    requires IsHigh(high) && IsLow(low)
    ensures 0xD800 + (Joined(high, low) - 0x10000) / 1024 == high && 0xDC00 + (Joined(high, low) - 0x10000) % 1024 == low
  {
  }

  /** Every escaped code point decodes to its UTF-8, whatever follows, and a UTF-8 decoder gets it back. */
  lemma EscapeReadsAsUtf8(s: seq<Byte>, c: nat, more: seq<Byte>)
    requires IsEscapeOf(s, c)
    ensures Step(s + more) == Some(Piece(Utf8.Encode(c), |s|))
    ensures Utf8.Decode(Utf8.Encode(c)) == Some(c)
  {
    hide HexNumber, AllHex, Utf8.Encode, Utf8.Decode, Joined;
    Utf8.DecodeEncode(c);
    var t := s + more;
    assert t[..6] == s[..6];
    if c < 0x10000 {
      assert s[..6] == s;
      UnitCode(t, c);
    } else {
      assert t[6..][..6] == s[6..];
      UnitCode(t, 0xD800 + (c - 0x10000) / 1024);
      UnitCode(t[6..], 0xDC00 + (c - 0x10000) % 1024);
      assert t[6] == s[6..][0] && t[7] == s[6..][1];
      SurrogatesJoin(c);
    }
  }

  /** Conversely, the literals that decode are the escapes of code points; the only others are six bytes whose digits are
      no digits, and they read as the character 0. */
  lemma LiteralsAreEscapes(s: seq<Byte>) returns (c: nat)
    requires |s| >= 2 && s[0] == BACKSLASH && s[1] == LETTER_U && Literal(s).Some?
    ensures var p := Literal(s).value;
            if AllHex(s[2..6]) then IsEscapeOf(s[..p.taken], c) && p.bytes == Utf8.Encode(c) else p == Piece([0], 6)
  {
    hide HexNumber, AllHex, Utf8.Encode, Joined;
    c := 0;
    if !AllHex(s[2..6]) {
      NoDigits(s);
    } else {
      assert s[..6][2..] == s[2..6];
      c := Code(s);
      if IsHigh(c) {
        var t := s[6..];
        LowIsHex(t);
        assert t[..6][2..] == t[2..6] && s[..12][6..] == t[..6] && s[..12][..6] == s[..6];
        c := Joined(Code(s), Code(t));
        JoinedSplits(Code(s), Code(t));
      }
    }
  }

  /** Text that RFC 8259 does not allow, a `\u` without digits, is accepted. */
  lemma NoDigitsWitness()
    ensures Decode([BACKSLASH, LETTER_U, 90, 90, 90, 90]) == Some([0])
  {
    var s: seq<Byte> := [BACKSLASH, LETTER_U, 90, 90, 90, 90];
    assert s[2..6][0] == 90;
    NoDigits(s);
    var nul: seq<Byte> := [0];
    assert Step(s) == Some(Piece(nul, 6)) && Drop(s, 6) == [] && Decode([]) == Some([]);
    assert nul + [] == nul;
  }

  /** Which `\u` sequences are refused: cut off ones, low surrogates on their own, and high surrogates without a low
      one behind them. */
  lemma RefusedLiterals(s: seq<Byte>)
    ensures Literal(s) == None <==>
              || |s| < 6
              || IsLow(Code(s))
              || (IsHigh(Code(s)) && !(exists low :: IsLow(low) && |s| >= 12 && IsUnit(s[6..12], low)))
  {
    hide HexNumber, AllHex;
    if |s| >= 12 && IsHigh(Code(s)) {
      var t := s[6..];
      assert t[..6] == s[6..12] && t[..6][2..] == t[2..6];
      if s[6] == BACKSLASH && s[7] == LETTER_U && IsLow(Code(t)) {
        LowIsHex(t);
        assert IsUnit(s[6..12], Code(t));
      }
      forall low | IsLow(low) && IsUnit(s[6..12], low)
        ensures Literal(s).Some?
      {
        UnitCode(t, low);
      }
    }
  }

  // ---- printing ----

  function HexDigit(v: nat): (b: Byte)
    requires v < 16
    ensures IsHex(b) && HexValue(b) == v
  {
    if v < 10 then 48 + v else 87 + v
  }

  /** The letter of a one-letter escape. */
  function EscapeLetter(b: Byte): (letter: Option<Byte>)
    ensures letter.Some? ==> Unescaped(letter.value) == Some(b) && letter.value != LETTER_U
  {
    if b == BACKSLASH || b == QUOTE then Some(b)
    else if b == 8 then Some(98)
    else if b == 12 then Some(102)
    else if b == 10 then Some(110)
    else if b == 13 then Some(114)
    else if b == 9 then Some(116)
    else None
  }

  /** How one byte is printed. Bytes from 128 on are passed through, which keeps UTF-8 as it is. */
  function EscapeByte(b: Byte): (s: seq<Byte>)
    ensures |s| == 1 || |s| == 2 || |s| == 6
  {
    if EscapeLetter(b).Some? then [BACKSLASH, EscapeLetter(b).value]
    else if b < 32 then [BACKSLASH, LETTER_U, 48, 48, HexDigit(b / 16), HexDigit(b % 16)]
    else [b]
  }

  function Escaped(s: seq<Byte>): seq<Byte> {
    if s == [] then [] else EscapeByte(s[0]) + Escaped(s[1..])
  }

  /** A printed string, quotes included. */
  function Quoted(s: seq<Byte>): seq<Byte> {
    [QUOTE] + Escaped(s) + [QUOTE]
  }

  lemma {:induction false} CrossPlain(s: seq<Byte>, n: nat)
    requires n <= |s| && forall i :: 0 <= i < n ==> s[i] != QUOTE && s[i] != BACKSLASH
    ensures ClosingQuote(s) == Shift(n, ClosingQuote(s[n..]))
    decreases n
  {
    hide ClosingQuote;
    if n == 0 {
      assert s[0..] == s;
    } else {
      ClosingQuoteStep(s);
      CrossPlain(s[1..], n - 1);
      assert s[1..][n - 1..] == s[n..];
    }
  }

  lemma EscapeIsCrossed(b: Byte, t: seq<Byte>)
    ensures ClosingQuote(EscapeByte(b) + t) == Shift(|EscapeByte(b)|, ClosingQuote(t))
  {
    hide ClosingQuote;
    var e := EscapeByte(b);
    var s := e + t;
    assert s[|e|..] == t;
    ClosingQuoteStep(s);
    if |e| == 6 {
      CrossPlain(s[2..], 4);
      assert s[2..][4..] == t;
    }
  }

  lemma NothingEscaped()
    ensures Escaped([]) == []
  {
  }

  lemma EscapedFirst(s: seq<Byte>, t: seq<Byte>)
    requires s != []
    ensures Escaped(s) + t == EscapeByte(s[0]) + (Escaped(s[1..]) + t)
    ensures |Escaped(s)| == |EscapeByte(s[0])| + |Escaped(s[1..])|
  {
    hide EscapeByte;
    Regroup3(EscapeByte(s[0]), Escaped(s[1..]), t);
  }

  lemma ClosesHere(t: seq<Byte>)
    ensures ClosingQuote([QUOTE] + t) == Some(0)
  {
  }

  /** RFC 8259 section 7: quotation mark, backslash and control characters never appear bare, so the scan finds the
      closing quote of a printed string and no other. */
  lemma {:induction false} ClosesAtEnd(s: seq<Byte>, t: seq<Byte>)
    ensures ClosingQuote(Escaped(s) + ([QUOTE] + t)) == Some(|Escaped(s)|)
  {
    hide ClosingQuote, EscapeByte, Escaped;
    var end := [QUOTE] + t;
    if s == [] {
      ClosesHere(t);
      NothingEscaped();
      assert Escaped(s) + end == end;
    } else {
      ClosesAtEnd(s[1..], t);
      EscapeIsCrossed(s[0], Escaped(s[1..]) + end);
      EscapedFirst(s, end);
    }
  }

  lemma {:induction false} EscapedIsPrintable(s: seq<Byte>)
    ensures forall i :: 0 <= i < |Escaped(s)| ==> Escaped(s)[i] >= 32
  {
    if s != [] {
      EscapedIsPrintable(s[1..]);
    }
  }

  lemma EscapeDecodes(b: Byte, t: seq<Byte>)
    ensures Step(EscapeByte(b) + t) == Some(Piece([b], |EscapeByte(b)|))
  {
    var e := EscapeByte(b);
    var s := e + t;
    if |e| == 6 {
      assert s[2..6] == [48, 48, HexDigit(b / 16), HexDigit(b % 16)];
      HexNumberOfFour(s[2..6]);
      assert Code(s) == b;
    }
  }

  lemma {:induction false} DecodeEscaped(s: seq<Byte>)
    ensures Decode(Escaped(s)) == Some(s)
  {
    if s != [] {
      var e, rest := EscapeByte(s[0]), Escaped(s[1..]);
      EscapeDecodes(s[0], rest);
      assert Drop(e + rest, |e|) == rest;
      DecodeEscaped(s[1..]);
      assert [s[0]] + s[1..] == s;
    }
  }

  /** The round trip: a printed C string, followed by anything, reads back as itself. */
  lemma ParseQuoted(s: seq<Byte>, t: seq<Byte>)
    requires forall i :: 0 <= i < |s| ==> s[i] != 0
    ensures Parse(Quoted(s) + t) == Some((s, t))
  {
    hide ClosingQuote, Decode, Escaped;
    var text := Quoted(s) + t;
    var n := |Escaped(s)|;
    assert text[1..] == Escaped(s) + ([QUOTE] + t);
    ClosesAtEnd(s, t);
    assert text[1..n + 1] == Escaped(s) && text[n + 2..] == t;
    DecodeEscaped(s);
    NoNul(s);
  }

  // ---- the printing passes ----

  lemma {:induction false} EscapedAppend(s: seq<Byte>, b: Byte)
    ensures Escaped(s + [b]) == Escaped(s) + EscapeByte(b)
  {
    hide EscapeByte;
    if s == [] {
      assert [b][1..] == [];
      assert s + [b] == [b] && EscapeByte(b) + [] == EscapeByte(b);
    } else {
      EscapedAppend(s[1..], b);
      assert (s + [b])[1..] == s[1..] + [b];
      assert EscapeByte(s[0]) + (Escaped(s[1..]) + EscapeByte(b)) == EscapeByte(s[0]) + Escaped(s[1..]) + EscapeByte(b);
    }
  }

  /** One turn of a loop over the bytes of a string. */
  lemma EscapedAt(s: seq<Byte>, i: nat)
    requires i < |s|
    ensures Escaped(s[..i + 1]) == Escaped(s[..i]) + EscapeByte(s[i])
    ensures Escaped(s[i..]) == EscapeByte(s[i]) + Escaped(s[i + 1..])
  {
    hide EscapeByte;
    assert s[..i + 1] == s[..i] + [s[i]];
    EscapedAppend(s[..i], s[i]);
    assert s[i..][1..] == s[i + 1..];
  }

  lemma {:induction false} NothingToEscape(s: seq<Byte>)
    ensures |Escaped(s)| >= |s| && (|Escaped(s)| == |s| ==> Escaped(s) == s)
  {
    if s != [] {
      NothingToEscape(s[1..]);
      assert [s[0]] + s[1..] == s;
    }
  }

  /** The first pass: how many bytes the escapes add. */
  method CountEscapes(input: seq<Byte>) returns (escapes: nat)
    ensures |input| + escapes == |Escaped(input)|
  {
    hide Escaped;
    escapes := 0;
    var i := 0;
    assert input[..0] == [];
    NothingEscaped();
    while i < |input|
      invariant 0 <= i <= |input|
      invariant i + escapes == |Escaped(input[..i])|
    {
      EscapedAt(input, i);
      var b := input[i];
      if b == JsonString.QUOTE || b == JsonString.BACKSLASH || b == 8 || b == 12 || b == 10 || b == 13 || b == 9 {
        escapes := escapes + 1;
      } else if b < 32 {
        escapes := escapes + 5;
      }
      i := i + 1;
    }
    assert input[..i] == input;
  }
}
