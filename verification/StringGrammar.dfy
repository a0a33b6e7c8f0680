/** The string tokens of section 7 of RFC 8259, spelled out in literals, and what they are read as. */
module StringGrammar {
  import opened Bytes
  import opened CStrings
  import opened JsonString
  import JsonEscapes
  import Utf8

  // ---- the units of a string ----

  /** The two-character escapes: the byte behind the backslash, and the byte that is meant. */
  const ESCAPES: seq<(Byte, Byte)> := [(34, 34), (92, 92), (47, 47), (98, 8), (102, 12), (110, 10), (114, 13), (116, 9)]

  predicate InTable(letter: Byte) {
    exists k :: 0 <= k < |ESCAPES| && ESCAPES[k].0 == letter
  }

  /** A hexadecimal digit, in one of its two cases. */
  datatype Hex = Hex(value: nat, upper: bool)

  function HexByte(h: Hex): Byte
    requires h.value < 16
  {
    if h.value < 10 then 48 + h.value else if h.upper then 55 + h.value else 87 + h.value
  }

  /** A character that stands for itself, a two-character escape, the escape of a character of the basic plane, or a
      surrogate pair of escapes. */
  datatype Unit = Plain(b: Byte) | Short(k: nat) | Basic(digits: seq<Hex>) | Pair(high: seq<Hex>, low: seq<Hex>)

  predicate FourDigits(ds: seq<Hex>) {
    |ds| == 4 && forall i :: 0 <= i < 4 ==> ds[i].value < 16
  }

  function CodeUnit(ds: seq<Hex>): (u: nat)
    requires FourDigits(ds)
    ensures u <= 0xFFFF
  {
    4096 * ds[0].value + 256 * ds[1].value + 16 * ds[2].value + ds[3].value
  }

  predicate IsUnit(u: Unit) {
    match u
    case Plain(b) => b != 34 && b != 92
    case Short(k) => k < |ESCAPES|
    case Basic(ds) => FourDigits(ds) && !(0xD800 <= CodeUnit(ds) <= 0xDFFF)
    case Pair(hs, ls) =>
      FourDigits(hs) && FourDigits(ls) && 0xD800 <= CodeUnit(hs) <= 0xDBFF && 0xDC00 <= CodeUnit(ls) <= 0xDFFF
  }

  predicate AreUnits(us: seq<Unit>) {
    forall i :: 0 <= i < |us| ==> IsUnit(us[i])
  }

  function HexEscape(ds: seq<Hex>): (s: seq<Byte>)
    requires FourDigits(ds)
    ensures |s| == 6
  {
    [92, 117, HexByte(ds[0]), HexByte(ds[1]), HexByte(ds[2]), HexByte(ds[3])]
  }

  function Spelled(u: Unit): (s: seq<Byte>)
    requires IsUnit(u)
    ensures s != []
  {
    match u
    case Plain(b) => [b]
    case Short(k) => [92, ESCAPES[k].0]
    case Basic(ds) => HexEscape(ds)
    case Pair(hs, ls) => HexEscape(hs) + HexEscape(ls)
  }

  /** The code point of an escape. */
  function CodePoint(u: Unit): (c: nat)
    requires IsUnit(u) && (u.Basic? || u.Pair?)
    ensures Utf8.IsScalar(c)
  {
    match u
    case Basic(ds) => CodeUnit(ds)
    case Pair(hs, ls) => 0x10000 + 0x400 * (CodeUnit(hs) - 0xD800) + (CodeUnit(ls) - 0xDC00)
  }

  function Meaning(u: Unit): (s: seq<Byte>)
    requires IsUnit(u)
  {
    match u
    case Plain(b) => [b]
    case Short(k) => [ESCAPES[k].1]
    case _ => Utf8.Encode(CodePoint(u))
  }

  function SpelledAll(us: seq<Unit>): (s: seq<Byte>)
    requires AreUnits(us)
  {
    if us == [] then [] else Spelled(us[0]) + SpelledAll(us[1..])
  }

  function MeaningAll(us: seq<Unit>): (s: seq<Byte>)
    requires AreUnits(us)
  {
    if us == [] then [] else Meaning(us[0]) + MeaningAll(us[1..])
  }

  // ---- UTF-8 ----

  /** How far a byte is into the range of 64 or fewer bytes that begins at `from`. */
  function Bits(b: Byte, from: int): int {
    b - from
  }

  predicate IsTail(b: Byte) {
    128 <= b < 192
  }

  /** The table of section 3 of RFC 3629: `bytes` carry the bits of `c`, six to a byte behind the first, in the shortest
      form. */
  predicate IsUtf8(c: nat, bytes: seq<Byte>) {
    match |bytes|
    case 1 => bytes[0] == c < 128
    case 2 => 192 <= bytes[0] < 224 && IsTail(bytes[1]) && 128 <= c && c == 64 * Bits(bytes[0], 192) + Bits(bytes[1], 128)
    case 3 =>
      && 224 <= bytes[0] < 240 && IsTail(bytes[1]) && IsTail(bytes[2])
      && 2048 <= c && c == 64 * (64 * Bits(bytes[0], 224) + Bits(bytes[1], 128)) + Bits(bytes[2], 128)
    case 4 =>
      && 240 <= bytes[0] < 248 && IsTail(bytes[1]) && IsTail(bytes[2]) && IsTail(bytes[3]) && 65536 <= c
      && c == 64 * (64 * (64 * Bits(bytes[0], 240) + Bits(bytes[1], 128)) + Bits(bytes[2], 128)) + Bits(bytes[3], 128)
    case _ => false
  }

  /** A code point has the bytes of the table and no others. */
  lemma Utf8Table(c: nat, bytes: seq<Byte>)
    requires c <= 0x10FFFF
    ensures IsUtf8(c, bytes) <==> bytes == Utf8.Encode(c)
  {
    hide IsUtf8;
    EncodedBits(c);
    if IsUtf8(c, bytes) {
      SameBytes(c, bytes, Utf8.Encode(c));
    }
  }

  lemma EncodedBits(c: nat)
    requires c <= 0x10FFFF
    ensures IsUtf8(c, Utf8.Encode(c))
  {
  }

  lemma SixBits(c: nat, high: nat, low: nat)
    requires c == 64 * high + low && low < 64
    ensures c / 64 == high && c % 64 == low
  {
  }

  lemma SameBytes(c: nat, a: seq<Byte>, b: seq<Byte>)
    requires IsUtf8(c, a) && IsUtf8(c, b)
    ensures a == b
  {
    assert |a| == |b|;
    if |a| == 2 {
      SixBits(c, Bits(a[0], 192), Bits(a[1], 128));
      SixBits(c, Bits(b[0], 192), Bits(b[1], 128));
    } else if |a| == 3 {
      SixBits(c, 64 * Bits(a[0], 224) + Bits(a[1], 128), Bits(a[2], 128));
      SixBits(c, 64 * Bits(b[0], 224) + Bits(b[1], 128), Bits(b[2], 128));
      SixBits(c / 64, Bits(a[0], 224), Bits(a[1], 128));
      SixBits(c / 64, Bits(b[0], 224), Bits(b[1], 128));
    } else if |a| == 4 {
      SixBits(c, 64 * (64 * Bits(a[0], 240) + Bits(a[1], 128)) + Bits(a[2], 128), Bits(a[3], 128));
      SixBits(c, 64 * (64 * Bits(b[0], 240) + Bits(b[1], 128)) + Bits(b[2], 128), Bits(b[3], 128));
      SixBits(c / 64, 64 * Bits(a[0], 240) + Bits(a[1], 128), Bits(a[2], 128));
      SixBits(c / 64, 64 * Bits(b[0], 240) + Bits(b[1], 128), Bits(b[2], 128));
      SixBits(c / 64 / 64, Bits(a[0], 240), Bits(a[1], 128));
      SixBits(c / 64 / 64, Bits(b[0], 240), Bits(b[1], 128));
    }
  }

  // ---- reading one unit ----

  lemma HexIsRead(h: Hex)
    requires h.value < 16
    ensures IsHex(HexByte(h)) && HexValue(HexByte(h)) == h.value
  {
  }

  /** No other bytes are hexadecimal digits. */
  lemma HexIsAll(b: Byte)
    requires IsHex(b)
    ensures exists h: Hex :: h.value < 16 && HexByte(h) == b
  {
    assert HexByte(Hex(HexValue(b), b < 97)) == b;
  }

  lemma CodeIsRead(ds: seq<Hex>, more: seq<Byte>)
    requires FourDigits(ds)
    ensures Code(HexEscape(ds) + more) == CodeUnit(ds)
  {
    var s := HexEscape(ds) + more;
    forall i | 0 <= i < 4
      ensures IsHex(HexByte(ds[i])) && HexValue(HexByte(ds[i])) == ds[i].value
    {
      HexIsRead(ds[i]);
    }
    assert s[2..6] == [HexByte(ds[0]), HexByte(ds[1]), HexByte(ds[2]), HexByte(ds[3])];
    HexNumberOfFour(s[2..6]);
  }

  lemma ShortIsRead(k: nat, more: seq<Byte>)
    requires k < |ESCAPES|
    ensures Step([92, ESCAPES[k].0] + more) == Some(Piece([ESCAPES[k].1], 2))
  {
  }

  lemma BasicIsRead(ds: seq<Hex>, more: seq<Byte>)
    requires FourDigits(ds) && !(0xD800 <= CodeUnit(ds) <= 0xDFFF)
    ensures Step(HexEscape(ds) + more) == Some(Piece(Utf8.Encode(CodeUnit(ds)), 6))
  {
    hide Code, HexByte, Utf8.Encode, CodeUnit;
    CodeIsRead(ds, more);
  }

  lemma PairIsRead(hs: seq<Hex>, ls: seq<Hex>, more: seq<Byte>)
    requires IsUnit(Pair(hs, ls))
    ensures Step(HexEscape(hs) + HexEscape(ls) + more) == Some(Piece(Utf8.Encode(CodePoint(Pair(hs, ls))), 12))
  {
    hide Code, HexByte, Utf8.Encode, CodeUnit;
    var s := HexEscape(hs) + HexEscape(ls) + more;
    assert s == HexEscape(hs) + (HexEscape(ls) + more);
    assert s[6..] == HexEscape(ls) + more;
    CodeIsRead(hs, HexEscape(ls) + more);
    CodeIsRead(ls, more);
  }

  /** Every unit is read as what it means, whatever follows. */
  lemma UnitIsRead(u: Unit, more: seq<Byte>)
    requires IsUnit(u)
    ensures Step(Spelled(u) + more) == Some(Piece(Meaning(u), |Spelled(u)|))
  {
    hide Literal, Unescaped, HexByte, CodeUnit, Utf8.Encode;
    match u
    case Plain(b) =>
    case Short(k) => ShortIsRead(k, more);
    case Basic(ds) => BasicIsRead(ds, more);
    case Pair(hs, ls) => PairIsRead(hs, ls, more);
  }

  // ---- whole tokens ----

  lemma SpelledFirst(us: seq<Unit>, t: seq<Byte>)
    requires AreUnits(us) && us != []
    ensures SpelledAll(us) + t == Spelled(us[0]) + (SpelledAll(us[1..]) + t)
  {
    hide Spelled;
  }

  function After(s: seq<Byte>, rest: Option<seq<Byte>>): Option<seq<Byte>> {
    match rest
    case None => None
    case Some(t) => Some(s + t)
  }

  lemma DecodeFirst(s: seq<Byte>, p: Piece, rest: seq<Byte>)
    requires s != [] && Step(s) == Some(p) && Drop(s, p.taken) == rest
    ensures Decode(s) == After(p.bytes, Decode(rest))
  {
    hide Step;
  }

  lemma AfterTwice(a: seq<Byte>, b: seq<Byte>, t: Option<seq<Byte>>)
    ensures After(a, After(b, t)) == After(a + b, t)
  {
    if t.Some? {
      assert a + (b + t.value) == a + b + t.value;
    }
  }

  lemma {:induction false} UnitsAreRead(us: seq<Unit>, more: seq<Byte>)
    requires AreUnits(us)
    ensures Decode(SpelledAll(us) + more) == After(MeaningAll(us), Decode(more))
  {
    hide Step, IsUnit, Decode, Spelled, Meaning;
    if us == [] {
      assert SpelledAll(us) + more == more;
      assert Decode(more).Some? ==> [] + Decode(more).value == Decode(more).value;
    } else {
      var rest := SpelledAll(us[1..]) + more;
      SpelledFirst(us, more);
      UnitIsRead(us[0], rest);
      DecodeFirst(Spelled(us[0]) + rest, Piece(Meaning(us[0]), |Spelled(us[0])|), rest);
      UnitsAreRead(us[1..], more);
      AfterTwice(Meaning(us[0]), MeaningAll(us[1..]), Decode(more));
    }
  }

  lemma UnitIsCrossed(u: Unit, t: seq<Byte>)
    requires IsUnit(u)
    ensures ClosingQuote(Spelled(u) + t) == Shift(|Spelled(u)|, ClosingQuote(t))
  {
    hide ClosingQuote, HexByte, CodeUnit;
    var s := Spelled(u) + t;
    ClosingQuoteStep(s);
    match u
    case Plain(_) => assert s[1..] == t;
    case Short(_) => assert s[2..] == t;
    case Basic(ds) => EscapeIsCrossed(ds, t);
    case Pair(hs, ls) =>
      EscapeIsCrossed(hs, HexEscape(ls) + t);
      EscapeIsCrossed(ls, t);
      assert s == HexEscape(hs) + (HexEscape(ls) + t);
  }

  lemma EscapeIsCrossed(ds: seq<Hex>, t: seq<Byte>)
    requires FourDigits(ds)
    ensures ClosingQuote(HexEscape(ds) + t) == Shift(6, ClosingQuote(t))
  {
    hide ClosingQuote;
    var s := HexEscape(ds) + t;
    ClosingQuoteStep(s);
    JsonEscapes.CrossPlain(s[2..], 4);
    assert s[2..][4..] == t;
  }

  lemma {:induction false} UnitsAreCrossed(us: seq<Unit>, t: seq<Byte>)
    requires AreUnits(us)
    ensures ClosingQuote(SpelledAll(us) + t) == Shift(|SpelledAll(us)|, ClosingQuote(t))
  {
    hide ClosingQuote, IsUnit;
    if us == [] {
      assert SpelledAll(us) + t == t;
    } else {
      hide Spelled;
      SpelledFirst(us, t);
      UnitIsCrossed(us[0], SpelledAll(us[1..]) + t);
      UnitsAreCrossed(us[1..], t);
    }
  }

  /** A string token of RFC 8259 is read as what its units mean, up to a NUL among them, and what follows is left alone. */
  lemma TokenIsRead(us: seq<Unit>, t: seq<Byte>)
    requires AreUnits(us)
    ensures Parse([34] + SpelledAll(us) + [34] + t) == Some((CString(MeaningAll(us)), t))
  {
    hide ClosingQuote, Decode, SpelledAll, MeaningAll, CString;
    var s, inner := [34] + SpelledAll(us) + [34] + t, SpelledAll(us);
    assert s[1..] == inner + ([34] + t);
    JsonEscapes.ClosesHere(t);
    UnitsAreCrossed(us, [34] + t);
    assert s[1..|inner| + 1] == inner && s[|inner| + 2..] == t;
    UnitsAreRead(us, []);
    assert inner + [] == inner && MeaningAll(us) + [] == MeaningAll(us);
    NothingLeft();
  }

  lemma NothingLeft()
    ensures Decode([]) == Some([])
  {
  }

  /** A token with any other letter behind a backslash is refused, whatever stands in front of it and behind it. */
  lemma OtherLettersAreRefused(us: seq<Unit>, letter: Byte, more: seq<Byte>)
    requires AreUnits(us) && !InTable(letter) && letter != 117
    ensures Parse([34] + SpelledAll(us) + [92, letter] + more) == None
  {
    hide ClosingQuote, Decode, SpelledAll, MeaningAll;
    var inner := SpelledAll(us);
    var s := [34] + inner + [92, letter] + more;
    assert s[1..] == inner + ([92, letter] + more);
    UnitsAreCrossed(us, [92, letter] + more);
    ClosingQuoteStep([92, letter] + more);
    assert ([92, letter] + more)[2..] == more;
    var n := ClosingQuote(s[1..]);
    if n.Some? {
      var k := |inner| + 2;
      assert s[1..n.value + 1] == inner + ([92, letter] + s[k + 1..n.value + 1]);
      UnitsAreRead(us, [92, letter] + s[k + 1..n.value + 1]);
      LetterIsRefused(letter, s[k + 1..n.value + 1]);
    }
  }

  lemma LetterIsRefused(letter: Byte, more: seq<Byte>)
    requires !InTable(letter) && letter != 117
    ensures Decode([92, letter] + more) == None
  {
    assert ESCAPES[0].0 == 34 && ESCAPES[1].0 == 92 && ESCAPES[2].0 == 47 && ESCAPES[3].0 == 98;
    assert ESCAPES[4].0 == 102 && ESCAPES[5].0 == 110 && ESCAPES[6].0 == 114 && ESCAPES[7].0 == 116;
  }

  lemma NothingFrom(s: seq<Byte>)
    requires s != [] && Step(s) == None
    ensures Decode(s) == None
  {
  }

  /** A surrogate is refused on its own: a low one wherever no high one has taken it along, and a high one when anything but
      the escape of a low one follows it. */
  lemma LoneSurrogatesAreRefused(us: seq<Unit>, ds: seq<Hex>, t: seq<Byte>)
    requires AreUnits(us) && FourDigits(ds)
    requires || 0xDC00 <= CodeUnit(ds) <= 0xDFFF
             || (0xD800 <= CodeUnit(ds) <= 0xDBFF && (|t| < 2 || t[0] != 92 || t[1] != 117))
    ensures Parse([34] + SpelledAll(us) + HexEscape(ds) + t) == None
  {
    hide Code, CodeUnit, ClosingQuote, HexByte, SpelledAll, MeaningAll, Decode;
    var inner, e := SpelledAll(us), HexEscape(ds);
    var s := [34] + inner + e + t;
    assert s[1..] == inner + (e + t);
    UnitsAreCrossed(us, e + t);
    EscapeIsCrossed(ds, t);
    var n := ClosingQuote(s[1..]);
    if n.Some? {
      var k := |inner| + 6;
      var rest := s[k + 1..n.value + 1];
      assert s[1..n.value + 1] == inner + (e + rest);
      assert forall i :: 0 <= i < |rest| ==> rest[i] == t[i];
      UnitsAreRead(us, e + rest);
      CodeIsRead(ds, rest);
      assert (e + rest)[6..] == rest;
      NothingFrom(e + rest);
    }
  }

  // ---- printing ----

  /** How a byte is printed: in two characters where there is such an escape (but for the slash, which stands for itself),
      other control characters in six, with small letters for digits, and everything else as it is. */
  function PrintedUnit(b: Byte): (u: Unit)
    ensures b != 0 ==> IsUnit(u) && Meaning(u) == [b]
  {
    if b == 34 then Short(0)
    else if b == 92 then Short(1)
    else if b == 8 then Short(3)
    else if b == 12 then Short(4)
    else if b == 10 then Short(5)
    else if b == 13 then Short(6)
    else if b == 9 then Short(7)
    else if b < 32 then Basic([Hex(0, false), Hex(0, false), Hex(b / 16, false), Hex(b % 16, false)])
    else Plain(b)
  }

  function PrintedUnits(s: seq<Byte>): (us: seq<Unit>)
    requires forall i :: 0 <= i < |s| ==> s[i] != 0
    ensures AreUnits(us)
  {
    if s == [] then [] else [PrintedUnit(s[0])] + PrintedUnits(s[1..])
  }

  /** A printed string is such a token. */
  lemma PrintedIsToken(s: seq<Byte>)
    requires forall i :: 0 <= i < |s| ==> s[i] != 0
    ensures JsonEscapes.Quoted(s) == [34] + SpelledAll(PrintedUnits(s)) + [34]
  {
    EscapedIsSpelled(s);
  }

  lemma ByteIsPrinted(b: Byte)
    requires b != 0
    ensures JsonEscapes.EscapeByte(b) == Spelled(PrintedUnit(b))
  {
  }

  lemma {:induction false} EscapedIsSpelled(s: seq<Byte>)
    requires forall i :: 0 <= i < |s| ==> s[i] != 0
    ensures JsonEscapes.Escaped(s) == SpelledAll(PrintedUnits(s))
  {
    hide JsonEscapes.EscapeByte, Spelled, PrintedUnit;
    if s != [] {
      ByteIsPrinted(s[0]);
      EscapedIsSpelled(s[1..]);
      var us := PrintedUnits(s);
      assert us[0] == PrintedUnit(s[0]) && us[1..] == PrintedUnits(s[1..]);
    }
  }
}
