/** JSON strings: the escapes of section 7 of RFC 8259, read and written the way cJSON does. */
module JsonString {
  import opened Bytes
  import opened CStrings
  import Utf8

  const QUOTE: Byte := 34
  const BACKSLASH: Byte := 92
  const LETTER_U: Byte := 117

  // ---- hexadecimal digits ----

  predicate IsHex(b: Byte) {
    48 <= b <= 57 || 65 <= b <= 70 || 97 <= b <= 102
  }

  function HexValue(b: Byte): (v: nat)
    requires IsHex(b)
    ensures v < 16
  {
    if b <= 57 then b - 48 else if b <= 70 then b - 55 else b - 87
  }

  predicate AllHex(s: seq<Byte>) {
    forall i :: 0 <= i < |s| ==> IsHex(s[i])
  }

  /** The number that a run of hexadecimal digits spells. */
  function HexNumber(s: seq<Byte>): (v: nat)
    requires AllHex(s)
  {
    if s == [] then 0 else 16 * HexNumber(s[..|s| - 1]) + HexValue(s[|s| - 1])
  }

  lemma HexNumberOfFour(s: seq<Byte>)
    requires |s| == 4 && AllHex(s)
    ensures HexNumber(s) == 4096 * HexValue(s[0]) + 256 * HexValue(s[1]) + 16 * HexValue(s[2]) + HexValue(s[3])
  {
    assert s[..3][..2] == s[..2] && s[..2][..1] == s[..1] && s[..1][..0] == [];
    assert HexNumber(s[..1]) == HexValue(s[0]);
    assert HexNumber(s[..2]) == 16 * HexNumber(s[..1]) + HexValue(s[1]);
    assert HexNumber(s[..3]) == 16 * HexNumber(s[..2]) + HexValue(s[2]);
  }

  /** What the source makes of four characters: their number, or 0 when one of them is not a digit. */
  function Hex4(s: seq<Byte>): (v: nat)
    requires |s| == 4
    ensures v <= 0xFFFF
  {
    if AllHex(s) then
      HexNumberOfFour(s);
      HexNumber(s)
    else 0
  }

  method ParseHex4(input: seq<Byte>) returns (h: nat)
    requires |input| >= 4
    ensures h == Hex4(input[..4])
  {
    h := 0;
    var i := 0;
    while i < 4
      invariant 0 <= i <= 4 && AllHex(input[..i])
      invariant h == if i == 4 then HexNumber(input[..i]) else 16 * HexNumber(input[..i])
    {
      assert i < 4 && input[..4][i] == input[i];
      assert input[..i + 1][..i] == input[..i];
      if 48 <= input[i] <= 57 {
        h := h + input[i] - 48;
      } else if 65 <= input[i] <= 70 {
        h := h + 10 + input[i] - 65;
      } else if 97 <= input[i] <= 102 {
        h := h + 10 + input[i] - 97;
      } else {
        return 0;
      }
      i := i + 1;
      if i < 4 {
        h := 16 * h;
      }
    }
  }

  /** The number in a `\u` escape at the start of `s`. */
  function Code(s: seq<Byte>): (v: nat)
    requires |s| >= 6
    ensures v <= 0xFFFF
  {
    Hex4(s[2..6])
  }

  // ---- decoding ----

  /** The output of one decoding step and the number of input bytes it takes. */
  datatype Piece = Piece(bytes: seq<Byte>, taken: nat)

  predicate IsHigh(code: nat) {
    0xD800 <= code <= 0xDBFF
  }

  predicate IsLow(code: nat) {
    0xDC00 <= code <= 0xDFFF
  }

  function Joined(high: nat, low: nat): (c: nat)
    ensures 0x10000 <= c <= 0x10FFFF
  {
    0x10000 + high % 1024 * 1024 + low % 1024
  }

  /** A `\u` escape, or a surrogate pair of them, at the start of `s`. */
  function Literal(s: seq<Byte>): (p: Option<Piece>)
    ensures p.Some? ==> 1 <= |p.value.bytes| <= 4 && (p.value.taken == 6 || p.value.taken == 12) && p.value.taken <= |s|
  {
    if |s| < 6 || IsLow(Code(s)) then None
    else if IsHigh(Code(s)) then
      if |s| < 12 || s[6] != BACKSLASH || s[7] != LETTER_U || !IsLow(Code(s[6..])) then None
      else Some(Piece(Utf8.Encode(Joined(Code(s), Code(s[6..]))), 12))
    else Some(Piece(Utf8.Encode(Code(s)), 6))
  }

  /** The one-letter escapes. */
  function Unescaped(letter: Byte): Option<Byte> {
    if letter == 98 then Some(8)
    else if letter == 102 then Some(12)
    else if letter == 110 then Some(10)
    else if letter == 114 then Some(13)
    else if letter == 116 then Some(9)
    else if letter == QUOTE || letter == BACKSLASH || letter == 47 then Some(letter)
    else None
  }

  /** One decoding step. `s` is what is left before the closing quote, and a backslash at its very end is read together
      with that quote. */
  function Step(s: seq<Byte>): (p: Option<Piece>)
    requires s != []
    ensures p.Some? ==> 1 <= |p.value.bytes| <= 4 && p.value.taken >= 1
  {
    if s[0] != BACKSLASH then Some(Piece([s[0]], 1))
    else
      var letter := if |s| >= 2 then s[1] else QUOTE;
      if letter == LETTER_U then Literal(s)
      else
        match Unescaped(letter)
        case None => None
        case Some(b) => Some(Piece([b], 2))
  }

  function Drop(s: seq<Byte>, n: nat): seq<Byte> {
    if n <= |s| then s[n..] else []
  }

  function Decode(s: seq<Byte>): Option<seq<Byte>>
    decreases |s|
  {
    if s == [] then Some([])
    else
      match Step(s)
      case None => None
      case Some(p) =>
        match Decode(Drop(s, p.taken))
        case None => None
        case Some(rest) => Some(p.bytes + rest)
  }

  /** Where the string that starts at `s` is closed: the scan steps over every backslash together with the byte behind
      it. */
  function ClosingQuote(s: seq<Byte>): (n: Option<nat>)
    ensures n.Some? ==> n.value < |s| && s[n.value] == QUOTE && Closed(s[..n.value])
    decreases |s|
  {
    if s == [] then None
    else if s[0] == QUOTE then Some(0)
    else
      var k := if s[0] == BACKSLASH then 2 else 1;
      if k > |s| then None
      else
        match ClosingQuote(s[k..])
        case None => None
        case Some(n) =>
          assert s[..k + n][k..] == s[k..][..n];
          Some(k + n)
  }

  function Shift(n: nat, at: Option<nat>): Option<nat> {
    match at
    case None => None
    case Some(k) => Some(n + k)
  }

  lemma ClosingQuoteStep(s: seq<Byte>)
    requires s != [] && s[0] != QUOTE
    ensures var k := if s[0] == BACKSLASH then 2 else 1;
            ClosingQuote(s) == if k > |s| then None else Shift(k, ClosingQuote(s[k..]))
  {
  }

  /** Text that the scan crosses without breaking a backslash pair apart at its end. */
  predicate Closed(s: seq<Byte>)
    decreases |s|
  {
    s == [] || (if s[0] == BACKSLASH then |s| >= 2 && Closed(s[2..]) else Closed(s[1..]))
  }

  /** The scan's estimate: every character or backslash pair counts for one byte of output. */
  function Units(s: seq<Byte>): (n: nat)
    ensures n <= |s|
    decreases |s|
  {
    if s == [] then 0
    else if s[0] == BACKSLASH && |s| >= 2 then 1 + Units(s[2..])
    else 1 + Units(s[1..])
  }

  /** A whole string token: the C string that it stands for and the text behind it. */
  function Parse(s: seq<Byte>): (r: Option<(seq<Byte>, seq<Byte>)>)
    ensures r.Some? ==> |r.value.1| < |s|
  {
    if s == [] || s[0] != QUOTE then None
    else
      match ClosingQuote(s[1..])
      case None => None
      case Some(n) =>
        match Decode(s[1..n + 1])
        case None => None
        case Some(text) => Some((CString(text), s[n + 2..]))
  }

  // ---- what the estimate has to cover ----

  /** What is left for the decoder, seen from the scan. `aligned` says that the decoder stands where the scan began a
      unit; otherwise it stands on the second byte of a backslash pair. */
  predicate Scanned(s: seq<Byte>, aligned: bool) {
    if aligned then Closed(s) else s != [] && Closed(s[1..])
  }

  function Budget(s: seq<Byte>, aligned: bool): nat
    requires Scanned(s, aligned)
  {
    if aligned then Units(s) else 1 + Units(s[1..])
  }

  lemma {:induction false} PlainRun(s: seq<Byte>, n: nat)
    requires n <= |s| && forall i :: 0 <= i < n ==> s[i] != BACKSLASH
    ensures Units(s) == n + Units(s[n..]) && (Closed(s) <==> Closed(s[n..]))
    decreases n
  {
    if n == 0 {
      assert s[0..] == s;
    } else {
      PlainRun(s[1..], n - 1);
      assert s[1..][n - 1..] == s[n..];
    }
  }

  /** Wherever a jump over `n` bytes lands, the scan has counted at least one unit for every two of them. */
  lemma {:induction false} Land(s: seq<Byte>, n: nat) returns (aligned: bool)
    requires Closed(s) && n <= |s|
    ensures Scanned(s[n..], aligned) && n / 2 + Budget(s[n..], aligned) <= Units(s)
    decreases n
  {
    if n == 0 {
      assert s[0..] == s;
      aligned := true;
    } else if s[0] != BACKSLASH {
      aligned := Land(s[1..], n - 1);
      assert s[1..][n - 1..] == s[n..];
    } else if n == 1 {
      assert s[1..][1..] == s[2..];
      aligned := false;
    } else {
      aligned := Land(s[2..], n - 2);
      assert s[2..][n - 2..] == s[n..];
    }
  }

  /** Hexadecimal digits are plain characters, so a well-formed escape has been counted byte for byte. */
  lemma WellFormedEscape(s: seq<Byte>)
    requires |s| >= 6 && s[0] == BACKSLASH && s[1] == LETTER_U && AllHex(s[2..6])
    ensures Units(s) == 5 + Units(s[6..]) && (Closed(s) <==> Closed(s[6..]))
    ensures Units(s[1..]) == 5 + Units(s[6..]) && (Closed(s[1..]) <==> Closed(s[6..]))
  {
    var digits := s[2..6];
    assert forall i :: 2 <= i < 6 ==> s[i] == digits[i - 2];
    PlainRun(s[1..], 5);
    PlainRun(s[2..], 4);
    assert s[1..][5..] == s[6..] && s[2..][4..] == s[6..];
  }

  lemma LowIsHex(s: seq<Byte>)
    requires |s| >= 6 && (IsLow(Code(s)) || IsHigh(Code(s)))
    ensures AllHex(s[2..6])
  {
  }

  /** An escape whose digits are not digits reads as the character 0. */
  lemma NoDigits(s: seq<Byte>)
    requires |s| >= 6 && !AllHex(s[2..6])
    ensures Literal(s) == Some(Piece([0], 6))
  {
  }

  /** The output of a literal is covered by what the scan counted for it, even when its digits are not digits. */
  lemma LiteralFits(s: seq<Byte>, aligned: bool) returns (aligned': bool)
    requires s != [] && s[0] == BACKSLASH && |s| >= 2 && s[1] == LETTER_U && Scanned(s, aligned) && Literal(s).Some?
    ensures var p := Literal(s).value;
            Scanned(s[p.taken..], aligned') && |p.bytes| + Budget(s[p.taken..], aligned') <= Budget(s, aligned)
  {
    hide Hex4, Units, Closed;
    var p := Literal(s).value;
    if AllHex(s[2..6]) {
      WellFormedEscape(s);
      if p.taken == 12 {
        LowIsHex(s[6..]);
        WellFormedEscape(s[6..]);
        assert s[6..][6..] == s[12..];
      }
      aligned' := true;
    } else if aligned {
      NoDigits(s);
      aligned' := Land(s, 6);
    } else {
      NoDigits(s);
      aligned' := Land(s[1..], 5);
      assert s[1..][5..] == s[6..];
    }
  }

  /** Every decoding step stays within what the scan counted for the bytes it takes, wherever it starts. */
  lemma StepFits(s: seq<Byte>, aligned: bool) returns (aligned': bool)
    requires s != [] && Scanned(s, aligned) && Step(s).Some?
    ensures var p := Step(s).value; var rest := Drop(s, p.taken);
            Scanned(rest, aligned') && |p.bytes| + Budget(rest, aligned') <= Budget(s, aligned)
  {
    var p := Step(s).value;
    aligned' := true;
    if s[0] != BACKSLASH {
    } else if |s| >= 2 && s[1] == LETTER_U {
      aligned' := LiteralFits(s, aligned);
    } else if !aligned && |s| >= 2 {
      aligned' := Land(s[1..], 1);
      assert s[1..][1..] == s[2..];
    }
  }

  /** The decoded text never exceeds the scan's estimate. */
  lemma {:induction false} DecodedFits(s: seq<Byte>, aligned: bool)
    requires Scanned(s, aligned) && Decode(s).Some?
    ensures |Decode(s).value| <= Budget(s, aligned)
    decreases |s|
  {
    if s != [] {
      var aligned' := StepFits(s, aligned);
      DecodedFits(Drop(s, Step(s).value.taken), aligned');
    }
  }
}
