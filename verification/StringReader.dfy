/** The two passes of cJSON's string parser over its input: a scan that sizes the output, and the decoding into it. */
module StringReader {
  import opened Bytes
  import opened CStrings
  import opened JsonString
  import Utf8

  /** Decodes one `\u` literal into the output. Returns 0 when it is malformed. */
  method Utf16LiteralToUtf8(input: seq<Byte>, output: array<Byte>, at: nat) returns (sequenceLength: nat, end: nat)
    requires Literal(input).Some? ==> at + |Literal(input).value.bytes| <= output.Length
    modifies output
    ensures match Literal(input)
            case None => sequenceLength == 0 && end == at && output[..] == old(output[..])
            case Some(p) =>
              && sequenceLength == p.taken && end == at + |p.bytes|
              && output[..] == old(output[..at]) + p.bytes + old(output[end..])
  {
    hide Hex4;
    sequenceLength, end := 0, at;
    if |input| < 6 {
      return;
    }
    var firstCode := ParseHex4(input[2..]);
    assert input[2..][..4] == input[2..6];
    if 0xDC00 <= firstCode <= 0xDFFF {
      return;
    }
    var codepoint := firstCode;
    if 0xD800 <= firstCode <= 0xDBFF {
      if |input| - 6 < 6 {
        return;
      }
      if input[6] != BACKSLASH || input[7] != LETTER_U {
        return;
      }
      var secondCode := ParseHex4(input[8..]);
      assert input[8..][..4] == input[6..][2..6];
      if secondCode < 0xDC00 || secondCode > 0xDFFF {
        return;
      }
      codepoint := 0x10000 + firstCode % 1024 * 1024 + secondCode % 1024;
      sequenceLength := 12;
    } else {
      sequenceLength := 6;
    }
    end := Utf8.Write(codepoint, output, at);
  }

  function Prepend(bytes: seq<Byte>, text: Option<seq<Byte>>): Option<seq<Byte>> {
    match text
    case None => None
    case Some(t) => Some(bytes + t)
  }

  lemma {:induction false} UnitsAppend(s: seq<Byte>, t: seq<Byte>)
    requires Closed(s)
    ensures Units(s + t) == Units(s) + Units(t) && (Closed(s + t) <==> Closed(t))
    decreases |s|
  {
    if s == [] {
      assert s + t == t;
    } else {
      var k := if s[0] == BACKSLASH then 2 else 1;
      UnitsAppend(s[k..], t);
      assert (s + t)[k..] == s[k..] + t;
    }
  }

  lemma FirstUnit(s: seq<Byte>)
    requires s != []
    ensures s[0] != BACKSLASH ==> Closed(s[..1]) && Units(s[..1]) == 1
    ensures s[0] == BACKSLASH && |s| >= 2 ==> Closed(s[..2]) && Units(s[..2]) == 1
  {
    assert s[..1][1..] == [];
    assert |s| >= 2 ==> s[..2][2..] == [];
  }

  ghost predicate ScannedTo(content: seq<Byte>, start: nat, end: nat, skipped: nat) {
    && start <= end <= |content|
    && ClosingQuote(content[start..]) == Shift(end - start, ClosingQuote(content[end..]))
    && Closed(content[start..end]) && skipped + Units(content[start..end]) == end - start
  }

  lemma NextSlice(content: seq<Byte>, start: nat, end: nat, k: nat)
    requires start <= end && end + k <= |content|
    ensures content[start..end] + content[end..][..k] == content[start..end + k]
    ensures content[end..][k..] == content[end + k..]
  {
    hide *;
    assert content[end..][..k] == content[end..end + k];
  }

  lemma ScanAdvance(content: seq<Byte>, start: nat, end: nat, skipped: nat)
    requires ScannedTo(content, start, end, skipped) && end < |content| && content[end] != QUOTE
    ensures content[end] != BACKSLASH ==> ScannedTo(content, start, end + 1, skipped)
    ensures content[end] == BACKSLASH ==>
              if end + 1 < |content| then ScannedTo(content, start, end + 2, skipped + 1)
              else ClosingQuote(content[start..]) == None
  {
    hide ClosingQuote, Units, Closed;
    var done, left := content[start..end], content[end..];
    var k := if content[end] == BACKSLASH then 2 else 1;
    ClosingQuoteStep(left);
    FirstUnit(left);
    if k <= |left| {
      UnitsAppend(done, left[..k]);
      NextSlice(content, start, end, k);
    }
  }

  lemma ScanStarts(content: seq<Byte>, start: nat)
    requires start <= |content|
    ensures ScannedTo(content, start, start, 0)
  {
    assert content[start..start] == [];
  }

  lemma ScanStops(content: seq<Byte>, start: nat, end: nat, skipped: nat)
    requires ScannedTo(content, start, end, skipped) && (end == |content| || content[end] == QUOTE)
    ensures ClosingQuote(content[start..]) == if end == |content| then None else Some(end - start)
  {
    assert end == |content| ==> content[end..] == [];
  }

  /** The scan: where the string closes and how many backslashes open a pair. */
  method Scan(content: seq<Byte>, start: nat) returns (end: nat, skipped: nat, found: bool)
    requires start <= |content|
    ensures match ClosingQuote(content[start..])
            case None => !found
            case Some(n) => found && end == start + n && end < |content| && skipped + Units(content[start..end]) == n
  {
    end, skipped := start, 0;
    ScanStarts(content, start);
    while end < |content| && content[end] != QUOTE
      invariant ScannedTo(content, start, end, skipped)
    {
      hide ScannedTo, ClosingQuote;
      ScanAdvance(content, start, end, skipped);
      if content[end] == BACKSLASH {
        if end + 1 >= |content| {
          return end, skipped, false;
        }
        skipped := skipped + 1;
        end := end + 1;
      }
      end := end + 1;
    }
    ScanStops(content, start, end, skipped);
    found := end < |content|;
  }

  lemma DecodeStep(s: seq<Byte>)
    requires s != []
    ensures Decode(s) == match Step(s)
                         case None => None
                         case Some(p) => Prepend(p.bytes, Decode(Drop(s, p.taken)))
  {
  }

  lemma PrependTwice(a: seq<Byte>, b: seq<Byte>, t: Option<seq<Byte>>)
    ensures Prepend(a, Prepend(b, t)) == Prepend(a + b, t)
  {
    if t.Some? {
      assert a + (b + t.value) == a + b + t.value;
    }
  }

  /** What is left of the text between the quotes, also when the last backslash took the closing quote along. */
  function Rest(content: seq<Byte>, at: nat, end: nat): seq<Byte>
    requires end <= |content|
  {
    if at <= end then content[at..end] else []
  }

  /** One step of the decoding pass. No write falls outside the output. */
  method DecodeOne(content: seq<Byte>, input: nat, end: nat, output: array<Byte>, at: nat)
    returns (ok: bool, input': nat, at': nat)
    requires input < end < |content| && content[end] == QUOTE
    requires Step(content[input..end]).Some? ==> at + |Step(content[input..end]).value.bytes| <= output.Length
    modifies output
    ensures match Step(content[input..end])
            case None => !ok
            case Some(p) =>
              && ok && at' == at + |p.bytes| && output[..at'] == old(output[..at]) + p.bytes
              && Rest(content, input', end) == Drop(content[input..end], p.taken) && input' > input
  {
    hide Literal, Unescaped;
    ok, input', at' := true, input, at;
    if content[input] != BACKSLASH {
      output[at] := content[input];
      input', at' := input + 1, at + 1;
    } else {
      var sequenceLength := 2;
      if content[input + 1] == LETTER_U {
        sequenceLength, at' := Utf16LiteralToUtf8(content[input..end], output, at);
        if sequenceLength == 0 {
          return false, input, at';
        }
      } else {
        var letter := Unescaped(content[input + 1]);
        if letter.None? {
          return false, input, at;
        }
        output[at] := letter.value;
        at' := at + 1;
      }
      input' := input + sequenceLength;
    }
  }

  lemma ReadBack(output: seq<Byte>, at: nat)
    requires at < |output| && output[at] == 0
    ensures CString(output) == CString(output[..at])
  {
    Terminated(output[..at], output[at + 1..]);
    assert output == output[..at] + [0] + output[at + 1..];
  }

  /** How far the decoding pass has come: what is in the output, followed by what the rest decodes to, is the text; and
      the scan has counted enough units for the rest. */
  ghost predicate Decoded(inner: seq<Byte>, output: seq<Byte>, rest: seq<Byte>, aligned: bool) {
    && Decode(inner) == Prepend(output, Decode(rest))
    && Scanned(rest, aligned) && |output| + Budget(rest, aligned) <= Units(inner)
  }

  lemma DecodedStep(inner: seq<Byte>, output: seq<Byte>, rest: seq<Byte>, aligned: bool) returns (aligned': bool)
    requires Decoded(inner, output, rest, aligned) && rest != []
    ensures match Step(rest)
            case None => Decode(inner) == None
            case Some(p) =>
              && |output| + |p.bytes| <= Units(inner)
              && Decoded(inner, output + p.bytes, Drop(rest, p.taken), aligned')
  {
    hide Step, Units, Closed, Decode;
    aligned' := aligned;
    DecodeStep(rest);
    if Step(rest).Some? {
      aligned' := StepFits(rest, aligned);
      PrependTwice(output, Step(rest).value.bytes, Decode(Drop(rest, Step(rest).value.taken)));
    }
  }

  lemma DecodedFromStart(inner: seq<Byte>)
    requires Closed(inner)
    ensures Decoded(inner, [], inner, true)
  {
    assert Decode(inner).Some? ==> [] + Decode(inner).value == Decode(inner).value;
  }

  lemma DecodedAtEnd(inner: seq<Byte>, output: seq<Byte>, aligned: bool)
    requires Decoded(inner, output, [], aligned)
    ensures Decode(inner) == Some(output)
  {
    assert output + [] == output;
  }

  /** The decoding pass. It never writes more bytes than the scan has counted units. */
  method DecodePass(content: seq<Byte>, start: nat, end: nat, output: array<Byte>) returns (ok: bool, at: nat)
    requires start <= end < |content| && content[end] == QUOTE && Closed(content[start..end])
    requires Units(content[start..end]) <= output.Length
    modifies output
    ensures at <= Units(content[start..end])
    ensures Decode(content[start..end]) == if ok then Some(output[..at]) else None
  {
    hide Step, Units, Closed, Decode, Decoded;
    ghost var inner := content[start..end];
    var input := start;
    ok, at := true, 0;
    ghost var aligned := true;
    DecodedFromStart(inner);
    assert output[..0] == [];
    while input < end
      invariant start <= input && 0 <= at <= Units(inner)
      invariant Decoded(inner, output[..at], Rest(content, input, end), aligned)
    {
      ghost var rest := content[input..end];
      aligned := DecodedStep(inner, output[..at], rest, aligned);
      var next;
      ok, input, next := DecodeOne(content, input, end, output, at);
      if !ok {
        return;
      }
      at := next;
    }
    assert Rest(content, input, end) == [];
    DecodedAtEnd(inner, output[..at], aligned);
  }

  lemma ParseOf(content: seq<Byte>, offset: nat, n: nat)
    requires offset < |content| && content[offset] == QUOTE && ClosingQuote(content[offset + 1..]) == Some(n)
    ensures Closed(content[offset + 1..offset + 1 + n])
    ensures Parse(content[offset..]) == match Decode(content[offset + 1..offset + 1 + n])
                                        case None => None
                                        case Some(t) => Some((CString(t), content[offset + n + 2..]))
  {
    hide ClosingQuote, Closed, Decode;
    var s := content[offset..];
    assert s[1..] == content[offset + 1..];
    assert s[1..][..n] == content[offset + 1..offset + 1 + n] == s[1..n + 1];
  }

  lemma NotClosed(content: seq<Byte>, offset: nat)
    requires offset < |content| && (content[offset] != QUOTE || ClosingQuote(content[offset + 1..]) == None)
    ensures Parse(content[offset..]) == None
  {
    assert content[offset..][1..] == content[offset + 1..];
  }

  /** Parses the string that starts at `offset`. The output has room for the scan's estimate, which counts the opening
      quote, and a terminator. */
  method ParseString(content: seq<Byte>, offset: nat) returns (text: Option<seq<Byte>>, next: nat)
    requires offset < |content|
    ensures match Parse(content[offset..])
            case None => text == None
            case Some(r) => text == Some(r.0) && next <= |content| && content[next..] == r.1
  {
    hide ClosingQuote, Parse, Units, Closed, Decode;
    text, next := None, offset;
    if content[offset] != QUOTE {
      NotClosed(content, offset);
      return;
    }
    var inputEnd, skippedBytes, found := Scan(content, offset + 1);
    if !found {
      NotClosed(content, offset);
      return;
    }
    ParseOf(content, offset, inputEnd - offset - 1);
    var allocationLength := inputEnd - offset - skippedBytes;
    var output := new Byte[allocationLength + 1];
    var ok, at := DecodePass(content, offset + 1, inputEnd, output);
    if !ok {
      return;
    }
    ghost var decoded := output[..at];
    output[at] := 0;
    assert output[..][..at] == decoded;
    ReadBack(output[..], at);
    text := Some(CString(output[..]));
    next := inputEnd + 1;
  }
}
