/** Requests as RFC 9112 section 6.3 frames them by Content-Length, spelled out in literals, and what becomes of them. */
module RequestText {
  import opened Bytes
  import opened CStrings
  import opened Decimals
  import opened HttpText
  import opened Connection
  import opened Chunking

  // ---- names in any case ----

  // "content-length:"
  const LENGTH_NAME: seq<Byte> := [99, 111, 110, 116, 101, 110, 116, 45, 108, 101, 110, 103, 116, 104, 58]
  // "connection: close"
  const CLOSE_OPTION: seq<Byte> := [99, 111, 110, 110, 101, 99, 116, 105, 111, 110, 58, 32, 99, 108, 111, 115, 101]

  predicate SameLetter(a: Byte, b: Byte) {
    a == b || (65 <= a <= 90 && b == a + 32) || (65 <= b <= 90 && a == b + 32)
  }

  /** The bytes from `i` on are those of the name, in any case. */
  predicate NamedAt(s: seq<Byte>, i: nat, name: seq<Byte>) {
    i + |name| <= |s| && forall k :: 0 <= k < |name| ==> SameLetter(s[i + k], name[k])
  }

  lemma LowerIffSame(a: Byte, b: Byte)
    ensures Lower(a) == Lower(b) <==> SameLetter(a, b)
  {
  }

  lemma MatchIffNamed(s: seq<Byte>, p: seq<Byte>, name: seq<Byte>, i: nat)
    requires LowerAll(p) == LowerAll(name)
    ensures MatchesAt(LowerAll(s), LowerAll(p), i) <==> NamedAt(s, i, name)
  {
    hide SameLetter, Lower;
    assert |p| == |LowerAll(p)| == |LowerAll(name)| == |name|;
    if i + |name| <= |s| {
      var found, sought := LowerAll(s)[i..i + |name|], LowerAll(name);
      forall k | 0 <= k < |name|
        ensures found[k] == sought[k] <==> SameLetter(s[i + k], name[k])
      {
        LowerIffSame(s[i + k], name[k]);
        assert found[k] == Lower(s[i + k]) && sought[k] == Lower(name[k]);
      }
      if NamedAt(s, i, name) {
        assert found == sought;
      }
      if found == sought {
        assert forall k :: 0 <= k < |name| ==> found[k] == sought[k];
      }
    }
  }

  /** A search that ignores case finds the first place where the name stands. */
  lemma FirstNamed(s: seq<Byte>, p: seq<Byte>, name: seq<Byte>)
    requires LowerAll(p) == LowerAll(name)
    ensures match FindNoCase(s, p)
            case None => forall i: nat :: !NamedAt(s, i, name)
            case Some(i) => NamedAt(s, i, name) && forall j :: 0 <= j < i ==> !NamedAt(s, j, name)
  {
    hide MatchesAt, NamedAt, FindFrom, LowerAll;
    forall i: nat
      ensures MatchesAt(LowerAll(s), LowerAll(p), i) <==> NamedAt(s, i, name)
    {
      MatchIffNamed(s, p, name, i);
    }
  }

  lemma KnownNames()
    ensures LowerAll(CONTENT_LENGTH) == LowerAll(LENGTH_NAME) && LowerAll(CONNECTION_CLOSE) == LowerAll(CLOSE_OPTION)
    ensures |CONTENT_LENGTH| == 15
  {
  }

  // ---- header blocks ----

  predicate BlankLineAt(s: seq<Byte>, i: nat) {
    i + 4 <= |s| && s[i] == 13 && s[i + 1] == 10 && s[i + 2] == 13 && s[i + 3] == 10
  }

  /** At most 4095 bytes, none of them NUL, that end with their first blank line. */
  predicate IsBlock(header: seq<Byte>) {
    && 4 <= |header| <= 4095 && (forall i :: 0 <= i < |header| ==> header[i] != 0)
    && BlankLineAt(header, |header| - 4) && forall i :: 0 <= i < |header| - 4 ==> !BlankLineAt(header, i)
  }

  lemma BlockIsBlock(header: seq<Byte>)
    requires IsBlock(header)
    ensures HeaderBlock(header)
  {
    hide FindFrom;
    forall i | 0 <= i <= |header| - 4
      ensures MatchesAt(header, BLANK_LINE, i) <==> BlankLineAt(header, i)
    {
      assert MatchesAt(header, BLANK_LINE, i) ==> header[i..i + 4][0] == header[i] && header[i..i + 4][1] == header[i + 1]
                                                  && header[i..i + 4][2] == header[i + 2] && header[i..i + 4][3] == header[i + 3];
      assert BlankLineAt(header, i) ==> header[i..i + 4] == BLANK_LINE;
    }
    FindIs(header, BLANK_LINE, |header| - 4);
  }

  /** The first field of that name in a header block: where it stands, and the number behind the colon, which ends before
      the line does. */
  predicate IsLengthField(header: seq<Byte>, at: nat, x: NumberText) {
    && NamedAt(header, at, LENGTH_NAME) && (forall j :: 0 <= j < at ==> !NamedAt(header, j, LENGTH_NAME))
    && IsNumberText(x) && at + 15 + |NumberBytes(x)| < |header|
    && header[at + 15..at + 15 + |NumberBytes(x)|] == NumberBytes(x)
    && !(48 <= header[at + 15 + |NumberBytes(x)|] <= 57)
  }

  ghost predicate Announces(header: seq<Byte>, n: int) {
    exists at: nat, x :: IsLengthField(header, at, x) && NumberValue(x) == n
  }

  lemma FieldIsRead(header: seq<Byte>, at: nat, x: NumberText)
    requires IsLengthField(header, at, x)
    ensures AnnouncedIn(header) == Atoi(NumberBytes(x) + header[at + 15 + |NumberBytes(x)|..])
  {
    hide NamedAt, FindFrom, Atoi, NumberBytes, IsNumberText;
    KnownNames();
    FirstNamed(header, CONTENT_LENGTH, LENGTH_NAME);
    assert FindNoCase(header, CONTENT_LENGTH) == Some(at);
    var b := NumberBytes(x);
    assert header[at + 15..] == b + header[at + 15 + |b|..];
  }

  /** A header block that announces a length within the range of `int`, in any case, behind any white space, and with or
      without a sign, is read as announcing it; one without such a field announces 0. */
  lemma AnnouncedIsRead(header: seq<Byte>, n: int)
    requires IsBlock(header)
    ensures Announces(header, n) && -0x8000_0000 <= n < 0x8000_0000 ==> ContentLengthOf(header) == n
    ensures (forall i: nat :: !NamedAt(header, i, LENGTH_NAME)) ==> ContentLengthOf(header) == 0
  {
    hide NamedAt, FindFrom, Atoi, NumberBytes, CString, NumberValue;
    NoNul(header);
    if Announces(header, n) && -0x8000_0000 <= n < 0x8000_0000 {
      var at: nat, x :| IsLengthField(header, at, x) && NumberValue(x) == n;
      FieldIsRead(header, at, x);
      FieldEnds(header, at, x);
      AtoiIsRead(x, header[at + 15 + |NumberBytes(x)|..]);
    }
    if forall i: nat :: !NamedAt(header, i, LENGTH_NAME) {
      KnownNames();
      FirstNamed(header, CONTENT_LENGTH, LENGTH_NAME);
    }
  }

  lemma FieldEnds(header: seq<Byte>, at: nat, x: NumberText)
    requires IsLengthField(header, at, x)
    ensures IsNumberText(x) && at + 15 + |NumberBytes(x)| < |header|
    ensures !(48 <= header[at + 15 + |NumberBytes(x)|..][0] <= 57)
  {
  }

  // ---- requests ----

  /** A request: a header block, and a body of between 1 and 10485760 bytes whose length it announces. */
  ghost predicate WellFramed(header: seq<Byte>, body: seq<Byte>) {
    IsBlock(header) && 1 <= |body| <= 10485760 && Announces(header, |body|)
  }

  lemma WellFramedIsFramed(header: seq<Byte>, body: seq<Byte>)
    requires WellFramed(header, body)
    ensures Framed(header, body)
  {
    hide IsBlock, Announces, ContentLengthOf;
    BlockIsBlock(header);
    AnnouncedIsRead(header, |body|);
  }

  /** Chunking independence: however the bytes of a well-framed request are cut into reads, the reader starting afresh
      delivers exactly its body, with a terminator behind it. */
  lemma ChunkingIndependence(header: seq<Byte>, body: seq<Byte>, chunks: seq<seq<Byte>>)
    requires WellFramed(header, body)
    requires Reads(Headers([]), chunks) && Join(chunks) == header + body
    ensures After(Headers([]), chunks).Delivered? && After(Headers([]), chunks).block == body + [0]
  {
    hide Reads, After, Join, WellFramed, Framed;
    WellFramedIsFramed(header, body);
    FramedDelivers(header, body, chunks);
  }

  /** Bytes behind the body that come along in the header buffer, such as the beginning of a next request, are not part of
      the body; they are lost. */
  lemma ExtraBytesAreLost(header: seq<Byte>, body: seq<Byte>, extra: seq<Byte>)
    requires WellFramed(header, body) && |header| + |body| + |extra| <= 4095
    ensures Receive(Headers([]), header + (body + extra)) == Delivered(header + (body + extra), body + [0])
  {
    hide WellFramed, HeaderBlock, CString, Find, ContentLengthOf;
    WellFramedIsFramed(header, body);
    HeaderFound(header, body + extra);
    BlockFits(header);
    var text := header + (body + extra);
    assert [] + text == text && text[|header|..] == body + extra;
    assert (body + extra)[..|body|] == body;
  }

  /** A read takes what is left of 4095 bytes of header, or of the announced body. */
  lemma ReadSizes(c: Conn)
    requires InBounds(c)
    ensures match c
            case Headers(h) => Room(c) == 4095 - |h|
            case Body(_, n, b) => Room(c) == n - |b|
            case Closed => Room(c) == 0
  {
  }

  /** A header block that announces no length, or one of 0, below -1 or above 10485760, closes the connection. */
  lemma OtherLengthsAreRefused(header: seq<Byte>, k: nat, n: int)
    requires IsBlock(header) && k < |header|
    requires || (forall i: nat :: !NamedAt(header, i, LENGTH_NAME))
             || (Announces(header, n) && -0x8000_0000 <= n < 0x8000_0000 && (n == 0 || n < -1 || n > 10485760))
    ensures InBounds(Headers(header[..k])) && |header[k..]| <= Room(Headers(header[..k]))
    ensures Receive(Headers(header[..k]), header[k..]) == Waiting(Closed)
  {
    hide IsBlock, Announces, ContentLengthOf, Find, CString, NamedAt;
    BlockIsBlock(header);
    BlockFits(header);
    AnnouncedIsRead(header, n);
    assert header[..k] + header[k..] == header;
    SeenText(header, []);
    BlockEnd(header);
  }

  lemma BlockEnd(header: seq<Byte>)
    requires HeaderBlock(header)
    ensures Find(header, BLANK_LINE) == Some(|header| - 4)
  {
  }

  /** After a request the connection is closed when the text in the header buffer has the option to close it, in any case
      and anywhere, and otherwise it starts afresh. */
  lemma ClosesIff(header: seq<Byte>)
    ensures AfterRequest(header) == if exists i: nat :: NamedAt(CString(header), i, CLOSE_OPTION) then Closed
                                    else Headers([])
  {
    hide NamedAt, FindFrom, CString;
    KnownNames();
    FirstNamed(CString(header), CONNECTION_CLOSE, CLOSE_OPTION);
    var r := FindNoCase(CString(header), CONNECTION_CLOSE);
    assert r.Some? ==> NamedAt(CString(header), r.value, CLOSE_OPTION);
  }
}
