/** How a request is cut into chunks does not matter. */
module Chunking {
  import opened Bytes
  import opened CStrings
  import opened Decimals
  import opened HttpText
  import opened Connection

  /** A NUL-free header block that ends at its first blank line and fits the header buffer. */
  ghost predicate HeaderBlock(header: seq<Byte>) {
    && 4 <= |header| <= HEADER_ROOM
    && (forall i :: 0 <= i < |header| ==> header[i] != 0)
    && Find(header, BLANK_LINE) == Some(|header| - 4)
  }

  /** A header block, and a body of the length that the reader takes it to announce. */
  ghost predicate Framed(header: seq<Byte>, body: seq<Byte>) {
    HeaderBlock(header) && 1 <= |body| <= MAX_BODY && ContentLengthOf(header) == |body|
  }

  /** Before the header block is complete, no blank line is seen. */
  lemma NoBlankLineYet(header: seq<Byte>, n: nat)
    requires HeaderBlock(header) && n < |header|
    ensures Find(CString(header[..n]), BLANK_LINE) == None
  {
    hide CString, FindFrom;
    var h := header[..n];
    NoNul(h);
    assert h + header[n..] == header;
    if Find(h, BLANK_LINE).Some? {
      FindInExtension(h, header[n..], BLANK_LINE);
    }
  }

  /** What the reader sees of a complete header block with more bytes behind it: the block itself, and those bytes up to
      their first NUL. */
  lemma SeenText(header: seq<Byte>, more: seq<Byte>)
    requires HeaderBlock(header)
    ensures CString(header + more) == header + CString(more)
    ensures CString(header) == header
  {
    hide CString, Find, FindFrom;
    CStringConcat(header, more);
    NoNul(header);
  }

  lemma AtoiEmpty(s: seq<Byte>)
    requires Atoi(s) != 0
    ensures s != []
  {
  }

  lemma EndsWithNewline(header: seq<Byte>)
    requires |header| >= 4 && Find(header, BLANK_LINE) == Some(|header| - 4)
    ensures header[|header| - 1] == 10
  {
    hide FindFrom;
    assert header[|header| - 4..|header|] == BLANK_LINE;
  }

  /** The announced length is read off the header block alone. */
  lemma LengthFound(header: seq<Byte>, more: seq<Byte>)
    requires |header| >= 4 && Find(header, BLANK_LINE) == Some(|header| - 4)
    requires FindNoCase(header, CONTENT_LENGTH).Some?
    requires Atoi(header[FindNoCase(header, CONTENT_LENGTH).value + |CONTENT_LENGTH|..]) != 0
    ensures var i := FindNoCase(header, CONTENT_LENGTH).value + |CONTENT_LENGTH|;
            Atoi((header + more)[i..]) == Atoi(header[i..])
  {
    EndsWithNewline(header);
    hide Atoi, Find, FindNoCase;
    var i := FindNoCase(header, CONTENT_LENGTH).value + |CONTENT_LENGTH|;
    var tail := header[i..];
    AtoiEmpty(tail);
    assert tail[|tail| - 1] == header[|header| - 1];
    AtoiStable(tail, more);
    assert (header + more)[i..] == tail + more;
  }

  lemma LengthKept(header: seq<Byte>, more: seq<Byte>)
    requires |header| >= 4 && Find(header, BLANK_LINE) == Some(|header| - 4) && AnnouncedIn(header) != 0
    ensures AnnouncedIn(header + more) == AnnouncedIn(header)
  {
    hide Atoi, Find, FindNoCase, MatchesAt;
    FindNoCaseInExtension(header, more, CONTENT_LENGTH);
    LengthFound(header, more);
  }

  /** Once the block is complete, the blank line and the length are found where they are, whatever came along behind. */
  lemma HeaderFound(header: seq<Byte>, more: seq<Byte>)
    requires HeaderBlock(header) && ContentLengthOf(header) != 0
    ensures Find(CString(header + more), BLANK_LINE) == Some(|header| - 4)
    ensures ContentLengthOf(header + more) == ContentLengthOf(header)
  {
    hide CString, Find, FindFrom, FindNoCase, MatchesAt, AnnouncedIn, Atoi;
    var seen := CString(more);
    SeenText(header, more);
    FindInExtension(header, seen, BLANK_LINE);
    LengthKept(header, seen);
  }

  /** The connection after `n` bytes of a framed request, when the last read that touched the header block left `x`
      bytes of the body in the header buffer. */
  ghost predicate Holds(c: Conn, header: seq<Byte>, body: seq<Byte>, n: nat, x: nat) {
    && n < |header| + |body|
    && if n < |header| then c == Headers(header[..n])
       else x <= n - |header| && c == Body(header + body[..x], |body|, body[..n - |header|]) && |header| + x <= HEADER_ROOM
  }

  /** The bytes from `n` on start with this chunk. */
  predicate NextChunk(chunk: seq<Byte>, request: seq<Byte>, n: nat) {
    1 <= |chunk| && n + |chunk| <= |request| && request[n..n + |chunk|] == chunk
  }

  lemma Advance(request: seq<Byte>, n: nat, chunk: seq<Byte>)
    requires NextChunk(chunk, request, n)
    ensures request[..n] + chunk == request[..n + |chunk|]
  {
  }

  /** A read that leaves the header block incomplete. */
  lemma ReadInHeader(header: seq<Byte>, body: seq<Byte>, n: nat, chunk: seq<Byte>)
    requires HeaderBlock(header) && NextChunk(chunk, header + body, n) && n + |chunk| < |header|
    ensures Receive(Headers(header[..n]), chunk) == Waiting(Headers(header[..n + |chunk|]))
  {
    hide CString, Find, FindNoCase, ContentLengthOf, Atoi;
    Advance(header + body, n, chunk);
    assert (header + body)[..n] == header[..n] && (header + body)[..n + |chunk|] == header[..n + |chunk|];
    NoBlankLineYet(header, n + |chunk|);
  }

  /** A read that completes the header block and takes `x` bytes of the body along. */
  lemma ReadAcross(header: seq<Byte>, body: seq<Byte>, n: nat, chunk: seq<Byte>, x: nat)
    requires Framed(header, body) && NextChunk(chunk, header + body, n)
    requires n < |header| && n + |chunk| == |header| + x <= HEADER_ROOM
    ensures x <= |body|
    ensures Receive(Headers(header[..n]), chunk)
         == if x == |body| then Delivered(header + body[..x], Block(body))
            else Waiting(Body(header + body[..x], |body|, body[..x]))
  {
    hide CString, Find, FindNoCase, ContentLengthOf, Atoi;
    Advance(header + body, n, chunk);
    assert (header + body)[..n] == header[..n] && (header + body)[..n + |chunk|] == header + body[..x];
    HeaderFound(header, body[..x]);
    assert (header + body[..x])[|header|..] == body[..x];
    assert Take(body[..x], |body|) == body[..x];
    assert x == |body| ==> body[..x] == body;
  }

  /** A read of body bytes only. */
  lemma ReadInBody(seen: seq<Byte>, body: seq<Byte>, k: nat, chunk: seq<Byte>)
    requires |seen| <= HEADER_ROOM && 1 <= |body| <= MAX_BODY && k < |body| && NextChunk(chunk, body, k)
    ensures Receive(Body(seen, |body|, body[..k]), chunk)
         == if k + |chunk| == |body| then Delivered(seen, Block(body)) else Waiting(Body(seen, |body|, body[..k + |chunk|]))
  {
    Advance(body, k, chunk);
    assert body[..|body|] == body;
  }

  /** One read of a framed request, wherever it is cut: either more is to come, or the body is complete. */
  lemma OneRead(c: Conn, header: seq<Byte>, body: seq<Byte>, n: nat, x: nat, chunk: seq<Byte>) returns (x': nat)
    requires Framed(header, body) && Holds(c, header, body, n, x)
    requires NextChunk(chunk, header + body, n) && InBounds(c) && |chunk| <= Room(c)
    ensures n + |chunk| >= |header| ==> x' <= |body| && |header| + x' <= HEADER_ROOM
    ensures if n + |chunk| == |header| + |body|
            then Receive(c, chunk) == Delivered(header + body[..x'], Block(body)) && x' <= |body|
            else Receive(c, chunk).Waiting? && Holds(Receive(c, chunk).conn, header, body, n + |chunk|, x')
  {
    hide CString, Find, FindNoCase, ContentLengthOf, Atoi, Receive;
    var m := n + |chunk|;
    x' := if n >= |header| then x else if m < |header| then 0 else m - |header|;
    if m < |header| {
      ReadInHeader(header, body, n, chunk);
    } else if n < |header| {
      ReadAcross(header, body, n, chunk, x');
    } else {
      assert (header + body)[n..m] == body[n - |header|..m - |header|];
      ReadInBody(header + body[..x], body, n - |header|, chunk);
    }
  }

  /** Every series of reads that hands over the rest of a framed request delivers its body at the last byte. */
  lemma {:induction false} ReadsDeliver(c: Conn, header: seq<Byte>, body: seq<Byte>, n: nat, x: nat,
                                        chunks: seq<seq<Byte>>) returns (x': nat)
    requires Framed(header, body) && Holds(c, header, body, n, x) && InBounds(c)
    requires Reads(c, chunks) && Join(chunks) == (header + body)[n..]
    ensures x' <= |body| && |header| + x' <= HEADER_ROOM
    ensures After(c, chunks) == Delivered(header + body[..x'], Block(body))
    decreases |chunks|
  {
    hide CString, Find, FindNoCase, ContentLengthOf, Atoi, Receive, Framed;
    var all := header + body;
    assert chunks != [];
    var chunk, rest := chunks[0], chunks[1..];
    var m := n + |chunk|;
    assert Join(chunks) == chunk + Join(rest);
    assert all[n..][..|chunk|] == chunk == all[n..m];
    assert all[n..][|chunk|..] == Join(rest) == all[m..];
    x' := OneRead(c, header, body, n, x, chunk);
    if m < |all| {
      x' := ReadsDeliver(Receive(c, chunk).conn, header, body, m, x', rest);
    }
  }

  /** However the bytes of a framed request are cut into reads, the reader starting afresh delivers exactly its body, ready
      to be read as a C string, and both buffers stay in bounds throughout. */
  lemma FramedDelivers(header: seq<Byte>, body: seq<Byte>, chunks: seq<seq<Byte>>)
    requires Framed(header, body)
    requires Reads(START, chunks) && Join(chunks) == header + body
    ensures After(START, chunks).Delivered? && After(START, chunks).block == Block(body)
  {
    assert header[..0] == [] && (header + body)[0..] == header + body;
    var x := ReadsDeliver(START, header, body, 0, 0, chunks);
  }

  // ---- after the request ----

  /** The bytes of the body that can have come along in the header buffer. */
  function Spill(header: seq<Byte>, body: seq<Byte>): seq<Byte>
    requires |header| <= HEADER_ROOM
  {
    Take(body, HEADER_ROOM - |header|)
  }

  predicate AsksToClose(header: seq<Byte>) {
    FindNoCase(CString(header), CONNECTION_CLOSE).Some?
  }

  lemma AsksToCloseMonotone(s: seq<Byte>, t: seq<Byte>)
    ensures AsksToClose(s) ==> AsksToClose(s + t)
  {
    CStringPrefix(s, t);
    var a, b := CString(s), CString(s + t);
    assert b == a + b[|a|..];
    FindNoCaseInExtension(a, b[|a|..], CONNECTION_CLOSE);
  }

  /** The chunking that fills the header buffer first. */
  function Greedy(header: seq<Byte>, body: seq<Byte>): (chunks: seq<seq<Byte>>)
    requires |header| <= HEADER_ROOM
  {
    var x := |Spill(header, body)|;
    if x == |body| then [header + body] else [header + body[..x], body[x..]]
  }

  lemma AllButLast(c: Conn, c': Conn, first: seq<Byte>, second: seq<Byte>)
    requires InBounds(c) && 1 <= |first| <= Room(c) && Receive(c, first) == Waiting(c')
    requires 1 <= |second| <= Room(c') && Receive(c', second).Delivered?
    ensures Reads(c, [first, second]) && After(c, [first, second]) == Receive(c', second)
    ensures Join([first, second]) == first + second
  {
    hide Receive;
    var chunks: seq<seq<Byte>>, last: seq<seq<Byte>> := [first, second], [second];
    assert chunks[1..] == last && last[1..] == [];
    assert Join(last) == second + [];
  }

  lemma OnlyRead(c: Conn, chunk: seq<Byte>)
    requires InBounds(c) && 1 <= |chunk| <= Room(c) && Receive(c, chunk).Delivered?
    ensures Reads(c, [chunk]) && After(c, [chunk]) == Receive(c, chunk) && Join([chunk]) == chunk
  {
    hide Receive;
    var chunks: seq<seq<Byte>> := [chunk];
    assert chunks[1..] == [] && Join(chunks) == chunk + [];
  }

  lemma GreedyReads(header: seq<Byte>, body: seq<Byte>)
    requires Framed(header, body)
    ensures Join(Greedy(header, body)) == header + body
    ensures Reads(START, Greedy(header, body))
    ensures After(START, Greedy(header, body)) == Delivered(header + Spill(header, body), Block(body))
  {
    hide Receive, Reads, After, Join, ContentLengthOf, Find;
    var x := |Spill(header, body)|;
    var first := header + body[..x];
    assert Spill(header, body) == body[..x];
    assert header[..0] == [] && first == (header + body)[0..|first|];
    ReadAcross(header, body, 0, first, x);
    if x == |body| {
      assert body[..x] == body;
      OnlyRead(START, first);
    } else {
      ReadInBody(first, body, x, body[x..]);
      AllButLast(START, Body(first, |body|, body[..x]), first, body[x..]);
      assert first + body[x..] == header + body;
    }
  }

  /** However the request is cut, the header buffer ends up with the block and a part of what fits behind it. */
  lemma DeliveredHeader(header: seq<Byte>, body: seq<Byte>, chunks: seq<seq<Byte>>)
    requires Framed(header, body)
    requires Reads(START, chunks) && Join(chunks) == header + body
    ensures After(START, chunks).Delivered?
    ensures AsksToClose(After(START, chunks).header) ==> AsksToClose(header + Spill(header, body))
  {
    hide Receive, Reads, After, Join, ContentLengthOf, Find, AsksToClose;
    assert header[..0] == [] && (header + body)[0..] == header + body;
    var x := ReadsDeliver(START, header, body, 0, 0, chunks);
    var spill := Spill(header, body);
    assert header + spill == (header + body[..x]) + spill[x..];
    AsksToCloseMonotone(header + body[..x], spill[x..]);
  }

  /** Exactly when the connection is back at its start for the next request, however the request is cut: the header
      block, together with what part of the body fits behind it in the header buffer, must not contain the closing
      option. The search does not stop at the end of the headers, so the body can close the connection too. */
  lemma ResetIff(header: seq<Byte>, body: seq<Byte>)
    requires Framed(header, body)
    ensures (forall chunks :: Reads(START, chunks) && Join(chunks) == header + body ==>
               After(START, chunks).Delivered? && AfterRequest(After(START, chunks).header) == START)
       <==> !AsksToClose(header + Spill(header, body))
  {
    hide ContentLengthOf, Find, Receive, Reads, After, Join, FindNoCase, CString, Spill, Greedy;
    GreedyReads(header, body);
    if !AsksToClose(header + Spill(header, body)) {
      forall chunks | Reads(START, chunks) && Join(chunks) == header + body
        ensures After(START, chunks).Delivered? && AfterRequest(After(START, chunks).header) == START
      {
        DeliveredHeader(header, body, chunks);
      }
    }
  }

  // "Content-Length:17", ended by a blank line
  const SHORT_HEADER: seq<Byte> :=
    [67, 111, 110, 116, 101, 110, 116, 45, 76, 101, 110, 103, 116, 104, 58, 49, 55, 13, 10, 13, 10]

  lemma ShortHeaderLength()
    ensures AnnouncedIn(SHORT_HEADER) == 17
  {
    FindIs(LowerAll(SHORT_HEADER), LowerAll(CONTENT_LENGTH), 0);
    var tail: seq<Byte> := [49, 55, 13, 10, 13, 10];
    assert SHORT_HEADER[15..] == tail;
    var tail1: seq<Byte>, tail2: seq<Byte> := [55, 13, 10, 13, 10], [13, 10, 13, 10];
    assert tail[1..] == tail1 && tail1[1..] == tail2;
    assert DigitRun(tail2, 17) == 17;
  }

  lemma ShortRequestIsFramed()
    ensures Framed(SHORT_HEADER, CONNECTION_CLOSE)
  {
    hide Atoi, FindFrom, AnnouncedIn, CString;
    var h := SHORT_HEADER;
    assert h[17..21] == BLANK_LINE;
    forall j | 0 <= j < 17
      ensures !MatchesAt(h, BLANK_LINE, j)
    {
      assert h[j..j + 4][0] == h[j];
    }
    FindIs(h, BLANK_LINE, 17);
    NoNul(h);
    ShortHeaderLength();
  }

  lemma ShortHeaderAsks()
    ensures !AsksToClose(SHORT_HEADER) && AsksToClose(SHORT_HEADER + CONNECTION_CLOSE)
  {
    hide FindFrom, CString;
    var h, p := SHORT_HEADER, CONNECTION_CLOSE;
    NoNul(h);
    NoNul(h + p);
    var lower, low := LowerAll(h), LowerAll(p);
    forall j | 0 <= j && j + |low| <= |lower|
      ensures !MatchesAt(lower, low, j)
    {
      assert lower[j..j + |low|][0] == lower[j] && lower[j..j + |low|][3] == lower[j + 3];
    }
    assert LowerAll(h + p)[|h|..|h| + |p|] == low;
    assert MatchesAt(LowerAll(h + p), low, |h|);
  }

  /** The same bytes in two cuttings: read in one piece they close the connection, read in two they do not. */
  lemma BodyCloses()
    ensures var whole, halves := [SHORT_HEADER + CONNECTION_CLOSE], [SHORT_HEADER, CONNECTION_CLOSE];
            && Framed(SHORT_HEADER, CONNECTION_CLOSE)
            && Reads(START, whole) && After(START, whole).Delivered?
            && AfterRequest(After(START, whole).header) == Closed
            && Reads(START, halves) && After(START, halves).Delivered?
            && AfterRequest(After(START, halves).header) == START
            && Join(whole) == Join(halves)
  {
    hide Receive, Reads, After, Join, Find, FindNoCase, CString, AnnouncedIn;
    var h, b := SHORT_HEADER, CONNECTION_CLOSE;
    ShortRequestIsFramed();
    ShortHeaderAsks();
    GreedyReads(h, b);
    assert b[..17] == b && b[..0] == [] && h[..0] == [] && h + [] == h && b[0..17] == b;
    assert (h + b)[0..|h|] == h;
    ReadAcross(h, b, 0, h, 0);
    ReadInBody(h, b, 0, b);
    AllButLast(START, Body(h, 17, []), h, b);
  }

  // ---- a length of -1 ----

  /** Exactly when a read runs over: it completes a header whose announced length is -1 and brings bytes behind it. */
  lemma OverrunIff(c: Conn, chunk: seq<Byte>)
    requires InBounds(c) && 1 <= |chunk| <= Room(c)
    ensures Receive(c, chunk).Overrun? <==>
              && c.Headers? && ContentLengthOf(c.header + chunk) == -1
              && Find(CString(c.header + chunk), BLANK_LINE).Some?
              && Find(CString(c.header + chunk), BLANK_LINE).value + 4 < |c.header + chunk|
  {
    hide Find, CString, ContentLengthOf;
    if c.Headers? && Find(CString(c.header + chunk), BLANK_LINE).Some? {
      BlankLineInside(c.header + chunk);
    }
  }

  /** Exactly when the handler of a delivered request can read its body as a C string: unless the length was -1. */
  lemma BlockEndsIff(c: Conn, chunk: seq<Byte>)
    requires InBounds(c) && 1 <= |chunk| <= Room(c) && Receive(c, chunk).Delivered?
    ensures |CString(Receive(c, chunk).block)| < |Receive(c, chunk).block| <==>
              !(c.Headers? && ContentLengthOf(c.header + chunk) == -1)
  {
    hide Find, ContentLengthOf, CString;
    var block := Receive(c, chunk).block;
    if c.Headers? && ContentLengthOf(c.header + chunk) == -1 {
      assert block == [];
    } else {
      assert block[|block| - 1] == 0;
    }
  }

  /** The read that completes a header block with a length of -1. */
  lemma ReadMinusOne(header: seq<Byte>, more: seq<Byte>, n: nat, chunk: seq<Byte>)
    requires HeaderBlock(header) && ContentLengthOf(header) == -1 && NextChunk(chunk, header + more, n)
    requires n < |header| <= n + |chunk| <= HEADER_ROOM
    ensures Receive(Headers(header[..n]), chunk) == if n + |chunk| == |header| then Delivered(header, []) else Overrun
  {
    hide CString, Find, FindNoCase, ContentLengthOf, Atoi;
    var x := n + |chunk| - |header|;
    Advance(header + more, n, chunk);
    assert (header + more)[..n] == header[..n] && (header + more)[..n + |chunk|] == header + more[..x];
    HeaderFound(header, more[..x]);
    assert x == 0 ==> header + more[..x] == header;
  }

  /** However a header block with a length of -1 is cut into reads, the series of reads that completes it delivers an empty
      body if it stops there, and runs over exactly when it goes on. */
  lemma {:induction false} MinusOneOutcome(header: seq<Byte>, more: seq<Byte>, n: nat, chunks: seq<seq<Byte>>)
    requires HeaderBlock(header) && ContentLengthOf(header) == -1 && n < |header|
    requires Reads(Headers(header[..n]), chunks) && Join(chunks) == (header + more)[n..]
    ensures After(Headers(header[..n]), chunks) == if more == [] then Delivered(header, []) else Overrun
    decreases |chunks|
  {
    hide CString, Find, FindNoCase, ContentLengthOf, Atoi, Receive, HeaderBlock;
    var all := header + more;
    BlockFits(header);
    assert chunks != [];
    var chunk, rest := chunks[0], chunks[1..];
    var m := n + |chunk|;
    assert all[n..][..|chunk|] == chunk == all[n..m];
    assert all[n..][|chunk|..] == Join(rest) == all[m..];
    if m < |header| {
      ReadInHeader(header, more, n, chunk);
      MinusOneOutcome(header, more, m, rest);
    } else {
      ReadMinusOne(header, more, n, chunk);
      assert rest == [] && Join(rest) == [];
    }
  }

  lemma BlockFits(header: seq<Byte>)
    requires HeaderBlock(header)
    ensures 4 <= |header| <= HEADER_ROOM
  {
  }

  // "Content-Length:-1", ended by a blank line
  const MINUS_ONE_HEADER: seq<Byte> :=
    [67, 111, 110, 116, 101, 110, 116, 45, 76, 101, 110, 103, 116, 104, 58, 45, 49, 13, 10, 13, 10]

  lemma MinusOneHeaderLength()
    ensures AnnouncedIn(MINUS_ONE_HEADER) == -1
  {
    FindIs(LowerAll(MINUS_ONE_HEADER), LowerAll(CONTENT_LENGTH), 0);
    var tail: seq<Byte> := [45, 49, 13, 10, 13, 10];
    assert MINUS_ONE_HEADER[15..] == tail;
    var tail1: seq<Byte>, tail2: seq<Byte> := [49, 13, 10, 13, 10], [13, 10, 13, 10];
    assert tail[1..] == tail1 && tail1[1..] == tail2;
    assert DigitRun(tail2, 1) == 1;
  }

  /** A concrete header block: with one byte behind it in the same read it runs over, alone it delivers an empty body. */
  lemma MinusOneWitness(b: Byte)
    ensures HeaderBlock(MINUS_ONE_HEADER) && ContentLengthOf(MINUS_ONE_HEADER) == -1
    ensures Receive(START, MINUS_ONE_HEADER) == Delivered(MINUS_ONE_HEADER, [])
    ensures Receive(START, MINUS_ONE_HEADER + [b]) == Overrun
  {
    hide Atoi, FindFrom, AnnouncedIn, CString, Receive;
    var h := MINUS_ONE_HEADER;
    assert h[17..21] == BLANK_LINE;
    forall j | 0 <= j < 17
      ensures !MatchesAt(h, BLANK_LINE, j)
    {
      assert h[j..j + 4][0] == h[j];
    }
    FindIs(h, BLANK_LINE, 17);
    NoNul(h);
    MinusOneHeaderLength();
    assert h[..0] == [] && h == (h + [b])[0..21] && h + [b] == (h + [b])[0..22];
    ReadMinusOne(h, [b], 0, h);
    ReadMinusOne(h, [b], 0, h + [b]);
  }

  // ---- any number of requests ----

  datatype Request = Request(header: seq<Byte>, body: seq<Byte>)

  ghost predicate Quiet(r: Request) {
    Framed(r.header, r.body) && !AsksToClose(r.header + Spill(r.header, r.body))
  }

  /** The blocks delivered by a connection that is fed request after request, until it is overrun. */
  ghost function Session(c: Conn, cuts: seq<seq<seq<Byte>>>): (r: (seq<seq<Byte>>, Conn))
    requires InBounds(c)
    ensures InBounds(r.1)
    decreases |cuts|
  {
    if cuts == [] || !Reads(c, cuts[0]) then ([], c)
    else
      match After(c, cuts[0])
      case Waiting(c') => ([], c')
      case Delivered(h, b) =>
        var rest := Session(AfterRequest(h), cuts[1..]);
        ([b] + rest.0, rest.1)
      case Overrun => ([], Closed)
  }

  function Blocks(rs: seq<Request>): (bs: seq<seq<Byte>>)
    ensures |bs| == |rs|
  {
    seq(|rs|, i requires 0 <= i < |rs| => Block(rs[i].body))
  }

  /** A keep-alive connection that gets any number of requests, each cut in any way, delivers their bodies in order and
      ends where it started. */
  lemma {:induction false} SessionDelivers(rs: seq<Request>, cuts: seq<seq<seq<Byte>>>)
    requires |cuts| == |rs|
    requires forall i :: 0 <= i < |rs| ==> Quiet(rs[i])
    requires forall i :: 0 <= i < |rs| ==> Reads(START, cuts[i]) && Join(cuts[i]) == rs[i].header + rs[i].body
    ensures Session(START, cuts) == (Blocks(rs), START)
  {
    hide Framed, AsksToClose, Receive, Reads, After, Join;
    if rs != [] {
      assert Quiet(rs[0]);
      FramedDelivers(rs[0].header, rs[0].body, cuts[0]);
      ResetIff(rs[0].header, rs[0].body);
      SessionDelivers(rs[1..], cuts[1..]);
      assert Blocks(rs) == [Block(rs[0].body)] + Blocks(rs[1..]);
    }
  }
}
