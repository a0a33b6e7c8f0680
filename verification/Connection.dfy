/** The per-connection state machine that reassembles requests from whatever chunks the socket hands over. */
module Connection {
  import opened Bytes
  import opened CStrings
  import opened HttpText

  const HEADER_ROOM: nat := 4095
  const MAX_BODY: nat := 10485760
  const BLANK_LINE: seq<Byte> := [13, 10, 13, 10]
  // "Content-Length:"
  const CONTENT_LENGTH: seq<Byte> := [67, 111, 110, 116, 101, 110, 116, 45, 76, 101, 110, 103, 116, 104, 58]
  // "Connection: close"
  const CONNECTION_CLOSE: seq<Byte> := [67, 111, 110, 110, 101, 99, 116, 105, 111, 110, 58, 32, 99, 108, 111, 115, 101]

  /** A connection between two socket reads: collecting headers, collecting a body of known length, or closed. */
  datatype Conn =
    | Headers(header: seq<Byte>)
    | Body(header: seq<Byte>, length: nat, body: seq<Byte>)
    | Closed

  const START := Headers([])

  /** What a read leads to. A complete request is handed over as its header and the memory block that its body lies in;
      `Overrun` is a copy of more bytes than there is memory for. */
  datatype Outcome = Waiting(conn: Conn) | Delivered(header: seq<Byte>, block: seq<Byte>) | Overrun

  /** The block that a body is read into ends with a zero byte, so that the handler can read the body as a C string. */
  function Block(body: seq<Byte>): (block: seq<Byte>) {
    body + [0]
  }

  predicate InBounds(c: Conn) {
    match c
    case Headers(h) => |h| <= HEADER_ROOM
    case Body(h, n, b) => |h| <= HEADER_ROOM && 1 <= n <= MAX_BODY && |b| < n
    case Closed => true
  }

  /** How many bytes the next read may take. */
  function Room(c: Conn): nat
    requires InBounds(c)
  {
    match c
    case Headers(h) => HEADER_ROOM - |h|
    case Body(_, n, b) => n - |b|
    case Closed => 0
  }

  /** The length that the reader reads off a text. */
  function AnnouncedIn(text: seq<Byte>): int {
    match FindNoCase(text, CONTENT_LENGTH)
    case None => 0
    case Some(i) => Atoi(text[i + |CONTENT_LENGTH|..])
  }

  function ContentLengthOf(header: seq<Byte>): int {
    AnnouncedIn(CString(header))
  }

  function Take(s: seq<Byte>, n: nat): seq<Byte> {
    if |s| <= n then s else s[..n]
  }

  /** One read of a non-empty chunk. A missing, zero or excessive length is refused, and so is one below -1, whose buffer
      cannot be allocated. A length of -1 gets a block of no bytes, not even a terminator: the request is complete at once
      if nothing follows its header block, and otherwise as many bytes as an unsigned -1 are copied. */
  function Receive(c: Conn, chunk: seq<Byte>): (o: Outcome)
    requires InBounds(c) && 1 <= |chunk| <= Room(c)
    ensures o.Waiting? ==> InBounds(o.conn)
    ensures o.Delivered? ==> |o.header| <= HEADER_ROOM && |o.block| <= MAX_BODY + 1
  {
    match c
    case Headers(h) =>
      var header := h + chunk;
      (match Find(CString(header), BLANK_LINE)
       case None => Waiting(Headers(header))
       case Some(i) =>
         var n := ContentLengthOf(header);
         if n == -1 then (if |header| == i + 4 then Delivered(header, []) else Overrun)
         else if n <= 0 || n > MAX_BODY then Waiting(Closed)
         else
           var body := Take(header[i + 4..], n);
           if |body| >= n then Delivered(header, Block(body)) else Waiting(Body(header, n, body)))
    case Body(h, n, b) =>
      if |b + chunk| >= n then Delivered(h, Block(b + chunk)) else Waiting(Body(h, n, b + chunk))
    case Closed => Waiting(Closed)
  }

  /** The connection after a request has been handled: closed if the header buffer asks for it, otherwise reset. */
  function AfterRequest(header: seq<Byte>): Conn {
    if FindNoCase(CString(header), CONNECTION_CLOSE).Some? then Closed else START
  }

  /** Reads that the socket can actually make, one after another, until a request is delivered or memory overrun. */
  ghost predicate Reads(c: Conn, chunks: seq<seq<Byte>>)
    requires InBounds(c)
    decreases |chunks|
  {
    chunks != [] ==>
      && 1 <= |chunks[0]| <= Room(c)
      && match Receive(c, chunks[0])
         case Waiting(c') => Reads(c', chunks[1..])
         case _ => |chunks| == 1
  }

  /** The outcome of a series of reads. */
  function After(c: Conn, chunks: seq<seq<Byte>>): (o: Outcome)
    requires InBounds(c) && Reads(c, chunks)
    ensures o.Waiting? ==> InBounds(o.conn)
    decreases |chunks|
  {
    if chunks == [] then Waiting(c)
    else
      match Receive(c, chunks[0])
      case Waiting(c') => After(c', chunks[1..])
      case o => o
  }

  function Join(chunks: seq<seq<Byte>>): seq<Byte> {
    if chunks == [] then [] else chunks[0] + Join(chunks[1..])
  }

  // ---- the reader itself ----

  datatype Phase = ReadingHeaders | ReadingBody | Done

  /** What came of a chunk. */
  datatype Event = More | Complete | Overran

  /** How the socket answers once it has no more data: not yet, never again, or with an error. */
  datatype SocketEnd = WouldBlock | PeerClosed | ReadFailed

  class Reader {
    var phase: Phase
    var header: seq<Byte>
    var contentLength: int
    var block: seq<Byte>
    var bodyRead: nat
    var open: bool

    function State(): Conn
      reads this
    {
      if !open then Closed
      else if phase == ReadingBody && contentLength >= 0 && bodyRead <= |block|
      then Body(header, contentLength, block[..bodyRead])
      else Headers(header)
    }

    /** A body that is being read has a block with room for it and for a terminator, and zeros behind what has been read. */
    predicate Valid()
      reads this
    {
      && InBounds(State())
      && (open ==> phase != Done && contentLength >= 0 && (phase == ReadingHeaders ==> contentLength == 0 && bodyRead == 0))
      && (open && phase == ReadingBody ==> |block| == contentLength + 1 && bodyRead < contentLength)
      && (open && phase == ReadingBody ==> block[bodyRead..] == Zeros(|block| - bodyRead))
    }

    constructor ()
      ensures Valid() && State() == START
    {
      phase, header, contentLength, block, bodyRead, open := ReadingHeaders, [], 0, [], 0, true;
    }

    /** Puts bytes behind what has been read of the body. */
    method Fill(s: seq<Byte>)
      requires bodyRead + |s| <= |block|
      modifies this`block, this`bodyRead
      ensures bodyRead == old(bodyRead) + |s| && |block| == old(|block|)
      ensures block[..bodyRead] == old(block[..bodyRead]) + s && block[bodyRead..] == old(block[bodyRead + |s|..])
    {
      block := block[..bodyRead] + s + block[bodyRead + |s|..];
      bodyRead := bodyRead + |s|;
    }

    /** Takes in one chunk. */
    method Accept(chunk: seq<Byte>) returns (event: Event)
      requires Valid() && open && 1 <= |chunk| <= Room(State())
      modifies this
      ensures match Receive(old(State()), chunk)
              case Waiting(c) => event == More && Valid() && State() == c
              case Delivered(h, b) => event == Complete && open && header == h && block == b
              case Overrun => event == Overran
    {
      if phase == ReadingHeaders {
        event := AcceptInHeaders(chunk);
        return;
      }
      ghost var rest := |block| - bodyRead;
      Fill(chunk);
      assert Zeros(rest)[|chunk|..] == Zeros(rest - |chunk|);
      assert block == block[..bodyRead] + Zeros(|block| - bodyRead);
      assert Zeros(1) == [0];
      if bodyRead >= contentLength {
        phase := Done;
        return Complete;
      }
      return More;
    }

    /** The same while the headers are being read. */
    method AcceptInHeaders(chunk: seq<Byte>) returns (event: Event)
      requires Valid() && open && phase == ReadingHeaders && 1 <= |chunk| <= Room(State())
      modifies this
      ensures match Receive(old(State()), chunk)
              case Waiting(c) => event == More && Valid() && State() == c
              case Delivered(h, b) => event == Complete && open && header == h && block == b
              case Overrun => event == Overran
    {
      hide Find, FindNoCase, CString, ContentLengthOf;
      header := header + chunk;
      var bodyStart := Find(CString(header), BLANK_LINE);
      if bodyStart.None? {
        return More;
      }
      BlankLineInside(header);
      var n := ContentLengthOf(header);
      if n == 0 || n > MAX_BODY || n < -1 {
        open := false;
        return More;
      }
      var overran := StartBody(header[bodyStart.value + 4..], n);
      if overran {
        return Overran;
      }
      phase := ReadingBody;
      if bodyRead >= contentLength {
        phase := Done;
        assert n >= 0 ==> block == Block(block[..bodyRead]);
        return Complete;
      }
      return More;
    }

    /** Allocates the block for a body and copies what came along with the headers. */
    method StartBody(leftover: seq<Byte>, n: int) returns (overran: bool)
      requires n == -1 || n >= 1
      requires bodyRead == 0
      modifies this`block, this`bodyRead, this`contentLength
      ensures overran <==> n == -1 && leftover != []
      ensures !overran ==> contentLength == n && |block| == n + 1 && bodyRead <= |block|
      ensures !overran ==> block[bodyRead..] == Zeros(n + 1 - bodyRead)
      ensures n == -1 && !overran ==> bodyRead == 0
      ensures n >= 1 ==> block[..bodyRead] == Take(leftover, n)
    {
      block := Zeros(n + 1);
      contentLength := n;
      if |leftover| > 0 {
        var take := if |leftover| > n then n else |leftover|;
        if take < 0 {
          return true;
        }
        Fill(leftover[..take]);
        assert Zeros(n + 1)[take..] == Zeros(n + 1 - take);
      }
      return false;
    }

    /** Handles one readiness event: reads chunk after chunk until the socket has no more or a request is complete, hands
        the request over, and resets or closes. */
    method HandleEvent(chunks: seq<seq<Byte>>, end: SocketEnd) returns (delivered: Option<seq<Byte>>, overran: bool)
      requires Valid() && open && Reads(State(), chunks)
      modifies this
      ensures overran <==> After(old(State()), chunks).Overrun?
      ensures !overran ==> Valid()
      ensures match After(old(State()), chunks)
              case Waiting(c) =>
                && delivered == None
                && State() == (if (c.Headers? && Room(c) == 0) || end != WouldBlock then Closed else c)
              case Delivered(h, b) => delivered == Some(b) && State() == AfterRequest(h)
              case Overrun => delivered == None
    {
      hide FindNoCase, CString, Receive;
      ghost var goal := After(State(), chunks);
      var next := 0;
      while true
        invariant 0 <= next <= |chunks| && Valid()
        invariant Reads(State(), chunks[next..]) && After(State(), chunks[next..]) == goal
        decreases |chunks| - next
      {
        if open && phase == ReadingHeaders && HEADER_ROOM - |header| <= 0 {
          NoRoomNoReads(State(), chunks[next..]);
          open := false;
          return None, false;
        }
        if !open || next == |chunks| {
          NoRoomNoReads(State(), chunks[next..]);
          if end != WouldBlock {
            open := false;
          }
          return None, false;
        }
        var chunk := chunks[next];
        assert chunks[next..][0] == chunk && chunks[next..][1..] == chunks[next + 1..];
        next := next + 1;
        var event := Accept(chunk);
        if event == Overran {
          return None, true;
        }
        if event == Complete {
          break;
        }
      }
      delivered, overran := Some(block), false;
      if FindNoCase(CString(header), CONNECTION_CLOSE).Some? {
        open := false;
      } else {
        phase, header, contentLength, block, bodyRead := ReadingHeaders, [], 0, [], 0;
      }
    }
  }

  lemma BlankLineInside(header: seq<Byte>)
    requires Find(CString(header), BLANK_LINE).Some?
    ensures Find(CString(header), BLANK_LINE).value + 4 <= |header|
  {
  }

  lemma NoRoomNoReads(c: Conn, chunks: seq<seq<Byte>>)
    requires InBounds(c) && Reads(c, chunks) && (Room(c) == 0 || chunks == [])
    ensures chunks == [] && After(c, chunks) == Waiting(c)
  {
  }
}
