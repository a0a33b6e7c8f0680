/** JSON values, the text that cJSON prints for them, and the values that it reads out of a text. */
module Json {
  import opened Bytes
  import JsonString
  import JsonEscapes
  import JsonNumber

  const NESTING_LIMIT: nat := 1000

  const COMMA: Byte := 44
  const COLON: Byte := 58
  const LEFT_BRACKET: Byte := 91
  const RIGHT_BRACKET: Byte := 93
  const LEFT_BRACE: Byte := 123
  const RIGHT_BRACE: Byte := 125
  const SPACE: Byte := 32
  const TAB: Byte := 9
  const NEWLINE: Byte := 10

  // "null", "true" and "false"
  const NULL_TEXT: seq<Byte> := [110, 117, 108, 108]
  const TRUE_TEXT: seq<Byte> := [116, 114, 117, 101]
  const FALSE_TEXT: seq<Byte> := [102, 97, 108, 115, 101]

  datatype Value =
    | Null
    | True
    | False
    | Number(number: real)
    | String(text: seq<Byte>)
    | Array(items: seq<Value>)
    | Object(members: seq<Member>)

  datatype Member = Member(key: seq<Byte>, value: Value)

  // ---- printing ----

  function Tabs(n: nat): (s: seq<Byte>)
    ensures |s| == n
  {
    seq(n, _ => TAB)
  }

  /** What a number prints as; only integers of the C `int` range are covered. */
  predicate Printable(v: Value) {
    match v
    case Null | True | False => true
    case Number(x) => JsonNumber.IsIntRange(x)
    case String(text) => IsCString(text)
    case Array(items) => AllPrintable(items)
    case Object(members) => MembersPrintable(members)
  }

  predicate IsCString(s: seq<Byte>) {
    forall i :: 0 <= i < |s| ==> s[i] != 0
  }

  predicate AllPrintable(vs: seq<Value>) {
    vs == [] || (Printable(vs[0]) && AllPrintable(vs[1..]))
  }

  predicate MembersPrintable(ms: seq<Member>) {
    ms == [] || (IsCString(ms[0].key) && Printable(ms[0].value) && MembersPrintable(ms[1..]))
  }

  /** How many arrays and objects are open at the deepest point. */
  function Nesting(v: Value): nat {
    match v
    case Array(items) => 1 + ItemsNesting(items)
    case Object(members) => 1 + MembersNesting(members)
    case _ => 0
  }

  function Max(a: nat, b: nat): nat {
    if a < b then b else a
  }

  function ItemsNesting(vs: seq<Value>): nat {
    if vs == [] then 0 else Max(Nesting(vs[0]), ItemsNesting(vs[1..]))
  }

  function MembersNesting(ms: seq<Member>): nat {
    if ms == [] then 0 else Max(Nesting(ms[0].value), MembersNesting(ms[1..]))
  }

  /** The text of a value at a depth, formatted or not. */
  function Render(v: Value, format: bool, depth: nat): seq<Byte>
    decreases v, 0
  {
    match v
    case Null => NULL_TEXT
    case True => TRUE_TEXT
    case False => FALSE_TEXT
    case Number(x) => JsonNumber.IntText(JsonNumber.ValueInt(x))
    case String(text) => JsonEscapes.Quoted(text)
    case Array(items) => [LEFT_BRACKET] + RenderItems(items, format, depth + 1) + [RIGHT_BRACKET]
    case Object(members) =>
      [LEFT_BRACE] + Newline(format) + RenderMembers(members, format, depth + 1) + Indent(format, depth) + [RIGHT_BRACE]
  }

  function Newline(format: bool): seq<Byte> {
    if format then [NEWLINE] else []
  }

  function Indent(format: bool, depth: nat): seq<Byte> {
    if format then Tabs(depth) else []
  }

  function Separator(format: bool): seq<Byte> {
    if format then [COMMA, SPACE] else [COMMA]
  }

  function KeyEnd(format: bool): seq<Byte> {
    if format then [COLON, TAB] else [COLON]
  }

  function RenderItems(vs: seq<Value>, format: bool, depth: nat): seq<Byte>
    decreases vs
  {
    if vs == [] then []
    else
      Render(vs[0], format, depth)
      + if |vs| == 1 then [] else Separator(format) + RenderItems(vs[1..], format, depth)
  }

  function RenderMember(m: Member, format: bool, depth: nat): seq<Byte>
    decreases m
  {
    Indent(format, depth) + JsonEscapes.Quoted(m.key) + KeyEnd(format) + Render(m.value, format, depth)
  }

  function MemberEnd(last: bool, format: bool): seq<Byte> {
    (if last then [] else [COMMA]) + Newline(format)
  }

  function RenderMembers(ms: seq<Member>, format: bool, depth: nat): seq<Byte>
    decreases ms
  {
    if ms == [] then []
    else RenderMember(ms[0], format, depth) + MemberEnd(|ms| == 1, format) + RenderMembers(ms[1..], format, depth)
  }

  // ---- parsing ----

  /** Skips characters up to the space; at the very end of the buffer it stays on the last one. */
  function SkipSpace(s: seq<Byte>): (r: seq<Byte>)
    ensures |r| <= |s| && (s != [] ==> r != [])
  {
    if |s| <= 1 || s[0] > 32 then s else SkipSpace(s[1..])
  }

  /** What is left after a value has been read. */
  datatype Parsed<T> = Parsed(value: T, rest: seq<Byte>)

  predicate StartsWith(s: seq<Byte>, p: seq<Byte>) {
    |p| <= |s| && s[..|p|] == p
  }

  function ParseValue(s: seq<Byte>, depth: nat): (r: Option<Parsed<Value>>)
    ensures r.Some? ==> |r.value.rest| < |s|
    decreases |s|, 2
  {
    if StartsWith(s, NULL_TEXT) then Some(Parsed(Null, s[4..]))
    else if StartsWith(s, FALSE_TEXT) then Some(Parsed(False, s[5..]))
    else if StartsWith(s, TRUE_TEXT) then Some(Parsed(True, s[4..]))
    else if s == [] then None
    else if s[0] == JsonString.QUOTE then
      match JsonString.Parse(s)
      case None => None
      case Some(r) => Some(Parsed(String(r.0), r.1))
    else if s[0] == JsonNumber.MINUS || 48 <= s[0] <= 57 then
      match JsonNumber.Parse(s)
      case None => None
      case Some(r) => Some(Parsed(Number(r.0), r.1))
    else if s[0] == LEFT_BRACKET then ParseArray(s, depth)
    else if s[0] == LEFT_BRACE then ParseObject(s, depth)
    else None
  }

  function ParseArray(s: seq<Byte>, depth: nat): (r: Option<Parsed<Value>>)
    requires s != []
    ensures r.Some? ==> |r.value.rest| < |s|
    decreases |s|, 1
  {
    if depth >= NESTING_LIMIT then None
    else
      var t := SkipSpace(s[1..]);
      if t == [] then None
      else if t[0] == RIGHT_BRACKET then Some(Parsed(Array([]), t[1..]))
      else
        match ParseItems(t, depth + 1)
        case None => None
        case Some(r) => Some(Parsed(Array(r.value), r.rest))
  }

  /** One or more values, up to the closing bracket. */
  function ParseItems(s: seq<Byte>, depth: nat): (r: Option<Parsed<seq<Value>>>)
    ensures r.Some? ==> |r.value.rest| < |s|
    decreases |s|, 3
  {
    match ParseValue(SkipSpace(s), depth)
    case None => None
    case Some(first) =>
      var t := SkipSpace(first.rest);
      if t == [] then None
      else if t[0] == COMMA then
        match ParseItems(t[1..], depth)
        case None => None
        case Some(more) => Some(Parsed([first.value] + more.value, more.rest))
      else if t[0] == RIGHT_BRACKET then Some(Parsed([first.value], t[1..]))
      else None
  }

  function ParseObject(s: seq<Byte>, depth: nat): (r: Option<Parsed<Value>>)
    requires s != []
    ensures r.Some? ==> |r.value.rest| < |s|
    decreases |s|, 1
  {
    if depth >= NESTING_LIMIT then None
    else
      var t := SkipSpace(s[1..]);
      if t == [] then None
      else if t[0] == RIGHT_BRACE then Some(Parsed(Object([]), t[1..]))
      else
        match ParseMembers(t, depth + 1)
        case None => None
        case Some(r) => Some(Parsed(Object(r.value), r.rest))
  }

  /** A key, a colon and a value. */
  function ParseMember(s: seq<Byte>, depth: nat): (r: Option<Parsed<Member>>)
    ensures r.Some? ==> |r.value.rest| < |s|
    decreases |s|, 3
  {
    match JsonString.Parse(SkipSpace(s))
    case None => None
    case Some(key) =>
      var t := SkipSpace(key.1);
      if t == [] || t[0] != COLON then None
      else
        match ParseValue(SkipSpace(t[1..]), depth)
        case None => None
        case Some(v) => Some(Parsed(Member(key.0, v.value), v.rest))
  }

  function ParseMembers(s: seq<Byte>, depth: nat): (r: Option<Parsed<seq<Member>>>)
    ensures r.Some? ==> |r.value.rest| < |s|
    decreases |s|, 4
  {
    match ParseMember(s, depth)
    case None => None
    case Some(first) =>
      var t := SkipSpace(first.rest);
      if t == [] then None
      else if t[0] == COMMA then
        match ParseMembers(t[1..], depth)
        case None => None
        case Some(more) => Some(Parsed([first.value] + more.value, more.rest))
      else if t[0] == RIGHT_BRACE then Some(Parsed([first.value], t[1..]))
      else None
  }

  const BYTE_ORDER_MARK: seq<Byte> := [0xEF, 0xBB, 0xBF]

  function SkipByteOrderMark(s: seq<Byte>): seq<Byte> {
    if |s| > 4 && StartsWith(s, BYTE_ORDER_MARK) then s[3..] else s
  }

  /** A whole buffer. With `terminated`, only white space may stand between the value and a NUL. */
  function ParseWhole(content: seq<Byte>, terminated: bool): Option<Value> {
    match ParseValue(SkipSpace(SkipByteOrderMark(content)), 0)
    case None => None
    case Some(r) =>
      if terminated && (r.rest == [] || SkipSpace(r.rest)[0] != 0) then None else Some(r.value)
  }
}
