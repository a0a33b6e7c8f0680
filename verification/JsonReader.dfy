/** cJSON's recursive-descent parser: a cursor over the text that every routine advances. */
module JsonReader {
  import opened Bytes
  import opened CStrings
  import opened Json
  import JsonString
  import JsonNumber
  import StringReader

  class ParseBuffer {
    const content: seq<Byte>
    var offset: nat
    var depth: nat

    ghost predicate Valid()
      reads this
    {
      offset <= |content|
    }

    /** The text from the cursor on. */
    ghost function Rest(): seq<Byte>
      reads this
      requires Valid()
    {
      content[offset..]
    }

    constructor (content: seq<Byte>)
      ensures Valid() && this.content == content && Rest() == content && depth == 0
    {
      this.content, offset, depth := content, 0, 0;
      new;
      assert content[0..] == content;
    }

    /** Whether the character at the cursor exists and is `b`. */
    predicate At(b: Byte)
      reads this
    {
      offset < |content| && content[offset] == b
    }

    predicate CanRead(p: seq<Byte>)
      reads this
    {
      offset + |p| <= |content| && content[offset..offset + |p|] == p
    }

    method SkipWhitespace()
      requires Valid()
      modifies this`offset
      ensures Valid() && offset >= old(offset) && Rest() == SkipSpace(old(Rest()))
    {
      if offset >= |content| {
        return;
      }
      while offset < |content| && content[offset] <= 32
        invariant old(offset) <= offset <= |content|
        invariant offset < |content| ==> SkipSpace(content[offset..]) == SkipSpace(old(Rest()))
        invariant offset == |content| ==> offset > old(offset) && SkipSpace(old(Rest())) == content[offset - 1..]
      {
        assert content[offset..][1..] == content[offset + 1..];
        offset := offset + 1;
      }
      if offset == |content| {
        offset := offset - 1;
      }
    }

    method SkipUtf8Bom()
      requires Valid() && offset == 0
      modifies this`offset
      ensures Valid() && Rest() == SkipByteOrderMark(old(Rest()))
    {
      assert content[0..] == content;
      if 4 < |content| && CanRead(BYTE_ORDER_MARK) {
        offset := offset + 3;
      }
    }

    lemma Starts(p: seq<Byte>)
      requires Valid()
      ensures CanRead(p) <==> StartsWith(Rest(), p)
    {
      if offset + |p| <= |content| {
        assert content[offset..][..|p|] == content[offset..offset + |p|];
      }
    }

    /** Reads one value of any kind. */
    method ReadValue() returns (ok: bool, item: Value)
      requires Valid()
      modifies this
      ensures Valid()
      ensures match ParseValue(old(Rest()), old(depth))
              case None => !ok
              case Some(r) => ok && item == r.value && Rest() == r.rest && depth == old(depth)
      decreases |content| - offset, 2
    {
      hide JsonString.Parse, JsonNumber.Parse, ParseArray, ParseObject;
      ok, item := true, Null;
      Starts(NULL_TEXT);
      Starts(FALSE_TEXT);
      Starts(TRUE_TEXT);
      if CanRead(NULL_TEXT) {
        offset := offset + 4;
      } else if CanRead(FALSE_TEXT) {
        item := False;
        offset := offset + 5;
      } else if CanRead(TRUE_TEXT) {
        item := True;
        offset := offset + 4;
      } else if At(JsonString.QUOTE) {
        var text, next := StringReader.ParseString(content, offset);
        if text.None? {
          return false, item;
        }
        item := String(text.value);
        offset := next;
      } else if offset < |content| && (content[offset] == JsonNumber.MINUS || 48 <= content[offset] <= 57) {
        var number, next := JsonNumber.ParseNumber(content, offset);
        if number.None? {
          return false, item;
        }
        item := Number(number.value);
        offset := next;
      } else if At(LEFT_BRACKET) {
        ok, item := ReadArray();
      } else if At(LEFT_BRACE) {
        ok, item := ReadObject();
      } else {
        ok := false;
      }
    }

    /** Reads an array. */
    method ReadArray() returns (ok: bool, item: Value)
      requires Valid() && At(LEFT_BRACKET)
      modifies this
      ensures Valid()
      ensures match ParseArray(old(Rest()), old(depth))
              case None => !ok
              case Some(r) => ok && item == r.value && Rest() == r.rest && depth == old(depth)
      decreases |content| - offset, 1
    {
      hide ParseValue, ParseItems, SkipSpace;
      ok, item := false, Null;
      if depth >= NESTING_LIMIT {
        return;
      }
      depth := depth + 1;
      offset := offset + 1;
      assert old(Rest())[1..] == content[offset..];
      SkipWhitespace();
      var items := [];
      if !At(RIGHT_BRACKET) {
        if offset >= |content| {
          offset := offset - 1;
          return;
        }
        offset := offset - 1;
        assert content[offset + 1..] == content[offset..][1..];
        ok, items := ReadItems();
        if !ok {
          return;
        }
      }
      assert Rest()[1..] == content[offset + 1..];
      depth, offset := depth - 1, offset + 1;
      return true, Array(items);
    }

    /** The loop over the items, up to the closing bracket; it starts in front of the first one. The list of items is a
        sequence here. */
    method ReadItems() returns (ok: bool, items: seq<Value>)
      requires offset < |content|
      modifies this
      ensures Valid()
      ensures match ParseItems(old(content[offset + 1..]), old(depth))
              case None => !ok
              case Some(r) =>
                && ok && items == r.value && depth == old(depth)
                && At(RIGHT_BRACKET) && content[offset + 1..] == r.rest
      decreases |content| - offset, 0
    {
      hide ParseValue, ParseItems, SkipSpace;
      ghost var start, inside := content[offset + 1..], depth;
      items := [];
      NothingDone(ParseItems(start, inside));
      while true
        invariant old(offset) <= offset < |content| && depth == inside
        invariant Behind(items, ParseItems(content[offset + 1..], inside)) == ParseItems(start, inside)
        decreases |content| - offset
      {
        ghost var here := content[offset + 1..];
        offset := offset + 1;
        SkipWhitespace();
        var next;
        ok, next := ReadValue();
        if !ok {
          NoItem(items, here, inside);
          return;
        }
        OneItem(items, here, inside, Parsed(next, Rest()));
        SkipWhitespace();
        items := items + [next];
        if !At(COMMA) {
          break;
        }
        assert Rest()[1..] == content[offset + 1..];
      }
      assert Rest() != [] ==> Rest()[1..] == content[offset + 1..];
      ok := At(RIGHT_BRACKET);
    }

    /** Reads an object. */
    method ReadObject() returns (ok: bool, item: Value)
      requires Valid() && At(LEFT_BRACE)
      modifies this
      ensures Valid()
      ensures match ParseObject(old(Rest()), old(depth))
              case None => !ok
              case Some(r) => ok && item == r.value && Rest() == r.rest && depth == old(depth)
      decreases |content| - offset, 1
    {
      hide ParseMember, ParseMembers, SkipSpace;
      ok, item := false, Null;
      if depth >= NESTING_LIMIT {
        return;
      }
      depth := depth + 1;
      offset := offset + 1;
      assert old(Rest())[1..] == content[offset..];
      SkipWhitespace();
      var members := [];
      if !At(RIGHT_BRACE) {
        if offset >= |content| {
          offset := offset - 1;
          return;
        }
        offset := offset - 1;
        assert content[offset + 1..] == content[offset..][1..];
        ok, members := ReadMembers();
        if !ok {
          return;
        }
      }
      assert Rest()[1..] == content[offset + 1..];
      depth, offset := depth - 1, offset + 1;
      return true, Object(members);
    }

    /** The loop over the members, up to the closing brace. */
    method ReadMembers() returns (ok: bool, members: seq<Member>)
      requires offset < |content|
      modifies this
      ensures Valid()
      ensures match ParseMembers(old(content[offset + 1..]), old(depth))
              case None => !ok
              case Some(r) =>
                && ok && members == r.value && depth == old(depth)
                && At(RIGHT_BRACE) && content[offset + 1..] == r.rest
      decreases |content| - offset, 0
    {
      hide ParseMember, ParseMembers, SkipSpace;
      ghost var start, inside := content[offset + 1..], depth;
      members := [];
      NothingDone(ParseMembers(start, inside));
      while true
        invariant old(offset) <= offset < |content| && depth == inside
        invariant Behind(members, ParseMembers(content[offset + 1..], inside)) == ParseMembers(start, inside)
        decreases |content| - offset
      {
        ghost var here := content[offset + 1..];
        if offset + 1 >= |content| {
          NoMember(members, here, inside);
          return false, members;
        }
        offset := offset + 1;
        var next;
        ok, next := ReadMember();
        if !ok {
          NoMember(members, here, inside);
          return;
        }
        OneMember(members, here, inside, Parsed(next, Rest()));
        SkipWhitespace();
        members := members + [next];
        if !At(COMMA) {
          break;
        }
        assert Rest()[1..] == content[offset + 1..];
      }
      assert Rest() != [] ==> Rest()[1..] == content[offset + 1..];
      ok := At(RIGHT_BRACE);
    }

    /** Reads a key, the colon and the value. */
    method ReadMember() returns (ok: bool, member: Member)
      requires Valid() && offset < |content|
      modifies this
      ensures Valid()
      ensures match ParseMember(old(Rest()), old(depth))
              case None => !ok
              case Some(r) => ok && member == r.value && Rest() == r.rest && depth == old(depth)
      decreases |content| - offset, 3
    {
      hide ParseValue, SkipSpace, JsonString.Parse;
      ok, member := false, Member([], Null);
      SkipWhitespace();
      var key, next := StringReader.ParseString(content, offset);
      if key.None? {
        return;
      }
      offset := next;
      SkipWhitespace();
      if !At(COLON) {
        return;
      }
      assert Rest()[1..] == content[offset + 1..];
      offset := offset + 1;
      SkipWhitespace();
      var value;
      ok, value := ReadValue();
      member := Member(key.value, value);
    }
  }

  // ---- the loops ----

  /** A list that continues behind what has been read of it. */
  function Behind<T>(done: seq<T>, more: Option<Parsed<seq<T>>>): Option<Parsed<seq<T>>> {
    match more
    case None => None
    case Some(r) => Some(Parsed(done + r.value, r.rest))
  }

  lemma NothingDone<T>(more: Option<Parsed<seq<T>>>)
    ensures Behind([], more) == more
  {
    assert more.Some? ==> [] + more.value.value == more.value.value;
  }

  lemma NoItem(done: seq<Value>, s: seq<Byte>, depth: nat)
    requires ParseValue(SkipSpace(s), depth) == None
    ensures Behind(done, ParseItems(s, depth)) == None
  {
  }

  /** One turn of the array loop. */
  lemma OneItem(done: seq<Value>, s: seq<Byte>, depth: nat, first: Parsed<Value>)
    requires ParseValue(SkipSpace(s), depth) == Some(first)
    ensures var t, done' := SkipSpace(first.rest), done + [first.value];
            Behind(done, ParseItems(s, depth)) == if t == [] then None
                                                  else if t[0] == COMMA then Behind(done', ParseItems(t[1..], depth))
                                                  else if t[0] == RIGHT_BRACKET then Some(Parsed(done', t[1..]))
                                                  else None
  {
    hide ParseValue, SkipSpace;
    var t := SkipSpace(first.rest);
    if t != [] && t[0] == COMMA && ParseItems(t[1..], depth).Some? {
      var more := ParseItems(t[1..], depth).value.value;
      assert done + ([first.value] + more) == done + [first.value] + more;
    }
  }

  lemma NoMember(done: seq<Member>, s: seq<Byte>, depth: nat)
    requires s == [] || ParseMember(s, depth) == None
    ensures Behind(done, ParseMembers(s, depth)) == None
  {
  }

  /** One turn of the object loop. */
  lemma OneMember(done: seq<Member>, s: seq<Byte>, depth: nat, first: Parsed<Member>)
    requires ParseMember(s, depth) == Some(first)
    ensures var t, done' := SkipSpace(first.rest), done + [first.value];
            Behind(done, ParseMembers(s, depth)) == if t == [] then None
                                                    else if t[0] == COMMA then Behind(done', ParseMembers(t[1..], depth))
                                                    else if t[0] == RIGHT_BRACE then Some(Parsed(done', t[1..]))
                                                    else None
  {
    hide ParseMember, SkipSpace;
    var t := SkipSpace(first.rest);
    if t != [] && t[0] == COMMA && ParseMembers(t[1..], depth).Some? {
      var more := ParseMembers(t[1..], depth).value.value;
      assert done + ([first.value] + more) == done + [first.value] + more;
    }
  }

  /** Parses a whole buffer, as `cJSON_ParseWithLengthOpts` does. */
  method Parse(content: seq<Byte>, terminated: bool) returns (item: Option<Value>)
    ensures item == ParseWhole(content, terminated)
  {
    hide ParseValue, SkipSpace, SkipByteOrderMark;
    if content == [] {
      NothingToParse();
      return None;
    }
    var buffer := new ParseBuffer(content);
    buffer.SkipUtf8Bom();
    buffer.SkipWhitespace();
    var ok, value := buffer.ReadValue();
    if !ok {
      return None;
    }
    if terminated {
      buffer.SkipWhitespace();
      if buffer.offset >= |content| || content[buffer.offset] != 0 {
        return None;
      }
    }
    return Some(value);
  }

  lemma NothingToParse()
    ensures forall terminated :: ParseWhole([], terminated) == None
  {
  }

  /** Parses a C string: its characters and the terminator. */
  method ParseCString(value: seq<Byte>, terminated: bool) returns (item: Option<Value>)
    requires |CString(value)| < |value|
    ensures item == ParseWhole(CString(value) + [0], terminated)
  {
    var length := |CString(value)|;
    assert value[..length + 1] == CString(value) + [0];
    item := Parse(value[..length + 1], terminated);
  }
}
