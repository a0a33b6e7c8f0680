/** cJSON's printer: a buffer that grows on demand, an offset that trails the text, and a nesting depth. */
module JsonWriter {
  import opened Bytes
  import opened CStrings
  import opened Json
  import opened JsonEscapes
  import opened JsonRoundTrip
  import JsonString
  import JsonNumber

  const INT_MAX: nat := 0x7FFF_FFFF

  class PrintBuffer {
    var buffer: seq<Byte>
    var offset: nat
    var depth: nat
    const noalloc: bool
    const format: bool

    ghost predicate Valid()
      reads this
    {
      |buffer| <= INT_MAX && (offset < |buffer| || offset == |buffer| == 0)
    }

    /** The text in front of the offset. */
    ghost function Text(): seq<Byte>
      reads this
      requires Valid()
    {
      buffer[..offset]
    }

    /** Together with the C string at the offset, which a printing routine leaves for `UpdateOffset` to find. */
    ghost function Output(): seq<Byte>
      reads this
      requires Valid()
    {
      buffer[..offset] + CString(buffer[offset..])
    }

    ghost predicate Terminated()
      reads this
      requires Valid()
    {
      offset + |CString(buffer[offset..])| < |buffer|
    }

    /** How far the buffer can ever reach. */
    ghost function Limit(): nat
      reads this
    {
      if noalloc then |buffer| else INT_MAX
    }

    /** Whether a text of `n` bytes in all fits, with the byte of slack that the requests ask for. */
    ghost predicate Reaches(n: nat)
      reads this
    {
      n + 1 < Limit()
    }

    /** Starts at the beginning of a piece of memory with arbitrary contents. */
    constructor (memory: seq<Byte>, noalloc: bool, format: bool)
      requires |memory| <= INT_MAX
      ensures Valid() && Text() == [] && buffer == memory && offset == 0 && depth == 0
      ensures this.noalloc == noalloc && this.format == format
    {
      buffer, offset, depth := memory, 0, 0;
      this.noalloc, this.format := noalloc, format;
    }

    /** Makes sure that `needed` bytes and one more can be written at the offset. Whatever was allocated has arbitrary
        contents. */
    method Ensure(needed: nat) returns (ok: bool)
      requires Valid()
      modifies this`buffer
      ensures Valid() && Text() == old(Text()) && Limit() == old(Limit())
      ensures ok <==> offset + needed < Limit()
      ensures ok ==> offset + needed < |buffer|
    {
      if |buffer| > 0 && offset >= |buffer| {
        return false;
      }
      if needed > INT_MAX {
        return false;
      }
      var total := needed + offset + 1;
      if total <= |buffer| {
        return true;
      }
      if noalloc {
        return false;
      }
      var newsize;
      if total > INT_MAX / 2 {
        if total > INT_MAX {
          return false;
        }
        newsize := INT_MAX;
      } else {
        newsize := total * 2;
      }
      var zeros: seq<Byte> := seq(newsize - |buffer|, _ => 0);
      assert |zeros| == newsize - |buffer|;
      var more: seq<Byte> :| |more| == newsize - |buffer|;
      assert (buffer + more)[..offset] == buffer[..offset];
      buffer := buffer + more;
      return true;
    }

    /** Writes bytes at a position inside the buffer. */
    method Put(at: nat, s: seq<Byte>)
      requires at + |s| <= |buffer|
      modifies this`buffer
      ensures |buffer| == old(|buffer|)
      ensures buffer[..at + |s|] == old(buffer[..at]) + s
      ensures buffer[at + |s|..] == old(buffer[at + |s|..])
    {
      buffer := buffer[..at] + s + buffer[at + |s|..];
    }

    /** Moves the offset to the end of the C string that starts at it. */
    method UpdateOffset()
      requires Valid() && Terminated()
      modifies this`offset
      ensures Valid() && Text() == old(Output())
    {
      ghost var s := CString(buffer[offset..]);
      assert buffer[offset..][..|s|] == buffer[offset..offset + |s|];
      offset := offset + |CString(buffer[offset..])|;
      assert buffer[..offset] == old(buffer[..offset]) + s;
    }

    /** Prints a word: room for it and its terminator, and the copy. */
    method PutText(s: seq<Byte>) returns (ok: bool)
      requires Valid() && IsCString(s)
      modifies this`buffer
      ensures Valid() && Limit() == old(Limit())
      ensures ok <==> offset + |s| + 1 < Limit()
      ensures ok ==> Terminated() && Output() == old(Text()) + s
    {
      ok := Ensure(|s| + 1);
      if ok {
        Put(offset, s + [0]);
        Pending(buffer, old(Text()), s);
      }
    }

    /** Makes room, writes some punctuation and steps over it. */
    method Append(s: seq<Byte>, needed: nat) returns (ok: bool)
      requires Valid() && |s| <= needed
      modifies this`buffer, this`offset
      ensures Valid() && Limit() == old(Limit())
      ensures ok <==> old(offset) + needed < Limit()
      ensures ok ==> Text() == old(Text()) + s
    {
      ok := Ensure(needed);
      if ok {
        Put(offset, s);
        offset := offset + |s|;
      }
    }

    /** Writes tabs at a position inside the buffer. */
    method PutTabs(at: nat, count: nat)
      requires at + count <= |buffer|
      modifies this`buffer
      ensures |buffer| == old(|buffer|) && buffer[..at + count] == old(buffer[..at]) + Tabs(count)
    {
      var i := 0;
      while i < count
        invariant 0 <= i <= count && |buffer| == old(|buffer|)
        invariant buffer[..at + i] == old(buffer[..at]) + Tabs(i)
      {
        Put(at + i, [TAB]);
        assert Tabs(i + 1) == Tabs(i) + [TAB];
        i := i + 1;
      }
    }

    /** Prints a number, character by character, and moves the offset behind it. */
    method PrintNumber(x: real) returns (ok: bool)
      requires Valid() && JsonNumber.IsIntRange(x)
      modifies this`buffer, this`offset
      ensures Valid() && Limit() == old(Limit())
      ensures ok <==> old(offset) + |JsonNumber.IntText(JsonNumber.ValueInt(x))| + 1 < Limit()
      ensures ok ==> Terminated() && Output() == old(Text()) + JsonNumber.IntText(JsonNumber.ValueInt(x))
    {
      var number := JsonNumber.IntText(JsonNumber.ValueInt(x));
      var length := |number|;
      ok := Ensure(length + 1);
      if !ok {
        return;
      }
      ghost var size := |buffer|;
      var i := 0;
      while i < length
        invariant 0 <= i <= length && |buffer| == size && offset == old(offset)
        invariant buffer[..offset + i] == old(Text()) + number[..i]
      {
        Put(offset + i, [number[i]]);
        assert number[..i + 1] == number[..i] + [number[i]];
        i := i + 1;
      }
      assert number[..i] == number;
      ghost var text := buffer[..offset + length];
      Put(offset + i, [0]);
      offset := offset + length;
      assert text + [] == text;
      Pending(buffer, text, []);
    }

    /** Prints a string with its quotes: a first pass counts what the escapes add, a second one writes. */
    method PrintString(input: seq<Byte>) returns (ok: bool)
      requires Valid() && IsCString(input)
      modifies this`buffer
      ensures Valid() && Limit() == old(Limit())
      ensures ok <==> offset + |Quoted(input)| + 1 < Limit()
      ensures ok ==> Terminated() && Output() == old(Text()) + Quoted(input)
    {
      hide Escaped;
      var escapes := CountEscapes(input);
      var length := |input| + escapes;
      ok := Ensure(length + 3);
      if ok {
        WriteQuoted(input, escapes);
        QuotedIsCString(input);
        Pending(buffer, old(Text()), Quoted(input));
      }
    }

    /** The second pass: a plain copy when nothing has to be escaped. */
    method WriteQuoted(input: seq<Byte>, escapes: nat)
      requires |Escaped(input)| == |input| + escapes && offset + |Escaped(input)| + 3 < |buffer|
      modifies this`buffer
      ensures |buffer| == old(|buffer|)
      ensures buffer[..offset + |Escaped(input)| + 3] == old(buffer[..offset]) + (Quoted(input) + [0])
    {
      hide Escaped;
      var length := |input| + escapes;
      Put(offset, [JsonString.QUOTE]);
      if escapes == 0 {
        NothingToEscape(input);
        Put(offset + 1, input);
      } else {
        WriteEscaped(input, offset + 1);
      }
      Put(offset + length + 1, [JsonString.QUOTE]);
      Put(offset + length + 2, [0]);
      QuotedText(old(buffer[..offset]), input);
    }

    /** The writing loop. The terminator that `sprintf` leaves behind a `\u` escape is overwritten by what follows. */
    method WriteEscaped(input: seq<Byte>, start: nat)
      requires start + |Escaped(input)| < |buffer|
      modifies this`buffer
      ensures |buffer| == old(|buffer|)
      ensures buffer[..start + |Escaped(input)|] == old(buffer[..start]) + Escaped(input)
    {
      hide Escaped, EscapeByte;
      var i, at := 0, start;
      assert input[..0] == [] && input[0..] == input;
      NothingEscaped();
      while i < |input|
        invariant 0 <= i <= |input| && |buffer| == old(|buffer|) && start <= at
        invariant at + |Escaped(input[i..])| == start + |Escaped(input)|
        invariant buffer[..at] == old(buffer[..start]) + Escaped(input[..i])
      {
        EscapedAt(input, i);
        at := WriteEscape(input[i], at);
        i := i + 1;
      }
      assert input[..i] == input && input[i..] == [];
    }

    /** One turn of the writing loop. */
    method WriteEscape(b: Byte, at: nat) returns (end: nat)
      requires at + |EscapeByte(b)| < |buffer|
      modifies this`buffer
      ensures |buffer| == old(|buffer|) && end == at + |EscapeByte(b)|
      ensures buffer[..end] == old(buffer[..at]) + EscapeByte(b)
    {
      hide EscapeByte, EscapeLetter;
      EscapeForms(b);
      if b > 31 && b != JsonString.QUOTE && b != JsonString.BACKSLASH {
        Put(at, [b]);
        end := at + 1;
      } else {
        Put(at, [JsonString.BACKSLASH]);
        var letter := EscapeLetter(b);
        if letter.Some? {
          Put(at + 1, [letter.value]);
          end := at + 2;
          Regroup3(old(buffer[..at]), [JsonString.BACKSLASH], [letter.value]);
        } else {
          ghost var text := buffer[..at + 1];
          ghost var digits := UnicodeEscape(b);
          Put(at + 1, UnicodeEscape(b) + [0]);
          end := at + 6;
          Regroup3(text, digits, [0]);
          assert buffer[..end] == buffer[..end + 1][..end] == text + digits;
          Regroup3(old(buffer[..at]), [JsonString.BACKSLASH], digits);
        }
      }
    }

    // ---- values ----

    /** Prints a value at the offset. It succeeds exactly when the value is not nested too deep and the buffer can reach two
        bytes beyond its text, one for the terminator and one to spare. */
    method PrintValue(v: Value) returns (ok: bool)
      requires Valid() && Printable(v) && depth <= NESTING_LIMIT
      modifies this
      ensures Valid() && Limit() == old(Limit())
      ensures ok ==> Terminated() && Output() == old(Text()) + Render(v, format, old(depth)) && depth == old(depth)
      ensures ok <==>
                && old(depth) + Nesting(v) <= NESTING_LIMIT
                && Reaches(old(offset) + |Render(v, format, old(depth))|)
      decreases v, 2
    {
      hide Quoted, ItemsNesting, MembersNesting, RenderItems, RenderMembers, AllPrintable, MembersPrintable;
      match v
      case Null => ok := PutText(NULL_TEXT);
      case False => ok := PutText(FALSE_TEXT);
      case True => ok := PutText(TRUE_TEXT);
      case Number(x) => ok := PrintNumber(x);
      case String(text) => ok := PrintString(text);
      case Array(items) => ok := PrintArray(items);
      case Object(members) => ok := PrintObject(members);
    }

    method PrintArray(items: seq<Value>) returns (ok: bool)
      requires Valid() && AllPrintable(items) && depth <= NESTING_LIMIT
      modifies this
      ensures Valid() && Limit() == old(Limit())
      ensures ok ==>
                && Terminated() && Output() == old(Text()) + Render(Array(items), format, old(depth))
                && depth == old(depth)
      ensures ok <==>
                && old(depth) + 1 + ItemsNesting(items) <= NESTING_LIMIT
                && Reaches(old(offset) + |Render(Array(items), format, old(depth))|)
      decreases items, 1
    {
      hide RenderItems, ItemsNesting, AllPrintable;
      if depth >= NESTING_LIMIT {
        return false;
      }
      ok := Append([LEFT_BRACKET], 1);
      if !ok {
        return;
      }
      depth := depth + 1;
      ok := PrintItems(items);
      if !ok {
        return;
      }
      ok := PutText([RIGHT_BRACKET]);
      depth := depth - 1;
    }

    /** The loop over the elements of an array. */
    method PrintItems(items: seq<Value>) returns (ok: bool)
      requires Valid() && AllPrintable(items) && depth <= NESTING_LIMIT
      modifies this
      ensures Valid() && Limit() == old(Limit())
      ensures ok ==> Text() == old(Text()) + RenderItems(items, format, old(depth)) && depth == old(depth)
      ensures ok ==> old(depth) + ItemsNesting(items) <= NESTING_LIMIT
      ensures old(depth) + ItemsNesting(items) <= NESTING_LIMIT ==>
                (Reaches(old(offset) + |RenderItems(items, format, old(depth))|) ==> ok)
      decreases items, 0
    {
      hide Render, RenderItems, Nesting, ItemsNesting, Printable, AllPrintable;
      ghost var goal := old(Text()) + RenderItems(items, format, depth);
      var i := 0;
      assert items[0..] == items;
      while i < |items|
        invariant 0 <= i <= |items| && Valid() && Limit() == old(Limit()) && depth == old(depth)
        invariant Text() + RenderItems(items[i..], format, depth) == goal
        invariant AllPrintable(items[i..])
        invariant depth + ItemsNesting(items[i..]) <= NESTING_LIMIT <==> depth + ItemsNesting(items) <= NESTING_LIMIT
      {
        ItemsFrom(items[i..], format, depth);
        assert items[i..][0] == items[i] && items[i..][1..] == items[i + 1..];
        ghost var text, item, more := Text(), Render(items[i], format, depth), RenderItems(items[i + 1..], format, depth);
        ok := PrintValue(items[i]);
        if !ok {
          return;
        }
        UpdateOffset();
        if i + 1 < |items| {
          ok := Append(Separator(format), |Separator(format)| + 1);
          if !ok {
            return;
          }
          Regroup4(text, item, Separator(format), more);
        } else {
          NoItems(items[i + 1..], format, depth);
        }
        i := i + 1;
      }
      NoItems(items[i..], format, depth);
      ok := true;
    }

    method PrintObject(members: seq<Member>) returns (ok: bool)
      requires Valid() && MembersPrintable(members) && depth <= NESTING_LIMIT
      modifies this
      ensures Valid() && Limit() == old(Limit())
      ensures ok ==>
                && Terminated() && Output() == old(Text()) + Render(Object(members), format, old(depth))
                && depth == old(depth)
      ensures ok <==>
                && old(depth) + 1 + MembersNesting(members) <= NESTING_LIMIT
                && Reaches(old(offset) + |Render(Object(members), format, old(depth))|)
      decreases members, 1
    {
      hide RenderMembers, MembersNesting, MembersPrintable, Render, Indent;
      WholeObject(old(Text()), members, format, depth);
      if depth >= NESTING_LIMIT {
        return false;
      }
      var open := [LEFT_BRACE] + Newline(format);
      ok := Append(open, |open| + 1);
      if !ok {
        return;
      }
      depth := depth + 1;
      ok := PrintMembers(members);
      if !ok {
        return;
      }
      Indented(Text(), format, depth - 1);
      ok := Close();
      depth := depth - 1;
    }

    /** The end of an object: the indentation, the brace and a terminator behind the offset. */
    method Close() returns (ok: bool)
      requires Valid() && depth > 0
      modifies this`buffer
      ensures Valid() && Limit() == old(Limit())
      ensures ok <==> Reaches(offset + |Indent(format, depth - 1)| + 1)
      ensures ok ==> Terminated() && Output() == old(Text()) + Indent(format, depth - 1) + [RIGHT_BRACE]
    {
      hide Tabs;
      ok := Ensure(if format then depth + 1 else 2);
      if !ok {
        return;
      }
      ghost var text := Text();
      var at := offset;
      if format {
        PutTabs(at, depth - 1);
        at := at + depth - 1;
      }
      Indented(text, format, depth - 1);
      Put(at, [RIGHT_BRACE]);
      Put(at + 1, [0]);
      ghost var close := Indent(format, depth - 1) + [RIGHT_BRACE];
      Regroup4(text, Indent(format, depth - 1), [RIGHT_BRACE], [0]);
      Regroup3(Indent(format, depth - 1), [RIGHT_BRACE], [0]);
      Regroup3(text, Indent(format, depth - 1), [RIGHT_BRACE]);
      TabsAreBlank(format, depth - 1);
      Pending(buffer, text, close);
    }

    /** The loop over the members of an object. */
    method PrintMembers(members: seq<Member>) returns (ok: bool)
      requires Valid() && MembersPrintable(members) && depth <= NESTING_LIMIT
      modifies this
      ensures Valid() && Limit() == old(Limit())
      ensures ok ==> Text() == old(Text()) + RenderMembers(members, format, old(depth)) && depth == old(depth)
      ensures ok ==> old(depth) + MembersNesting(members) <= NESTING_LIMIT
      ensures old(depth) + MembersNesting(members) <= NESTING_LIMIT ==>
                (Reaches(old(offset) + |RenderMembers(members, format, old(depth))|) ==> ok)
      decreases members, 0
    {
      hide RenderMember, RenderMembers, MemberEnd, Nesting, MembersNesting, Printable, MembersPrintable;
      ghost var goal := old(Text()) + RenderMembers(members, format, depth);
      var i := 0;
      assert members[0..] == members;
      while i < |members|
        invariant 0 <= i <= |members| && Valid() && Limit() == old(Limit()) && depth == old(depth)
        invariant Text() + RenderMembers(members[i..], format, depth) == goal
        invariant MembersPrintable(members[i..])
        invariant depth + MembersNesting(members[i..]) <= NESTING_LIMIT <==> depth + MembersNesting(members) <= NESTING_LIMIT
      {
        MembersFrom(members[i..], format, depth);
        assert members[i..][0] == members[i] && members[i..][1..] == members[i + 1..];
        ok := PrintMember(members[i], i + 1 == |members|);
        if !ok {
          return;
        }
        i := i + 1;
      }
      NoMembersLeft(members[i..], format, depth);
      ok := true;
    }

    /** One turn of that loop. */
    method PrintMember(m: Member, last: bool) returns (ok: bool)
      requires Valid() && IsCString(m.key) && Printable(m.value) && depth <= NESTING_LIMIT
      modifies this
      ensures Valid() && Limit() == old(Limit())
      ensures ok ==>
                && Text() == old(Text()) + RenderMember(m, format, old(depth)) + MemberEnd(last, format)
                && depth == old(depth)
      ensures ok ==> old(depth) + Nesting(m.value) <= NESTING_LIMIT
      ensures old(depth) + Nesting(m.value) <= NESTING_LIMIT ==>
                (Reaches(old(offset) + |RenderMember(m, format, old(depth))| + |MemberEnd(last, format)|) ==> ok)
      decreases m, 3
    {
      hide Render, RenderMember, MemberEnd, KeyEnd, Nesting, Printable, Indent, Quoted;
      MemberText(Text(), m, format, depth, MemberEnd(last, format));
      ok := PrintKey(m.key);
      if !ok {
        return;
      }
      ok := PrintValue(m.value);
      if !ok {
        return;
      }
      UpdateOffset();
      ok := Append(MemberEnd(last, format), |MemberEnd(last, format)| + 1);
    }

    /** The indentation, the key and the colon. */
    method PrintKey(key: seq<Byte>) returns (ok: bool)
      requires Valid() && IsCString(key)
      modifies this`buffer, this`offset
      ensures Valid() && Limit() == old(Limit())
      ensures ok ==> Text() == old(Text()) + Indent(format, depth) + Quoted(key) + KeyEnd(format)
      ensures Reaches(old(offset) + |Indent(format, depth)| + |Quoted(key)| + |KeyEnd(format)|) ==> ok
    {
      hide Quoted, Tabs;
      ghost var before := Text();
      Indented(before, format, depth);
      if format {
        ok := Ensure(depth);
        if !ok {
          return;
        }
        PutTabs(offset, depth);
        offset := offset + depth;
      }
      ok := PrintString(key);
      if !ok {
        return;
      }
      UpdateOffset();
      ok := Append(KeyEnd(format), |KeyEnd(format)|);
    }
  }

  /** What a terminated text behind a prefix leaves in the buffer. */
  lemma Pending(buffer: seq<Byte>, text: seq<Byte>, s: seq<Byte>)
    requires |text| + |s| < |buffer| && IsCString(s) && buffer[..|text| + |s| + 1] == text + (s + [0])
    ensures CString(buffer[|text|..]) == s && buffer[..|text|] == text
  {
    var rest := buffer[|text| + |s| + 1..];
    assert buffer == text + (s + [0]) + rest;
    assert buffer[|text|..] == s + [0] + rest;
    CStrings.Terminated(s, rest);
    NoNul(s);
  }

  /** What `sprintf` makes of a control character. */
  function UnicodeEscape(b: Byte): (s: seq<Byte>)
    ensures |s| == 5
  {
    [JsonString.LETTER_U, 48, 48, HexDigit(b / 16), HexDigit(b % 16)]
  }

  lemma EscapeForms(b: Byte)
    ensures b > 31 && b != JsonString.QUOTE && b != JsonString.BACKSLASH ==> EscapeByte(b) == [b]
    ensures !(b > 31 && b != JsonString.QUOTE && b != JsonString.BACKSLASH) ==>
              EscapeByte(b) == [JsonString.BACKSLASH]
                               + if EscapeLetter(b).Some? then [EscapeLetter(b).value] else UnicodeEscape(b)
  {
  }

  lemma QuotedText(text: seq<Byte>, input: seq<Byte>)
    ensures text + [JsonString.QUOTE] + Escaped(input) + [JsonString.QUOTE] + [0] == text + (Quoted(input) + [0])
  {
    hide Escaped;
    Regroup5(text, [JsonString.QUOTE], Escaped(input), [JsonString.QUOTE], [0]);
    Regroup4([JsonString.QUOTE], Escaped(input), [JsonString.QUOTE], [0]);
  }

  lemma Indented(text: seq<Byte>, format: bool, depth: nat)
    ensures text + Indent(format, depth) == if format then text + Tabs(depth) else text
    ensures |Indent(format, depth)| == if format then depth else 0
  {
    assert text + [] == text;
  }

  lemma MemberText(text: seq<Byte>, m: Member, format: bool, depth: nat, end: seq<Byte>)
    ensures text + Indent(format, depth) + Quoted(m.key) + KeyEnd(format) + Render(m.value, format, depth) + end
         == text + RenderMember(m, format, depth) + end
    ensures |RenderMember(m, format, depth)|
         == |Indent(format, depth)| + |Quoted(m.key)| + |KeyEnd(format)| + |Render(m.value, format, depth)|
  {
    hide Indent, Quoted, KeyEnd, Render;
    Regroup5(text, Indent(format, depth), Quoted(m.key), KeyEnd(format), Render(m.value, format, depth));
    Regroup4(Indent(format, depth), Quoted(m.key), KeyEnd(format), Render(m.value, format, depth));
  }

  lemma WholeObject(text: seq<Byte>, members: seq<Member>, format: bool, depth: nat)
    ensures text + ([LEFT_BRACE] + Newline(format)) + RenderMembers(members, format, depth + 1) + Indent(format, depth)
            + [RIGHT_BRACE]
         == text + Render(Object(members), format, depth)
    ensures |Render(Object(members), format, depth)|
         == 2 + |Newline(format)| + |RenderMembers(members, format, depth + 1)| + |Indent(format, depth)|
  {
    hide Indent, Newline, RenderMembers;
    var open := [LEFT_BRACE] + Newline(format);
    Regroup5(text, open, RenderMembers(members, format, depth + 1), Indent(format, depth), [RIGHT_BRACE]);
    Regroup4(open, RenderMembers(members, format, depth + 1), Indent(format, depth), [RIGHT_BRACE]);
  }

  // ---- the loops ----

  lemma ItemsFrom(vs: seq<Value>, format: bool, depth: nat)
    requires vs != [] && AllPrintable(vs)
    ensures Printable(vs[0]) && AllPrintable(vs[1..])
    ensures RenderItems(vs, format, depth)
         == Render(vs[0], format, depth)
            + if |vs| == 1 then [] else Separator(format) + RenderItems(vs[1..], format, depth)
    ensures ItemsNesting(vs) == Max(Nesting(vs[0]), ItemsNesting(vs[1..]))
  {
  }

  lemma NoItems(vs: seq<Value>, format: bool, depth: nat)
    requires vs == []
    ensures RenderItems(vs, format, depth) == [] && ItemsNesting(vs) == 0
  {
  }

  lemma MembersFrom(ms: seq<Member>, format: bool, depth: nat)
    requires ms != [] && MembersPrintable(ms)
    ensures IsCString(ms[0].key) && Printable(ms[0].value) && MembersPrintable(ms[1..])
    ensures RenderMembers(ms, format, depth)
         == RenderMember(ms[0], format, depth) + MemberEnd(|ms| == 1, format) + RenderMembers(ms[1..], format, depth)
    ensures MembersNesting(ms) == Max(Nesting(ms[0].value), MembersNesting(ms[1..]))
  {
  }

  lemma NoMembersLeft(ms: seq<Member>, format: bool, depth: nat)
    requires ms == []
    ensures RenderMembers(ms, format, depth) == [] && MembersNesting(ms) == 0
  {
  }

  // ---- entry points ----

  const DEFAULT_BUFFER_SIZE: nat := 256

  /** Prints a value into memory of its own; `memory` is what the first allocation returns. */
  method Print(v: Value, format: bool, memory: seq<Byte>) returns (text: Option<seq<Byte>>)
    requires Printable(v) && |memory| == DEFAULT_BUFFER_SIZE
    ensures text.Some? ==> text.value == Render(v, format, 0) + [0]
    ensures text.Some? <==> Nesting(v) <= 1000 && |Render(v, format, 0)| + 1 < 0x7FFF_FFFF
  {
    hide Render, Nesting, Printable;
    var buffer := new PrintBuffer(memory, false, format);
    var ok := buffer.PrintValue(v);
    if !ok {
      return None;
    }
    assert [] + Render(v, format, 0) == Render(v, format, 0);
    buffer.UpdateOffset();
    return Some(buffer.buffer[..buffer.offset] + [0]);
  }

  /** Prints a value into the caller's memory, which never grows. */
  method PrintPreallocated(v: Value, format: bool, memory: seq<Byte>) returns (ok: bool, printed: seq<Byte>)
    requires Printable(v) && |memory| <= INT_MAX
    ensures |printed| == |memory|
    ensures ok ==> CString(printed) == Render(v, format, 0)
    ensures ok <==> Nesting(v) <= 1000 && |Render(v, format, 0)| + 1 < |memory|
  {
    hide Render, Nesting, Printable;
    var buffer := new PrintBuffer(memory, true, format);
    ok := buffer.PrintValue(v);
    printed := buffer.buffer;
    if ok {
      ghost var text := printed[..buffer.offset];
      assert [] + Render(v, format, 0) == Render(v, format, 0) == text + CString(printed[buffer.offset..]);
      RenderIsCString(v, format, 0);
      assert forall i :: 0 <= i < |text| ==> text[i] == Render(v, format, 0)[i];
      CStringConcat(text, printed[buffer.offset..]);
      assert printed == text + printed[buffer.offset..];
    }
  }
}
