/** Printing and parsing undo each other. */
module JsonRoundTrip {
  import opened Bytes
  import opened CStrings
  import opened Json
  import opened StringGrammar
  import opened NumberGrammar
  import opened JsonGrammar
  import JsonString
  import JsonEscapes
  import JsonNumber
  import Decimals

  // ---- printed values as texts ----

  /** A line end and the indentation of the next line, where the format has them. */
  function Line(format: bool, depth: nat): (s: seq<Byte>)
    ensures IsBlank(s)
  {
    if format then [10] + seq(depth, _ => 9) else []
  }

  /** The text that a value is printed as: formatted, an array goes on one line with a space behind each comma, and an
      object has its members on lines of their own, indented by tabs, with a tab behind each colon; unformatted, there is no
      white space. */
  function PrintedText(v: Value, format: bool, depth: nat): (x: Text)
    requires Printable(v)
    ensures IsText(x)
    decreases v
  {
    match v
    case Null => NullText
    case True => TrueText
    case False => FalseText
    case Number(x) =>
      var n := JsonNumber.ValueInt(x);
      PrintedIsNumeral(n);
      NumberText(Numeral(n < 0, Decimals.Digits(if n < 0 then -n else n), None, None))
    case String(text) => StringText(PrintedUnits(text))
    case Array(items) => ArrayText(PrintedItems(items, format, depth + 1, []), [])
    case Object(members) => ObjectText(PrintedMembers(members, format, depth + 1), Line(format, depth))
  }

  function PrintedItems(vs: seq<Value>, format: bool, depth: nat, before: seq<Byte>): (items: seq<ItemText>)
    requires AllPrintable(vs) && IsBlank(before)
    ensures AreItems(items) && |items| == |vs|
    decreases vs
  {
    if vs == [] then []
    else
      [ItemText(before, PrintedText(vs[0], format, depth), [])]
      + PrintedItems(vs[1..], format, depth, if format then [32] else [])
  }

  function PrintedMembers(ms: seq<Member>, format: bool, depth: nat): (members: seq<MemberText>)
    requires MembersPrintable(ms) && depth > 0
    ensures AreMembers(members) && |members| == |ms|
    decreases ms
  {
    if ms == [] then []
    else
      [MemberText(Line(format, depth), PrintedUnits(ms[0].key), [], if format then [9] else [],
                  PrintedText(ms[0].value, format, depth), if |ms| == 1 then Line(format, depth - 1) else [])]
      + PrintedMembers(ms[1..], format, depth)
  }

  // ---- the text is what is printed ----

  lemma TabsAreBlank(format: bool, n: nat)
    ensures forall i :: 0 <= i < |Indent(format, n)| ==> Indent(format, n)[i] == TAB
  {
  }

  lemma {:induction false} RenderedIsText(v: Value, format: bool, depth: nat)
    requires Printable(v)
    ensures Render(v, format, depth) == TextBytes(PrintedText(v, format, depth))
    decreases v
  {
    hide NumeralText, JsonNumber.ValueInt, JsonNumber.IntText, SpelledAll, PrintedUnits, JsonEscapes.Escaped, ItemsBytes,
         MembersBytes, RenderItems, RenderMembers;
    match v
    case Null | True | False =>
    case Number(x) => PrintedIsNumeral(JsonNumber.ValueInt(x));
    case String(text) => PrintedIsToken(text);
    case Array(items) => ArrayRendered(items, format, depth);
    case Object(members) => ObjectRendered(members, format, depth);
  }

  lemma {:induction false} ArrayRendered(items: seq<Value>, format: bool, depth: nat)
    requires AllPrintable(items)
    ensures Render(Array(items), format, depth) == TextBytes(PrintedText(Array(items), format, depth))
    decreases items, 1
  {
    hide ItemsBytes, RenderItems, PrintedItems;
    ItemsRendered(items, format, depth + 1, []);
    assert [] + RenderItems(items, format, depth + 1) == RenderItems(items, format, depth + 1);
    if items == [] {
      NoItemsPrinted(format, depth + 1);
    }
  }

  lemma NoItemsPrinted(format: bool, depth: nat)
    ensures RenderItems([], format, depth) == [] && PrintedItems([], format, depth, []) == []
  {
  }

  lemma {:induction false} ItemsRendered(vs: seq<Value>, format: bool, depth: nat, before: seq<Byte>)
    requires AllPrintable(vs) && IsBlank(before)
    ensures vs != [] ==>
              ItemsBytes(PrintedItems(vs, format, depth, before)) == before + RenderItems(vs, format, depth)
    decreases vs, 0
  {
    if vs != [] {
      hide Render, PrintedText, TextBytes, IsText, Printable;
      var space: seq<Byte> := if format then [32] else [];
      var items := PrintedItems(vs, format, depth, before);
      assert items[0] == ItemText(before, PrintedText(vs[0], format, depth), []);
      assert items[1..] == PrintedItems(vs[1..], format, depth, space);
      RenderedIsText(vs[0], format, depth);
      ItemsRendered(vs[1..], format, depth, space);
      var first, rest := Render(vs[0], format, depth), RenderItems(vs[1..], format, depth);
      if |vs| == 1 {
        assert first + ([] + []) == first;
      } else {
        assert Separator(format) + rest == [44] + (space + rest);
        assert [] + ([44] + (space + rest)) == [44] + (space + rest);
      }
    }
  }

  lemma {:induction false} ObjectRendered(members: seq<Member>, format: bool, depth: nat)
    requires MembersPrintable(members)
    ensures Render(Object(members), format, depth) == TextBytes(PrintedText(Object(members), format, depth))
    decreases members, 1
  {
    hide MembersBytes, RenderMembers, PrintedMembers;
    MembersRendered(members, format, depth + 1);
    var inner := RenderMembers(members, format, depth + 1);
    Regroup5([123], Newline(format), inner, Indent(format, depth), [125]);
    Regroup4(Newline(format), inner, Indent(format, depth), [125]);
    if members == [] {
      NoMembersPrinted(format, depth + 1);
      assert Newline(format) + [] + Indent(format, depth) == Line(format, depth);
    }
  }

  lemma NoMembersPrinted(format: bool, depth: nat)
    requires depth > 0
    ensures RenderMembers([], format, depth) == [] && PrintedMembers([], format, depth) == []
  {
  }

  lemma {:induction false} MemberRendered(m: Member, format: bool, depth: nat, after: seq<Byte>)
    requires IsCString(m.key) && Printable(m.value) && IsBlank(after)
    ensures var text := MemberText(Line(format, depth), PrintedUnits(m.key), [], if format then [9] else [],
                                   PrintedText(m.value, format, depth), after);
            MemberBytes(text) == Newline(format) + (RenderMember(m, format, depth) + after)
    decreases m
  {
    hide Render, PrintedText, TextBytes, IsText, Printable, SpelledAll, PrintedUnits, JsonEscapes.Quoted;
    RenderedIsText(m.value, format, depth);
    PrintedIsToken(m.key);
    var key, value := JsonEscapes.Quoted(m.key), Render(m.value, format, depth);
    var tab: seq<Byte> := if format then [9] else [];
    assert Line(format, depth) == Newline(format) + Indent(format, depth);
    assert KeyEnd(format) == [58] + tab;
    Regroup5(Indent(format, depth), key, KeyEnd(format), value, after);
    Regroup3([58], tab, value + after);
    Regroup3(Newline(format), Indent(format, depth), key + (KeyEnd(format) + (value + after)));
    assert [] + ([58] + (tab + (value + after))) == [58] + (tab + (value + after));
  }

  lemma {:induction false} MembersRendered(ms: seq<Member>, format: bool, depth: nat)
    requires MembersPrintable(ms) && depth > 0
    ensures ms != [] ==>
              MembersBytes(PrintedMembers(ms, format, depth))
              == Newline(format) + RenderMembers(ms, format, depth) + Indent(format, depth - 1)
    decreases ms, 0
  {
    if ms != [] {
      hide MemberBytes, RenderMember, PrintedText, IsText, Printable, Line, Newline, Indent;
      var m, members := ms[0], PrintedMembers(ms, format, depth);
      var after := if |ms| == 1 then Line(format, depth - 1) else [];
      MemberRendered(m, format, depth, after);
      assert members[1..] == PrintedMembers(ms[1..], format, depth);
      MembersRendered(ms[1..], format, depth);
      var first, close := RenderMember(m, format, depth), Indent(format, depth - 1);
      if |ms| == 1 {
        LineSplits(format, depth - 1);
        NoMembersPrinted(format, depth);
        assert ms[1..] == [];
        LastMember(Newline(format), first, close);
      } else {
        NextMember(Newline(format), first, RenderMembers(ms[1..], format, depth), close);
      }
    }
  }

  lemma LineSplits(format: bool, depth: nat)
    ensures Line(format, depth) == Newline(format) + Indent(format, depth)
  {
  }

  lemma LastMember(newline: seq<Byte>, first: seq<Byte>, close: seq<Byte>)
    ensures newline + (first + (newline + close)) + [] == newline + (first + ([] + newline) + []) + close
  {
    Regroup3(first, newline, close);
    Regroup3(newline, first + newline, close);
    assert [] + newline == newline;
  }

  lemma NextMember(newline: seq<Byte>, first: seq<Byte>, rest: seq<Byte>, close: seq<Byte>)
    ensures newline + (first + []) + ([44] + (newline + rest + close)) == newline + (first + ([44] + newline) + rest) + close
  {
    assert first + [] == first;
    Regroup4([44], newline, rest, close);
    Regroup3(newline, rest, close);
    Regroup3(newline, first, [44] + (newline + (rest + close)));
    Regroup5(first, [44], newline, rest, close);
    Regroup3(first, [44], newline);
    Regroup3(newline, first + ([44] + newline) + rest, close);
  }

  // ---- and means the value ----

  lemma {:induction false} PrintedMeaning(s: seq<Byte>)
    requires IsCString(s)
    ensures MeaningAll(PrintedUnits(s)) == s
  {
    hide Meaning;
    if s != [] {
      PrintedMeaning(s[1..]);
      var us := PrintedUnits(s);
      assert us[0] == PrintedUnit(s[0]) && us[1..] == PrintedUnits(s[1..]);
    }
  }

  lemma {:induction false} PrintedValue(v: Value, format: bool, depth: nat)
    requires Printable(v)
    ensures TextValue(PrintedText(v, format, depth)) == v
    decreases v
  {
    hide NumeralValue, JsonNumber.ValueInt, MeaningAll, PrintedUnits, ItemValues, MemberValues, PrintedItems, PrintedMembers,
         CString;
    match v
    case Null | True | False =>
    case Number(x) => PrintedIsNumeral(JsonNumber.ValueInt(x));
    case String(text) =>
      PrintedMeaning(text);
      NoNul(text);
    case Array(items) => ItemsValue(items, format, depth + 1, []);
    case Object(members) => MembersValue(members, format, depth + 1);
  }

  lemma {:induction false} ItemsValue(vs: seq<Value>, format: bool, depth: nat, before: seq<Byte>)
    requires AllPrintable(vs) && IsBlank(before)
    ensures ItemValues(PrintedItems(vs, format, depth, before)) == vs
    decreases vs
  {
    if vs != [] {
      hide PrintedText, TextValue, IsText, Printable;
      var space: seq<Byte> := if format then [32] else [];
      var items := PrintedItems(vs, format, depth, before);
      assert items[1..] == PrintedItems(vs[1..], format, depth, space);
      PrintedValue(vs[0], format, depth);
      ItemsValue(vs[1..], format, depth, space);
    }
  }

  lemma {:induction false} MembersValue(ms: seq<Member>, format: bool, depth: nat)
    requires MembersPrintable(ms) && depth > 0
    ensures MemberValues(PrintedMembers(ms, format, depth)) == ms
    decreases ms
  {
    if ms != [] {
      hide PrintedText, TextValue, IsText, Printable, MeaningAll, PrintedUnits, CString, Line;
      var members := PrintedMembers(ms, format, depth);
      assert members[1..] == PrintedMembers(ms[1..], format, depth);
      PrintedValue(ms[0].value, format, depth);
      PrintedMeaning(ms[0].key);
      NoNul(ms[0].key);
      MembersValue(ms[1..], format, depth);
    }
  }

  // ---- the round trip ----

  /** The text that may follow a value: it must not look like more of a number. */
  predicate Follows(t: seq<Byte>) {
    t != [] && !JsonNumber.InNumber(t[0])
  }

  /** What parsing a printed value at a depth comes to. */
  function Reads<T>(x: T, nesting: nat, t: seq<Byte>, depth: nat): Option<Parsed<T>> {
    if depth + nesting <= NESTING_LIMIT then Some(Parsed(x, t)) else None
  }

  /** A printed value, formatted or not, reads back as itself, and what follows it is left alone; this fails exactly when
      the value is nested too deep for the depth it starts at. */
  lemma ParseRendered(v: Value, format: bool, level: nat, t: seq<Byte>, depth: nat)
    requires Printable(v) && Follows(t) && depth <= NESTING_LIMIT
    ensures ParseValue(Render(v, format, level) + t, depth) == Reads(v, Nesting(v), t, depth)
  {
    hide ParseValue, Render, TextBytes, TextValue, PrintedText, Nesting;
    RenderedIsText(v, format, level);
    PrintedValue(v, format, level);
    TextIsRead(PrintedText(v, format, level), t, depth);
  }

  lemma RenderStarts(v: Value, format: bool, level: nat)
    ensures var s := Render(v, format, level); s != [] && 32 < s[0] < 128 && s[0] != RIGHT_BRACKET
  {
  }

  // ---- whole buffers ----

  /** The JSON round trip: the printed text of a tree, with its terminator, parses to the same tree, formatted or not,
      exactly when the tree is nested at most as deep as the limit. */
  lemma BufferRoundTrip(v: Value, format: bool, terminated: bool)
    requires Printable(v)
    ensures ParseWhole(Render(v, format, 0) + [0], terminated) == if Nesting(v) <= 1000 then Some(v) else None
  {
    hide ParseValue, Render, Nesting, Printable;
    var s := Render(v, format, 0) + [0];
    RenderStarts(v, format, 0);
    assert |s| > 4 ==> s[..3][0] == s[0];
    assert !StartsWith(s, BYTE_ORDER_MARK);
    NoBlank(s);
    ParseRendered(v, format, 0, [0], 0);
  }

  // ---- parsed trees ----

  /** No number of the tree needs more than an integer's text. */
  predicate OnlyInts(v: Value) {
    match v
    case Number(x) => JsonNumber.IsIntRange(x)
    case Array(items) => ItemsOnlyInts(items)
    case Object(members) => MembersOnlyInts(members)
    case _ => true
  }

  predicate ItemsOnlyInts(vs: seq<Value>) {
    vs == [] || (OnlyInts(vs[0]) && ItemsOnlyInts(vs[1..]))
  }

  predicate MembersOnlyInts(ms: seq<Member>) {
    ms == [] || (OnlyInts(ms[0].value) && MembersOnlyInts(ms[1..]))
  }

  lemma ParsedText(s: seq<Byte>)
    ensures match JsonString.Parse(s) case None => true case Some(r) => IsCString(r.0)
  {
    hide JsonString.ClosingQuote, JsonString.Decode;
  }

  predicate OnlyCStrings(v: Value) {
    match v
    case String(text) => IsCString(text)
    case Array(items) => ItemsOnlyCStrings(items)
    case Object(members) => MembersOnlyCStrings(members)
    case _ => true
  }

  predicate ItemsOnlyCStrings(vs: seq<Value>) {
    vs == [] || (OnlyCStrings(vs[0]) && ItemsOnlyCStrings(vs[1..]))
  }

  predicate MembersOnlyCStrings(ms: seq<Member>) {
    ms == [] || (IsCString(ms[0].key) && OnlyCStrings(ms[0].value) && MembersOnlyCStrings(ms[1..]))
  }

  /** What can be printed: trees of C strings and integers. */
  lemma {:induction false} PrintableIff(v: Value)
    ensures Printable(v) <==> OnlyCStrings(v) && OnlyInts(v)
    decreases v, 1
  {
    match v
    case Array(items) => ItemsPrintableIff(items);
    case Object(members) => MembersPrintableIff(members);
    case _ =>
  }

  lemma {:induction false} ItemsPrintableIff(vs: seq<Value>)
    ensures AllPrintable(vs) <==> ItemsOnlyCStrings(vs) && ItemsOnlyInts(vs)
    decreases vs, 0
  {
    hide Printable, OnlyCStrings, OnlyInts;
    if vs != [] {
      PrintableIff(vs[0]);
      ItemsPrintableIff(vs[1..]);
    }
  }

  lemma {:induction false} MembersPrintableIff(ms: seq<Member>)
    ensures MembersPrintable(ms) <==> MembersOnlyCStrings(ms) && MembersOnlyInts(ms)
    decreases ms, 0
  {
    hide Printable, OnlyCStrings, OnlyInts;
    if ms != [] {
      PrintableIff(ms[0].value);
      MembersPrintableIff(ms[1..]);
    }
  }

  /** Whatever the parser accepts stays within the nesting limit and holds C strings only. */
  lemma {:induction false} ParsedValue(s: seq<Byte>, depth: nat)
    requires depth <= NESTING_LIMIT && ParseValue(s, depth).Some?
    ensures var v := ParseValue(s, depth).value.value;
            depth + Nesting(v) <= NESTING_LIMIT && OnlyCStrings(v)
    decreases |s|, 2
  {
    hide JsonString.Parse, JsonNumber.Parse, ParseArray, ParseObject, JsonNumber.IsIntRange;
    var v := ParseValue(s, depth).value.value;
    if StartsWith(s, NULL_TEXT) || StartsWith(s, FALSE_TEXT) || StartsWith(s, TRUE_TEXT) {
    } else if s[0] == JsonString.QUOTE {
      ParsedText(s);
    } else if s[0] == JsonNumber.MINUS || 48 <= s[0] <= 57 {
    } else if s[0] == LEFT_BRACKET {
      ParsedArray(s, depth);
    } else {
      ParsedObject(s, depth);
    }
  }

  lemma {:induction false} ParsedArray(s: seq<Byte>, depth: nat)
    requires depth <= NESTING_LIMIT && s != [] && ParseArray(s, depth).Some?
    ensures var v := ParseArray(s, depth).value.value;
            depth + Nesting(v) <= NESTING_LIMIT && OnlyCStrings(v)
    decreases |s|, 1
  {
    hide ParseItems, SkipSpace;
    var t := SkipSpace(s[1..]);
    if t[0] != RIGHT_BRACKET {
      ParsedItems(t, depth + 1);
    }
  }

  lemma {:induction false} ParsedItems(s: seq<Byte>, depth: nat)
    requires depth <= NESTING_LIMIT && ParseItems(s, depth).Some?
    ensures var vs := ParseItems(s, depth).value.value;
            depth + ItemsNesting(vs) <= NESTING_LIMIT && ItemsOnlyCStrings(vs)
    decreases |s|, 3
  {
    hide ParseValue, SkipSpace, Nesting, OnlyCStrings;
    ParsedValue(SkipSpace(s), depth);
    var first := ParseValue(SkipSpace(s), depth).value;
    var t := SkipSpace(first.rest);
    var vs := ParseItems(s, depth).value.value;
    assert vs[0] == first.value;
    if t[0] == COMMA {
      ParsedItems(t[1..], depth);
      assert vs[1..] == ParseItems(t[1..], depth).value.value;
    } else {
      assert vs[1..] == [];
    }
  }

  lemma {:induction false} ParsedObject(s: seq<Byte>, depth: nat)
    requires depth <= NESTING_LIMIT && s != [] && ParseObject(s, depth).Some?
    ensures var v := ParseObject(s, depth).value.value;
            depth + Nesting(v) <= NESTING_LIMIT && OnlyCStrings(v)
    decreases |s|, 1
  {
    hide ParseMembers, SkipSpace;
    var t := SkipSpace(s[1..]);
    if t[0] != RIGHT_BRACE {
      ParsedMembers(t, depth + 1);
    }
  }

  lemma {:induction false} ParsedMember(s: seq<Byte>, depth: nat)
    requires depth <= NESTING_LIMIT && ParseMember(s, depth).Some?
    ensures var m := ParseMember(s, depth).value.value;
            depth + Nesting(m.value) <= NESTING_LIMIT && IsCString(m.key) && OnlyCStrings(m.value)
    decreases |s|, 3
  {
    hide ParseValue, SkipSpace, Nesting, OnlyCStrings, JsonString.Parse;
    ParsedText(SkipSpace(s));
    ParsedValue(SkipSpace(SkipSpace(JsonString.Parse(SkipSpace(s)).value.1)[1..]), depth);
  }

  lemma {:induction false} ParsedMembers(s: seq<Byte>, depth: nat)
    requires depth <= NESTING_LIMIT && ParseMembers(s, depth).Some?
    ensures var ms := ParseMembers(s, depth).value.value;
            depth + MembersNesting(ms) <= NESTING_LIMIT && MembersOnlyCStrings(ms)
    decreases |s|, 4
  {
    hide ParseMember, SkipSpace, Nesting, OnlyCStrings, IsCString;
    ParsedMember(s, depth);
    var first := ParseMember(s, depth).value;
    var t := SkipSpace(first.rest);
    var ms := ParseMembers(s, depth).value.value;
    assert ms[0] == first.value;
    if t[0] == COMMA {
      ParsedMembers(t[1..], depth);
      assert ms[1..] == ParseMembers(t[1..], depth).value.value;
    } else {
      assert ms[1..] == [];
    }
  }

  /** Whatever text a tree came from, printing it and parsing it again gives the same tree. */
  lemma Reprint(content: seq<Byte>, q: bool, v: Value, format: bool, terminated: bool)
    requires ParseWhole(content, q) == Some(v) && OnlyInts(v)
    ensures ParseWhole(Render(v, format, 0) + [0], terminated) == Some(v)
  {
    hide ParseValue, Render, Nesting, Printable, OnlyInts, OnlyCStrings;
    ParsedValue(SkipSpace(SkipByteOrderMark(content)), 0);
    PrintableIff(v);
    BufferRoundTrip(v, format, terminated);
  }

  // ---- printed text is a C string ----

  lemma {:induction false} RenderIsCString(v: Value, format: bool, level: nat)
    ensures IsCString(Render(v, format, level))
    decreases v, 1
  {
    hide RenderItems, RenderMembers, JsonEscapes.Escaped;
    match v
    case Null | True | False =>
    case Number(x) =>
    case String(text) => QuotedIsCString(text);
    case Array(items) => ItemsAreCString(items, format, level + 1);
    case Object(members) => MembersAreCString(members, format, level + 1);
  }

  lemma QuotedIsCString(text: seq<Byte>)
    ensures IsCString(JsonEscapes.Quoted(text))
  {
    JsonEscapes.EscapedIsPrintable(text);
  }

  lemma {:induction false} ItemsAreCString(vs: seq<Value>, format: bool, level: nat)
    ensures IsCString(RenderItems(vs, format, level))
    decreases vs, 0
  {
    hide Render;
    if vs != [] {
      RenderIsCString(vs[0], format, level);
      ItemsAreCString(vs[1..], format, level);
    }
  }

  lemma MemberIsCString(m: Member, format: bool, level: nat)
    requires IsCString(Render(m.value, format, level))
    ensures IsCString(RenderMember(m, format, level))
  {
    hide Render, JsonEscapes.Quoted;
    QuotedIsCString(m.key);
    assert IsCString(Indent(format, level) + JsonEscapes.Quoted(m.key));
    assert IsCString(Indent(format, level) + JsonEscapes.Quoted(m.key) + KeyEnd(format));
  }

  lemma {:induction false} MembersAreCString(ms: seq<Member>, format: bool, level: nat)
    ensures IsCString(RenderMembers(ms, format, level))
    decreases ms, 0
  {
    hide Render, RenderMember, MemberEnd, Newline;
    if ms != [] {
      RenderIsCString(ms[0].value, format, level);
      MemberIsCString(ms[0], format, level);
      MembersAreCString(ms[1..], format, level);
      EndIsCString(|ms| == 1, format);
    }
  }

  lemma EndIsCString(last: bool, format: bool)
    ensures IsCString(MemberEnd(last, format))
  {
  }

  /** What a caller of the library sees: a printed text, handed back as a C string, gives the tree it was printed from. */
  lemma TextRoundTrip(v: Value, format: bool, terminated: bool, text: seq<Byte>)
    requires Printable(v) && Nesting(v) <= NESTING_LIMIT && text == Render(v, format, 0) + [0]
    ensures |CString(text)| < |text|
    ensures ParseWhole(CString(text) + [0], terminated) == Some(v)
  {
    hide ParseValue, Render, Nesting, Printable;
    RenderIsCString(v, format, 0);
    Terminated(Render(v, format, 0), []);
    NoNul(Render(v, format, 0));
    assert text == Render(v, format, 0) + [0] + [];
    BufferRoundTrip(v, format, terminated);
  }
}
