/** The texts of RFC 8259, white space included, spelled out in literals, and the values that they are read as. */
module JsonGrammar {
  import opened Bytes
  import opened CStrings
  import opened Json
  import opened StringGrammar
  import opened NumberGrammar
  import JsonString
  import JsonNumber

  /** A text by its structure. `before` and `after` are the white space around an item or a member, `inside` is that of an
      empty list, `behindKey` and `behindColon` that around the colon. */
  datatype Text =
    | NullText
    | TrueText
    | FalseText
    | NumberText(number: Numeral)
    | StringText(units: seq<Unit>)
    | ArrayText(items: seq<ItemText>, inside: seq<Byte>)
    | ObjectText(members: seq<MemberText>, inside: seq<Byte>)

  datatype ItemText = ItemText(before: seq<Byte>, text: Text, after: seq<Byte>)

  datatype MemberText = MemberText(before: seq<Byte>, key: seq<Unit>, behindKey: seq<Byte>, behindColon: seq<Byte>,
                                   text: Text, after: seq<Byte>)

  /** White space. RFC 8259 has tabs, line ends and spaces; cJSON takes every byte up to the space. */
  predicate IsBlank(s: seq<Byte>) {
    forall i :: 0 <= i < |s| ==> s[i] <= 32
  }

  predicate IsText(x: Text) {
    match x
    case NumberText(n) => IsNumeral(n) && (n.negative || n.whole != [])
    case StringText(us) => AreUnits(us)
    case ArrayText(items, inside) => AreItems(items) && IsBlank(inside)
    case ObjectText(members, inside) => AreMembers(members) && IsBlank(inside)
    case _ => true
  }

  predicate AreItems(items: seq<ItemText>) {
    items == [] || (IsBlank(items[0].before) && IsText(items[0].text) && IsBlank(items[0].after) && AreItems(items[1..]))
  }

  predicate IsMember(m: MemberText) {
    && IsBlank(m.before) && AreUnits(m.key) && IsBlank(m.behindKey) && IsBlank(m.behindColon)
    && IsText(m.text) && IsBlank(m.after)
  }

  predicate AreMembers(members: seq<MemberText>) {
    members == [] || (IsMember(members[0]) && AreMembers(members[1..]))
  }

  // ---- the bytes ----

  function StringBytes(us: seq<Unit>): seq<Byte>
    requires AreUnits(us)
  {
    [34] + SpelledAll(us) + [34]
  }

  function TextBytes(x: Text): (s: seq<Byte>)
    requires IsText(x)
    decreases x, 0
  {
    match x
    case NullText => [110, 117, 108, 108]
    case TrueText => [116, 114, 117, 101]
    case FalseText => [102, 97, 108, 115, 101]
    case NumberText(n) => NumeralText(n)
    case StringText(us) => StringBytes(us)
    case ArrayText(items, inside) => [91] + (if items == [] then inside else ItemsBytes(items)) + [93]
    case ObjectText(members, inside) => [123] + (if members == [] then inside else MembersBytes(members)) + [125]
  }

  function ItemsBytes(items: seq<ItemText>): seq<Byte>
    requires AreItems(items)
    decreases items, 1
  {
    if items == [] then []
    else
      items[0].before + (TextBytes(items[0].text) + (items[0].after
      + (if |items| == 1 then [] else [44] + ItemsBytes(items[1..]))))
  }

  function MemberBytes(m: MemberText): seq<Byte>
    requires IsMember(m)
    decreases m, 1
  {
    m.before + (StringBytes(m.key) + (m.behindKey + ([58] + (m.behindColon + (TextBytes(m.text) + m.after)))))
  }

  function MembersBytes(members: seq<MemberText>): seq<Byte>
    requires AreMembers(members)
    decreases members, 1
  {
    if members == [] then []
    else MemberBytes(members[0]) + (if |members| == 1 then [] else [44] + MembersBytes(members[1..]))
  }

  // ---- the value ----

  function TextValue(x: Text): (v: Value)
    requires IsText(x)
  {
    match x
    case NullText => Null
    case TrueText => True
    case FalseText => False
    case NumberText(n) => Number(NumeralValue(n))
    case StringText(us) => String(CString(MeaningAll(us)))
    case ArrayText(items, _) => Array(ItemValues(items))
    case ObjectText(members, _) => Object(MemberValues(members))
  }

  function ItemValues(items: seq<ItemText>): (vs: seq<Value>)
    requires AreItems(items)
    ensures |vs| == |items|
  {
    if items == [] then [] else [TextValue(items[0].text)] + ItemValues(items[1..])
  }

  function MemberValue(m: MemberText): Member
    requires IsMember(m)
  {
    Member(CString(MeaningAll(m.key)), TextValue(m.text))
  }

  function MemberValues(members: seq<MemberText>): (ms: seq<Member>)
    requires AreMembers(members)
    ensures |ms| == |members|
  {
    if members == [] then [] else [MemberValue(members[0])] + MemberValues(members[1..])
  }

  // ---- what the parser does with white space and first bytes ----

  lemma {:induction false} SkipBlank(blank: seq<Byte>, s: seq<Byte>)
    requires (forall i :: 0 <= i < |blank| ==> blank[i] <= 32) && s != [] && s[0] > 32
    ensures SkipSpace(blank + s) == s
  {
    if blank == [] {
      assert blank + s == s;
    } else {
      SkipBlank(blank[1..], s);
      assert (blank + s)[1..] == blank[1..] + s;
    }
  }

  lemma NoBlank(s: seq<Byte>)
    requires s != [] && s[0] > 32
    ensures SkipSpace(s) == s
  {
  }

  lemma NotAWord(s: seq<Byte>)
    requires s != [] && s[0] != 110 && s[0] != 116 && s[0] != 102
    ensures !StartsWith(s, NULL_TEXT) && !StartsWith(s, TRUE_TEXT) && !StartsWith(s, FALSE_TEXT)
  {
    assert |s| >= 4 ==> s[..4][0] == s[0];
    assert |s| >= 5 ==> s[..5][0] == s[0];
  }

  lemma MembersDependOnSkipped(s: seq<Byte>, s': seq<Byte>, depth: nat)
    requires SkipSpace(s) == SkipSpace(s')
    ensures ParseMembers(s, depth) == ParseMembers(s', depth)
  {
    hide ParseValue, SkipSpace, JsonString.Parse;
    assert ParseMember(s, depth) == ParseMember(s', depth);
  }

  lemma BadMember(s: seq<Byte>, depth: nat)
    requires ParseMember(s, depth) == None
    ensures ParseMembers(s, depth) == None
  {
  }

  lemma TooDeep(s: seq<Byte>, depth: nat)
    requires depth >= NESTING_LIMIT && s != [] && (s[0] == LEFT_BRACKET || s[0] == LEFT_BRACE)
    ensures ParseValue(s, depth) == None
  {
    NotAWord(s);
  }

  // ---- reading ----

  /** What reading a text comes to: its value, unless more than 1000 arrays and objects are open at once. */
  function Result<T>(x: T, nesting: nat, t: seq<Byte>, depth: nat): Option<Parsed<T>> {
    if depth + nesting <= 1000 then Some(Parsed(x, t)) else None
  }

  lemma TextStarts(x: Text)
    requires IsText(x)
    ensures var s := TextBytes(x); s != [] && 32 < s[0] < 128 && s[0] != 93
  {
    hide ExponentBytes, SpelledAll, ItemsBytes, MembersBytes;
    if x.NumberText? {
      NumeralStarts(x.number);
    }
  }

  lemma NumeralStarts(n: Numeral)
    requires IsNumeral(n) && (n.negative || n.whole != [])
    ensures var s := NumeralText(n); s != [] && (s[0] == 45 || 48 <= s[0] <= 57)
  {
    hide ExponentBytes;
  }

  lemma BlankEnds(blank: seq<Byte>, s: seq<Byte>)
    requires IsBlank(blank) && Ends(s)
    ensures Ends(blank + s)
  {
    assert blank == [] ==> blank + s == s;
  }

  lemma WordIsRead(x: Text, t: seq<Byte>, depth: nat)
    requires x.NullText? || x.TrueText? || x.FalseText?
    ensures ParseValue(TextBytes(x) + t, depth) == Some(Parsed(TextValue(x), t))
  {
    var w := TextBytes(x);
    var s := w + t;
    assert s[|w|..] == t && s[..|w|] == w;
    assert |s| >= 4 ==> s[..4][0] == s[0];
    assert |s| >= 5 ==> s[..5][0] == s[0];
  }

  lemma NumberIsRead(n: Numeral, t: seq<Byte>, depth: nat)
    requires IsNumeral(n) && (n.negative || n.whole != []) && Ends(t)
    ensures ParseValue(NumeralText(n) + t, depth) == Some(Parsed(Number(NumeralValue(n)), t))
  {
    hide JsonNumber.Parse, NumeralText, NumeralValue, IsNumeral;
    NumeralStarts(n);
    NotAWord(NumeralText(n) + t);
    NumeralIsRead(n, t);
  }

  lemma StringIsRead(us: seq<Unit>, t: seq<Byte>, depth: nat)
    requires AreUnits(us)
    ensures ParseValue(StringBytes(us) + t, depth) == Some(Parsed(String(CString(MeaningAll(us))), t))
  {
    hide JsonString.Parse, SpelledAll, MeaningAll, CString;
    NotAWord(StringBytes(us) + t);
    TokenIsRead(us, t);
  }

  /** A text is read as its value, at any depth, and what follows is left alone, unless it is nested too deep. */
  lemma {:induction false} TextIsRead(x: Text, t: seq<Byte>, depth: nat)
    requires IsText(x) && Ends(t) && depth <= 1000
    ensures ParseValue(TextBytes(x) + t, depth) == Result(TextValue(x), Nesting(TextValue(x)), t, depth)
    decreases x, 0
  {
    hide ParseValue, NumeralText, NumeralValue, StringBytes, MeaningAll, ItemsBytes, MembersBytes, AreUnits, IsNumeral;
    match x
    case NullText | TrueText | FalseText => WordIsRead(x, t, depth);
    case NumberText(n) => NumberIsRead(n, t, depth);
    case StringText(us) => StringIsRead(us, t, depth);
    case ArrayText(items, inside) => ArrayIsRead(items, inside, t, depth);
    case ObjectText(members, inside) => ObjectIsRead(members, inside, t, depth);
  }

  // ---- arrays ----

  lemma ItemsDependOnSkipped(s: seq<Byte>, s': seq<Byte>, depth: nat)
    requires SkipSpace(s) == SkipSpace(s')
    ensures ParseItems(s, depth) == ParseItems(s', depth)
  {
    hide ParseValue, SkipSpace;
  }

  /** What a bracket and what is behind it are read as. */
  lemma BracketIsRead(inner: seq<Byte>, first: seq<Byte>, depth: nat)
    requires depth < 1000 && first != [] && first[0] > 32 && SkipSpace(inner) == first
    ensures ParseValue([91] + inner, depth)
         == if first[0] == 93 then Some(Parsed(Array([]), first[1..]))
            else match ParseItems(inner, depth + 1)
                 case None => None
                 case Some(r) => Some(Parsed(Array(r.value), r.rest))
  {
    hide ParseItems, SkipSpace;
    var s := [91] + inner;
    NotAWord(s);
    assert s[1..] == inner;
    NoBlank(first);
    ItemsDependOnSkipped(first, inner, depth + 1);
  }

  lemma ItemsFirst(items: seq<ItemText>, end: seq<Byte>)
    requires AreItems(items) && items != []
    ensures var x, rest := items[0], if |items| == 1 then end else [44] + (ItemsBytes(items[1..]) + end);
            ItemsBytes(items) + end == x.before + (TextBytes(x.text) + (x.after + rest))
  {
    hide TextBytes;
    var x, more := items[0], if |items| == 1 then [] else [44] + ItemsBytes(items[1..]);
    Behind(x.before, TextBytes(x.text), x.after, more, end);
    if |items| == 1 {
      assert more + end == end;
    } else {
      Regroup3([44], ItemsBytes(items[1..]), end);
    }
  }

  lemma Behind(a: seq<Byte>, b: seq<Byte>, c: seq<Byte>, d: seq<Byte>, end: seq<Byte>)
    ensures (a + (b + (c + d))) + end == a + (b + (c + (d + end)))
  {
    Regroup3(c, d, end);
    Regroup3(b, c + d, end);
    Regroup3(a, b + (c + d), end);
  }

  lemma {:induction false} ArrayIsRead(items: seq<ItemText>, inside: seq<Byte>, t: seq<Byte>, depth: nat)
    requires AreItems(items) && IsBlank(inside) && Ends(t) && depth <= 1000
    ensures var x := ArrayText(items, inside);
            ParseValue(TextBytes(x) + t, depth) == Result(TextValue(x), Nesting(TextValue(x)), t, depth)
    decreases items, 2
  {
    hide ParseValue, ParseItems, ItemsBytes, AreItems, IsBlank, SkipSpace;
    var x, end := ArrayText(items, inside), [93] + t;
    var inner := (if items == [] then inside else ItemsBytes(items)) + end;
    assert TextBytes(x) + t == [91] + inner;
    if depth >= 1000 {
      TooDeep([91] + inner, depth);
    } else if items == [] {
      BlankSkipped(inside, end);
      BracketIsRead(inner, end, depth);
      assert end[1..] == t;
    } else {
      var first := FirstItem(items, end);
      BracketIsRead(inner, first, depth);
      ItemsAreRead(items, t, depth + 1);
    }
  }

  lemma BlankSkipped(blank: seq<Byte>, s: seq<Byte>)
    requires IsBlank(blank) && s != [] && s[0] > 32
    ensures SkipSpace(blank + s) == s
  {
    SkipBlank(blank, s);
  }

  lemma FirstItem(items: seq<ItemText>, end: seq<Byte>) returns (first: seq<Byte>)
    requires AreItems(items) && items != []
    ensures first != [] && first[0] > 32 && first[0] != 93 && SkipSpace(ItemsBytes(items) + end) == first
  {
    hide TextBytes, ItemsBytes, SkipSpace;
    var x, rest := items[0], if |items| == 1 then end else [44] + (ItemsBytes(items[1..]) + end);
    ItemsFirst(items, end);
    TextStarts(x.text);
    first := TextBytes(x.text) + (x.after + rest);
    assert first[0] == TextBytes(x.text)[0];
    BlankSkipped(x.before, first);
  }

  /** One item, its white space, and what follows it. */
  lemma OneItem(before: seq<Byte>, value: seq<Byte>, v: Value, after: seq<Byte>, rest: seq<Byte>, depth: nat)
    requires IsBlank(before) && IsBlank(after) && value != [] && value[0] > 32 && rest != [] && rest[0] > 32
    requires ParseValue(value, depth) == Some(Parsed(v, after + rest))
    ensures ParseItems(before + value, depth)
         == if rest[0] == 44 then
              (match ParseItems(rest[1..], depth)
               case None => None
               case Some(more) => Some(Parsed([v] + more.value, more.rest)))
            else if rest[0] == 93 then Some(Parsed([v], rest[1..])) else None
  {
    hide ParseValue, SkipSpace;
    BlankSkipped(before, value);
    BlankSkipped(after, rest);
  }

  lemma OneValue(v: Value)
    ensures ItemsNesting([v]) == Nesting(v)
  {
    assert [v][1..] == [];
  }

  lemma BadFirstItem(before: seq<Byte>, value: seq<Byte>, depth: nat)
    requires IsBlank(before) && value != [] && value[0] > 32 && ParseValue(value, depth) == None
    ensures ParseItems(before + value, depth) == None
  {
    hide ParseValue, SkipSpace;
    BlankSkipped(before, value);
  }

  lemma {:induction false} ItemsAreRead(items: seq<ItemText>, t: seq<Byte>, depth: nat)
    requires AreItems(items) && items != [] && Ends(t) && depth <= 1000
    ensures ParseItems(ItemsBytes(items) + ([93] + t), depth)
         == Result(ItemValues(items), ItemsNesting(ItemValues(items)), t, depth)
    decreases items, 1
  {
    hide ParseValue, ParseItems, TextBytes, ItemsBytes, TextValue, Nesting, IsText, SkipSpace;
    var x, end := items[0], [93] + t;
    var rest := if |items| == 1 then end else [44] + (ItemsBytes(items[1..]) + end);
    var value := TextBytes(x.text) + (x.after + rest);
    ItemsFirst(items, end);
    TextStarts(x.text);
    assert value[0] == TextBytes(x.text)[0];
    BlankEnds(x.after, rest);
    TextIsRead(x.text, x.after + rest, depth);
    assert ItemValues(items)[0] == TextValue(x.text) && ItemValues(items)[1..] == ItemValues(items[1..]);
    if depth + Nesting(TextValue(x.text)) > 1000 {
      BadFirstItem(x.before, value, depth);
    } else {
      OneItem(x.before, value, TextValue(x.text), x.after, rest, depth);
      if |items| == 1 {
        assert items[1..] == [] && rest[1..] == t && ItemValues(items) == [TextValue(x.text)];
        OneValue(TextValue(x.text));
      } else {
        assert rest[1..] == ItemsBytes(items[1..]) + end;
        ItemsAreRead(items[1..], t, depth);
      }
    }
  }

  // ---- objects ----

  /** What a brace and what is behind it are read as. */
  lemma BraceIsRead(inner: seq<Byte>, first: seq<Byte>, depth: nat)
    requires depth < 1000 && first != [] && first[0] > 32 && SkipSpace(inner) == first
    ensures ParseValue([123] + inner, depth)
         == if first[0] == 125 then Some(Parsed(Object([]), first[1..]))
            else match ParseMembers(inner, depth + 1)
                 case None => None
                 case Some(r) => Some(Parsed(Object(r.value), r.rest))
  {
    hide ParseMembers, SkipSpace;
    var s := [123] + inner;
    NotAWord(s);
    assert s[1..] == inner;
    NoBlank(first);
    MembersDependOnSkipped(first, inner, depth + 1);
  }

  lemma MemberSplits(m: MemberText, rest: seq<Byte>)
    requires IsMember(m)
    ensures MemberBytes(m) + rest
         == m.before + (StringBytes(m.key) + (m.behindKey + ([58] + (m.behindColon + (TextBytes(m.text) + (m.after + rest))))))
  {
    hide StringBytes, TextBytes;
    var value := m.behindColon + (TextBytes(m.text) + m.after);
    Behind(m.before, StringBytes(m.key), m.behindKey, [58] + value, rest);
    Regroup3([58], value, rest);
    Regroup3(m.behindColon, TextBytes(m.text) + m.after, rest);
    Regroup3(TextBytes(m.text), m.after, rest);
  }

  lemma MembersFirst(ms: seq<MemberText>, end: seq<Byte>)
    requires AreMembers(ms) && ms != []
    ensures MembersBytes(ms) + end
         == MemberBytes(ms[0]) + if |ms| == 1 then end else [44] + (MembersBytes(ms[1..]) + end)
  {
    hide MemberBytes;
    if |ms| == 1 {
      assert MembersBytes(ms) == MemberBytes(ms[0]) + [];
      assert MemberBytes(ms[0]) + [] == MemberBytes(ms[0]);
    } else {
      Regroup3(MemberBytes(ms[0]), [44] + MembersBytes(ms[1..]), end);
      Regroup3([44], MembersBytes(ms[1..]), end);
    }
  }

  lemma {:induction false} ObjectIsRead(members: seq<MemberText>, inside: seq<Byte>, t: seq<Byte>, depth: nat)
    requires AreMembers(members) && IsBlank(inside) && Ends(t) && depth <= 1000
    ensures var x := ObjectText(members, inside);
            ParseValue(TextBytes(x) + t, depth) == Result(TextValue(x), Nesting(TextValue(x)), t, depth)
    decreases members, 4
  {
    hide ParseValue, ParseMembers, MembersBytes, AreMembers, IsBlank, SkipSpace;
    var x, end := ObjectText(members, inside), [125] + t;
    var inner := (if members == [] then inside else MembersBytes(members)) + end;
    assert TextBytes(x) + t == [123] + inner;
    if depth >= 1000 {
      TooDeep([123] + inner, depth);
    } else if members == [] {
      BlankSkipped(inside, end);
      BraceIsRead(inner, end, depth);
      assert end[1..] == t;
    } else {
      var first := FirstMember(members, end);
      BraceIsRead(inner, first, depth);
      MembersAreRead(members, t, depth + 1);
    }
  }

  lemma FirstMember(ms: seq<MemberText>, end: seq<Byte>) returns (first: seq<Byte>)
    requires AreMembers(ms) && ms != []
    ensures first != [] && first[0] == 34 && SkipSpace(MembersBytes(ms) + end) == first
  {
    hide TextBytes, MembersBytes, MemberBytes, SkipSpace, SpelledAll;
    var m, rest := ms[0], if |ms| == 1 then end else [44] + (MembersBytes(ms[1..]) + end);
    MembersFirst(ms, end);
    MemberSplits(m, rest);
    first := StringBytes(m.key) + (m.behindKey + ([58] + (m.behindColon + (TextBytes(m.text) + (m.after + rest)))));
    assert first[0] == StringBytes(m.key)[0];
    BlankSkipped(m.before, first);
  }

  /** A key, a colon and a value, with white space around the colon. */
  lemma KeyIsRead(m: MemberText, value: seq<Byte>, depth: nat)
    requires IsMember(m) && value != [] && value[0] > 32
    ensures ParseMember(m.before + (StringBytes(m.key) + (m.behindKey + ([58] + (m.behindColon + value)))), depth)
         == match ParseValue(value, depth)
            case None => None
            case Some(r) => Some(Parsed(Member(CString(MeaningAll(m.key)), r.value), r.rest))
  {
    hide ParseValue, SkipSpace, SpelledAll, MeaningAll, CString, JsonString.Parse, IsText, AreUnits;
    var behind := [58] + (m.behindColon + value);
    var key := StringBytes(m.key) + (m.behindKey + behind);
    assert key[0] == StringBytes(m.key)[0];
    BlankSkipped(m.before, key);
    TokenIsRead(m.key, m.behindKey + behind);
    BlankSkipped(m.behindKey, behind);
    assert behind[1..] == m.behindColon + value;
    BlankSkipped(m.behindColon, value);
  }

  lemma {:induction false} MemberIsRead(m: MemberText, rest: seq<Byte>, depth: nat)
    requires IsMember(m) && Ends(rest) && depth <= 1000
    ensures ParseMember(MemberBytes(m) + rest, depth)
         == Result(MemberValue(m), Nesting(MemberValue(m).value), m.after + rest, depth)
    decreases m, 3
  {
    hide ParseValue, ParseMember, TextBytes, TextValue, Nesting, IsText, AreUnits, StringBytes, MeaningAll;
    var value := TextBytes(m.text) + (m.after + rest);
    TextStarts(m.text);
    assert value[0] == TextBytes(m.text)[0];
    MemberSplits(m, rest);
    KeyIsRead(m, value, depth);
    BlankEnds(m.after, rest);
    TextIsRead(m.text, m.after + rest, depth);
  }

  lemma OneNamed(m: Member)
    ensures MembersNesting([m]) == Nesting(m.value)
  {
    assert [m][1..] == [];
  }

  lemma OneMember(s: seq<Byte>, m: Member, after: seq<Byte>, rest: seq<Byte>, depth: nat)
    requires IsBlank(after) && rest != [] && rest[0] > 32
    requires ParseMember(s, depth) == Some(Parsed(m, after + rest))
    ensures ParseMembers(s, depth)
         == if rest[0] == 44 then
              (match ParseMembers(rest[1..], depth)
               case None => None
               case Some(more) => Some(Parsed([m] + more.value, more.rest)))
            else if rest[0] == 125 then Some(Parsed([m], rest[1..])) else None
  {
    hide ParseMember, SkipSpace;
    BlankSkipped(after, rest);
  }

  lemma {:induction false} MembersAreRead(ms: seq<MemberText>, t: seq<Byte>, depth: nat)
    requires AreMembers(ms) && ms != [] && Ends(t) && depth <= 1000
    ensures ParseMembers(MembersBytes(ms) + ([125] + t), depth)
         == Result(MemberValues(ms), MembersNesting(MemberValues(ms)), t, depth)
    decreases ms, 3
  {
    hide ParseMember, ParseMembers, MemberBytes, MembersBytes, Nesting, SkipSpace, MemberValue;
    var m, end := ms[0], [125] + t;
    var rest := if |ms| == 1 then end else [44] + (MembersBytes(ms[1..]) + end);
    MembersFirst(ms, end);
    MemberIsRead(m, rest, depth);
    assert MemberValues(ms)[0] == MemberValue(m) && MemberValues(ms)[1..] == MemberValues(ms[1..]);
    if depth + Nesting(MemberValue(m).value) > 1000 {
      BadMember(MemberBytes(m) + rest, depth);
    } else {
      OneMember(MemberBytes(m) + rest, MemberValue(m), m.after, rest, depth);
      if |ms| == 1 {
        assert ms[1..] == [] && rest[1..] == t && MemberValues(ms) == [MemberValue(m)];
        OneNamed(MemberValue(m));
      } else {
        assert rest[1..] == MembersBytes(ms[1..]) + end;
        MembersAreRead(ms[1..], t, depth);
      }
    }
  }

  // ---- whole buffers ----

  /** A text with white space around it, with or without a byte order mark in front and with a NUL behind it, is read as
      its value, and refused exactly when it is nested more than 1000 deep. */
  lemma BufferIsRead(marked: bool, before: seq<Byte>, x: Text, after: seq<Byte>, terminated: bool)
    requires IsText(x) && IsBlank(before) && IsBlank(after)
    ensures var content := (if marked then [0xEF, 0xBB, 0xBF] else []) + (before + (TextBytes(x) + (after + [0])));
            ParseWhole(content, terminated) == if Nesting(TextValue(x)) <= 1000 then Some(TextValue(x)) else None
  {
    hide ParseValue, TextBytes, TextValue, Nesting, SkipSpace, IsText;
    var behind := after + [0];
    var text := TextBytes(x) + behind;
    var s := before + text;
    TextStarts(x);
    assert text[0] == TextBytes(x)[0];
    MarkIsSkipped(marked, s);
    BlankSkipped(before, text);
    assert IsBlank(after) && Ends([0]);
    BlankEnds(after, [0]);
    TextIsRead(x, behind, 0);
    LastIsKept(after);
  }

  lemma MarkIsSkipped(marked: bool, s: seq<Byte>)
    requires |s| >= 2 && s[0] < 128
    ensures SkipByteOrderMark((if marked then [0xEF, 0xBB, 0xBF] else []) + s) == s
  {
    assert marked ==> ([0xEF, 0xBB, 0xBF] + s)[..3] == [0xEF, 0xBB, 0xBF];
    assert [] + s == s;
    assert |s| >= 3 ==> s[..3][0] == s[0];
  }

  /** At the end of the buffer the last byte is not skipped, white space or not. */
  lemma {:induction false} LastIsKept(blank: seq<Byte>)
    requires IsBlank(blank)
    ensures SkipSpace(blank + [0]) == [0]
  {
    if blank == [] {
      assert blank + [0] == [0];
    } else {
      LastIsKept(blank[1..]);
      assert (blank + [0])[1..] == blank[1..] + [0];
    }
  }

  // ---- what is refused ----

  /** Only a quote, a minus sign or digit, a bracket, a brace and the three words begin a value. */
  lemma OtherStartsAreRefused(s: seq<Byte>, depth: nat)
    requires s != [] ==> s[0] != 34 && s[0] != 45 && s[0] != 91 && s[0] != 123 && !(48 <= s[0] <= 57)
    requires |s| >= 4 ==> s[..4] != [110, 117, 108, 108] && s[..4] != [116, 114, 117, 101]
    requires |s| >= 5 ==> s[..5] != [102, 97, 108, 115, 101]
    ensures ParseValue(s, depth) == None
  {
  }

  /** A key is a string, and a colon follows it. */
  lemma KeysNeedColons(us: seq<Unit>, blank: seq<Byte>, b: Byte, rest: seq<Byte>, depth: nat)
    requires AreUnits(us) && IsBlank(blank) && b > 32
    ensures b != 58 ==> ParseMember(StringBytes(us) + (blank + ([b] + rest)), depth) == None
    ensures b != 34 ==> ParseMember(blank + ([b] + rest), depth) == None
  {
    hide ParseValue, SkipSpace, JsonString.Decode, JsonString.ClosingQuote, SpelledAll, MeaningAll, CString;
    var behind := [b] + rest;
    BlankSkipped(blank, behind);
    var key := StringBytes(us) + (blank + behind);
    NoBlank(key);
    TokenIsRead(us, blank + behind);
  }

  /** Bytes behind the value are refused when the text has to end there, and are left alone otherwise. */
  lemma BytesBehindTheValue(x: Text, after: seq<Byte>, b: Byte, rest: seq<Byte>)
    requires IsText(x) && IsBlank(after) && b > 32 && Ends(after + ([b] + rest)) && Nesting(TextValue(x)) <= 1000
    ensures ParseWhole(TextBytes(x) + (after + ([b] + rest)), true) == None
    ensures ParseWhole(TextBytes(x) + (after + ([b] + rest)), false) == Some(TextValue(x))
  {
    hide ParseValue, TextBytes, TextValue, Nesting, SkipSpace, IsText;
    var behind := after + ([b] + rest);
    var s := TextBytes(x) + behind;
    TextStarts(x);
    assert s[0] == TextBytes(x)[0];
    MarkIsSkipped(false, s);
    assert [] + s == s;
    NoBlank(s);
    TextIsRead(x, behind, 0);
    BlankSkipped(after, [b] + rest);
  }
}
