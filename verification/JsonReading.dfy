/**
 Reading documents: the parser takes every text of the grammar of `JsonDocument` as the value the
 document denotes, exactly up to the nesting limit. That it takes nothing else is in `JsonAccepted`.
 */
module JsonReading {
  import opened Bytes
  import opened JsonValue
  import opened JsonText
  import opened JsonGrammar
  import opened JsonDocument
  import JsonString

  // ------------------------------------------------------------ whitespace

  lemma {:induction false} SkipSpaceTo(s: Bytes, off: nat, e: nat)
    requires off <= e < |s| && s[e] > 32 && forall j :: off <= j < e ==> s[j] <= 32
    ensures SkipSpace(s, off) == e
    decreases e - off
  {
    if off < e {
      SkipSpaceTo(s, off + 1, e);
    }
  }

  lemma SkipBlank(s: Bytes, off: nat, t: Bytes)
    requires At(s, off, t) && Blank(t) && off + |t| < |s| && s[off + |t|] > 32
    ensures Skip(s, off) == off + |t|
  {
    forall j | off <= j < off + |t| ensures s[j] <= 32 { AtByte(s, off, t, j - off); }
    SkipSpaceTo(s, off, off + |t|);
  }

  lemma SkipNone(s: Bytes, off: nat)
    requires off < |s| && s[off] > 32
    ensures Skip(s, off) == off
  {
  }

  lemma SkipAgain(s: Bytes, off: nat)
    requires off <= |s|
    ensures Skip(s, Skip(s, off)) == Skip(s, off)
  {
  }

  // ------------------------------------------- how parse_value dispatches

  lemma NoLiteral(s: Bytes, off: nat)
    requires off < |s| && s[off] != 0x6E && s[off] != 0x66 && s[off] != 0x74
    ensures !At(s, off, NULL_TEXT) && !At(s, off, FALSE_TEXT) && !At(s, off, TRUE_TEXT)
  {
    if At(s, off, NULL_TEXT) { AtByte(s, off, NULL_TEXT, 0); }
    if At(s, off, FALSE_TEXT) { AtByte(s, off, FALSE_TEXT, 0); }
    if At(s, off, TRUE_TEXT) { AtByte(s, off, TRUE_TEXT, 0); }
  }

  lemma ValueLiteral(s: Bytes, off: nat, room: nat, d: Doc)
    requires (d.DNull? || d.DBool?) && At(s, off, Text(d))
    ensures ParseValue(s, off, room) == Ok(Value(d), off + |Text(d)|)
  {
    AtByte(s, off, Text(d), 0);
    if At(s, off, NULL_TEXT) { AtByte(s, off, NULL_TEXT, 0); }
    if At(s, off, FALSE_TEXT) { AtByte(s, off, FALSE_TEXT, 0); }
  }

  lemma ValueString(s: Bytes, off: nat, room: nat, t: Bytes, e: nat)
    requires Is(s, off, QUOTE) && JsonString.ParseString(s, off) == JsonString.Ok(t, e)
    ensures ParseValue(s, off, room) == Ok(JString(t), e)
  {
    NoLiteral(s, off);
  }

  lemma ValueNumber(s: Bytes, off: nat, room: nat, v: Json, e: nat)
    requires off < |s| && StartsNumber(s[off]) && ParseNumber(s, off) == Ok(v, e)
    ensures ParseValue(s, off, room) == Ok(v, e)
  {
    NoLiteral(s, off);
  }

  lemma ValueArray(s: Bytes, off: nat, room: nat, vs: seq<Json>, e: nat)
    requires Is(s, off, LBRACKET) && ParseArray(s, off, room) == Ok(vs, e)
    ensures ParseValue(s, off, room) == Ok(JArray(vs), e)
  {
    NoLiteral(s, off);
  }

  lemma ValueObject(s: Bytes, off: nat, room: nat, ms: seq<Member>, e: nat)
    requires Is(s, off, LBRACE) && ParseObject(s, off, room) == Ok(ms, e)
    ensures ParseValue(s, off, room) == Ok(JObject(ms), e)
  {
    NoLiteral(s, off);
  }

  // ----------------------------------------------------------------- arrays

  /** Every document starts with a byte that is neither blank nor a closing bracket. */
  lemma Head(d: Doc)
    requires WellFormed(d)
    ensures var t := Text(d); t != [] && t[0] > 32 && t[0] != RBRACKET && t[0] != 0xEF
  {
    if d.DNumber? { NumberBytes(d.n); }
    hide NumberText;
  }

  lemma SlotParts(x: Slot, t: Bytes, s: Bytes, off: nat, following: Bytes)
    requires WellFormedSlot(x) && t == Text(x.doc) && t != [] && At(s, off, SlotText(x) + following)
    ensures var p := off + |x.before|;
            var e := p + |t|;
            && p < |s| && s[p] == t[0] && At(s, off, x.before) && At(s, p, t)
            && At(s, e, x.after) && At(s, e + |x.after|, following) && e + |x.after| == off + |SlotText(x)|
  {
    hide Text, At, WellFormed, Blank;
    assert SlotText(x) + following == x.before + t + (x.after + following);
    AtSplit3(s, off, x.before, t, x.after + following);
    AtSplit(s, off + |x.before| + |t|, x.after, following);
    AtByte(s, off + |x.before|, t, 0);
  }

  /** Blanks and then a comma or a closing bracket end whatever stands before them. */
  lemma EndOfValue(s: Bytes, e: nat, after: Bytes, following: Bytes)
    requires Blank(after) && At(s, e, after) && At(s, e + |after|, following)
    requires following != [] && following[0] in {COMMA, RBRACKET, RBRACE}
    ensures Stop(s, e) && Skip(s, e) == e + |after| && Is(s, e + |after|, following[0])
  {
    AtByte(s, e + |after|, following, 0);
    if after != [] { AtByte(s, e, after, 0); }
    hide At, Skip;
    SkipBlank(s, e, after);
  }

  /** Past the blanks before a slot stands its document, and past those after it what follows. */
  lemma SlotReads(x: Slot, s: Bytes, off: nat, following: Bytes)
    requires WellFormedSlot(x) && At(s, off, SlotText(x) + following)
    requires following != [] && following[0] in {COMMA, RBRACKET, RBRACE}
    ensures var p := off + |x.before|;
            var e := p + |Text(x.doc)|;
            && off < |s| && Skip(s, off) == p && At(s, p, Text(x.doc)) && Stop(s, e)
            && Skip(s, e) == e + |x.after| == off + |SlotText(x)| && Is(s, e + |x.after|, following[0])
            && At(s, e + |x.after|, following) && s[p] == Text(x.doc)[0]
  {
    hide Text, At, WellFormed, Skip, SkipSpace, Stop, SlotText, Blank;
    var t := Text(x.doc);
    Head(x.doc);
    SlotParts(x, t, s, off, following);
    SkipBlank(s, off, x.before);
    EndOfValue(s, off + |x.before| + |t|, x.after, following);
  }

  /** What follows the first element up to the closing bracket. */
  function ItemsAfter(items: seq<Slot>): (t: Bytes)
    requires items != [] && AllSlots(items)
    ensures t != [] && t[0] in {COMMA, RBRACKET}
  {
    if |items| == 1 then [RBRACKET] else [COMMA] + (ItemsText(items[1..]) + [RBRACKET])
  }

  lemma ItemsCons(items: seq<Slot>)
    requires items != [] && AllSlots(items)
    ensures WellFormedSlot(items[0]) && AllSlots(items[1..])
    ensures ItemsText(items) + [RBRACKET] == SlotText(items[0]) + ItemsAfter(items)
    ensures Values(items) == [Value(items[0].doc)] + Values(items[1..])
    ensures NestItems(Values(items)) == Max(Nest(Value(items[0].doc)), NestItems(Values(items[1..])))
  {
    hide SlotText, Value, Nest, WellFormedSlot;
    assert Values(items)[1..] == Values(items[1..]);
  }

  /** The element loop reads the elements and ends after the bracket. */
  lemma {:induction false} ItemsParse(items: seq<Slot>, s: Bytes, off: nat, room: nat)
    requires items != [] && AllSlots(items) && NestItems(Values(items)) <= room
    requires At(s, off, ItemsText(items) + [RBRACKET])
    ensures off < |s| && ParseItems(s, off, room) == Ok(Values(items), off + |ItemsText(items)| + 1)
    decreases items, 0
  {
    hide ParseValue, ParseItems, ItemsText, Values, Text, Value, Skip, SkipSpace, At, WellFormed, Nest, NestItems;
    hide SlotText, Stop, AllSlots, Blank;
    var x, rest := items[0], items[1..];
    ItemsCons(items);
    SlotReads(x, s, off, ItemsAfter(items));
    var e := off + |x.before| + |Text(x.doc)|;
    DocParses(x.doc, s, off + |x.before|, room);
    ItemsTurn(s, off, room);
    if |items| == 1 {
      assert Values(items) == [Value(x.doc)];
    } else {
      AtSplit(s, e + |x.after|, [COMMA], ItemsText(rest) + [RBRACKET]);
      ItemsParse(rest, s, e + |x.after| + 1, room);
    }
  }

  lemma ItemsStart(items: seq<Slot>, s: Bytes, off: nat)
    requires items != [] && AllSlots(items) && At(s, off, ItemsText(items) + [RBRACKET])
    ensures off < |s| && s[Skip(s, off)] > 32 && s[Skip(s, off)] != RBRACKET
  {
    hide Text, At, WellFormed, Skip, SkipSpace, Stop, SlotText, ItemsText, AllSlots, Values, Nest, NestItems, Blank;
    ItemsCons(items);
    Head(items[0].doc);
    SlotReads(items[0], s, off, ItemsAfter(items));
  }

  lemma ArrayVia(s: Bytes, off: nat, room: nat, vs: seq<Json>, end: nat)
    requires off + 1 < |s| && room > 0 && s[Skip(s, off + 1)] > 32 && s[Skip(s, off + 1)] != RBRACKET
    requires ParseItems(s, off + 1, room - 1) == Ok(vs, end)
    ensures ParseArray(s, off, room) == Ok(vs, end)
  {
    SkipAgain(s, off + 1);
    hide ParseValue, Skip;
  }

  lemma EmptyArray(s: Bytes, off: nat, room: nat, inner: Bytes)
    requires room > 0 && Blank(inner) && At(s, off, [LBRACKET] + inner + [RBRACKET])
    ensures ParseArray(s, off, room) == Ok([], off + |inner| + 2)
  {
    hide At, Skip, SkipSpace, Blank, ParseItems;
    AtSplit3(s, off, [LBRACKET], inner, [RBRACKET]);
    AtByte(s, off + 1 + |inner|, [RBRACKET], 0);
    SkipBlank(s, off + 1, inner);
  }

  lemma {:induction false} ArrayParses(inner: Bytes, items: seq<Slot>, s: Bytes, off: nat, room: nat, body: Bytes)
    requires Blank(inner) && AllSlots(items) && 1 + NestItems(Values(items)) <= room
    requires body == ArrayBody(inner, items) && At(s, off, [LBRACKET] + body + [RBRACKET])
    ensures ParseValue(s, off, room) == Ok(JArray(Values(items)), off + |body| + 2)
    decreases items, 1
  {
    hide ParseValue, ParseArray, ParseItems, ItemsText, At, Skip, Blank, Values, AllSlots, NestItems;
    AtSplit3(s, off, [LBRACKET], body, [RBRACKET]);
    AtByte(s, off, [LBRACKET], 0);
    if items == [] {
      EmptyArray(s, off, room, inner);
      assert Values(items) == [];
    } else {
      ItemsStart(items, s, off + 1);
      ItemsParse(items, s, off + 1, room - 1);
      ArrayVia(s, off, room, Values(items), off + |body| + 2);
    }
    ValueArray(s, off, room, Values(items), off + |body| + 2);
  }

  // ---------------------------------------------------------------- objects

  lemma LiteralHead(s: Bytes, off: nat, l: JsonString.Literal)
    requires At(s, off, JsonString.LiteralText(l))
    ensures off < |s| && s[off] == QUOTE && |JsonString.LiteralText(l)| >= 2
  {
    AtByte(s, off, JsonString.LiteralText(l), 0);
  }

  lemma KeyVia(s: Bytes, off: nat, p: nat, key: Bytes, e: nat, colon: nat)
    requires off < |s| && Skip(s, off) == p && p < |s| && JsonString.ParseString(s, p) == JsonString.Ok(key, e)
    requires e <= |s| && Skip(s, e) == colon && Is(s, colon, COLON)
    ensures ParseKey(s, off) == Ok(key, colon + 1)
  {
    hide Skip, JsonString.ParseString;
  }

  lemma EntryShape(m: Entry, following: Bytes)
    requires WellFormedEntry(m)
    ensures EntryText(m) + following
            == m.lead + JsonString.LiteralText(m.key) + (m.gap + ([COLON] + (SlotText(m.slot) + following)))
  {
    hide SlotText, JsonString.LiteralText;
  }

  lemma EntrySplit(s: Bytes, off: nat, lead: Bytes, q: Bytes, gap: Bytes, after: Bytes)
    requires At(s, off, lead + q + (gap + ([COLON] + after)))
    ensures var p := off + |lead|;
            var c := p + |q| + |gap|;
            c < |s| && s[c] == COLON && At(s, off, lead) && At(s, p, q) && At(s, p + |q|, gap) && At(s, c + 1, after)
  {
    hide At;
    var p := off + |lead|;
    AtSplit3(s, off, lead, q, gap + ([COLON] + after));
    AtSplit(s, p + |q|, gap, [COLON] + after);
    AtSplit(s, p + |q| + |gap|, [COLON], after);
    AtByte(s, p + |q| + |gap|, [COLON], 0);
  }

  lemma EntryParts(m: Entry, s: Bytes, off: nat, following: Bytes)
    requires WellFormedEntry(m) && At(s, off, EntryText(m) + following)
    ensures JsonString.Readable(m.key) && Blank(m.lead) && Blank(m.gap) && WellFormedSlot(m.slot)
    ensures var q := JsonString.LiteralText(m.key);
            var p := off + |m.lead|;
            var c := p + |q| + |m.gap|;
            && p < c < |s| && s[p] == QUOTE && s[c] == COLON && Is(s, c, COLON)
            && At(s, off, m.lead) && At(s, p, q) && At(s, p + |q|, m.gap)
            && At(s, c + 1, SlotText(m.slot) + following) && c + 1 + |SlotText(m.slot)| == off + |EntryText(m)|
  {
    hide At, SlotText, JsonString.LiteralText, WellFormedSlot, JsonString.Readable, Blank;
    var q, after := JsonString.LiteralText(m.key), SlotText(m.slot) + following;
    EntryShape(m, following);
    EntrySplit(s, off, m.lead, q, m.gap, after);
    LiteralHead(s, off + |m.lead|, m.key);
  }

  /** Key, colon and the place of the value. */
  lemma EntryReads(m: Entry, s: Bytes, off: nat, following: Bytes)
    requires WellFormedEntry(m) && At(s, off, EntryText(m) + following)
    ensures off < |s| && Is(s, Skip(s, off), QUOTE)
    ensures var k := off + |m.lead| + |JsonString.LiteralText(m.key)| + |m.gap| + 1;
            && ParseKey(s, off) == Ok(JsonString.Denoted(m.key), k)
            && At(s, k, SlotText(m.slot) + following) && k + |SlotText(m.slot)| == off + |EntryText(m)|
  {
    hide At, Skip, SkipSpace, ParseKey, SlotText, EntryText, WellFormedEntry, WellFormedSlot, Blank;
    hide JsonString.LiteralText, JsonString.Denoted, JsonString.Readable, JsonString.ParseString;
    EntryParts(m, s, off, following);
    var p := off + |m.lead|;
    var e := p + |JsonString.LiteralText(m.key)|;
    SkipBlank(s, off, m.lead);
    SkipBlank(s, e, m.gap);
    JsonString.LiteralReads(s, p, m.key);
    KeyVia(s, off, p, JsonString.Denoted(m.key), e, e + |m.gap|);
  }

  /** What follows the first member up to the closing brace. */
  function MembersAfter(ms: seq<Entry>): (t: Bytes)
    requires ms != [] && AllEntries(ms)
    ensures t != [] && t[0] in {COMMA, RBRACE}
  {
    if |ms| == 1 then [RBRACE] else [COMMA] + (MembersText(ms[1..]) + [RBRACE])
  }

  lemma MembersCons(ms: seq<Entry>)
    requires ms != [] && AllEntries(ms)
    ensures WellFormedEntry(ms[0]) && AllEntries(ms[1..])
    ensures MembersText(ms) + [RBRACE] == EntryText(ms[0]) + MembersAfter(ms)
    ensures Members(ms) == [MemberOf(ms[0])] + Members(ms[1..])
    ensures NestMembers(Members(ms)) == Max(Nest(MemberOf(ms[0]).value), NestMembers(Members(ms[1..])))
  {
    hide EntryText, MemberOf, Nest, WellFormedEntry, Members, NestMembers;
    MemberValues(ms);
  }

  lemma MemberValues(ms: seq<Entry>)
    requires ms != [] && AllEntries(ms)
    ensures Members(ms) == [MemberOf(ms[0])] + Members(ms[1..])
    ensures NestMembers(Members(ms)) == Max(Nest(MemberOf(ms[0]).value), NestMembers(Members(ms[1..])))
  {
    hide MemberOf, Nest, WellFormedEntry;
    assert Members(ms)[1..] == Members(ms[1..]);
  }

  /** The member loop reads the members and ends after the brace. */
  lemma {:induction false} MembersParse(ms: seq<Entry>, s: Bytes, off: nat, room: nat)
    requires ms != [] && AllEntries(ms) && NestMembers(Members(ms)) <= room
    requires At(s, off, MembersText(ms) + [RBRACE])
    ensures off < |s| && ParseMembers(s, off, room) == Ok(Members(ms), off + |MembersText(ms)| + 1)
    decreases ms, 0
  {
    hide ParseValue, ParseMembers, ParseKey, MembersText, Members, Text, Value, Skip, SkipSpace, At, WellFormed;
    hide Nest, NestMembers, SlotText, EntryText, Stop, AllEntries, Blank, JsonString.LiteralText;
    hide JsonString.Readable, JsonString.Denoted;
    var m, rest := ms[0], ms[1..];
    var x := m.slot;
    MembersCons(ms);
    EntryReads(m, s, off, MembersAfter(ms));
    var key, k := JsonString.Denoted(m.key), off + |m.lead| + |JsonString.LiteralText(m.key)| + |m.gap| + 1;
    SlotReads(x, s, k, MembersAfter(ms));
    var e := k + |x.before| + |Text(x.doc)|;
    DocParses(x.doc, s, k + |x.before|, room);
    MembersTurn(s, off, room);
    if |ms| == 1 {
      assert Members(ms) == [Member(key, Value(x.doc))];
    } else {
      AtSplit(s, e + |x.after|, [COMMA], MembersText(rest) + [RBRACE]);
      MembersParse(rest, s, e + |x.after| + 1, room);
    }
  }

  lemma MembersStart(ms: seq<Entry>, s: Bytes, off: nat)
    requires ms != [] && AllEntries(ms) && At(s, off, MembersText(ms) + [RBRACE])
    ensures off < |s| && Is(s, Skip(s, off), QUOTE)
  {
    MembersCons(ms);
    hide At, EntryText, Skip, WellFormedEntry, JsonString.LiteralText, ParseKey, SlotText, MembersText, AllEntries;
    EntryReads(ms[0], s, off, MembersAfter(ms));
  }

  lemma KeyFromSkipped(s: Bytes, off: nat)
    requires off < |s|
    ensures ParseKey(s, Skip(s, off)) == ParseKey(s, off)
  {
    SkipAgain(s, off);
    hide JsonString.ParseString, Skip;
  }

  lemma SameKey(s: Bytes, a: nat, b: nat, room: nat)
    requires a <= |s| && b <= |s| && ParseKey(s, a) == ParseKey(s, b)
    ensures ParseMembers(s, a, room) == ParseMembers(s, b, room)
  {
    hide ParseValue, ParseKey, Skip;
  }

  lemma ObjectVia(s: Bytes, off: nat, room: nat, ms: seq<Member>, end: nat)
    requires off + 1 < |s| && room > 0 && Is(s, Skip(s, off + 1), QUOTE)
    requires ParseMembers(s, off + 1, room - 1) == Ok(ms, end)
    ensures ParseObject(s, off, room) == Ok(ms, end)
  {
    hide ParseKey, Skip;
    KeyFromSkipped(s, off + 1);
    SameKey(s, off + 1, Skip(s, off + 1), room - 1);
    hide ParseMembers;
  }

  lemma EmptyObject(s: Bytes, off: nat, room: nat, inner: Bytes)
    requires room > 0 && Blank(inner) && At(s, off, [LBRACE] + inner + [RBRACE])
    ensures ParseObject(s, off, room) == Ok([], off + |inner| + 2)
  {
    hide At, Skip, SkipSpace, Blank, ParseMembers;
    AtSplit3(s, off, [LBRACE], inner, [RBRACE]);
    AtByte(s, off + 1 + |inner|, [RBRACE], 0);
    SkipBlank(s, off + 1, inner);
  }

  lemma {:induction false} ObjectParses(inner: Bytes, ms: seq<Entry>, s: Bytes, off: nat, room: nat, body: Bytes)
    requires Blank(inner) && AllEntries(ms) && 1 + NestMembers(Members(ms)) <= room
    requires body == ObjectBody(inner, ms) && At(s, off, [LBRACE] + body + [RBRACE])
    ensures ParseValue(s, off, room) == Ok(JObject(Members(ms)), off + |body| + 2)
    decreases ms, 1
  {
    hide ParseValue, ParseObject, ParseMembers, MembersText, At, Skip, Blank, Members, AllEntries, NestMembers;
    AtSplit3(s, off, [LBRACE], body, [RBRACE]);
    AtByte(s, off, [LBRACE], 0);
    if ms == [] {
      EmptyObject(s, off, room, inner);
      assert Members(ms) == [];
    } else {
      MembersStart(ms, s, off + 1);
      MembersParse(ms, s, off + 1, room - 1);
      ObjectVia(s, off, room, Members(ms), off + |body| + 2);
    }
    ValueObject(s, off, room, Members(ms), off + |body| + 2);
  }

  // ------------------------------------------------------------ the theorem

  /** Wherever it stands, the text of a document parses to its value, and exactly the text is consumed. */
  lemma {:induction false} DocParses(d: Doc, s: Bytes, off: nat, room: nat)
    requires WellFormed(d) && Nest(Value(d)) <= room
    requires At(s, off, Text(d)) && Stop(s, off + |Text(d)|)
    ensures ParseValue(s, off, room) == Ok(Value(d), off + |Text(d)|)
    decreases d, 1
  {
    match d
    case DNull => ValueLiteral(s, off, room, d);
    case DBool(_) => ValueLiteral(s, off, room, d);
    case DNumber(n) =>
      NumberParses(n, s, off, Text(d));
      ValueNumber(s, off, room, Value(d), off + |Text(d)|);
    case DString(l) =>
      LiteralHead(s, off, l);
      JsonString.LiteralReads(s, off, l);
      ValueString(s, off, room, JsonString.Denoted(l), off + |Text(d)|);
    case DArray(inner, items) => ArrayParses(inner, items, s, off, room, ArrayBody(inner, items));
    case DObject(inner, ms) => ObjectParses(inner, ms, s, off, room, ObjectBody(inner, ms));
  }

  lemma AtAll(s: Bytes)
    ensures At(s, 0, s)
  {
  }

  /** The grammar is unambiguous: a text denotes one value, however it is read as a document. */
  lemma OneMeaning(d: Doc, e: Doc)
    requires WellFormed(d) && WellFormed(e) && Text(d) == Text(e)
    ensures Value(d) == Value(e)
  {
    hide Text, Value, ParseValue, WellFormed, Nest;
    var t := Text(d);
    var room := Max(Nest(Value(d)), Nest(Value(e)));
    AtAll(t);
    DocParses(d, t, 0, room);
    DocParses(e, t, 0, room);
  }

  const BOM: Bytes := [0xEF, 0xBB, 0xBF]

  /** A whole input: an optional byte order mark, and the document between blanks. A NUL is a blank. */
  function Input(bom: bool, lead: Bytes, d: Doc, trail: Bytes): Bytes
    requires WellFormed(d)
  {
    (if bom then BOM else []) + lead + (Text(d) + trail)
  }

  lemma InputParts(s: Bytes, mark: Bytes, lead: Bytes, t: Bytes, trail: Bytes)
    requires s == mark + lead + (t + trail) && t != [] && t[0] > 32
    ensures var off := |mark| + |lead|;
            && |s| == off + |t| + |trail| && s[off] > 32
            && At(s, |mark|, lead) && At(s, off, t) && At(s, off + |t|, trail)
  {
    hide At;
    AtAll(s);
    AtSplit3(s, 0, mark, lead, t + trail);
    AtSplit(s, |mark| + |lead|, t, trail);
    AtByte(s, |mark| + |lead|, t, 0);
  }

  /** The mark is skipped only where a fifth byte can be read. */
  lemma MarkSkipped(s: Bytes, bom: bool, lead: Bytes, t: Bytes, trail: Bytes)
    requires s == (if bom then BOM else []) + lead + (t + trail) && Blank(lead) && t != [] && t[0] != 0xEF
    ensures SkipBom(s) == if bom && |s| > 4 then 3 else 0
    ensures bom ==> s[0] == 0xEF
  {
    if bom {
      assert s[..3] == BOM;
    } else {
      assert s[0] == if lead != [] then lead[0] else t[0];
      if At(s, 0, BOM) { AtByte(s, 0, BOM, 0); }
    }
  }

  /** A byte order mark before a single byte is taken for the start of a value, which it is not. */
  lemma MarkRejected(s: Bytes, requireNul: bool)
    requires s != [] && s[0] == 0xEF && SkipBom(s) == 0
    ensures ParseText(s, requireNul) == Fail
  {
    SkipNone(s, 0);
    NoLiteral(s, 0);
    hide SkipBom, At, Skip;
  }

  lemma InputStart(bom: bool, lead: Bytes, d: Doc, trail: Bytes)
    requires WellFormed(d) && Blank(lead)
    ensures var s, off := Input(bom, lead, d, trail), (if bom then 3 else 0) + |lead|;
            && s != [] && (bom && |s| <= 4 ==> SkipBom(s) == 0 && s[0] == 0xEF)
            && (bom ==> |s| >= 4) && (!bom || |s| > 4 ==> Skip(s, SkipBom(s)) == off)
            && At(s, off, Text(d)) && At(s, off + |Text(d)|, trail) && |s| == off + |Text(d)| + |trail|
  {
    hide Text, WellFormed, Skip, SkipSpace, SkipBom, At, Blank;
    var s, mark := Input(bom, lead, d, trail), if bom then BOM else [];
    Head(d);
    InputParts(s, mark, lead, Text(d), trail);
    MarkSkipped(s, bom, lead, Text(d), trail);
    SkipBlank(s, |mark|, lead);
  }

  lemma SkipToEnd(s: Bytes, off: nat)
    requires off < |s| && forall j :: off <= j < |s| ==> s[j] <= 32
    ensures Skip(s, off) == |s| - 1
  {
    assert SkipSpace(s, off) == |s|;
  }

  /** The blanks after the value end with a NUL. */
  predicate Terminated(trail: Bytes) { trail != [] && trail[|trail| - 1] == 0 }

  /** Only blanks follow the value: the closing scan finds a NUL exactly when the last of them is one. */
  lemma InputEnd(s: Bytes, e: nat, trail: Bytes)
    requires Blank(trail) && At(s, e, trail) && |s| == e + |trail|
    ensures Stop(s, e) && (Is(s, Skip(s, e), 0) <==> Terminated(trail)) && (Terminated(trail) ==> Skip(s, e) == |s| - 1)
  {
    forall j | e <= j < |s| ensures s[j] <= 32 { AtByte(s, e, trail, j - e); }
    if trail != [] {
      AtByte(s, e, trail, |trail| - 1);
      SkipToEnd(s, e);
    }
  }

  lemma TextVia(s: Bytes, off: nat, requireNul: bool)
    requires s != [] && Skip(s, SkipBom(s)) == off
    ensures var r := ParseValue(s, off, NESTING_LIMIT);
            && (r.Fail? ==> ParseText(s, requireNul) == Fail)
            && (r.Ok? && !requireNul ==> ParseText(s, requireNul) == r)
            && (r.Ok? && requireNul ==>
                  ParseText(s, requireNul) == if Is(s, Skip(s, r.end), 0) then Ok(r.value, Skip(s, r.end)) else Fail)
  {
    hide ParseValue, Skip, SkipBom;
  }

  lemma TooDeep(s: Bytes, off: nat, v: Json, e: nat)
    requires off <= |s| && Nest(v) > NESTING_LIMIT && ParseValue(s, off, Nest(v)) == Ok(v, e)
    ensures ParseValue(s, off, NESTING_LIMIT) == Fail
  {
    hide ParseValue, Nest;
    if ParseValue(s, off, NESTING_LIMIT).Ok? {
      MoreRoom(s, off, NESTING_LIMIT, Nest(v));
      NestWithinRoom(s, off, NESTING_LIMIT);
      assert false;
    }
  }

  /**
   What becomes of a document between blanks. It is rejected when it is nested more than
   CJSON_NESTING_LIMIT deep, when a terminating NUL is required and the buffer does not end in one, or
   when a byte order mark and the document make just four bytes; otherwise its value is returned.
   */
  lemma DocumentParses(bom: bool, lead: Bytes, d: Doc, trail: Bytes, requireNul: bool)
    requires WellFormed(d) && Blank(lead) && Blank(trail)
    ensures var s := Input(bom, lead, d, trail);
            var r := ParseText(s, requireNul);
            if Nest(Value(d)) > NESTING_LIMIT || (requireNul && !Terminated(trail)) || (bom && |s| == 4) then r == Fail
            else r == Ok(Value(d), |s| - if requireNul then 1 else |trail|)
  {
    hide Text, Value, ParseValue, ParseText, Skip, SkipSpace, SkipBom, WellFormed, At, Nest, Input, Blank, Stop;
    hide Terminated;
    var s, off := Input(bom, lead, d, trail), (if bom then 3 else 0) + |lead|;
    var v, e := Value(d), off + |Text(d)|;
    Head(d);
    InputStart(bom, lead, d, trail);
    InputEnd(s, e, trail);
    if bom && |s| <= 4 {
      MarkRejected(s, requireNul);
    } else {
      TextVia(s, off, requireNul);
      if Nest(v) <= NESTING_LIMIT {
        DocParses(d, s, off, NESTING_LIMIT);
      } else {
        DocParses(d, s, off, Nest(v));
        TooDeep(s, off, v, e);
      }
    }
  }
}
