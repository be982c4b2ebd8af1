/**
 The parser takes nothing but documents: whatever it accepts is the text of a document of the grammar
 of `JsonDocument`, and the value it returns is the one the document denotes. Together with
 `JsonReading` this says exactly which buffers are accepted, and as what.
 */
module JsonAccepted {
  import opened Bytes
  import opened JsonValue
  import opened JsonText
  import opened JsonGrammar
  import opened JsonDocument
  import opened JsonReading
  import JsonNumber
  import JsonString

  lemma AtSlice(s: Bytes, off: nat, e: nat, t: Bytes)
    requires off <= e <= |s| && At(s[off..e], 0, t)
    ensures At(s, off, t)
  {
    assert s[off..e][0..|t|] == s[off..off + |t|];
  }

  // ---------------------------------------------------------------- scalars

  lemma NumberAccepted(s: Bytes, off: nat) returns (n: Number)
    requires off < |s| && StartsNumber(s[off]) && ParseNumber(s, off).Ok?
    ensures WellFormedNumber(n) && At(s, off, NumberText(n))
    ensures ParseNumber(s, off) == Ok(JNumber(NumberValue(n)), off + |NumberText(n)|)
  {
    hide At, NumberText, NumberValue, WellFormedNumber, JsonNumber.StrToD;
    var e := JsonNumber.TokenEnd(s, off);
    assert e > off && s[off..e][0] == s[off];
    n := NumberTaken(s[off..e]);
    AtSlice(s, off, e, NumberText(n));
  }

  /** What `parse_value` dispatched to. */
  lemma Dispatched(s: Bytes, off: nat, room: nat)
    requires off <= |s| && ParseValue(s, off, room).Ok?
    ensures var r := ParseValue(s, off, room);
            || (At(s, off, NULL_TEXT) && r == Ok(JNull, off + 4))
            || (At(s, off, FALSE_TEXT) && r == Ok(JBool(false), off + 5))
            || (At(s, off, TRUE_TEXT) && r == Ok(JBool(true), off + 4))
            || (off < |s| &&
                (|| (s[off] == QUOTE && JsonString.ParseString(s, off).Ok?
                     && r == Ok(JString(JsonString.ParseString(s, off).text), JsonString.ParseString(s, off).end))
                 || (StartsNumber(s[off]) && ParseNumber(s, off).Ok? && r == ParseNumber(s, off))
                 || (s[off] == LBRACKET && ParseArray(s, off, room).Ok?
                     && r == Ok(JArray(ParseArray(s, off, room).value), ParseArray(s, off, room).end))
                 || (s[off] == LBRACE && ParseObject(s, off, room).Ok?
                     && r == Ok(JObject(ParseObject(s, off, room).value), ParseObject(s, off, room).end))))
  {
    hide At, JsonString.ParseString, ParseNumber, ParseArray, ParseObject;
  }

  /** Whatever `parse_value` accepts is a document. */
  lemma {:induction false} DocTaken(s: Bytes, off: nat, room: nat) returns (d: Doc)
    requires off <= |s| && ParseValue(s, off, room).Ok?
    ensures WellFormed(d) && At(s, off, Text(d))
    ensures ParseValue(s, off, room) == Ok(Value(d), off + |Text(d)|)
    decreases |s| - off, 1
  {
    hide At, ParseValue, JsonString.ParseString, ParseNumber, ParseArray, ParseObject;
    Dispatched(s, off, room);
    if At(s, off, NULL_TEXT) && ParseValue(s, off, room) == Ok(JNull, off + 4) {
      d := DNull;
    } else if At(s, off, FALSE_TEXT) && ParseValue(s, off, room) == Ok(JBool(false), off + 5) {
      d := DBool(false);
    } else if At(s, off, TRUE_TEXT) && ParseValue(s, off, room) == Ok(JBool(true), off + 4) {
      d := DBool(true);
    } else if s[off] == QUOTE {
      var l := JsonString.LiteralTaken(s, off);
      d := DString(l);
    } else if StartsNumber(s[off]) {
      var n := NumberAccepted(s, off);
      d := DNumber(n);
    } else if s[off] == LBRACKET {
      d := ArrayTaken(s, off, room);
    } else {
      d := ObjectTaken(s, off, room);
    }
  }

  // ------------------------------------------------------------- containers

  lemma GapBlank(s: Bytes, off: nat)
    requires off <= |s|
    ensures Skip(s, off) < |s| && s[Skip(s, off)] > 32 ==> Blank(s[off..Skip(s, off)])
  {
  }

  /** A document found at `q`, with the blanks from `off` and up to `p`. */
  lemma SlotMade(s: Bytes, off: nat, q: nat, d: Doc, e: nat, p: nat) returns (x: Slot)
    requires off <= q <= e <= p <= |s| && WellFormed(d) && At(s, q, Text(d)) && e == q + |Text(d)|
    requires Blank(s[off..q]) && Blank(s[e..p])
    ensures x == Slot(s[off..q], d, s[e..p]) && WellFormedSlot(x) && At(s, off, SlotText(x)) && off + |SlotText(x)| == p
  {
    hide Text, WellFormed, Blank;
    x := Slot(s[off..q], d, s[e..p]);
    assert SlotText(x) == s[off..p];
  }

  /** A value does not start with a blank. */
  lemma ValueHead(s: Bytes, off: nat, d: Doc)
    requires WellFormed(d) && At(s, off, Text(d))
    ensures off < |s| && s[off] > 32
  {
    hide Text, WellFormed;
    Head(d);
    AtByte(s, off, Text(d), 0);
  }

  lemma FirstItem(s: Bytes, off: nat, room: nat) returns (x: Slot)
    requires off <= |s| && ParseItems(s, off, room).Ok?
    ensures var v := ParseValue(s, Skip(s, off), room);
            && WellFormedSlot(x) && At(s, off, SlotText(x)) && v.Ok? && v.value == Value(x.doc)
            && off + |SlotText(x)| == Skip(s, v.end)
    decreases |s| - off, 2
  {
    hide At, Text, WellFormed, Value, ParseValue, ParseItems, Skip, SlotText, Blank;
    ItemsTurn(s, off, room);
    var q := Skip(s, off);
    var d := DocTaken(s, q, room);
    var e := q + |Text(d)|;
    ValueHead(s, q, d);
    GapBlank(s, off);
    GapBlank(s, e);
    x := SlotMade(s, off, q, d, e, Skip(s, e));
  }

  lemma OneItem(s: Bytes, off: nat, x: Slot)
    requires WellFormedSlot(x) && At(s, off, SlotText(x)) && Is(s, off + |SlotText(x)|, RBRACKET)
    ensures AllSlots([x]) && At(s, off, ItemsText([x]) + [RBRACKET]) && Values([x]) == [Value(x.doc)]
    ensures ItemsText([x]) == SlotText(x)
  {
    hide At, SlotText, WellFormedSlot, Value;
    AtOne(s, off + |SlotText(x)|);
    AtJoin(s, off, SlotText(x), [RBRACKET]);
    ItemsCons([x]);
    assert Values([x][1..]) == [];
  }

  lemma AtOne(s: Bytes, i: nat)
    requires i < |s|
    ensures At(s, i, [s[i]])
  {
  }

  lemma MoreItems(s: Bytes, off: nat, x: Slot, rest: seq<Slot>)
    requires WellFormedSlot(x) && At(s, off, SlotText(x)) && Is(s, off + |SlotText(x)|, COMMA)
    requires rest != [] && AllSlots(rest) && At(s, off + |SlotText(x)| + 1, ItemsText(rest) + [RBRACKET])
    ensures var xs := [x] + rest;
            && AllSlots(xs) && At(s, off, ItemsText(xs) + [RBRACKET]) && Values(xs) == [Value(x.doc)] + Values(rest)
            && |ItemsText(xs)| == |SlotText(x)| + 1 + |ItemsText(rest)|
  {
    hide At, SlotText, WellFormedSlot, Value, ItemsText, Values;
    var xs := [x] + rest;
    assert xs[1..] == rest;
    var c := off + |SlotText(x)|;
    AtOne(s, c);
    AtJoin(s, c, [COMMA], ItemsText(rest) + [RBRACKET]);
    AtJoin(s, off, SlotText(x), [COMMA] + (ItemsText(rest) + [RBRACKET]));
    ItemsCons(xs);
  }

  /** The elements the loop of `parse_array` accepted. */
  lemma {:induction false} ItemsTaken(s: Bytes, off: nat, room: nat) returns (xs: seq<Slot>)
    requires off <= |s| && ParseItems(s, off, room).Ok?
    ensures xs != [] && AllSlots(xs) && At(s, off, ItemsText(xs) + [RBRACKET])
    ensures ParseItems(s, off, room) == Ok(Values(xs), off + |ItemsText(xs)| + 1)
    decreases |s| - off, 3
  {
    hide At, ParseValue, ParseItems, Skip, SlotText, ItemsText, Values, AllSlots, WellFormedSlot, Value;
    ItemsTurn(s, off, room);
    var x := FirstItem(s, off, room);
    var p := off + |SlotText(x)|;
    if Is(s, p, RBRACKET) {
      OneItem(s, off, x);
      xs := [x];
    } else {
      var rest := ItemsTaken(s, p + 1, room);
      MoreItems(s, off, x, rest);
      xs := [x] + rest;
    }
  }

  lemma SameItems(s: Bytes, off: nat, room: nat)
    requires off <= |s|
    ensures ParseItems(s, Skip(s, off), room) == ParseItems(s, off, room)
  {
    hide ParseValue, ParseMembers, Skip;
    SkipAgain(s, off);
    ItemsFrom(s, off, Skip(s, off), room);
  }

  lemma ItemsFrom(s: Bytes, a: nat, b: nat, room: nat)
    requires a <= |s| && b <= |s| && Skip(s, a) == Skip(s, b)
    ensures ParseItems(s, a, room) == ParseItems(s, b, room)
  {
    hide ParseValue, ParseMembers, Skip;
  }

  lemma ArrayNeed(s: Bytes, off: nat, room: nat)
    requires off < |s| && ParseArray(s, off, room).Ok?
    ensures var p := Skip(s, off + 1);
            && room > 0
            && if Is(s, p, RBRACKET) then ParseArray(s, off, room) == Ok([], p + 1)
               else ParseItems(s, off + 1, room - 1).Ok? && ParseArray(s, off, room) == ParseItems(s, off + 1, room - 1)
  {
    SameItems(s, off + 1, if room > 0 then room - 1 else 0);
    hide ParseItems, Skip;
  }

  lemma ArrayMade(s: Bytes, off: nat, inner: Bytes, xs: seq<Slot>, body: Bytes)
    requires Is(s, off, LBRACKET) && Blank(inner) && AllSlots(xs) && body == ArrayBody(inner, xs)
             && At(s, off + 1, body + [RBRACKET])
    ensures var d := DArray(inner, xs);
            WellFormed(d) && At(s, off, Text(d)) && |Text(d)| == |body| + 2 && Value(d) == JArray(Values(xs))
  {
    hide At, Blank, Values, ItemsText, WellFormedSlot;
    AtOne(s, off);
    AtJoin(s, off, [LBRACKET], body + [RBRACKET]);
    assert [LBRACKET] + (body + [RBRACKET]) == [LBRACKET] + body + [RBRACKET];
  }

  lemma InnerTaken(s: Bytes, off: nat, close: byte)
    requires off <= |s| && Is(s, Skip(s, off), close) && close > 32
    ensures Blank(s[off..Skip(s, off)]) && At(s, off, s[off..Skip(s, off)] + [close])
  {
    GapBlank(s, off);
    hide Skip;
    assert s[off..Skip(s, off)] + [close] == s[off..Skip(s, off) + 1];
  }

  lemma {:induction false} ArrayTaken(s: Bytes, off: nat, room: nat) returns (d: Doc)
    requires Is(s, off, LBRACKET) && ParseArray(s, off, room).Ok?
    ensures WellFormed(d) && At(s, off, Text(d)) && Value(d) == JArray(ParseArray(s, off, room).value)
    ensures ParseArray(s, off, room).end == off + |Text(d)|
    decreases |s| - off, 0
  {
    hide At, Text, Value, WellFormed, ParseItems, ParseArray, Skip, Blank, Values, ItemsText, AllSlots;
    ArrayNeed(s, off, room);
    var p := Skip(s, off + 1);
    if Is(s, p, RBRACKET) {
      InnerTaken(s, off + 1, RBRACKET);
      NoItems();
      ArrayMade(s, off, s[off + 1..p], [], s[off + 1..p]);
      d := DArray(s[off + 1..p], []);
    } else {
      var xs := ItemsTaken(s, off + 1, room - 1);
      NoItems();
      ArrayMade(s, off, [], xs, ItemsText(xs));
      d := DArray([], xs);
    }
  }

  lemma NoItems()
    ensures Blank([]) && AllSlots([]) && AllEntries([]) && Values([]) == [] && Members([]) == []
  {
  }

  // ---------------------------------------------------------------- objects

  lemma KeyNeed(s: Bytes, off: nat)
    requires off <= |s| && ParseKey(s, off).Ok?
    ensures var p := Skip(s, off);
            && p < |s| && JsonString.ParseString(s, p).Ok?
            && var e := JsonString.ParseString(s, p).end;
            && Is(s, Skip(s, e), COLON) && ParseKey(s, off) == Ok(JsonString.ParseString(s, p).text, Skip(s, e) + 1)
  {
    hide JsonString.ParseString, Skip;
  }

  lemma EntryMade(s: Bytes, off: nat, p: nat, l: JsonString.Literal, e: nat, c: nat, x: Slot) returns (m: Entry)
    requires off <= p <= e <= c < |s| && JsonString.Readable(l) && At(s, p, JsonString.LiteralText(l))
             && e == p + |JsonString.LiteralText(l)|
    requires Blank(s[off..p]) && Blank(s[e..c]) && s[c] == COLON && WellFormedSlot(x) && At(s, c + 1, SlotText(x))
    ensures m == Entry(s[off..p], l, s[e..c], x) && WellFormedEntry(m)
    ensures At(s, off, EntryText(m)) && off + |EntryText(m)| == c + 1 + |SlotText(x)|
  {
    hide JsonString.Readable, JsonString.LiteralText, Blank, WellFormedSlot, SlotText;
    m := Entry(s[off..p], l, s[e..c], x);
    var q, t := JsonString.LiteralText(l), SlotText(x);
    assert s[c..c + 1 + |t|] == [COLON] + t;
    assert s[e..c + 1 + |t|] == m.gap + ([COLON] + t);
    assert s[p..c + 1 + |t|] == q + (m.gap + ([COLON] + t));
    assert s[off..c + 1 + |t|] == m.lead + (q + (m.gap + ([COLON] + t)));
  }

  /** Key and colon of a member. */
  lemma KeyTaken(s: Bytes, off: nat) returns (p: nat, l: JsonString.Literal, e: nat, c: nat)
    requires off <= |s| && ParseKey(s, off).Ok?
    ensures off <= p <= e <= c < |s| && JsonString.Readable(l) && At(s, p, JsonString.LiteralText(l))
            && e == p + |JsonString.LiteralText(l)|
    ensures Blank(s[off..p]) && Blank(s[e..c]) && s[c] == COLON && ParseKey(s, off) == Ok(JsonString.Denoted(l), c + 1)
  {
    hide JsonString.Readable, JsonString.LiteralText, JsonString.Denoted, JsonString.ParseString, Blank, Skip, At;
    KeyNeed(s, off);
    p := Skip(s, off);
    l := JsonString.LiteralTaken(s, p);
    LiteralHead(s, p, l);
    e := p + |JsonString.LiteralText(l)|;
    c := Skip(s, e);
    GapBlank(s, off);
    GapBlank(s, e);
  }

  lemma FirstMember(s: Bytes, off: nat, room: nat) returns (m: Entry)
    requires off <= |s| && ParseMembers(s, off, room).Ok?
    ensures var k := ParseKey(s, off);
            && WellFormedEntry(m) && At(s, off, EntryText(m)) && k.Ok?
            && var v := ParseValue(s, Skip(s, k.end), room);
            && v.Ok? && Member(k.value, v.value) == MemberOf(m) && off + |EntryText(m)| == Skip(s, v.end)
    decreases |s| - off, 2
  {
    hide At, Text, WellFormed, Value, ParseValue, ParseMembers, ParseKey, Skip, SlotText, EntryText, Blank;
    hide JsonString.Readable, JsonString.LiteralText, JsonString.Denoted;
    MembersTurn(s, off, room);
    var p, l, e, c := KeyTaken(s, off);
    var q := Skip(s, c + 1);
    var d := DocTaken(s, q, room);
    var f := q + |Text(d)|;
    ValueHead(s, q, d);
    GapBlank(s, c + 1);
    GapBlank(s, f);
    var x := SlotMade(s, c + 1, q, d, f, Skip(s, f));
    m := EntryMade(s, off, p, l, e, c, x);
  }

  lemma OneMember(s: Bytes, off: nat, m: Entry)
    requires WellFormedEntry(m) && At(s, off, EntryText(m)) && Is(s, off + |EntryText(m)|, RBRACE)
    ensures AllEntries([m]) && At(s, off, MembersText([m]) + [RBRACE]) && Members([m]) == [MemberOf(m)]
    ensures MembersText([m]) == EntryText(m)
  {
    hide At, EntryText, WellFormedEntry, MemberOf;
    AtOne(s, off + |EntryText(m)|);
    AtJoin(s, off, EntryText(m), [RBRACE]);
    MembersCons([m]);
    assert Members([m][1..]) == [];
  }

  lemma MoreMembers(s: Bytes, off: nat, m: Entry, rest: seq<Entry>)
    requires WellFormedEntry(m) && At(s, off, EntryText(m)) && Is(s, off + |EntryText(m)|, COMMA)
    requires rest != [] && AllEntries(rest) && At(s, off + |EntryText(m)| + 1, MembersText(rest) + [RBRACE])
    ensures var ms := [m] + rest;
            && AllEntries(ms) && At(s, off, MembersText(ms) + [RBRACE]) && Members(ms) == [MemberOf(m)] + Members(rest)
            && |MembersText(ms)| == |EntryText(m)| + 1 + |MembersText(rest)|
  {
    hide At, EntryText, WellFormedEntry, MemberOf, MembersText, Members;
    var ms := [m] + rest;
    assert ms[1..] == rest;
    var c := off + |EntryText(m)|;
    AtOne(s, c);
    AtJoin(s, c, [COMMA], MembersText(rest) + [RBRACE]);
    AtJoin(s, off, EntryText(m), [COMMA] + (MembersText(rest) + [RBRACE]));
    MembersCons(ms);
  }

  /** The members the loop of `parse_object` accepted. */
  lemma {:induction false} MembersTaken(s: Bytes, off: nat, room: nat) returns (ms: seq<Entry>)
    requires off <= |s| && ParseMembers(s, off, room).Ok?
    ensures ms != [] && AllEntries(ms) && At(s, off, MembersText(ms) + [RBRACE])
    ensures ParseMembers(s, off, room) == Ok(Members(ms), off + |MembersText(ms)| + 1)
    decreases |s| - off, 3
  {
    hide At, ParseValue, ParseMembers, ParseKey, Skip, EntryText, MembersText, Members, AllEntries, WellFormedEntry;
    hide MemberOf;
    MembersTurn(s, off, room);
    var m := FirstMember(s, off, room);
    var p := off + |EntryText(m)|;
    if Is(s, p, RBRACE) {
      OneMember(s, off, m);
      ms := [m];
    } else {
      var rest := MembersTaken(s, p + 1, room);
      MoreMembers(s, off, m, rest);
      ms := [m] + rest;
    }
  }

  lemma SameMembers(s: Bytes, off: nat, room: nat)
    requires off < |s|
    ensures ParseMembers(s, Skip(s, off), room) == ParseMembers(s, off, room)
  {
    hide ParseMembers, Skip;
    KeyFromSkipped(s, off);
    SameKey(s, Skip(s, off), off, room);
  }

  lemma ObjectNeed(s: Bytes, off: nat, room: nat)
    requires off < |s| && ParseObject(s, off, room).Ok?
    ensures var p := Skip(s, off + 1);
            && room > 0 && off + 1 < |s|
            && if Is(s, p, RBRACE) then ParseObject(s, off, room) == Ok([], p + 1)
               else
                 && ParseMembers(s, off + 1, room - 1).Ok?
                 && ParseObject(s, off, room) == ParseMembers(s, off + 1, room - 1)
  {
    if off + 1 < |s| { SameMembers(s, off + 1, if room > 0 then room - 1 else 0); }
    hide ParseMembers;
  }

  lemma ObjectMade(s: Bytes, off: nat, inner: Bytes, ms: seq<Entry>, body: Bytes)
    requires Is(s, off, LBRACE) && Blank(inner) && AllEntries(ms) && body == ObjectBody(inner, ms)
             && At(s, off + 1, body + [RBRACE])
    ensures var d := DObject(inner, ms);
            WellFormed(d) && At(s, off, Text(d)) && |Text(d)| == |body| + 2 && Value(d) == JObject(Members(ms))
  {
    hide At, Blank, Members, MembersText, WellFormedEntry;
    AtOne(s, off);
    AtJoin(s, off, [LBRACE], body + [RBRACE]);
    assert [LBRACE] + (body + [RBRACE]) == [LBRACE] + body + [RBRACE];
  }

  lemma {:induction false} ObjectTaken(s: Bytes, off: nat, room: nat) returns (d: Doc)
    requires Is(s, off, LBRACE) && ParseObject(s, off, room).Ok?
    ensures WellFormed(d) && At(s, off, Text(d)) && Value(d) == JObject(ParseObject(s, off, room).value)
    ensures ParseObject(s, off, room).end == off + |Text(d)|
    decreases |s| - off, 0
  {
    hide At, Text, Value, WellFormed, ParseMembers, ParseObject, Skip, Blank, Members, MembersText, AllEntries;
    ObjectNeed(s, off, room);
    var p := Skip(s, off + 1);
    NoItems();
    if Is(s, p, RBRACE) {
      InnerTaken(s, off + 1, RBRACE);
      ObjectMade(s, off, s[off + 1..p], [], s[off + 1..p]);
      d := DObject(s[off + 1..p], []);
    } else {
      var ms := MembersTaken(s, off + 1, room - 1);
      ObjectMade(s, off, [], ms, MembersText(ms));
      d := DObject([], ms);
    }
  }

  // ----------------------------------------------------------- whole inputs

  /**
   The buffer is a document between blanks, after a byte order mark perhaps, that `cJSON_ParseWithOpts`
   has no reason to refuse.
   */
  predicate Acceptable(s: Bytes, bom: bool, lead: Bytes, d: Doc, trail: Bytes) {
    && WellFormed(d) && Blank(lead) && Blank(trail) && s == Input(bom, lead, d, trail)
    && Nest(Value(d)) <= 1000 && Terminated(trail) && (bom ==> |s| > 4)
  }

  lemma NothingParses(requireNul: bool)
    ensures ParseText([], requireNul) == Fail
  {
  }

  /** A scan that stops on a NUL stopped at the end: everything from `e` on is blank and the last byte is the NUL. */
  lemma StopsOnNul(s: Bytes, e: nat)
    requires e <= |s| && Is(s, Skip(s, e), 0)
    ensures Blank(s[e..]) && Terminated(s[e..]) && Skip(s, e) == |s| - 1
  {
    var t := s[e..];
    assert t[|t| - 1] == s[|s| - 1];
  }

  /** What was read before the value. */
  lemma StartTaken(s: Bytes, d: Doc) returns (bom: bool, lead: Bytes)
    requires WellFormed(d) && s != [] && At(s, Skip(s, SkipBom(s)), Text(d))
    ensures Blank(lead) && (bom ==> |s| > 4) && Skip(s, SkipBom(s)) == (if bom then 3 else 0) + |lead|
    ensures At(s, 0, (if bom then BOM else []) + lead)
  {
    hide Text, WellFormed, Skip;
    var off := Skip(s, SkipBom(s));
    ValueHead(s, off, d);
    GapBlank(s, SkipBom(s));
    bom := SkipBom(s) == 3;
    lead := s[SkipBom(s)..off];
    assert s[0..off] == (if bom then BOM else []) + lead;
  }

  /**
   Whatever `cJSON_ParseWithLengthOpts` accepts starts with a document nested at most
   CJSON_NESTING_LIMIT deep, whose value is returned; when the NUL is required, only blanks and the
   NUL follow it.
   */
  lemma InputTaken(s: Bytes, requireNul: bool) returns (bom: bool, lead: Bytes, d: Doc, rest: Bytes)
    requires ParseText(s, requireNul).Ok?
    ensures WellFormed(d) && Blank(lead) && s == Input(bom, lead, d, rest) && (bom ==> |s| > 4)
    ensures ParseText(s, requireNul).value == Value(d) && Nest(Value(d)) <= NESTING_LIMIT
    ensures ParseText(s, requireNul).end == |s| - if requireNul then 1 else |rest|
    ensures requireNul ==> Blank(rest) && Terminated(rest)
  {
    hide At, Text, Value, WellFormed, ParseValue, ParseText, Skip, SkipBom, Nest, Blank, Terminated;
    var off := Skip(s, SkipBom(s));
    assert s != [] by { NothingParses(requireNul); }
    TextVia(s, off, requireNul);
    NestWithinRoom(s, off, NESTING_LIMIT);
    d := DocTaken(s, off, NESTING_LIMIT);
    bom, lead := StartTaken(s, d);
    var e := off + |Text(d)|;
    rest := s[e..];
    if requireNul { StopsOnNul(s, e); }
    InputMade(s, bom, lead, d, e);
  }

  lemma InputMade(s: Bytes, bom: bool, lead: Bytes, d: Doc, e: nat)
    requires WellFormed(d) && At(s, 0, (if bom then BOM else []) + lead)
    requires var off := (if bom then 3 else 0) + |lead|; At(s, off, Text(d)) && e == off + |Text(d)|
    ensures e <= |s| && s == Input(bom, lead, d, s[e..])
  {
    hide Text, WellFormed;
    var m, t := (if bom then BOM else []) + lead, Text(d);
    assert s[..|m|] == s[0..0 + |m|] == m;
    assert s[|m|..e] == t;
    assert s == s[..|m|] + (s[|m|..e] + s[e..]);
  }

  lemma AcceptableParses(s: Bytes, bom: bool, lead: Bytes, d: Doc, trail: Bytes)
    requires Acceptable(s, bom, lead, d, trail)
    ensures ParseText(s, true).Ok? && ParseText(s, true).value == Value(d) && ParseText(s, true).end == |s| - 1
  {
    hide WellFormed, Value, Text, Input, ParseText, Nest, Blank, Terminated;
    DocumentParses(bom, lead, d, trail, true);
  }

  /**
   Which buffers are accepted when the terminating NUL is required, and as what: exactly those that
   hold a document between blanks nested at most CJSON_NESTING_LIMIT deep and end in a NUL, as the
   value of that document.
   */
  lemma AcceptedExactly(s: Bytes, v: Json, end: nat)
    ensures ParseText(s, true) == Ok(v, end) <==>
              exists bom, lead, d, trail :: Acceptable(s, bom, lead, d, trail) && v == Value(d) && end == |s| - 1
  {
    hide WellFormed, Value, Text, Input, ParseText, Nest, Blank, Terminated;
    if ParseText(s, true) == Ok(v, end) {
      var bom, lead, d, trail := InputTaken(s, true);
      assert Acceptable(s, bom, lead, d, trail);
    }
    forall bom, lead, d, trail | Acceptable(s, bom, lead, d, trail) && v == Value(d) && end == |s| - 1
      ensures ParseText(s, true) == Ok(v, end)
    {
      AcceptableParses(s, bom, lead, d, trail);
    }
  }

  // ----------------------------------------- accepted beyond the standard

  /** `1.` is read as 1. */
  lemma PointWithoutDigits()
    ensures ParseText([0x31, 0x2E, 0], true) == Ok(JNumber(1.0), 2)
  {
    var n := Number(false, [0x31], true, [], None);
    assert [0x31] + [] == [0x31] && [0x31][..0] == [];
    assert JsonNumber.Decimal([]) == 0 && JsonNumber.Decimal([0x31]) == 1 && JsonNumber.Pow10(0) == 1.0;
    assert NumberText(n) == [0x31, 0x2E] && NumberValue(n) == 1.0;
    var d := DNumber(n);
    assert Input(false, [], d, [0]) == [0x31, 0x2E, 0];
    DocumentParses(false, [], d, [0], true);
  }

  /** A unit without hex digits is read as NUL, and the string ends there. */
  lemma UnitWithoutDigits()
    ensures JsonString.ParseString([QUOTE, BACKSLASH, 0x75, 0x7A, 0x7A, 0x7A, 0x7A, 0x41, QUOTE], 0)
            == JsonString.Ok([], 9)
  {
    var h: Bytes := [0x7A, 0x7A, 0x7A, 0x7A];
    var body: Bytes := [BACKSLASH, 0x75] + h + [0x41];
    var ps := [JsonString.Unit(h), JsonString.Plain(0x41)];
    assert JsonString.Hex4(h, 0) == 0 && JsonString.Utf8(0) == [0];
    assert ps[1..] == [JsonString.Plain(0x41)] && ps[1..][1..] == [];
    assert JsonString.Text(ps[1..]) == [0x41];
    assert JsonString.Text(ps) == body;
    ScansThrough(h, 0x41, body);
    var l := JsonString.Literal(body, ps);
    assert JsonString.Meaning(ps) == [0] + JsonString.Meaning(ps[1..]);
    assert JsonString.LiteralText(l) == [QUOTE, BACKSLASH, 0x75, 0x7A, 0x7A, 0x7A, 0x7A, 0x41, QUOTE];
    AtAll(JsonString.LiteralText(l));
    JsonString.LiteralReads(JsonString.LiteralText(l), 0, l);
  }

  lemma ScansThrough(h: Bytes, b: byte, body: Bytes)
    requires |h| == 4 && (forall i :: 0 <= i < 4 ==> h[i] != QUOTE && h[i] != BACKSLASH) && b != QUOTE && b != BACKSLASH
    requires body == [BACKSLASH, 0x75] + h + [b]
    ensures JsonString.Scans(body)
  {
    hide JsonString.Scans;
    NothingScans();
    JsonString.ByteScans(b, []);
    JsonString.ByteScans(h[3], [b] + []);
    JsonString.ByteScans(h[2], [h[3]] + ([b] + []));
    JsonString.ByteScans(h[1], [h[2]] + ([h[3]] + ([b] + [])));
    JsonString.ByteScans(h[0], [h[1]] + ([h[2]] + ([h[3]] + ([b] + []))));
    assert [h[0]] + ([h[1]] + ([h[2]] + ([h[3]] + ([b] + [])))) == h + [b];
    JsonString.EscapeScans(0x75, h + [b]);
    assert [BACKSLASH, 0x75] + (h + [b]) == body;
  }

  lemma NothingScans()
    ensures JsonString.Scans([])
  {
  }

  /**
   The passes out of step: in the literal whose body is a unit with the digits `000` and then two
   backslashes, the second backslash takes the closing quote with it.
   */
  lemma ClosingQuoteTaken()
    ensures var s: Bytes := [QUOTE, BACKSLASH, 0x75, 0x30, 0x30, 0x30, BACKSLASH, BACKSLASH, QUOTE];
            JsonString.ScanEnd(s, 1) == Some(8) && JsonString.Unescape(s, 1, 8) == Some([0, QUOTE])
            && JsonString.ParseString(s, 0) == JsonString.Ok([], 9)
  {
    var s: Bytes := [QUOTE, BACKSLASH, 0x75, 0x30, 0x30, 0x30, BACKSLASH, BACKSLASH, QUOTE];
    assert JsonString.ScanEnd(s, 8) == Some(8);
    assert JsonString.ScanEnd(s, 6) == Some(8);
    assert JsonString.ScanEnd(s, 5) == Some(8) && JsonString.ScanEnd(s, 4) == Some(8)
        && JsonString.ScanEnd(s, 3) == Some(8);
    assert JsonString.EscapeStep(s, 1, 8) == JsonString.Emit([0], 6);
    assert JsonString.EscapeStep(s, 7, 8) == JsonString.Emit([QUOTE], 2);
    JsonString.EndsHere(s, 9, 8);
    JsonString.UnescapeVia(s, 7, 8, [QUOTE], 2, []);
    JsonString.UnescapeVia(s, 1, 8, [0], 6, [QUOTE] + []);
    assert [0] + ([QUOTE] + []) == [0, QUOTE];
  }
}
