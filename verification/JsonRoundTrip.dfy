/**
 Printing then parsing is the identity, formatted or not, exactly up to the nesting limit: what the
 printer writes is the text of a document that denotes the value printed.
 */
module JsonRoundTrip {
  import opened Bytes
  import opened JsonValue
  import opened JsonText
  import opened JsonGrammar
  import D = JsonDocument
  import R = JsonReading
  import JsonNumber
  import JsonString

  // ------------------------------------------- the document that is printed

  /** The number `%d` writes. */
  function NumberOf(n: int): (x: D.Number)
    ensures D.WellFormedNumber(x)
  {
    D.Number(n < 0, JsonNumber.DigitText(if n < 0 then -n else n), false, [], None)
  }

  /** The literal `print_string_ptr` writes. */
  function LiteralOf(s: Bytes): (l: JsonString.Literal)
    requires NulFree(s)
    ensures JsonString.Readable(l) && JsonString.Denoted(l) == s && JsonString.LiteralText(l) == JsonString.Quoted(s)
  {
    JsonString.EscapedReadable(s);
    JsonString.Literal(JsonString.Escape(s), JsonString.PiecesOf(s))
  }

  /** The line feed and tabs of a formatted object. */
  function Rim(depth: nat, fmt: bool): (t: Bytes)
    ensures D.Blank(t)
  {
    if fmt then [LF] + Tabs(depth) else []
  }

  function DocOf(v: Json, depth: nat, fmt: bool): (d: D.Doc)
    requires Printable(v)
    ensures D.WellFormed(d)
    decreases v, 1
  {
    match v
    case JNull => D.DNull
    case JBool(b) => D.DBool(b)
    case JNumber(r) => D.DNumber(NumberOf(Saturate(r)))
    case JString(s) => D.DString(LiteralOf(s))
    case JArray(items) => D.DArray([], SlotsOf(items, true, depth + 1, fmt))
    case JObject(ms) => D.DObject(Rim(depth, fmt), EntriesOf(ms, depth + 1, fmt))
  }

  predicate AllPrintable(vs: seq<Json>) { forall i :: 0 <= i < |vs| ==> Printable(vs[i]) }

  predicate AllMembers(ms: seq<Member>) { forall i :: 0 <= i < |ms| ==> NulFree(ms[i].key) && Printable(ms[i].value) }

  function Gap(first: bool, fmt: bool): Bytes { if first || !fmt then [] else [SPACE] }

  function SlotsOf(vs: seq<Json>, first: bool, depth: nat, fmt: bool): (xs: seq<D.Slot>)
    requires AllPrintable(vs)
    ensures |xs| == |vs| && D.AllSlots(xs)
    decreases vs, 0
  {
    if vs == [] then []
    else
      var x := D.Slot(Gap(first, fmt), DocOf(vs[0], depth, fmt), []);
      assert D.WellFormedSlot(x);
      [x] + SlotsOf(vs[1..], false, depth, fmt)
  }

  function EntryOf(m: Member, last: bool, depth: nat, fmt: bool): (x: D.Entry)
    requires NulFree(m.key) && Printable(m.value) && depth > 0
    ensures D.WellFormedEntry(x)
    decreases m, 2
  {
    var slot := D.Slot(if fmt then [TAB] else [], DocOf(m.value, depth, fmt), if last then Rim(depth - 1, fmt) else []);
    assert D.WellFormedSlot(slot);
    D.Entry(Rim(depth, fmt), LiteralOf(m.key), [], slot)
  }

  function EntriesOf(ms: seq<Member>, depth: nat, fmt: bool): (xs: seq<D.Entry>)
    requires AllMembers(ms) && depth > 0
    ensures |xs| == |ms| && D.AllEntries(xs)
    decreases ms, 0
  {
    if ms == [] then [] else [EntryOf(ms[0], |ms| == 1, depth, fmt)] + EntriesOf(ms[1..], depth, fmt)
  }

  // ------------------------------------------------------------- its value

  lemma NumberOfValue(n: int)
    ensures D.NumberValue(NumberOf(n)) == n as real
  {
    var ds := JsonNumber.DigitText(if n < 0 then -n else n);
    assert ds + [] == ds;
    assert JsonNumber.Pow10(0) == 1.0;
  }

  /** The printed document denotes the value. */
  lemma {:induction false} DocValue(v: Json, depth: nat, fmt: bool)
    requires Printable(v)
    ensures D.Value(DocOf(v, depth, fmt)) == v
    decreases v, 1
  {
    hide SlotsOf, EntriesOf, D.Values, D.Members, D.NumberValue, LiteralOf, NumberOf;
    match v
    case JNumber(r) => NumberOfValue(Saturate(r));
    case JArray(items) => SlotsValue(items, true, depth + 1, fmt);
    case JObject(ms) => EntriesValue(ms, depth + 1, fmt);
    case _ =>
  }

  lemma SlotsCons(vs: seq<Json>, first: bool, depth: nat, fmt: bool)
    requires AllPrintable(vs) && vs != []
    ensures var xs := SlotsOf(vs, first, depth, fmt);
            xs[0].doc == DocOf(vs[0], depth, fmt) && xs[1..] == SlotsOf(vs[1..], false, depth, fmt)
            && D.Values(xs) == [D.Value(xs[0].doc)] + D.Values(xs[1..])
  {
    hide DocOf, D.Value, Printable;
  }

  lemma {:induction false} SlotsValue(vs: seq<Json>, first: bool, depth: nat, fmt: bool)
    requires AllPrintable(vs)
    ensures D.Values(SlotsOf(vs, first, depth, fmt)) == vs
    decreases vs, 0
  {
    hide DocOf, D.Value, D.Values, SlotsOf, Printable;
    if vs != [] {
      SlotsCons(vs, first, depth, fmt);
      DocValue(vs[0], depth, fmt);
      SlotsValue(vs[1..], false, depth, fmt);
    }
  }

  lemma EntriesCons(ms: seq<Member>, depth: nat, fmt: bool)
    requires AllMembers(ms) && depth > 0 && ms != []
    ensures var xs := EntriesOf(ms, depth, fmt);
            xs[0] == EntryOf(ms[0], |ms| == 1, depth, fmt) && xs[1..] == EntriesOf(ms[1..], depth, fmt)
            && D.Members(xs) == [D.MemberOf(xs[0])] + D.Members(xs[1..])
  {
    hide EntryOf, D.MemberOf, Printable;
  }

  lemma {:induction false} EntriesValue(ms: seq<Member>, depth: nat, fmt: bool)
    requires AllMembers(ms) && depth > 0
    ensures D.Members(EntriesOf(ms, depth, fmt)) == ms
    decreases ms, 0
  {
    hide EntryOf, D.MemberOf, D.Members, EntriesOf, Printable;
    if ms != [] {
      EntriesCons(ms, depth, fmt);
      EntryValue(ms[0], |ms| == 1, depth, fmt);
      EntriesValue(ms[1..], depth, fmt);
    }
  }

  lemma {:induction false} EntryValue(m: Member, last: bool, depth: nat, fmt: bool)
    requires NulFree(m.key) && Printable(m.value) && depth > 0
    ensures D.MemberOf(EntryOf(m, last, depth, fmt)) == m
    decreases m, 2
  {
    DocValue(m.value, depth, fmt);
    hide DocOf, D.Value, Printable;
  }

  // -------------------------------------------------------------- its text

  lemma NumberOfText(n: int)
    ensures D.NumberText(NumberOf(n)) == JsonNumber.IntText(n)
  {
    var ds := JsonNumber.DigitText(if n < 0 then -n else n);
    assert ds + [] + [] == ds && [] + ds == ds;
  }

  lemma SlotsUnfold(vs: seq<Json>, first: bool, depth: nat, fmt: bool)
    requires AllPrintable(vs) && vs != []
    ensures var x := Gap(first, fmt) + (D.Text(DocOf(vs[0], depth, fmt)) + []);
            D.ItemsText(SlotsOf(vs, first, depth, fmt))
            == if |vs| == 1 then x else x + ([COMMA] + D.ItemsText(SlotsOf(vs[1..], false, depth, fmt)))
  {
    hide DocOf, D.Text, Printable, Gap;
    assert SlotsOf(vs, first, depth, fmt)[1..] == SlotsOf(vs[1..], false, depth, fmt);
  }

  lemma Spaced(g: Bytes, t: Bytes, c: Bytes, h: Bytes, rest: Bytes)
    ensures g + (t + []) == g + t
    ensures g + (t + []) + (c + (h + rest)) == g + (t + (c + h) + rest)
  {
  }

  lemma {:induction false} SlotsText(vs: seq<Json>, first: bool, depth: nat, fmt: bool)
    requires AllPrintable(vs)
    ensures D.ItemsText(SlotsOf(vs, first, depth, fmt))
            == if vs == [] then [] else Gap(first, fmt) + PrintItems(vs, depth, fmt)
    decreases vs, 0
  {
    if vs != [] {
      hide DocOf, SlotsOf, D.ItemsText, D.Text, Printable, Print;
      DocText(vs[0], depth, fmt);
      SlotsText(vs[1..], false, depth, fmt);
      SlotsUnfold(vs, first, depth, fmt);
      var rest := PrintItems(vs[1..], depth, fmt);
      Spaced(Gap(first, fmt), Print(vs[0], depth, fmt), [COMMA], Gap(false, fmt), rest);
      assert Separator(fmt) == [COMMA] + Gap(false, fmt);
    }
  }

  lemma {:induction false} ItemsText(vs: seq<Json>, depth: nat, fmt: bool)
    requires AllPrintable(vs)
    ensures D.ArrayBody([], SlotsOf(vs, true, depth, fmt)) == PrintItems(vs, depth, fmt)
    decreases vs, 1
  {
    SlotsText(vs, true, depth, fmt);
    assert Gap(true, fmt) + PrintItems(vs, depth, fmt) == PrintItems(vs, depth, fmt);
  }

  /** The line feed a formatted object puts before each member. */
  function LineFeed(fmt: bool): Bytes { if fmt then [LF] else [] }

  lemma RimIs(depth: nat, fmt: bool)
    ensures Rim(depth, fmt) == LineFeed(fmt) + Indent(depth, fmt)
  {
  }

  lemma EntryShape(lf: Bytes, ind: Bytes, q: Bytes, tab: Bytes, t: Bytes, out: Bytes)
    ensures (lf + ind) + (q + ([] + ([COLON] + (tab + (t + []))))) + ([COMMA] + lf)
         == lf + (ind + q + ([COLON] + tab) + t + ([COMMA] + lf))
    ensures (lf + ind) + (q + ([] + ([COLON] + (tab + (t + (lf + out)))))) + [RBRACE]
         == lf + (ind + q + ([COLON] + tab) + t + lf) + (out + [RBRACE])
  {
  }

  lemma EntryUnfold(m: Member, last: bool, depth: nat, fmt: bool)
    requires NulFree(m.key) && Printable(m.value) && depth > 0
    ensures var tab: Bytes := if fmt then [TAB] else [];
            var rim := if last then LineFeed(fmt) + Indent(depth - 1, fmt) else [];
            && D.EntryText(EntryOf(m, last, depth, fmt))
               == (LineFeed(fmt) + Indent(depth, fmt))
                  + (JsonString.LiteralText(LiteralOf(m.key))
                    + ([] + ([COLON] + (tab + (D.Text(DocOf(m.value, depth, fmt)) + rim)))))
            && Middle(fmt) == [COLON] + tab && After(true, fmt) == LineFeed(fmt)
               && After(false, fmt) == [COMMA] + LineFeed(fmt)
            && Close(depth - 1, fmt) == Indent(depth - 1, fmt) + [RBRACE]
  {
    hide DocOf, D.Text, Printable, Print, Tabs;
    RimIs(depth, fmt);
    RimIs(depth - 1, fmt);
    hide Rim;
  }

  lemma {:induction false} EntryText(m: Member, last: bool, depth: nat, fmt: bool)
    requires NulFree(m.key) && Printable(m.value) && depth > 0
    ensures var x, p := D.EntryText(EntryOf(m, last, depth, fmt)), PrintMember(m, last, depth, fmt);
            if last then x + [RBRACE] == LineFeed(fmt) + p + Close(depth - 1, fmt)
            else x + ([COMMA] + LineFeed(fmt)) == LineFeed(fmt) + p
    decreases m, 2
  {
    hide DocOf, D.Text, Printable, Print, Tabs;
    DocText(m.value, depth, fmt);
    EntryUnfold(m, last, depth, fmt);
    EntryShape(LineFeed(fmt), Indent(depth, fmt), JsonString.Quoted(m.key), if fmt then [TAB] else [],
               Print(m.value, depth, fmt), Indent(depth - 1, fmt));
  }

  lemma EntriesUnfold(ms: seq<Member>, depth: nat, fmt: bool)
    requires AllMembers(ms) && depth > 0 && ms != []
    ensures var x := D.EntryText(EntryOf(ms[0], |ms| == 1, depth, fmt));
            D.MembersText(EntriesOf(ms, depth, fmt))
            == if |ms| == 1 then x else x + ([COMMA] + D.MembersText(EntriesOf(ms[1..], depth, fmt)))
  {
    hide EntryOf, D.EntryText, Printable;
    assert EntriesOf(ms, depth, fmt)[1..] == EntriesOf(ms[1..], depth, fmt);
  }

  lemma Chained(x: Bytes, c: Bytes, m: Bytes, f: Bytes, lf: Bytes, p: Bytes, rest: Bytes, close: Bytes)
    requires x + (c + lf) == lf + p && m + f == lf + rest + close
    ensures x + (c + m) + f == lf + (p + rest) + close
  {
    assert x + (c + m) + f == x + c + (m + f) == x + c + lf + rest + close;
    assert x + c + lf == x + (c + lf);
  }

  /** Members and closing brace, whose line feeds and tabs the document keeps before and after its slots. */
  lemma {:induction false} MembersText(ms: seq<Member>, depth: nat, fmt: bool)
    requires AllMembers(ms) && ms != []
    ensures D.MembersText(EntriesOf(ms, depth + 1, fmt)) + [RBRACE]
         == LineFeed(fmt) + PrintMembers(ms, depth + 1, fmt) + Close(depth, fmt)
    decreases ms, 0
  {
    hide EntryOf, EntriesOf, D.EntryText, D.MembersText, Printable, PrintMember, Close, LineFeed;
    var last := |ms| == 1;
    var p, rest := PrintMember(ms[0], last, depth + 1, fmt), PrintMembers(ms[1..], depth + 1, fmt);
    EntryText(ms[0], last, depth + 1, fmt);
    EntriesUnfold(ms, depth + 1, fmt);
    if last {
      assert p + rest == p;
    } else {
      MembersText(ms[1..], depth, fmt);
      Chained(D.EntryText(EntryOf(ms[0], false, depth + 1, fmt)), [COMMA],
        D.MembersText(EntriesOf(ms[1..], depth + 1, fmt)),
              [RBRACE], LineFeed(fmt), p, rest, Close(depth, fmt));
    }
  }

  lemma Braced(o: Bytes, m: Bytes, f: Bytes, lf: Bytes, p: Bytes, close: Bytes)
    requires m + f == lf + p + close
    ensures o + m + f == (o + lf) + p + close
  {
    assert o + m + f == o + (m + f);
  }

  lemma OpenIs(depth: nat, fmt: bool)
    ensures Open(fmt) == [LBRACE] + LineFeed(fmt)
    ensures Rim(depth, fmt) + [RBRACE] == LineFeed(fmt) + [] + Close(depth, fmt)
  {
    RimIs(depth, fmt);
    hide Rim;
  }

  lemma {:induction false} EntriesText(ms: seq<Member>, depth: nat, fmt: bool)
    requires AllMembers(ms)
    ensures [LBRACE] + D.ObjectBody(Rim(depth, fmt), EntriesOf(ms, depth + 1, fmt)) + [RBRACE]
         == Open(fmt) + PrintMembers(ms, depth + 1, fmt) + Close(depth, fmt)
    decreases ms, 1
  {
    hide EntriesOf, D.MembersText, PrintMember, Printable, Open, Close, LineFeed, Rim, AllMembers;
    OpenIs(depth, fmt);
    if ms != [] { MembersText(ms, depth, fmt); }
    Braced([LBRACE], D.ObjectBody(Rim(depth, fmt), EntriesOf(ms, depth + 1, fmt)), [RBRACE],
           LineFeed(fmt), PrintMembers(ms, depth + 1, fmt), Close(depth, fmt));
  }

  /** The printer writes the text of the document. */
  lemma {:induction false} DocText(v: Json, depth: nat, fmt: bool)
    requires Printable(v)
    ensures D.Text(DocOf(v, depth, fmt)) == Print(v, depth, fmt)
    decreases v, 1
  {
    hide SlotsOf, EntriesOf, D.ItemsText, D.MembersText, PrintItems, PrintMembers, D.NumberText;
    match v
    case JNumber(r) => NumberOfText(Saturate(r));
    case JString(s) =>
    case JArray(items) => ItemsText(items, depth + 1, fmt);
    case JObject(ms) => EntriesText(ms, depth, fmt);
    case _ =>
  }

  // ------------------------------------------------------------- the theorem

  /** A printed value parses back to itself wherever it stands, leaving the offset right after it. */
  lemma RoundTrip(v: Json, depth: nat, fmt: bool, s: Bytes, off: nat, room: nat, t: Bytes)
    requires Printable(v) && Nest(v) <= room
    requires t == Print(v, depth, fmt) && At(s, off, t) && D.Stop(s, off + |t|)
    ensures ParseValue(s, off, room) == Ok(v, off + |t|)
  {
    hide Print, ParseValue, DocOf, D.Text, D.Value, D.Stop, At, Nest, Printable;
    DocText(v, depth, fmt);
    DocValue(v, depth, fmt);
    R.DocParses(DocOf(v, depth, fmt), s, off, room);
  }

  /** The buffer `cJSON_Parse` sees for the text `t`: the text and its NUL. */
  function Document(v: Json, fmt: bool): Bytes { Print(v, 0, fmt) + [0] }

  /**
   `cJSON_Parse(cJSON_Print(v))` gives back `v`, formatted or not and whether or not a terminating
   NUL is required, if and only if `v` is nested at most CJSON_NESTING_LIMIT deep.
   */
  lemma PrintParse(v: Json, fmt: bool, requireNul: bool)
    requires Printable(v)
    ensures Nest(v) <= NESTING_LIMIT ==> ParseText(Document(v, fmt), requireNul) == Ok(v, |Print(v, 0, fmt)|)
    ensures Nest(v) > NESTING_LIMIT ==> ParseText(Document(v, fmt), requireNul) == Fail
  {
    hide Print, ParseText, DocOf, D.Text, D.Value, Nest, Printable;
    var d := DocOf(v, 0, fmt);
    DocText(v, 0, fmt);
    DocValue(v, 0, fmt);
    R.DocumentParses(false, [], d, [0], requireNul);
    assert R.Input(false, [], d, [0]) == Document(v, fmt);
  }
}
