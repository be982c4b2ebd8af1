/**
 The printed text as the standard sees it: a document of RFC 8259 proper, without a blank when it is
 unformatted, and then no longer than any other such document of the same value without exponents.
 */
module JsonStandard {
  import opened Bytes
  import opened JsonValue
  import opened JsonText
  import opened JsonDocument
  import JsonNumber
  import JsonString
  import JsonRoundTrip
  import JsonDecimal

  // ------------------------------------------------- the standard's grammar

  /** Section 6 of RFC 8259: no leading zero, and digits on both sides of a point. */
  predicate StandardNumber(n: Number) {
    && WellFormedNumber(n) && n.whole != [] && (n.whole[0] == 0x30 ==> |n.whole| == 1)
    && (n.point <==> n.fraction != [])
  }

  /** Section 7: the pieces of the standard, as they are spelled, and no raw control byte. */
  predicate StandardLiteral(l: JsonString.Literal) {
    && JsonString.AllWellFormed(l.pieces) && l.body == JsonString.Text(l.pieces)
    && forall i :: 0 <= i < |l.pieces| && l.pieces[i].Plain? ==> l.pieces[i].b >= 0x20
  }

  /** Space, tab, line feed and carriage return. */
  predicate StandardBlank(t: Bytes) {
    forall i :: 0 <= i < |t| ==> t[i] == 0x20 || t[i] == 0x09 || t[i] == 0x0A || t[i] == 0x0D
  }

  /** Section 2. */
  predicate Standard(d: Doc) {
    match d
    case DNumber(n) => StandardNumber(n)
    case DString(l) => StandardLiteral(l)
    case DArray(inner, items) => StandardBlank(inner) && forall i :: 0 <= i < |items| ==> StandardSlot(items[i])
    case DObject(inner, ms) => StandardBlank(inner) && forall i :: 0 <= i < |ms| ==> StandardEntry(ms[i])
    case _ => true
  }

  predicate StandardSlot(x: Slot) { StandardBlank(x.before) && StandardBlank(x.after) && Standard(x.doc) }

  predicate StandardEntry(m: Entry) {
    StandardBlank(m.lead) && StandardLiteral(m.key) && StandardBlank(m.gap) && StandardSlot(m.slot)
  }

  predicate StandardSlots(xs: seq<Slot>) { forall i :: 0 <= i < |xs| ==> StandardSlot(xs[i]) }

  predicate StandardEntries(ms: seq<Entry>) { forall i :: 0 <= i < |ms| ==> StandardEntry(ms[i]) }

  /** Documents of the standard are documents of the parser's grammar. */
  lemma {:induction false} StandardWellFormed(d: Doc)
    requires Standard(d)
    ensures WellFormed(d)
    decreases d, 1
  {
    match d
    case DString(l) => LiteralWellFormed(l);
    case DArray(inner, items) =>
      forall i | 0 <= i < |items| ensures WellFormedSlot(items[i]) { SlotWellFormed(items[i]); }
    case DObject(inner, ms) =>
      forall i | 0 <= i < |ms| ensures WellFormedEntry(ms[i]) {
        LiteralWellFormed(ms[i].key);
        SlotWellFormed(ms[i].slot);
      }
    case _ =>
  }

  lemma {:induction false} SlotWellFormed(x: Slot)
    requires StandardSlot(x)
    ensures WellFormedSlot(x)
    decreases x, 0
  {
    StandardWellFormed(x.doc);
  }

  lemma LiteralWellFormed(l: JsonString.Literal)
    requires StandardLiteral(l)
    ensures JsonString.Readable(l)
  {
    JsonString.StandardReadable(l.pieces);
    assert l == JsonString.Literal(JsonString.Text(l.pieces), l.pieces);
  }

  // ------------------------------------------- what is printed is standard

  lemma {:induction false} DigitTextStandard(n: nat)
    ensures JsonNumber.Digits(JsonNumber.DigitText(n))
    ensures JsonNumber.DigitText(n)[0] == 0x30 ==> n == 0 && |JsonNumber.DigitText(n)| == 1
  {
    if n >= 10 { DigitTextStandard(n / 10); }
  }

  lemma {:induction false} EscapedStandard(s: Bytes)
    requires NulFree(s)
    ensures StandardLiteral(JsonRoundTrip.LiteralOf(s))
  {
    JsonString.EscapedPieces(s);
    PiecesPrintable(s);
  }

  lemma PiecePrintable(b: byte)
    requires b != 0
    ensures var p := JsonString.PieceOf(b); p.Plain? ==> p.b >= 0x20
  {
  }

  lemma {:induction false} PiecesPrintable(s: Bytes)
    requires NulFree(s)
    ensures var ps := JsonString.PiecesOf(s);
            forall i :: 0 <= i < |ps| && ps[i].Plain? ==> ps[i].b >= 0x20
  {
    if s != [] {
      PiecesPrintable(s[1..]);
      PiecePrintable(s[0]);
      hide JsonString.PieceOf;
      assert JsonString.PiecesOf(s) == [JsonString.PieceOf(s[0])] + JsonString.PiecesOf(s[1..]);
    }
  }

  lemma RimStandard(depth: nat, fmt: bool)
    ensures StandardBlank(JsonRoundTrip.Rim(depth, fmt)) && (!fmt ==> JsonRoundTrip.Rim(depth, fmt) == [])
  {
  }

  /** Every blank of the document is empty. */
  predicate Compact(d: Doc) {
    match d
    case DArray(inner, items) => inner == [] && forall i :: 0 <= i < |items| ==> CompactSlot(items[i])
    case DObject(inner, ms) =>
      inner == [] && forall i :: 0 <= i < |ms| ==> ms[i].lead == [] && ms[i].gap == [] && CompactSlot(ms[i].slot)
    case _ => true
  }

  predicate CompactSlot(x: Slot) { x.before == [] && x.after == [] && Compact(x.doc) }

  /** No number of the document has an exponent. */
  predicate Powerless(d: Doc) {
    match d
    case DNumber(n) => n.power == None
    case DArray(_, items) => forall i :: 0 <= i < |items| ==> Powerless(items[i].doc)
    case DObject(_, ms) => forall i :: 0 <= i < |ms| ==> Powerless(ms[i].slot.doc)
    case _ => true
  }

  /**
   What is printed is a document of the standard without exponents, formatted or not, and unformatted
   it holds no blank.
   */
  lemma {:induction false} PrintsStandard(v: Json, depth: nat, fmt: bool)
    requires Printable(v)
    ensures Standard(JsonRoundTrip.DocOf(v, depth, fmt)) && Powerless(JsonRoundTrip.DocOf(v, depth, fmt))
    ensures !fmt ==> Compact(JsonRoundTrip.DocOf(v, depth, fmt))
    decreases v, 1
  {
    match v
    case JNumber(r) => DigitTextStandard(if Saturate(r) < 0 then -Saturate(r) else Saturate(r));
    case JString(s) => EscapedStandard(s);
    case JArray(items) => SlotsStandard(items, true, depth + 1, fmt);
    case JObject(ms) =>
      RimStandard(depth, fmt);
      EntriesStandard(ms, depth + 1, fmt);
    case _ =>
  }

  lemma {:induction false} SlotsStandard(vs: seq<Json>, first: bool, depth: nat, fmt: bool)
    requires JsonRoundTrip.AllPrintable(vs)
    ensures var xs := JsonRoundTrip.SlotsOf(vs, first, depth, fmt);
            && StandardSlots(xs) && (forall i :: 0 <= i < |xs| ==> Powerless(xs[i].doc))
            && (!fmt ==> forall i :: 0 <= i < |xs| ==> CompactSlot(xs[i]))
    decreases vs, 0
  {
    hide Standard, Powerless, Compact, Printable, JsonRoundTrip.DocOf;
    if vs != [] {
      PrintsStandard(vs[0], depth, fmt);
      SlotsStandard(vs[1..], false, depth, fmt);
    }
  }

  lemma {:induction false} EntriesStandard(ms: seq<Member>, depth: nat, fmt: bool)
    requires JsonRoundTrip.AllMembers(ms) && depth > 0
    ensures var xs := JsonRoundTrip.EntriesOf(ms, depth, fmt);
            && StandardEntries(xs) && (forall i :: 0 <= i < |xs| ==> Powerless(xs[i].slot.doc))
            && (!fmt ==> forall i :: 0 <= i < |xs| ==> xs[i].lead == [] && xs[i].gap == [] && CompactSlot(xs[i].slot))
    decreases ms, 0
  {
    if ms != [] {
      EntryStandard(ms[0], |ms| == 1, depth, fmt);
      EntriesStandard(ms[1..], depth, fmt);
      hide StandardEntry, Powerless, CompactSlot, Printable, JsonRoundTrip.EntryOf;
    }
  }

  lemma {:induction false} EntryStandard(m: Member, last: bool, depth: nat, fmt: bool)
    requires NulFree(m.key) && Printable(m.value) && depth > 0
    ensures var x := JsonRoundTrip.EntryOf(m, last, depth, fmt);
            && StandardEntry(x) && Powerless(x.slot.doc)
            && (!fmt ==> x.lead == [] && x.gap == [] && CompactSlot(x.slot))
    decreases m, 2
  {
    PrintsStandard(m.value, depth, fmt);
    EscapedStandard(m.key);
    RimStandard(depth, fmt);
    RimStandard(depth - 1, fmt);
    hide Standard, Powerless, Compact, Printable, StandardLiteral;
    hide JsonRoundTrip.DocOf, JsonRoundTrip.LiteralOf, JsonRoundTrip.Rim;
  }

  // ------------------------------------------- and as short as can be

  lemma {:induction false} DecimalBound(ds: Bytes)
    requires JsonNumber.Digits(ds)
    ensures JsonNumber.Decimal(ds) < JsonNumber.PowNat(|ds|)
  {
    if ds != [] { DecimalBound(ds[..|ds| - 1]); }
  }

  lemma {:induction false} PowNatSum(a: nat, b: nat)
    ensures JsonNumber.PowNat(a + b) == JsonNumber.PowNat(a) * JsonNumber.PowNat(b)
  {
    if a > 0 {
      PowNatSum(a - 1, b);
      TenTimes(JsonNumber.PowNat(a - 1), JsonNumber.PowNat(b));
    }
  }

  lemma TenTimes(x: nat, y: nat)
    ensures (10 * x) * y == 10 * (x * y)
  {
  }

  lemma {:induction false} ScaleIsPower(k: nat)
    ensures JsonDecimal.Scale(k) == JsonNumber.PowNat(k)
  {
    hide JsonDecimal.Scale;
    JsonDecimal.ScaleStep(0);
    if k > 0 {
      ScaleIsPower(k - 1);
      JsonDecimal.ScaleStep(k - 1);
    }
  }

  lemma Below(x: nat, a: nat, s: nat)
    requires s > 0 && x * s < a * s
    ensures x < a
  {
    if x >= a { AtLeast(a, x, s); }
  }

  lemma AtLeast(a: nat, x: nat, s: nat)
    requires a <= x
    ensures a * s <= x * s
  {
    assert x * s == a * s + (x - a) * s;
  }

  lemma SignsAgree(n: int, negative: bool, d: nat, s: nat)
    requires s > 0 && n as real * s as real == JsonDecimal.Signed(negative, d)
    ensures (if n < 0 then -n else n) * s == d && (n < 0 ==> negative)
  {
    assert n as real * s as real == (n * s) as real;
    assert n * s == if negative then 0 - d else d;
    if n < 0 {
      assert (-n) * s == -(n * s);
      assert (-n) * s > 0;
    } else {
      assert n * s >= 0;
    }
  }

  lemma Enough(n: int, negative: bool, d: nat, a: nat, s: nat)
    requires s > 0 && n as real * s as real == JsonDecimal.Signed(negative, d) && d < a * s
    ensures (if n < 0 then -n else n) < a && (n < 0 ==> negative)
  {
    hide JsonDecimal.Signed;
    SignsAgree(n, negative, d, s);
    Below(if n < 0 then -n else n, a, s);
  }

  /** The digits before the point are at least as many as the integer part needs. */
  lemma WholeIsEnough(n: int, m: Number)
    requires WellFormedNumber(m) && m.power == None && NumberValue(m) == n as real
    ensures (if n < 0 then -n else n) < JsonNumber.PowNat(|m.whole|) && (n < 0 ==> m.negative)
  {
    hide JsonNumber.Decimal, NumberValue, JsonDecimal.Scale, JsonNumber.PowNat, JsonDecimal.Signed;
    var k := |m.fraction|;
    JsonDecimal.PlainValue(m);
    JsonDecimal.ScalePositive(k);
    ScaleIsPower(k);
    DecimalBound(m.whole + m.fraction);
    PowNatSum(|m.whole|, k);
    Enough(n, m.negative, JsonNumber.Decimal(m.whole + m.fraction), JsonNumber.PowNat(|m.whole|), JsonNumber.PowNat(k));
  }

  /** The text `%d` writes is the shortest of all the numbers without exponent that are worth as much. */
  lemma ShortestInteger(n: int, m: Number)
    requires WellFormedNumber(m) && m.power == None && NumberValue(m) == n as real
    ensures |JsonNumber.IntText(n)| <= |NumberText(m)|
  {
    hide JsonNumber.DigitText, JsonNumber.PowNat, NumberValue;
    WholeIsEnough(n, m);
    var x: nat := if n < 0 then -n else n;
    if m.whole == [] {
      NothingBefore();
      JsonNumber.DigitTextLength(x, 1, 10);
    } else {
      JsonNumber.DigitTextLength(x, |m.whole|, JsonNumber.PowNat(|m.whole|));
    }
  }

  lemma NothingBefore()
    ensures JsonNumber.PowNat(0) == 1 && JsonNumber.PowNat(1) == 10
  {
  }

  // ---------------------------------------------------------------- strings

  lemma {:induction false} EscapeJoins(a: Bytes, b: Bytes)
    ensures JsonString.Escape(a + b) == JsonString.Escape(a) + JsonString.Escape(b)
  {
    if a == [] {
      assert a + b == b;
    } else {
      EscapeJoins(a[1..], b);
      assert (a + b)[1..] == a[1..] + b;
    }
  }

  /** Cutting a string at its first NUL makes its escaped text no longer. */
  lemma CutIsShorter(m: Bytes)
    ensures |JsonString.Escape(CString(m))| <= |JsonString.Escape(m)|
  {
    var c := CString(m);
    assert m == c + m[|c|..];
    EscapeJoins(c, m[|c|..]);
  }

  lemma {:induction false} HighBytes(u: Bytes)
    requires forall i :: 0 <= i < |u| ==> u[i] >= 0x80
    ensures JsonString.Escape(u) == u
  {
    if u != [] { HighBytes(u[1..]); }
  }

  lemma OneByte(b: byte)
    ensures JsonString.Escape([b]) == JsonString.EscapeByte(b) && |JsonString.EscapeByte(b)| <= 6
  {
    assert JsonString.EscapeByte(b) + JsonString.Escape([]) == JsonString.EscapeByte(b);
  }

  lemma Utf8High(cp: nat)
    requires cp < 0x110000
    ensures cp >= 0x80 ==> forall i :: 0 <= i < |JsonString.Utf8(cp)| ==> JsonString.Utf8(cp)[i] >= 0x80
    ensures cp < 0x80 ==> JsonString.Utf8(cp) == [cp]
    ensures cp < 0x10000 ==> |JsonString.Utf8(cp)| <= 3
  {
  }

  lemma CodePointShort(cp: nat, room: nat)
    requires cp < 0x110000 && room >= (if cp < 0x10000 then 6 else 12)
    ensures |JsonString.Escape(JsonString.Utf8(cp))| <= room
  {
    Utf8High(cp);
    hide JsonString.Utf8, JsonString.Escape;
    if cp < 0x80 { OneByte(cp); } else { HighBytes(JsonString.Utf8(cp)); }
  }

  /** No piece of the standard spells what it means in fewer bytes than the printer. */
  lemma PieceNotShorter(p: JsonString.Piece)
    requires JsonString.WellFormed(p) && (p.Plain? ==> p.b >= 0x20)
    ensures JsonString.Loose(p) && |JsonString.Escape(JsonString.PieceMeaning(p))| <= |JsonString.PieceText(p)|
  {
    JsonString.StandardLoose(p);
    hide JsonString.Utf8, JsonString.Hex4, JsonString.HexNumber, JsonString.Hex4Valid;
    match p
    case Plain(b) => OneByte(b);
    case Short(l) => OneByte(JsonString.ShortMeaning(l).value);
    case Unit(h) => CodePointShort(JsonString.Hex4(h, 0), 6);
    case Pair(h, l) =>
      CodePointShort((JsonString.Hex4(h, 0) - 0xD800) * 0x400 + (JsonString.Hex4(l, 0) - 0xDC00) + 0x10000, 12);
  }

  lemma {:induction false} PiecesNotShorter(ps: seq<JsonString.Piece>)
    requires JsonString.AllWellFormed(ps) && JsonString.AllLoose(ps)
    requires forall i :: 0 <= i < |ps| && ps[i].Plain? ==> ps[i].b >= 0x20
    ensures |JsonString.Escape(JsonString.Meaning(ps))| <= |JsonString.Text(ps)|
  {
    hide JsonString.WellFormed, JsonString.Loose, JsonString.PieceMeaning, JsonString.PieceText;
    if ps == [] {
      assert JsonString.Escape([]) == [];
    } else {
      PieceNotShorter(ps[0]);
      PiecesNotShorter(ps[1..]);
      EscapeJoins(JsonString.PieceMeaning(ps[0]), JsonString.Meaning(ps[1..]));
    }
  }

  /** A printed string is no longer than any literal of the standard that denotes it. */
  lemma ShortestString(s: Bytes, l: JsonString.Literal)
    requires StandardLiteral(l) && JsonString.Readable(l) && JsonString.Denoted(l) == s
    ensures |JsonString.Quoted(s)| <= |JsonString.LiteralText(l)|
  {
    hide JsonString.Escape, JsonString.Meaning, JsonString.Text, CString, JsonString.AllWellFormed;
    PiecesNotShorter(l.pieces);
    CutIsShorter(JsonString.Meaning(l.pieces));
  }

  // ------------------------------------------------------------- documents

  /** The unformatted text is no longer than any document of the standard of the same value without exponents. */
  lemma {:induction false} ShortestText(v: Json, d: Doc, depth: nat)
    requires Printable(v) && Standard(d) && Powerless(d) && WellFormed(d) && Value(d) == v
    ensures |Print(v, depth, false)| <= |Text(d)|
    decreases v, 1
  {
    match d
    case DNumber(n) =>
      hide Standard, Powerless;
      ShortestInteger(Saturate(v.r), n);
    case DString(l) => ShortestString(v.s, l);
    case DArray(inner, items) => ShortestItems(v.items, items, depth + 1);
    case DObject(inner, ms) => ShortestMembers(v.members, ms, depth + 1);
    case _ =>
  }

  lemma {:induction false} ShortestItems(vs: seq<Json>, xs: seq<Slot>, depth: nat)
    requires (forall i :: 0 <= i < |vs| ==> Printable(vs[i])) && StandardSlots(xs) && AllSlots(xs) && Values(xs) == vs
    requires forall i :: 0 <= i < |xs| ==> Powerless(xs[i].doc)
    ensures |PrintItems(vs, depth, false)| <= |ItemsText(xs)|
    decreases vs, 0
  {
    if vs != [] {
      assert vs[1..] == Values(xs[1..]);
      ShortestText(vs[0], xs[0].doc, depth);
      ShortestItems(vs[1..], xs[1..], depth);
      hide Print, Text, Value, Standard, Powerless, Printable, WellFormed;
    }
  }

  lemma {:induction false} ShortestMembers(vs: seq<Member>, ms: seq<Entry>, depth: nat)
    requires forall i :: 0 <= i < |vs| ==> NulFree(vs[i].key) && Printable(vs[i].value)
    requires StandardEntries(ms) && AllEntries(ms) && Members(ms) == vs
    requires forall i :: 0 <= i < |ms| ==> Powerless(ms[i].slot.doc)
    ensures |PrintMembers(vs, depth, false)| <= |MembersText(ms)|
    decreases vs, 0
  {
    if vs != [] {
      assert vs[1..] == Members(ms[1..]);
      ShortestMember(vs[0], |vs| == 1, ms[0], depth);
      ShortestMembers(vs[1..], ms[1..], depth);
      hide PrintMember, EntryText, MemberOf, StandardEntry, Powerless, Printable, WellFormedEntry;
    }
  }

  lemma {:induction false} ShortestMember(m: Member, last: bool, x: Entry, depth: nat)
    requires Printable(m.value) && StandardEntry(x) && WellFormedEntry(x) && MemberOf(x) == m && Powerless(x.slot.doc)
    ensures |PrintMember(m, last, depth, false)| <= |EntryText(x)| + if last then 0 else 1
    decreases m, 2
  {
    ShortestString(m.key, x.key);
    ShortestText(m.value, x.slot.doc, depth);
    hide Print, Text, Value, Standard, Powerless, Printable, WellFormed, StandardLiteral;
    hide JsonString.Quoted, JsonString.LiteralText;
  }
}
