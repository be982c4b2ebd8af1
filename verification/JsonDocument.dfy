/**
 The grammar of JSON documents (section 2 of RFC 8259) written as data: a document with every blank,
 number and escape spelled out, its text, and the value it denotes. As the parser does, the grammar
 allows any byte up to 32 between tokens, leading zeros, and raw control bytes in strings. Numbers
 are read here, everything else in `JsonReading`.
 */
module JsonDocument {
  import opened Bytes
  import opened JsonValue
  import opened JsonText
  import opened JsonGrammar
  import JsonNumber
  import JsonString

  predicate Blank(t: Bytes) { forall i :: 0 <= i < |t| ==> t[i] <= 32 }

  // ---------------------------------------------------------------- numbers

  /** `sign` is empty, a plus or a minus. */
  datatype Power = Power(letter: byte, sign: Bytes, digits: Bytes)

  /** Section 6 of RFC 8259, and what `strtod` takes beyond it: digits may be missing on one side of the point. */
  datatype Number = Number(negative: bool, whole: Bytes, point: bool, fraction: Bytes, power: Option<Power>)

  predicate WellFormedNumber(n: Number) {
    && JsonNumber.Digits(n.whole) && JsonNumber.Digits(n.fraction) && (n.whole != [] || n.fraction != [])
    && (n.fraction != [] ==> n.point) && (n.whole == [] ==> n.negative)
    && (n.power.Some? ==> WellFormedPower(n.power.value))
  }

  predicate WellFormedPower(p: Power) {
    (p.letter == 0x65 || p.letter == 0x45) && (p.sign == [] || p.sign == [0x2B] || p.sign == [0x2D]) && p.digits != []
      && JsonNumber.Digits(p.digits)
  }

  function FractionText(point: bool, f: Bytes): Bytes { if point then [0x2E] + f else [] }

  function PowerText(p: Option<Power>): Bytes {
    if p.None? then [] else [p.value.letter] + p.value.sign + p.value.digits
  }

  function NumberText(n: Number): Bytes {
    (if n.negative then [0x2D] else []) + n.whole + FractionText(n.point, n.fraction) + PowerText(n.power)
  }

  function PowerValue(p: Option<Power>): int
    requires p.Some? ==> WellFormedPower(p.value)
  {
    if p.None? then 0
    else (if p.value.sign == [0x2D] then -1 else 1) * JsonNumber.Decimal(p.value.digits)
  }

  function NumberValue(n: Number): real
    requires WellFormedNumber(n)
  {
    var m := JsonNumber.Decimal(n.whole + n.fraction) as real * JsonNumber.Pow10(PowerValue(n.power) - |n.fraction|);
    if n.negative then -m else m
  }

  // -------------------------------------------------------------- documents

  datatype Doc =
    | DNull
    | DBool(b: bool)
    | DNumber(n: Number)
    | DString(literal: JsonString.Literal)
    | DArray(inner: Bytes, items: seq<Slot>)
    | DObject(inner: Bytes, members: seq<Entry>)

  /** An element with the blanks around it. */
  datatype Slot = Slot(before: Bytes, doc: Doc, after: Bytes)

  /** A member: blanks, key, blanks, colon, and the value with its blanks. */
  datatype Entry = Entry(lead: Bytes, key: JsonString.Literal, gap: Bytes, slot: Slot)

  predicate WellFormed(d: Doc) {
    match d
    case DNumber(n) => WellFormedNumber(n)
    case DString(l) => JsonString.Readable(l)
    case DArray(inner, items) => Blank(inner) && forall i :: 0 <= i < |items| ==> WellFormedSlot(items[i])
    case DObject(inner, ms) => Blank(inner) && forall i :: 0 <= i < |ms| ==> WellFormedEntry(ms[i])
    case _ => true
  }

  predicate WellFormedSlot(x: Slot) { Blank(x.before) && Blank(x.after) && WellFormed(x.doc) }

  predicate WellFormedEntry(m: Entry) {
    Blank(m.lead) && JsonString.Readable(m.key) && Blank(m.gap) && WellFormedSlot(m.slot)
  }

  predicate AllSlots(items: seq<Slot>) { forall i :: 0 <= i < |items| ==> WellFormedSlot(items[i]) }

  predicate AllEntries(ms: seq<Entry>) { forall i :: 0 <= i < |ms| ==> WellFormedEntry(ms[i]) }

  function Text(d: Doc): (t: Bytes)
    requires WellFormed(d)
    decreases d, 1
  {
    match d
    case DNull => NULL_TEXT
    case DBool(b) => if b then TRUE_TEXT else FALSE_TEXT
    case DNumber(n) => NumberText(n)
    case DString(l) => JsonString.LiteralText(l)
    case DArray(inner, items) => [LBRACKET] + ArrayBody(inner, items) + [RBRACKET]
    case DObject(inner, ms) => [LBRACE] + ObjectBody(inner, ms) + [RBRACE]
  }

  function SlotText(x: Slot): Bytes
    requires WellFormedSlot(x)
    decreases x, 2
  {
    x.before + (Text(x.doc) + x.after)
  }

  function ItemsText(items: seq<Slot>): Bytes
    requires AllSlots(items)
    decreases items, 0
  {
    if items == [] then []
    else if |items| == 1 then SlotText(items[0])
    else SlotText(items[0]) + ([COMMA] + ItemsText(items[1..]))
  }

  function EntryText(m: Entry): Bytes
    requires WellFormedEntry(m)
    decreases m, 3
  {
    m.lead + (JsonString.LiteralText(m.key) + (m.gap + ([COLON] + SlotText(m.slot))))
  }

  function MembersText(ms: seq<Entry>): Bytes
    requires AllEntries(ms)
    decreases ms, 0
  {
    if ms == [] then []
    else if |ms| == 1 then EntryText(ms[0])
    else EntryText(ms[0]) + ([COMMA] + MembersText(ms[1..]))
  }

  function ArrayBody(inner: Bytes, items: seq<Slot>): Bytes
    requires AllSlots(items)
    decreases items, 1
  {
    if items == [] then inner else ItemsText(items)
  }

  function ObjectBody(inner: Bytes, ms: seq<Entry>): Bytes
    requires AllEntries(ms)
    decreases ms, 1
  {
    if ms == [] then inner else MembersText(ms)
  }

  /** What the document denotes; a string ends at its first NUL, as C strings do. */
  function Value(d: Doc): Json
    requires WellFormed(d)
    decreases d, 1
  {
    match d
    case DNull => JNull
    case DBool(b) => JBool(b)
    case DNumber(n) => JNumber(NumberValue(n))
    case DString(l) => JString(JsonString.Denoted(l))
    case DArray(_, items) => JArray(Values(items))
    case DObject(_, ms) => JObject(Members(ms))
  }

  function Values(items: seq<Slot>): (vs: seq<Json>)
    requires AllSlots(items)
    ensures |vs| == |items|
    decreases items, 0
  {
    if items == [] then [] else [Value(items[0].doc)] + Values(items[1..])
  }

  function Members(ms: seq<Entry>): (js: seq<Member>)
    requires AllEntries(ms)
    ensures |js| == |ms|
    decreases ms, 0
  {
    if ms == [] then [] else [MemberOf(ms[0])] + Members(ms[1..])
  }

  function MemberOf(m: Entry): Member
    requires WellFormedEntry(m)
    decreases m, 3
  {
    assert WellFormedSlot(m.slot);
    Member(JsonString.Denoted(m.key), Value(m.slot.doc))
  }

  // -------------------------------------------------------- reading numbers

  lemma DigitsAt(t: Bytes, i: nat, ds: Bytes)
    requires At(t, i, ds) && JsonNumber.Digits(ds)
    requires i + |ds| < |t| ==> !JsonNumber.Digit(t[i + |ds|])
    ensures JsonNumber.DigitsEnd(t, i) == i + |ds| && t[i..i + |ds|] == ds
  {
    forall j | i <= j < i + |ds| ensures JsonNumber.Digit(t[j]) { AtByte(t, i, ds, j - i); }
    JsonNumber.DigitsEndAt(t, i, i + |ds|);
  }

  lemma PowerParts(t: Bytes, b: nat, q: Power)
    requires WellFormedPower(q) && At(t, b, [q.letter] + q.sign + q.digits) && |t| == b + 1 + |q.sign| + |q.digits|
    ensures var k := b + 1 + |q.sign|;
            && k < |t| && t[b] == q.letter && (q.sign != [] ==> t[b + 1] == q.sign[0])
            && (q.sign == [] ==> t[b + 1] != 0x2B && t[b + 1] != 0x2D)
            && JsonNumber.DigitsEnd(t, k) == |t| && t[k..|t|] == q.digits
  {
    hide At, JsonNumber.DigitsEnd;
    var k := b + 1 + |q.sign|;
    AtSplit3(t, b, [q.letter], q.sign, q.digits);
    AtByte(t, b, [q.letter], 0);
    AtByte(t, k, q.digits, 0);
    if q.sign != [] { AtByte(t, b + 1, q.sign, 0); }
    DigitsAt(t, k, q.digits);
  }

  lemma PowerReads(t: Bytes, b: nat, p: Option<Power>)
    requires (p.Some? ==> WellFormedPower(p.value)) && At(t, b, PowerText(p)) && |t| == b + |PowerText(p)|
    ensures JsonNumber.Exponent(t, b) == (PowerValue(p), |t|)
    ensures b < |t| ==> !JsonNumber.Digit(t[b]) && t[b] != 0x2E
  {
    hide At, JsonNumber.DigitsEnd, JsonNumber.Decimal;
    if p.Some? {
      PowerParts(t, b, p.value);
    }
  }

  lemma FractionReads(t: Bytes, a: nat, point: bool, f: Bytes, p: Option<Power>)
    requires JsonNumber.Digits(f) && (f != [] ==> point) && (p.Some? ==> WellFormedPower(p.value))
    requires At(t, a, FractionText(point, f)) && At(t, a + |FractionText(point, f)|, PowerText(p))
    requires |t| == a + |FractionText(point, f)| + |PowerText(p)|
    ensures a < |t| ==> !JsonNumber.Digit(t[a])
    ensures point <==> a < |t| && t[a] == 0x2E
    ensures var from := if point then a + 1 else a;
            JsonNumber.DigitsEnd(t, from) == from + |f| == a + |FractionText(point, f)| && At(t, from, f)
  {
    hide At, PowerText, WellFormedPower, JsonNumber.Exponent, JsonNumber.DigitsEnd, JsonNumber.Digits, PowerValue;
    PowerReads(t, a + |FractionText(point, f)|, p);
    if point {
      AtSplit(t, a, [0x2E], f);
      AtByte(t, a, [0x2E], 0);
      DigitsAt(t, a + 1, f);
    } else {
      JsonNumber.DigitsEndAt(t, a, a);
    }
  }

  lemma NumberParts(n: Number, t: Bytes, i: nat, a: nat, b: nat)
    requires t == NumberText(n) && i == (if n.negative then 1 else 0)
    requires a == i + |n.whole| && b == a + |FractionText(n.point, n.fraction)|
    ensures At(t, i, n.whole) && At(t, a, FractionText(n.point, n.fraction)) && At(t, b, PowerText(n.power))
    ensures |t| == b + |PowerText(n.power)| && (n.negative ==> t[0] == 0x2D)
    ensures !n.negative && n.whole != [] ==> t[0] == n.whole[0]
  {
  }

  lemma PartsEnd(n: Number, t: Bytes, i: nat, a: nat, b: nat)
    requires WellFormedNumber(n) && a == i + |n.whole| && b == a + |FractionText(n.point, n.fraction)|
    requires At(t, i, n.whole) && At(t, a, FractionText(n.point, n.fraction)) && At(t, b, PowerText(n.power))
    requires |t| == b + |PowerText(n.power)|
    ensures var f := if n.point then a + 1 else a;
            && JsonNumber.DigitsEnd(t, i) == a && t[i..a] == n.whole
            && f == (if a < |t| && t[a] == 0x2E then a + 1 else a)
            && JsonNumber.DigitsEnd(t, f) == b && At(t, f, n.fraction) && b == f + |n.fraction|
            && JsonNumber.Exponent(t, b) == (PowerValue(n.power), |t|)
  {
    hide PowerText, FractionText, PowerValue, WellFormedPower, JsonNumber.Exponent, JsonNumber.DigitsEnd;
    FractionReads(t, a, n.point, n.fraction, n.power);
    PowerReads(t, b, n.power);
    DigitsAt(t, i, n.whole);
  }

  /** The number that `strtod` reads when its scans of `t` end at `a`, `b` and `e`. */
  lemma PartsRead(n: Number, t: Bytes, i: nat, a: nat, f: nat, b: nat, e: nat)
    requires WellFormedNumber(n) && i == (if n.negative then 1 else 0) && i <= a <= f <= b <= e <= |t|
    requires t != [] && (n.negative <==> t[0] == 0x2D) && t[0] != 0x2B
    requires JsonNumber.DigitsEnd(t, i) == a && t[i..a] == n.whole
    requires f == if a < |t| && t[a] == 0x2E then a + 1 else a
    requires JsonNumber.DigitsEnd(t, f) == b && t[f..b] == n.fraction
    requires JsonNumber.Exponent(t, b) == (PowerValue(n.power), e)
    ensures JsonNumber.StrToD(t) == (NumberValue(n), e)
  {
    hide JsonNumber.Decimal, JsonNumber.Pow10, JsonNumber.Exponent, JsonNumber.DigitsEnd, PowerValue, WellFormedPower;
    assert t[i..a] + t[f..b] == n.whole + n.fraction;
    assert i == if t != [] && (t[0] == 0x2B || t[0] == 0x2D) then 1 else 0;
    var x := JsonNumber.Exponent(t, b);
    var m := JsonNumber.Decimal(t[i..a] + t[f..b]) as real * JsonNumber.Pow10(x.0 - (b - f));
    assert i == 1 && t[0] == 0x2D ==> JsonNumber.StrToD(t).0 == -m;
    assert !(i == 1 && t[0] == 0x2D) ==> JsonNumber.StrToD(t).0 == m;
    assert NumberValue(n) == if n.negative then -m else m;
  }

  /** `strtod` reads the whole of a number's text as the number. */
  lemma NumberReads(n: Number)
    requires WellFormedNumber(n)
    ensures JsonNumber.StrToD(NumberText(n)) == (NumberValue(n), |NumberText(n)|)
  {
    var t, i := NumberText(n), if n.negative then 1 else 0;
    var a := i + |n.whole|;
    var f, b := if n.point then a + 1 else a, a + |FractionText(n.point, n.fraction)|;
    NumberParts(n, t, i, a, b);
    PartsEnd(n, t, i, a, b);
    FirstDigit(n);
    hide *;
    PartsRead(n, t, i, a, f, b, |t|);
  }

  lemma FirstDigit(n: Number)
    requires WellFormedNumber(n)
    ensures n.whole != [] ==> JsonNumber.Digit(n.whole[0]) && n.whole[0] != 0x2D && n.whole[0] != 0x2B
  {
  }

  lemma DigitsFound(t: Bytes, i: nat, a: nat, f: nat, b: nat)
    requires i <= |t| && a == JsonNumber.DigitsEnd(t, i) && t != [] && i == (if t[0] == 0x2D then 1 else 0)
    requires f == (if a < |t| && t[a] == 0x2E then a + 1 else a) && b == JsonNumber.DigitsEnd(t, f)
    requires StartsNumber(t[0]) && JsonNumber.StrToD(t).1 > 0
    ensures JsonNumber.Digits(t[i..a]) && JsonNumber.Digits(t[f..b])
    ensures (a > i || b > f) && (a == i ==> t[0] == 0x2D) && (!(a < |t| && t[a] == 0x2E) ==> b == f)
  {
    hide JsonNumber.Decimal, JsonNumber.Pow10, JsonNumber.Exponent;
  }

  lemma TextTaken(n: Number, t: Bytes, i: nat, a: nat, f: nat, b: nat)
    requires i <= a <= f <= b <= |t| && n.whole == t[i..a] && n.fraction == t[f..b]
    requires i == (if n.negative then 1 else 0) && (n.negative ==> t[0] == 0x2D)
    requires f == (if n.point then a + 1 else a) && (n.point ==> t[a] == 0x2E) && (!n.point ==> b == f)
    requires At(t, b, PowerText(n.power))
    ensures At(t, 0, NumberText(n)) && |NumberText(n)| == b + |PowerText(n.power)|
  {
    hide PowerText;
    var s: Bytes := if n.negative then [0x2D] else [];
    assert t[0..a] == s + n.whole;
    assert t[a..b] == FractionText(n.point, n.fraction);
    assert At(t, 0, s + n.whole) && At(t, a, FractionText(n.point, n.fraction));
    AtJoin(t, 0, s + n.whole, FractionText(n.point, n.fraction));
    AtJoin(t, 0, s + n.whole + FractionText(n.point, n.fraction), PowerText(n.power));
  }

  lemma ExponentFound(t: Bytes, b: nat, e: nat, k: nat)
    requires b <= |t| && e == JsonNumber.Exponent(t, b).1 && e > b
    requires b + 1 < |t| && k == if t[b + 1] == 0x2B || t[b + 1] == 0x2D then b + 2 else b + 1
    ensures (t[b] == 0x65 || t[b] == 0x45) && k < e <= |t| && JsonNumber.Digits(t[k..e])
    ensures JsonNumber.Exponent(t, b).0 == (if t[b + 1] == 0x2D then -1 else 1) * JsonNumber.Decimal(t[k..e])
  {
    hide JsonNumber.Decimal;
  }

  lemma ExponentLong(t: Bytes, b: nat)
    requires b <= |t|
    ensures JsonNumber.Exponent(t, b).1 > b ==> b + 1 < |t|
    ensures JsonNumber.Exponent(t, b).1 == b ==> JsonNumber.Exponent(t, b).0 == 0
  {
    hide JsonNumber.Decimal;
  }

  /** The exponent `strtod` found at `b`, if any. */
  lemma PowerTaken(t: Bytes, b: nat) returns (p: Option<Power>)
    requires b <= |t|
    ensures p.Some? ==> WellFormedPower(p.value)
    ensures JsonNumber.Exponent(t, b) == (PowerValue(p), b + |PowerText(p)|)
    ensures At(t, b, PowerText(p))
  {
    hide JsonNumber.Exponent, JsonNumber.Decimal, JsonNumber.Digits;
    var e := JsonNumber.Exponent(t, b).1;
    ExponentLong(t, b);
    p := None;
    if e > b {
      var k := if t[b + 1] == 0x2B || t[b + 1] == 0x2D then b + 2 else b + 1;
      ExponentFound(t, b, e, k);
      p := Some(Power(t[b], t[b + 1..k], t[k..e]));
      assert [t[b]] + t[b + 1..k] + t[k..e] == t[b..e];
      assert t[b + 1..k] == if k == b + 1 then [] else [t[b + 1]];
    }
  }

  /** Whatever number `strtod` finds at a byte that starts one is a number of the grammar. */
  lemma NumberTaken(t: Bytes) returns (n: Number)
    requires t != [] && StartsNumber(t[0]) && JsonNumber.StrToD(t).1 > 0
    ensures WellFormedNumber(n) && At(t, 0, NumberText(n))
    ensures JsonNumber.StrToD(t) == (NumberValue(n), |NumberText(n)|)
  {
    hide At, NumberText, NumberValue, JsonNumber.StrToD, JsonNumber.Exponent, JsonNumber.DigitsEnd, JsonNumber.Digits;
    hide PowerValue, PowerText, WellFormedPower;
    var i := if t[0] == 0x2D then 1 else 0;
    var a := JsonNumber.DigitsEnd(t, i);
    var point := a < |t| && t[a] == 0x2E;
    var f := if point then a + 1 else a;
    var b := JsonNumber.DigitsEnd(t, f);
    var p := PowerTaken(t, b);
    n := Number(t[0] == 0x2D, t[i..a], point, t[f..b], p);
    DigitsFound(t, i, a, f, b);
    TextTaken(n, t, i, a, f, b);
    PartsRead(n, t, i, a, f, b, b + |PowerText(p)|);
  }

  lemma NumberBytes(n: Number)
    requires WellFormedNumber(n)
    ensures forall j :: 0 <= j < |NumberText(n)| ==> JsonNumber.NumberByte(NumberText(n)[j])
    ensures NumberText(n) != [] && StartsNumber(NumberText(n)[0])
  {
    forall b | b in PowerText(n.power) ensures JsonNumber.NumberByte(b) {}
    forall b | b in FractionText(n.point, n.fraction) ensures JsonNumber.NumberByte(b) {}
    forall b | b in n.whole ensures JsonNumber.NumberByte(b) {}
    FirstDigit(n);
    hide PowerText, FractionText;
    assert forall b :: b in NumberText(n) ==> JsonNumber.NumberByte(b);
  }

  /** The byte after a value must not extend a number. */
  predicate Stop(s: Bytes, e: nat) {
    e <= |s| && (e < |s| ==> !JsonNumber.NumberByte(s[e]))
  }

  lemma TokenIs(s: Bytes, off: nat, t: Bytes)
    requires At(s, off, t) && Stop(s, off + |t|) && forall j :: 0 <= j < |t| ==> JsonNumber.NumberByte(t[j])
    ensures JsonNumber.TokenEnd(s, off) == off + |t| && s[off..off + |t|] == t
  {
    forall j | off <= j < off + |t| ensures JsonNumber.NumberByte(s[j]) { AtByte(s, off, t, j - off); }
    JsonNumber.TokenEndAt(s, off, off + |t|);
  }

  lemma NumberParses(n: Number, s: Bytes, off: nat, t: Bytes)
    requires WellFormedNumber(n) && t == NumberText(n) && At(s, off, t) && Stop(s, off + |t|)
    ensures StartsNumber(s[off]) && ParseNumber(s, off) == Ok(JNumber(NumberValue(n)), off + |t|)
  {
    hide NumberText, NumberValue, WellFormedNumber, JsonNumber.StrToD, JsonNumber.TokenEnd, Stop, At;
    NumberBytes(n);
    NumberReads(n);
    AtByte(s, off, t, 0);
    TokenIs(s, off, t);
  }
}
