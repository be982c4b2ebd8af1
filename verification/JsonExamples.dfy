/**
 The printed text spelled out: every kind of value with its punctuation, and one document line by line
 with what the parser makes of it.
 */
module JsonExamples {
  import opened Bytes
  import opened JsonValue
  import opened JsonText
  import opened JsonGrammar
  import JsonNumber
  import opened JsonString
  import JsonRoundTrip
  import D = JsonDocument
  import R = JsonReading

  lemma Scalars(depth: nat, fmt: bool)
    ensures Print(JNull, depth, fmt) == Ascii("null")
    ensures Print(JBool(true), depth, fmt) == Ascii("true") && Print(JBool(false), depth, fmt) == Ascii("false")
    ensures Print(JNumber(-20.0), depth, fmt) == Ascii("-20")
  {
    assert Truncate(-20.0) == -20;
    assert JsonNumber.DigitText(2) == [0x32] && JsonNumber.DigitText(20) == [0x32] + [0x30];
  }

  /** Empty containers; a formatted empty object takes two lines. */
  lemma EmptyText(depth: nat)
    ensures Print(JArray([]), depth, true) == Ascii("[]") == Print(JArray([]), depth, false)
    ensures Print(JObject([]), depth, true) == Ascii("{\n") + Tabs(depth) + Ascii("}")
    ensures Print(JObject([]), depth, false) == Ascii("{}")
  {
    assert Ascii("{\n") == [0x7B, 0x0A] && Ascii("}") == [0x7D];
  }

  /** The elements of a formatted array stand on one line. */
  lemma PairText(v: Json, w: Json, depth: nat)
    ensures Print(JArray([v, w]), depth, true) ==
              Ascii("[") + Print(v, depth + 1, true) + Ascii(", ") + Print(w, depth + 1, true) + Ascii("]")
    ensures Print(JArray([v, w]), depth, false) ==
              Ascii("[") + Print(v, depth + 1, false) + Ascii(",") + Print(w, depth + 1, false) + Ascii("]")
  {
    hide Print, PrintItems;
    PairItems(v, w, depth + 1, true);
    PairItems(v, w, depth + 1, false);
    ArrayOf([v, w], depth, true);
    ArrayOf([v, w], depth, false);
    assert Ascii(", ") == [0x2C, 0x20] && Ascii(",") == [0x2C] && Ascii("[") == [0x5B] && Ascii("]") == [0x5D];
  }

  lemma ArrayOf(vs: seq<Json>, depth: nat, fmt: bool)
    ensures Print(JArray(vs), depth, fmt) == [0x5B] + PrintItems(vs, depth + 1, fmt) + [0x5D]
  {
  }

  lemma PairItems(v: Json, w: Json, depth: nat, fmt: bool)
    ensures PrintItems([v, w], depth, fmt) == Print(v, depth, fmt) + Separator(fmt) + Print(w, depth, fmt)
  {
    hide Print;
    assert [v, w][1..] == [w];
  }

  /** One line for each member of a formatted object, one level deeper, with a tab after the colon. */
  lemma MembersText(m: Member, n: Member, depth: nat)
    ensures Print(JObject([m, n]), depth, true) ==
              Ascii("{\n")
              + Tabs(depth + 1) + Quoted(m.key) + Ascii(":\t") + Print(m.value, depth + 1, true) + Ascii(",\n")
              + Tabs(depth + 1) + Quoted(n.key) + Ascii(":\t") + Print(n.value, depth + 1, true) + Ascii("\n")
              + Tabs(depth) + Ascii("}")
    ensures Print(JObject([m, n]), depth, false) ==
              Ascii("{")
              + Quoted(m.key) + Ascii(":") + Print(m.value, depth + 1, false) + Ascii(",")
              + Quoted(n.key) + Ascii(":") + Print(n.value, depth + 1, false)
              + Ascii("}")
  {
    hide Print, Ascii, Tabs, Quoted;
    Punctuation();
    PairMembers(m, n, depth, true);
    PairMembers(m, n, depth, false);
    var k, l := Quoted(m.key), Quoted(n.key);
    var v, w := Print(m.value, depth + 1, true), Print(n.value, depth + 1, true);
    var v', w' := Print(m.value, depth + 1, false), Print(n.value, depth + 1, false);
    var t := Tabs(depth + 1);
    FiveAfter(Ascii("{\n"), t, k, Ascii(":\t"), v, Ascii(",\n"));
    FiveAfter(Ascii("{\n") + t + k + Ascii(":\t") + v + Ascii(",\n"), t, l, Ascii(":\t"), w, Ascii("\n"));
    FiveAfter(Ascii("{"), [], k, Ascii(":"), v', Ascii(","));
    FiveAfter(Ascii("{") + k + Ascii(":") + v' + Ascii(","), [], l, Ascii(":"), w', []);
  }

  lemma PairMembers(m: Member, n: Member, depth: nat, fmt: bool)
    ensures Print(JObject([m, n]), depth, fmt) ==
              Open(fmt)
              + (PrintMember(m, false, depth + 1, fmt) + PrintMember(n, true, depth + 1, fmt))
              + Close(depth, fmt)
  {
    hide PrintMember;
    assert [m, n][1..] == [n] && [n][1..] == [];
    assert PrintMembers([n], depth + 1, fmt) == PrintMember(n, true, depth + 1, fmt) + [];
  }

  lemma FiveAfter(x: Bytes, a: Bytes, b: Bytes, c: Bytes, d: Bytes, e: Bytes)
    ensures x + (a + b + c + d + e) == x + a + b + c + d + e
    ensures a == [] ==> x + a == x
    ensures e == [] ==> x + a + b + c + d + e == x + a + b + c + d
  {
  }

  lemma Punctuation()
    ensures Ascii("{\n") == [0x7B, 0x0A] && Ascii("{") == [0x7B] && Ascii("}") == [0x7D]
    ensures Ascii(":\t") == [0x3A, 0x09] && Ascii(":") == [0x3A]
    ensures Ascii(",\n") == [0x2C] + [0x0A] && Ascii("\n") == [] + [0x0A] && Ascii(",") == [0x2C] + []
  {
  }

  // ---------------------------------------------------------------- strings

  /** How each byte of a string is written, up to the hexadecimal digits of a control byte. */
  function Spelled(b: byte): Bytes {
    if b == '"' as int then Ascii("\\\"")
    else if b == '\\' as int then Ascii("\\\\")
    else if b == 8 then Ascii("\\b")
    else if b == 9 then Ascii("\\t")
    else if b == 10 then Ascii("\\n")
    else if b == 12 then Ascii("\\f")
    else if b == 13 then Ascii("\\r")
    else if b >= 32 then [b]
    else Ascii("\\u00") + [HEX[b / 16] as int, HEX[b % 16] as int]
  }

  const HEX: string := "0123456789abcdef"

  lemma SpelledIs(b: byte)
    ensures EscapeByte(b) == Spelled(b)
  {
    hide HexLetter;
    if b < 32 {
      HexLetters(b / 16);
      HexLetters(b % 16);
    }
  }

  lemma HexLetters(v: nat)
    requires v < 16
    ensures HexLetter(v) == HEX[v] as int
  {
  }

  lemma StringText(b: byte, s: Bytes)
    ensures Quoted([]) == Ascii("\"\"")
    ensures Quoted([b] + s) == Ascii("\"") + Spelled(b) + Escape(s) + Ascii("\"")
  {
    hide Spelled, EscapeByte;
    SpelledIs(b);
    assert ([b] + s)[1..] == s;
    assert Ascii("\"") == [0x22];
  }

  /** Code points of section 7 of RFC 3629 and the pair of section 7 of RFC 8259. */
  lemma CodePoints()
    ensures Utf8(0x41) == [0x41] && Utf8(0x391) == [0xCE, 0x91]
    ensures Utf8(0x2262) == [0xE2, 0x89, 0xA2] && Utf8(0x233B4) == [0xF0, 0xA3, 0x8E, 0xB4]
    ensures PieceMeaning(Pair(Ascii("D834"), Ascii("dd1e"))) == [0xF0, 0x9D, 0x84, 0x9E]
  {
    assert Hex4(Ascii("D834"), 0) == 0xD834 && Hex4(Ascii("dd1e"), 0) == 0xDD1E;
  }

  // -------------------------------------------------------------- a document

  const DOCUMENT: Json :=
    JObject([Member([0x61], JArray([JNumber(-20.0), JBool(true)])), Member([0x62], JNull)])

  lemma DocumentText()
    ensures Print(DOCUMENT, 0, false) == Ascii("{\"a\":[-20,true],") + Ascii("\"b\":null}")
  {
    hide Print, Quoted, Escape;
    Scalars(2, false);
    Scalars(1, false);
    PairText(JNumber(-20.0), JBool(true), 1);
    MembersText(DOCUMENT.members[0], DOCUMENT.members[1], 0);
    KeyTexts();
    Pieces();
  }

  lemma KeyTexts()
    ensures Quoted([0x61]) == Ascii("\"a\"") && Quoted([0x62]) == Ascii("\"b\"")
  {
  }

  lemma Pieces()
    ensures Ascii("[") + Ascii("-20") + Ascii(",") + Ascii("true") + Ascii("]") == Ascii("[-20,true]")
    ensures Ascii("{") + Ascii("\"a\"") + Ascii(":") + Ascii("[-20,true]") + Ascii(",")
            + Ascii("\"b\"") + Ascii(":") + Ascii("null") + Ascii("}")
            == Ascii("{\"a\":[-20,true],") + Ascii("\"b\":null}")
  {
    hide Ascii;
    ItemsPiece();
    FrontPiece();
    BackPiece();
    FiveAfter(Ascii("{\"a\":[-20,true],"), Ascii("\"b\""), Ascii(":"), Ascii("null"), Ascii("}"), []);
    assert Ascii("\"b\":null}") + [] == Ascii("\"b\":null}");
  }

  lemma ItemsPiece()
    ensures Ascii("[") + Ascii("-20") + Ascii(",") + Ascii("true") + Ascii("]") == Ascii("[-20,true]")
  {
  }

  lemma FrontPiece()
    ensures Ascii("{") + Ascii("\"a\"") + Ascii(":") + Ascii("[-20,true]") + Ascii(",") == Ascii("{\"a\":[-20,true],")
  {
  }

  lemma BackPiece()
    ensures Ascii("\"b\"") + Ascii(":") + Ascii("null") + Ascii("}") == Ascii("\"b\":null}")
  {
  }

  /** The document as text, read with its NUL. */
  lemma DocumentRead()
    ensures ParseText(Ascii("{\"a\":[-20,true],") + Ascii("\"b\":null}") + [0], true) == Parsed.Ok(DOCUMENT, 25)
  {
    hide Print, ParseText;
    DocumentText();
    assert Printable(DOCUMENT) && Nest(DOCUMENT) == 2;
    JsonRoundTrip.PrintParse(DOCUMENT, false, true);
  }

  /** A byte order mark, blanks around a number, and the NUL. */
  lemma MarkRead()
    ensures ParseText([0xEF, 0xBB, 0xBF, 0x20, 0x37, 0x0A, 0x00], true) == Parsed.Ok(JNumber(7.0), 6)
  {
    hide ParseText;
    var n := D.Number(false, [0x37], false, [], None);
    SevenIs(n);
    R.DocumentParses(true, [0x20], D.DNumber(n), [0x0A, 0x00], true);
    assert R.Input(true, [0x20], D.DNumber(n), [0x0A, 0x00]) == [0xEF, 0xBB, 0xBF, 0x20, 0x37, 0x0A, 0x00];
  }

  lemma SevenIs(n: D.Number)
    requires n == D.Number(false, [0x37], false, [], None)
    ensures D.WellFormed(D.DNumber(n)) && D.Value(D.DNumber(n)) == JNumber(7.0) && D.Text(D.DNumber(n)) == [0x37]
  {
    assert [0x37] + [] == [0x37] && JsonNumber.Decimal([]) == 0 && [0x37][..0] == [];
    assert JsonNumber.Decimal([0x37]) == 7;
    assert JsonNumber.Pow10(0) == 1.0;
  }
}
