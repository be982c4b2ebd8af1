/**
 JSON string literals: the two passes of `parse_string`, the escaping done by
 `print_string_ptr`, and an independent reading of section 7 of RFC 8259 and
 section 3 of RFC 3629 against which both are proved.
 */
module JsonString {
  import opened Bytes

  // ---------------------------------------------------------------- UTF-8

  /** A Unicode scalar value: not a surrogate. */
  predicate Scalar(cp: int) {
    0 <= cp < 0xD800 || 0xE000 <= cp < 0x110000
  }

  function Utf8(cp: nat): (u: Bytes)
    requires cp < 0x110000
    ensures 1 <= |u| <= 4
  {
    if cp < 0x80 then [cp]
    else if cp < 0x800 then [0xC0 + cp / 0x40, 0x80 + cp % 0x40]
    else if cp < 0x10000 then [0xE0 + cp / 0x1000, 0x80 + cp / 0x40 % 0x40, 0x80 + cp % 0x40]
    else [0xF0 + cp / 0x40000, 0x80 + cp / 0x1000 % 0x40, 0x80 + cp / 0x40 % 0x40, 0x80 + cp % 0x40]
  }

  predicate Continuation(b: byte) { 0x80 <= b < 0xC0 }

  function Payload(b: byte, mark: int): int { b - mark }

  /** The decoding table of section 3 of RFC 3629 (shortest form only). */
  function Utf8Decode(u: Bytes): Option<nat> {
    if |u| == 1 && u[0] < 0x80 then Some(u[0])
    else if |u| == 2 && 0xC2 <= u[0] < 0xE0 && Continuation(u[1]) then
      Some(Payload(u[0], 0xC0) * 0x40 + Payload(u[1], 0x80))
    else if |u| == 3 && 0xE0 <= u[0] < 0xF0 && Continuation(u[1]) && Continuation(u[2]) then
      var cp := Payload(u[0], 0xE0) * 0x1000 + Payload(u[1], 0x80) * 0x40 + Payload(u[2], 0x80);
      if cp >= 0x800 && Scalar(cp) then Some(cp) else None
    else if |u| == 4 && 0xF0 <= u[0] < 0xF5 && Continuation(u[1]) && Continuation(u[2]) && Continuation(u[3]) then
      var cp := Payload(u[0], 0xF0) * 0x40000 + Payload(u[1], 0x80) * 0x1000
                + Payload(u[2], 0x80) * 0x40 + Payload(u[3], 0x80);
      if 0x10000 <= cp < 0x110000 then Some(cp) else None
    else None
  }

  lemma Utf8RoundTrip(cp: nat)
    requires Scalar(cp)
    ensures Utf8Decode(Utf8(cp)) == Some(cp)
  {
    var a, b := cp / 0x40, cp / 0x1000;
    assert cp == a * 0x40 + cp % 0x40;
    Digits64(cp);
    if cp < 0x800 {
    } else if cp < 0x10000 {
      assert Utf8(cp) == [0xE0 + b, 0x80 + a % 0x40, 0x80 + cp % 0x40];
    } else {
      var c := cp / 0x40000;
      assert Utf8(cp) == [0xF0 + c, 0x80 + b % 0x40, 0x80 + a % 0x40, 0x80 + cp % 0x40];
    }
  }

  lemma Digits64(cp: nat)
    ensures cp / 0x40 == cp / 0x1000 * 0x40 + cp / 0x40 % 0x40
    ensures cp / 0x1000 == cp / 0x40000 * 0x40 + cp / 0x1000 % 0x40
  {
    assert cp / 0x40 / 0x40 == cp / 0x1000;
    assert cp / 0x1000 / 0x40 == cp / 0x40000;
  }

  // ------------------------------------------------------------ hex digits

  predicate HexDigit(b: byte) {
    0x30 <= b <= 0x39 || 0x41 <= b <= 0x46 || 0x61 <= b <= 0x66
  }

  function HexValue(b: byte): (v: nat)
    requires HexDigit(b)
    ensures v < 16
  {
    if b <= 0x39 then b - 0x30 else if b <= 0x46 then 10 + b - 0x41 else 10 + b - 0x61
  }

  /** The sixteen digits in order, in either case. */
  lemma HexTable(v: nat)
    requires v < 16
    ensures HexDigit("0123456789abcdef"[v] as int) && HexValue("0123456789abcdef"[v] as int) == v
    ensures HexDigit("0123456789ABCDEF"[v] as int) && HexValue("0123456789ABCDEF"[v] as int) == v
  {
  }

  /** The number written by the four hex digits at `i`. */
  function HexNumber(s: Bytes, i: nat): (v: nat)
    requires i + 4 <= |s| && Hex4Valid(s, i)
    ensures v < 0x10000
  {
    0x1000 * HexValue(s[i]) + 0x100 * HexValue(s[i + 1]) + 0x10 * HexValue(s[i + 2]) + HexValue(s[i + 3])
  }

  predicate Hex4Valid(s: Bytes, i: nat)
    requires i + 4 <= |s|
  {
    HexDigit(s[i]) && HexDigit(s[i + 1]) && HexDigit(s[i + 2]) && HexDigit(s[i + 3])
  }

  /** `parse_hex4`: an invalid digit anywhere makes the whole value 0. */
  function Hex4(s: Bytes, i: nat): (v: nat)
    requires i + 4 <= |s|
    ensures v < 0x10000
  {
    if Hex4Valid(s, i) then HexNumber(s, i) else 0
  }

  // ------------------------------------------------- the two parser passes

  /** First pass: the index of the closing quote. */
  function ScanEnd(s: Bytes, i: nat): (e: Option<nat>)
    ensures e.Some? ==> i <= e.value < |s| && s[e.value] == QUOTE
    decreases |s| - i
  {
    if i >= |s| then None
    else if s[i] == QUOTE then Some(i)
    else if s[i] == BACKSLASH then ScanEnd(s, i + 2)
    else ScanEnd(s, i + 1)
  }

  /** Units the first pass counts between `i` and `end`: bytes less `skipped_bytes`. */
  function Units(s: Bytes, i: nat, end: nat): (u: nat)
    requires end <= |s|
    ensures u <= if i <= end then end - i else 0
    decreases end - i
  {
    if i >= end then 0
    else if s[i] == BACKSLASH then 1 + Units(s, i + 2, end)
    else 1 + Units(s, i + 1, end)
  }

  datatype Step = Bad | Emit(bytes: Bytes, used: nat)

  /** `utf16_literal_to_utf8` at the backslash `i`. */
  function Utf16Literal(s: Bytes, i: nat, end: nat): (r: Step)
    requires i < end < |s|
    ensures r.Emit? ==> r.used in {6, 12} && i + r.used <= end && 1 <= |r.bytes| <= 4
  {
    if end - i < 6 then Bad
    else
      var first := Hex4(s, i + 2);
      if 0xDC00 <= first <= 0xDFFF then Bad
      else if 0xD800 <= first <= 0xDBFF then
        if end - (i + 6) < 6 || s[i + 6] != BACKSLASH || s[i + 7] != 0x75 then Bad
        else
          var second := Hex4(s, i + 8);
          if second < 0xDC00 || second > 0xDFFF then Bad
          else Emit(Utf8(0x10000 + (first - 0xD800) * 0x400 + (second - 0xDC00)), 12)
      else Emit(Utf8(first), 6)
  }

  /** One turn of the second pass. */
  function EscapeStep(s: Bytes, i: nat, end: nat): (r: Step)
    requires i < end < |s|
    ensures r.Emit? ==> r.used > 0 && i + r.used <= end + 1 && 1 <= |r.bytes| <= 4
  {
    if s[i] != BACKSLASH then Emit([s[i]], 1)
    else if s[i + 1] == 0x62 then Emit([0x08], 2)
    else if s[i + 1] == 0x66 then Emit([0x0C], 2)
    else if s[i + 1] == 0x6E then Emit([0x0A], 2)
    else if s[i + 1] == 0x72 then Emit([0x0D], 2)
    else if s[i + 1] == 0x74 then Emit([0x09], 2)
    else if s[i + 1] == QUOTE || s[i + 1] == BACKSLASH || s[i + 1] == 0x2F then Emit([s[i + 1]], 2)
    else if s[i + 1] == 0x75 then Utf16Literal(s, i, end)
    else Bad
  }

  function Prepend(a: Bytes, r: Option<Bytes>): Option<Bytes> {
    match r case None => None case Some(b) => Some(a + b)
  }

  /** The whole second pass from `i`. */
  function Unescape(s: Bytes, i: nat, end: nat): (r: Option<Bytes>)
    requires end < |s|
    decreases end - i
  {
    if i >= end then Some([])
    else
      match EscapeStep(s, i, end)
      case Bad => None
      case Emit(b, used) => Prepend(b, Unescape(s, i + used, end))
  }

  datatype StringResult = Fail | Ok(text: Bytes, end: nat)

  /** `parse_string` on the byte at `off`; `text` is the C string left in `valuestring`. */
  function ParseString(s: Bytes, off: nat): (r: StringResult)
    requires off < |s|
    ensures r.Ok? ==> off < r.end <= |s| && NulFree(r.text)
  {
    if s[off] != QUOTE then Fail
    else
      match ScanEnd(s, off + 1)
      case None => Fail
      case Some(end) =>
        match Unescape(s, off + 1, end)
        case None => Fail
        case Some(out) => Ok(CString(out), end + 1)
  }

  // ----------------------------------- the output never outgrows the buffer

  /** Starting one byte later changes the first pass's count by at most one: the passes may fall out of step. */
  lemma {:induction false} UnitsStep(s: Bytes, i: nat, end: nat)
    requires i < end <= |s|
    ensures Units(s, i + 1, end) <= Units(s, i, end) <= Units(s, i + 1, end) + 1
    decreases end - i
  {
    if i + 1 < end {
      UnitsStep(s, i + 1, end);
    }
  }

  lemma {:induction false} UnitsMonotone(s: Bytes, i: nat, j: nat, end: nat)
    requires i <= j && end <= |s|
    ensures Units(s, j, end) <= Units(s, i, end)
    decreases j - i
  {
    if i < j && i < end {
      UnitsStep(s, i, end);
      UnitsMonotone(s, i + 1, j, end);
    }
  }

  lemma UnitsOfHex(s: Bytes, i: nat, end: nat)
    requires i + 6 <= end <= |s| && s[i] == BACKSLASH && Hex4Valid(s, i + 2)
    ensures Units(s, i, end) == 5 + Units(s, i + 6, end)
  {
    assert HexDigit(s[i + 2]) && HexDigit(s[i + 3]) && HexDigit(s[i + 4]) && HexDigit(s[i + 5]);
    assert Units(s, i + 2, end) == 1 + Units(s, i + 3, end);
    assert Units(s, i + 3, end) == 1 + Units(s, i + 4, end);
    assert Units(s, i + 4, end) == 1 + Units(s, i + 5, end);
  }

  /** Every turn of the second pass emits at most the units it walks over, wherever it starts. */
  lemma StepBudget(s: Bytes, i: nat, end: nat)
    requires i < end < |s| && EscapeStep(s, i, end).Emit?
    ensures |EscapeStep(s, i, end).bytes| + Units(s, i + EscapeStep(s, i, end).used, end) <= Units(s, i, end)
  {
    var st := EscapeStep(s, i, end);
    if s[i] == BACKSLASH && s[i + 1] == 0x75 {
      if Hex4Valid(s, i + 2) {
        UnitsOfHex(s, i, end);
        if st.used == 12 {
          assert Hex4Valid(s, i + 8);
          UnitsOfHex(s, i + 6, end);
        }
      } else {
        assert st == Emit(Utf8(0), 6);
        UnitsMonotone(s, i + 2, i + 6, end);
      }
    }
  }

  /** The output of the second pass fits the first pass's allocation, for every input. */
  lemma {:induction false} OutputFits(s: Bytes, i: nat, end: nat)
    requires end < |s|
    requires Unescape(s, i, end).Some?
    ensures |Unescape(s, i, end).value| <= Units(s, i, end)
    decreases end - i
  {
    if i < end {
      StepBudget(s, i, end);
      OutputFits(s, i + EscapeStep(s, i, end).used, end);
    }
  }

  // -------------------------------------------------- literals as data

  /** One item of a string body. */
  datatype Piece =
    | Plain(b: byte)
    | Short(letter: byte)
    | Unit(hex: Bytes)
    | Pair(high: Bytes, low: Bytes)

  predicate IsHex(h: Bytes) { |h| == 4 && Hex4Valid(h, 0) }

  function ShortMeaning(letter: byte): Option<byte> {
    if letter == 0x22 || letter == 0x5C || letter == 0x2F then Some(letter)
    else if letter == 0x62 then Some(0x08)
    else if letter == 0x66 then Some(0x0C)
    else if letter == 0x6E then Some(0x0A)
    else if letter == 0x72 then Some(0x0D)
    else if letter == 0x74 then Some(0x09)
    else None
  }

  /** The letters after a backslash and what they stand for; no other letter stands for anything. */
  lemma EscapeLetters(b: byte)
    ensures ShortMeaning('b' as int) == Some(8) && ShortMeaning('t' as int) == Some(9)
    ensures ShortMeaning('n' as int) == Some(10) && ShortMeaning('f' as int) == Some(12)
    ensures ShortMeaning('r' as int) == Some(13) && ShortMeaning('/' as int) == Some('/' as int)
    ensures ShortMeaning('"' as int) == Some('"' as int) && ShortMeaning('\\' as int) == Some('\\' as int)
    ensures ShortMeaning(b).Some? <==> b in Ascii("\"\\/bfnrt")
  {
    var letters := Ascii("\"\\/bfnrt");
    assert letters[0] == 0x22 && letters[1] == 0x5C && letters[2] == 0x2F && letters[3] == 0x62;
    assert letters[4] == 0x66 && letters[5] == 0x6E && letters[6] == 0x72 && letters[7] == 0x74;
  }

  /** The items of section 7 of RFC 8259. */
  predicate WellFormed(p: Piece) {
    match p
    case Plain(b) => b != QUOTE && b != BACKSLASH
    case Short(l) => ShortMeaning(l).Some?
    case Unit(h) => IsHex(h) && Scalar(HexNumber(h, 0))
    case Pair(h, l) =>
      && IsHex(h) && 0xD800 <= HexNumber(h, 0) <= 0xDBFF
      && IsHex(l) && 0xDC00 <= HexNumber(l, 0) <= 0xDFFF
  }

  /** The items the second pass takes: any four bytes may follow `\u`, and those that are not hex digits mean 0. */
  predicate Loose(p: Piece) {
    match p
    case Plain(b) => b != BACKSLASH
    case Short(l) => ShortMeaning(l).Some?
    case Unit(h) => |h| == 4 && Scalar(Hex4(h, 0))
    case Pair(h, l) => |h| == 4 && |l| == 4 && 0xD800 <= Hex4(h, 0) <= 0xDBFF && 0xDC00 <= Hex4(l, 0) <= 0xDFFF
  }

  function PieceText(p: Piece): (t: Bytes)
    ensures |t| > 0
  {
    match p
    case Plain(b) => [b]
    case Short(l) => [BACKSLASH, l]
    case Unit(h) => [BACKSLASH, 0x75] + h
    case Pair(h, l) => [BACKSLASH, 0x75] + h + [BACKSLASH, 0x75] + l
  }

  /** The bytes an item denotes: UTF-8 of its code point, surrogates combined. */
  function PieceMeaning(p: Piece): Bytes
    requires Loose(p)
  {
    match p
    case Plain(b) => [b]
    case Short(l) => [ShortMeaning(l).value]
    case Unit(h) => Utf8(Hex4(h, 0))
    case Pair(h, l) => Utf8((Hex4(h, 0) - 0xD800) * 0x400 + (Hex4(l, 0) - 0xDC00) + 0x10000)
  }

  predicate AllWellFormed(ps: seq<Piece>) {
    forall i :: 0 <= i < |ps| ==> WellFormed(ps[i])
  }

  predicate AllLoose(ps: seq<Piece>) {
    forall i :: 0 <= i < |ps| ==> Loose(ps[i])
  }

  function Text(ps: seq<Piece>): Bytes {
    if ps == [] then [] else PieceText(ps[0]) + Text(ps[1..])
  }

  function Meaning(ps: seq<Piece>): Bytes
    requires AllLoose(ps)
  {
    if ps == [] then [] else PieceMeaning(ps[0]) + Meaning(ps[1..])
  }

  /** How the first pass reads a body: a backslash takes the next byte with it, and no quote stands alone. */
  predicate Scans(b: Bytes) {
    || b == []
    || (b[0] == BACKSLASH && |b| >= 2 && Scans(b[2..]))
    || (b[0] != BACKSLASH && b[0] != QUOTE && Scans(b[1..]))
  }

  /** A body between quotes, and the items the second pass takes it for. */
  datatype Literal = Literal(body: Bytes, pieces: seq<Piece>)

  /**
   What the two passes read together. The passes may fall out of step after a `\u` without hex digits,
   and then the last item may be an escaped quote that takes the closing quote with it.
   */
  predicate Readable(l: Literal) {
    && Scans(l.body) && AllLoose(l.pieces)
    && (Text(l.pieces) == l.body
        || (Text(l.pieces) == l.body + [QUOTE] && l.pieces != [] && l.pieces[|l.pieces| - 1] == Short(QUOTE)))
  }

  function LiteralText(l: Literal): Bytes { [QUOTE] + l.body + [QUOTE] }

  /** The C string it leaves behind. */
  function Denoted(l: Literal): Bytes
    requires Readable(l)
  {
    CString(Meaning(l.pieces))
  }

  // -------------------------------------- literals are read for what they are

  lemma HexAt(s: Bytes, i: nat, h: Bytes)
    requires |h| == 4 && At(s, i, h)
    ensures Hex4(s, i) == Hex4(h, 0)
  {
    AtByte(s, i, h, 0);
    AtByte(s, i, h, 1);
    AtByte(s, i, h, 2);
    AtByte(s, i, h, 3);
  }

  lemma UnitAt(s: Bytes, i: nat, h: Bytes)
    requires |h| == 4 && At(s, i, [BACKSLASH, 0x75] + h)
    ensures i + 6 <= |s| && s[i] == BACKSLASH && s[i + 1] == 0x75 && Hex4(s, i + 2) == Hex4(h, 0)
  {
    hide Hex4;
    var t := [BACKSLASH, 0x75] + h;
    AtByte(s, i, t, 0);
    AtByte(s, i, t, 1);
    AtSplit(s, i, [BACKSLASH, 0x75], h);
    HexAt(s, i + 2, h);
  }

  lemma PairAt(s: Bytes, i: nat, end: nat, h: Bytes, l: Bytes)
    requires Loose(Pair(h, l)) && i + 12 <= end < |s| && At(s, i, PieceText(Pair(h, l)))
    ensures EscapeStep(s, i, end) == Emit(PieceMeaning(Pair(h, l)), 12)
  {
    hide At, Hex4;
    var a, b := [BACKSLASH, 0x75] + h, [BACKSLASH, 0x75] + l;
    assert a + [BACKSLASH, 0x75] + l == a + b;
    AtSplit(s, i, a, b);
    UnitAt(s, i, h);
    UnitAt(s, i + 6, l);
    hide Utf8;
  }

  /** The second pass steps over one item. Only an escaped letter may reach past the body. */
  lemma PieceStep(s: Bytes, i: nat, end: nat, p: Piece, t: Bytes)
    requires Loose(p) && t == PieceText(p) && At(s, i, t) && i < end < |s|
    requires i + |t| <= end || p.Short?
    ensures EscapeStep(s, i, end) == Emit(PieceMeaning(p), |t|)
  {
    match p
    case Plain(b) => AtByte(s, i, t, 0);
    case Short(l) =>
      AtByte(s, i, t, 0);
      AtByte(s, i, t, 1);
    case Unit(h) =>
      UnitAt(s, i, h);
      hide Hex4;
    case Pair(h, l) => PairAt(s, i, end, h, l);
  }

  lemma UnescapeVia(s: Bytes, i: nat, end: nat, b: Bytes, used: nat, rest: Bytes)
    requires i < end < |s| && EscapeStep(s, i, end) == Emit(b, used)
    requires Unescape(s, i + used, end) == Some(rest)
    ensures Unescape(s, i, end) == Some(b + rest)
  {
  }

  lemma TextCons(ps: seq<Piece>)
    requires AllLoose(ps) && ps != []
    ensures Loose(ps[0]) && AllLoose(ps[1..])
    ensures Text(ps) == PieceText(ps[0]) + Text(ps[1..])
    ensures Meaning(ps) == PieceMeaning(ps[0]) + Meaning(ps[1..])
    ensures ps[1..] != [] ==> Text(ps[1..]) != []
    ensures ps[0].Short? ==> |PieceText(ps[0])| == 2
  {
  }

  lemma {:induction false} PiecesRead(s: Bytes, i: nat, end: nat, ps: seq<Piece>)
    requires AllLoose(ps) && At(s, i, Text(ps)) && end < |s|
    requires i + |Text(ps)| == end || (i + |Text(ps)| == end + 1 && ps != [] && ps[|ps| - 1] == Short(QUOTE))
    ensures Unescape(s, i, end) == Some(Meaning(ps))
    decreases |ps|
  {
    hide At, Loose, PieceText, PieceMeaning, EscapeStep;
    if ps == [] {
    } else {
      TextCons(ps);
      var p, rest := ps[0], ps[1..];
      var t := PieceText(p);
      AtSplit(s, i, t, Text(rest));
      PieceStep(s, i, end, p, t);
      if rest == [] {
        EndsHere(s, i + |t|, end);
      } else {
        PiecesRead(s, i + |t|, end, rest);
      }
      UnescapeVia(s, i, end, PieceMeaning(p), |t|, Meaning(rest));
    }
  }

  lemma EndsHere(s: Bytes, i: nat, end: nat)
    requires end <= i && end < |s|
    ensures Unescape(s, i, end) == Some([])
  {
  }

  lemma {:induction false} BodyScans(s: Bytes, i: nat, body: Bytes)
    requires Scans(body) && At(s, i, body) && i + |body| < |s| && s[i + |body|] == QUOTE
    ensures ScanEnd(s, i) == Some(i + |body|)
    decreases |body|
  {
    if body != [] {
      AtByte(s, i, body, 0);
      var k := if body[0] == BACKSLASH then 2 else 1;
      assert body == body[..k] + body[k..];
      AtSplit(s, i, body[..k], body[k..]);
      BodyScans(s, i + k, body[k..]);
    }
  }

  lemma ParseStringVia(s: Bytes, off: nat, end: nat, out: Bytes)
    requires off < |s| && s[off] == QUOTE
    requires ScanEnd(s, off + 1) == Some(end) && Unescape(s, off + 1, end) == Some(out)
    ensures ParseString(s, off) == Ok(CString(out), end + 1)
  {
  }

  lemma AtQuoted(s: Bytes, off: nat, body: Bytes)
    requires At(s, off, [QUOTE] + body + [QUOTE])
    ensures s[off] == QUOTE && At(s, off + 1, body) && s[off + 1 + |body|] == QUOTE && At(s, off + 1, body + [QUOTE])
  {
    AtSplit3(s, off, [QUOTE], body, [QUOTE]);
    AtByte(s, off, [QUOTE], 0);
    AtByte(s, off + 1 + |body|, [QUOTE], 0);
  }

  /** Every readable literal parses to the C string it denotes, and exactly its own bytes are consumed. */
  lemma LiteralReads(s: Bytes, off: nat, l: Literal)
    requires Readable(l) && At(s, off, LiteralText(l))
    ensures ParseString(s, off) == Ok(Denoted(l), off + |LiteralText(l)|)
  {
    AtQuoted(s, off, l.body);
    hide At, AllLoose, Scans, Text, Meaning, ScanEnd, Unescape, CString, ParseString;
    var end := off + 1 + |l.body|;
    BodyScans(s, off + 1, l.body);
    PiecesRead(s, off + 1, end, l.pieces);
    ParseStringVia(s, off, end, Meaning(l.pieces));
  }

  // --------------------------------- and nothing else is read as a literal

  lemma {:induction false} ScannedBody(s: Bytes, i: nat, end: nat)
    requires ScanEnd(s, i) == Some(end)
    ensures i <= end < |s| && Scans(s[i..end])
    decreases |s| - i
  {
    if s[i] != QUOTE {
      var k := if s[i] == BACKSLASH then 2 else 1;
      ScannedBody(s, i + k, end);
      assert s[i..end][k..] == s[i + k..end];
    }
  }

  lemma UnitTaken(s: Bytes, i: nat, end: nat) returns (p: Piece)
    requires i + 6 <= end < |s| && s[i] == BACKSLASH && s[i + 1] == 0x75 && Scalar(Hex4(s, i + 2))
    ensures Loose(p) && PieceMeaning(p) == Utf8(Hex4(s, i + 2)) && PieceText(p) == s[i..i + 6]
  {
    var h := s[i + 2..i + 6];
    HexAt(s, i + 2, h);
    hide Hex4, Utf8;
    p := Unit(h);
    assert PieceText(p) == s[i..i + 6];
  }

  lemma PairTaken(s: Bytes, i: nat, end: nat) returns (p: Piece)
    requires i + 12 <= end < |s| && s[i] == BACKSLASH && s[i + 1] == 0x75 && s[i + 6] == BACKSLASH && s[i + 7] == 0x75
    requires 0xD800 <= Hex4(s, i + 2) <= 0xDBFF && 0xDC00 <= Hex4(s, i + 8) <= 0xDFFF
    ensures Loose(p) && PieceText(p) == s[i..i + 12]
    ensures PieceMeaning(p) == Utf8(0x10000 + (Hex4(s, i + 2) - 0xD800) * 0x400 + (Hex4(s, i + 8) - 0xDC00))
  {
    var h, l := s[i + 2..i + 6], s[i + 8..i + 12];
    HexAt(s, i + 2, h);
    HexAt(s, i + 8, l);
    hide Hex4, Utf8;
    p := Pair(h, l);
    assert PieceText(p) == s[i..i + 12];
  }

  /** What one turn of the second pass took is an item. */
  lemma StepTaken(s: Bytes, i: nat, end: nat) returns (p: Piece)
    requires i < end < |s| && s[end] == QUOTE && EscapeStep(s, i, end).Emit?
    ensures var st := EscapeStep(s, i, end);
            && Loose(p) && PieceMeaning(p) == st.bytes
            && i + st.used <= |s| && PieceText(p) == s[i..i + st.used]
            && (i + st.used > end ==> p == Short(QUOTE))
  {
    hide Hex4, Utf8;
    if s[i] != BACKSLASH {
      p := Plain(s[i]);
    } else if s[i + 1] != 0x75 {
      p := Short(s[i + 1]);
    } else if EscapeStep(s, i, end).used == 6 {
      p := UnitTaken(s, i, end);
    } else {
      p := PairTaken(s, i, end);
    }
  }

  /** Items from `i` on that end with the body, or with the closing quote when the last is an escaped quote. */
  predicate EndAt(s: Bytes, i: nat, end: nat, ps: seq<Piece>) {
    var j := i + |Text(ps)|;
    && end <= j <= end + 1 && j <= |s| && Text(ps) == s[i..j]
    && (j == end + 1 && i <= end ==> ps != [] && ps[|ps| - 1] == Short(QUOTE))
  }

  lemma PieceJoins(s: Bytes, i: nat, end: nat, p: Piece, used: nat, rest: seq<Piece>)
    requires i < end < |s| && i + used <= |s| && used > 0 && PieceText(p) == s[i..i + used]
    requires i + used > end ==> p == Short(QUOTE)
    requires EndAt(s, i + used, end, rest)
    ensures EndAt(s, i, end, [p] + rest)
  {
    hide PieceText;
    var ps := [p] + rest;
    assert ps[1..] == rest;
    assert s[i..i + used] + s[i + used..i + |Text(ps)|] == s[i..i + |Text(ps)|];
  }

  lemma NoneLeft(s: Bytes, i: nat, end: nat)
    requires end <= i <= end + 1 && end < |s|
    ensures Unescape(s, i, end) == Some([]) && EndAt(s, i, end, []) && AllLoose([]) && Meaning([]) == []
  {
  }

  lemma UnescapeTurn(s: Bytes, i: nat, end: nat)
    requires i < end < |s| && Unescape(s, i, end).Some?
    ensures var st := EscapeStep(s, i, end);
            && st.Emit? && Unescape(s, i + st.used, end).Some?
            && Unescape(s, i, end).value == st.bytes + Unescape(s, i + st.used, end).value
  {
    hide EscapeStep;
  }

  lemma LooseCons(p: Piece, rest: seq<Piece>)
    requires Loose(p) && AllLoose(rest)
    ensures AllLoose([p] + rest) && Meaning([p] + rest) == PieceMeaning(p) + Meaning(rest)
  {
    hide Loose, PieceMeaning;
    assert ([p] + rest)[1..] == rest;
  }

  lemma {:induction false} PiecesTaken(s: Bytes, i: nat, end: nat) returns (ps: seq<Piece>)
    requires i <= end + 1 && end < |s| && s[end] == QUOTE && Unescape(s, i, end).Some?
    ensures AllLoose(ps) && Meaning(ps) == Unescape(s, i, end).value && EndAt(s, i, end, ps)
    decreases end + 1 - i
  {
    hide EscapeStep, Unescape, Loose, AllLoose, PieceText, PieceMeaning, Meaning, EndAt;
    if i < end {
      UnescapeTurn(s, i, end);
      var used := EscapeStep(s, i, end).used;
      var p := StepTaken(s, i, end);
      var rest := PiecesTaken(s, i + used, end);
      PieceJoins(s, i, end, p, used, rest);
      LooseCons(p, rest);
      ps := [p] + rest;
    } else {
      NoneLeft(s, i, end);
      ps := [];
    }
  }

  lemma PassesOf(s: Bytes, off: nat)
    requires off < |s| && ParseString(s, off).Ok?
    ensures s[off] == QUOTE && ScanEnd(s, off + 1).Some?
    ensures var end := ScanEnd(s, off + 1).value;
            && Unescape(s, off + 1, end).Some?
            && ParseString(s, off) == Ok(CString(Unescape(s, off + 1, end).value), end + 1)
  {
    hide ScanEnd, Unescape;
  }

  /** Whatever `parse_string` accepts is a readable literal, and what it leaves is what the literal denotes. */
  lemma LiteralTaken(s: Bytes, off: nat) returns (l: Literal)
    requires off < |s| && ParseString(s, off).Ok?
    ensures Readable(l) && At(s, off, LiteralText(l))
    ensures ParseString(s, off) == Ok(Denoted(l), off + |LiteralText(l)|)
  {
    hide AllLoose, Scans, Text, Meaning, ScanEnd, Unescape, CString, ParseString;
    PassesOf(s, off);
    var end := ScanEnd(s, off + 1).value;
    ScannedBody(s, off + 1, end);
    var ps := PiecesTaken(s, off + 1, end);
    l := Literal(s[off + 1..end], ps);
    assert s[off + 1..end + 1] == l.body + [QUOTE];
    assert s[off..end + 1] == LiteralText(l);
  }

  // ------------------------------------------------- literals of the standard

  lemma ByteScans(b: byte, rest: Bytes)
    requires b != QUOTE && b != BACKSLASH && Scans(rest)
    ensures Scans([b] + rest)
  {
    assert ([b] + rest)[1..] == rest;
  }

  lemma EscapeScans(letter: byte, rest: Bytes)
    requires Scans(rest)
    ensures Scans([BACKSLASH, letter] + rest)
  {
    assert ([BACKSLASH, letter] + rest)[2..] == rest;
  }

  lemma {:induction false} PlainScans(h: Bytes, rest: Bytes)
    requires (forall i :: 0 <= i < |h| ==> h[i] != QUOTE && h[i] != BACKSLASH) && Scans(rest)
    ensures Scans(h + rest)
  {
    hide Scans;
    if h == [] {
      assert h + rest == rest;
    } else {
      PlainScans(h[1..], rest);
      ByteScans(h[0], h[1..] + rest);
      assert h + rest == [h[0]] + (h[1..] + rest);
    }
  }

  lemma UnitScans(h: Bytes, rest: Bytes)
    requires IsHex(h) && Scans(rest)
    ensures Scans([BACKSLASH, 0x75] + (h + rest))
  {
    hide Scans;
    PlainScans(h, rest);
    EscapeScans(0x75, h + rest);
  }

  lemma PieceScans(p: Piece, rest: Bytes)
    requires WellFormed(p) && Scans(rest)
    ensures Scans(PieceText(p) + rest)
  {
    hide Scans, Scalar, Hex4Valid, HexNumber;
    match p
    case Plain(b) => ByteScans(b, rest);
    case Short(l) => EscapeScans(l, rest);
    case Unit(h) =>
      UnitScans(h, rest);
      assert [BACKSLASH, 0x75] + h + rest == [BACKSLASH, 0x75] + (h + rest);
    case Pair(h, l) =>
      var low := [BACKSLASH, 0x75] + (l + rest);
      UnitScans(l, rest);
      UnitScans(h, low);
      assert [BACKSLASH, 0x75] + h + [BACKSLASH, 0x75] + l + rest == [BACKSLASH, 0x75] + (h + low);
  }

  /** The literals of section 7 of RFC 8259 are readable as they are spelled. */
  lemma {:induction false} StandardReadable(ps: seq<Piece>)
    requires AllWellFormed(ps)
    ensures Readable(Literal(Text(ps), ps))
  {
    hide WellFormed, PieceText, Scans;
    StandardScans(ps);
    forall i | 0 <= i < |ps| ensures Loose(ps[i]) { StandardLoose(ps[i]); }
  }

  lemma StandardLoose(p: Piece)
    requires WellFormed(p)
    ensures Loose(p)
  {
  }

  lemma {:induction false} StandardScans(ps: seq<Piece>)
    requires AllWellFormed(ps)
    ensures Scans(Text(ps))
  {
    hide WellFormed, PieceText;
    if ps != [] {
      StandardScans(ps[1..]);
      PieceScans(ps[0], Text(ps[1..]));
    }
  }

  /** Every literal of the standard parses to the bytes it denotes, and exactly its own bytes are consumed. */
  lemma LiteralParses(s: Bytes, off: nat, ps: seq<Piece>, body: Bytes)
    requires AllWellFormed(ps) && body == Text(ps) && At(s, off, [QUOTE] + body + [QUOTE])
    ensures AllLoose(ps) && ParseString(s, off) == Ok(CString(Meaning(ps)), off + |body| + 2)
  {
    hide AllWellFormed, Text, Meaning, At, ParseString, CString;
    StandardReadable(ps);
    LiteralReads(s, off, Literal(body, ps));
  }

  // ------------------------------------------------------------- printing

  function HexLetter(n: nat): byte
    requires n < 16
  {
    if n < 10 then 0x30 + n else 0x61 + n - 10
  }

  /** The bytes `print_string_ptr` writes for one input byte. */
  function EscapeByte(b: byte): Bytes {
    if b > 31 && b != QUOTE && b != BACKSLASH then [b]
    else if b == BACKSLASH then [BACKSLASH, BACKSLASH]
    else if b == QUOTE then [BACKSLASH, QUOTE]
    else if b == 0x08 then [BACKSLASH, 0x62]
    else if b == 0x0C then [BACKSLASH, 0x66]
    else if b == 0x0A then [BACKSLASH, 0x6E]
    else if b == 0x0D then [BACKSLASH, 0x72]
    else if b == 0x09 then [BACKSLASH, 0x74]
    else [BACKSLASH, 0x75, 0x30, 0x30, HexLetter(b / 16), HexLetter(b % 16)]
  }

  function Escape(s: Bytes): Bytes {
    if s == [] then [] else EscapeByte(s[0]) + Escape(s[1..])
  }

  function Quoted(s: Bytes): Bytes {
    [QUOTE] + Escape(s) + [QUOTE]
  }

  /** What the counting pass of `print_string_ptr` adds for one byte. */
  function EscapeCost(b: byte): nat {
    if b == QUOTE || b == BACKSLASH || b == 0x08 || b == 0x0C || b == 0x0A || b == 0x0D || b == 0x09 then 1
    else if b < 32 then 5
    else 0
  }

  function EscapeCount(s: Bytes): nat {
    if s == [] then 0 else EscapeCost(s[0]) + EscapeCount(s[1..])
  }

  /** The pre-computed count is the exact output length; when it is 0 the text is copied verbatim. */
  lemma {:induction false} EscapedLength(s: Bytes)
    ensures |Escape(s)| == |s| + EscapeCount(s)
    ensures EscapeCount(s) == 0 ==> Escape(s) == s
  {
    if s != [] {
      EscapedLength(s[1..]);
    }
  }

  lemma EscapeSnoc(s: Bytes, b: byte)
    ensures Escape(s + [b]) == Escape(s) + EscapeByte(b)
    ensures EscapeCount(s + [b]) == EscapeCount(s) + EscapeCost(b)
  {
    hide EscapeByte, EscapeCost;
    if s == [] {
      assert [] + [b] == [b];
      assert Escape([b]) == EscapeByte(b) + Escape([]);
    } else {
      assert (s + [b])[1..] == s[1..] + [b];
      EscapeSnoc(s[1..], b);
    }
  }

  /** Escaped text is itself a well-formed JSON string body. */
  function PieceOf(b: byte): (p: Piece)
    requires b != 0
    ensures WellFormed(p) && PieceText(p) == EscapeByte(b) && PieceMeaning(p) == [b]
  {
    if b > 31 && b != QUOTE && b != BACKSLASH then Plain(b)
    else if b == BACKSLASH then Short(BACKSLASH)
    else if b == QUOTE then Short(QUOTE)
    else if b == 0x08 then Short(0x62)
    else if b == 0x0C then Short(0x66)
    else if b == 0x0A then Short(0x6E)
    else if b == 0x0D then Short(0x72)
    else if b == 0x09 then Short(0x74)
    else
      var h := [0x30, 0x30, HexLetter(b / 16), HexLetter(b % 16)];
      assert HexNumber(h, 0) == b;
      Unit(h)
  }

  function PiecesOf(s: Bytes): seq<Piece>
    requires NulFree(s)
  {
    if s == [] then [] else [PieceOf(s[0])] + PiecesOf(s[1..])
  }

  lemma {:induction false} EscapedPieces(s: Bytes)
    requires NulFree(s)
    ensures AllWellFormed(PiecesOf(s)) && AllLoose(PiecesOf(s)) && Text(PiecesOf(s)) == Escape(s)
            && Meaning(PiecesOf(s)) == s
  {
    hide WellFormed, Loose, PieceText, PieceMeaning, EscapeByte, PieceOf;
    if s != [] {
      EscapedPieces(s[1..]);
      var p, ps := PieceOf(s[0]), PiecesOf(s[1..]);
      assert ([p] + ps)[1..] == ps;
      StandardLoose(p);
      assert AllWellFormed([p] + ps) && AllLoose([p] + ps);
      assert s == [s[0]] + s[1..];
    }
  }

  /** Printed text is a literal that denotes the string. */
  lemma EscapedReadable(s: Bytes)
    requires NulFree(s)
    ensures var l := Literal(Escape(s), PiecesOf(s)); Readable(l) && Denoted(l) == s && LiteralText(l) == Quoted(s)
  {
    EscapedPieces(s);
    hide Escape, PiecesOf, Text, Meaning, WellFormed;
    StandardReadable(PiecesOf(s));
  }

  /** Printing a string and parsing it gives back the original bytes. */
  lemma QuotedRoundTrip(s: Bytes, off: nat, str: Bytes)
    requires NulFree(str) && At(s, off, Quoted(str))
    ensures ParseString(s, off) == Ok(str, off + |Quoted(str)|)
  {
    EscapedReadable(str);
    LiteralReads(s, off, Literal(Escape(str), PiecesOf(str)));
  }

  /** A NUL in the denoted bytes cuts the string short: the round trip needs NUL-free strings. */
  lemma EmbeddedNulIsLost()
    ensures var s := [QUOTE, BACKSLASH, 0x75, 0x30, 0x30, 0x30, 0x30, 0x41, QUOTE];
            ParseString(s, 0) == Ok([], 9) && Meaning([Unit([0x30, 0x30, 0x30, 0x30]), Plain(0x41)]) == [0, 0x41]
  {
    var s: Bytes := [QUOTE, BACKSLASH, 0x75, 0x30, 0x30, 0x30, 0x30, 0x41, QUOTE];
    var h: Bytes := [0x30, 0x30, 0x30, 0x30];
    assert HexNumber(h, 0) == 0;
    var ps := [Unit(h), Plain(0x41)];
    assert WellFormed(ps[0]) && WellFormed(ps[1]);
    assert Text(ps[1..]) == [0x41];
    assert Meaning(ps[1..]) == [0x41];
    assert s[0..9] == s == [QUOTE] + Text(ps) + [QUOTE];
    LiteralParses(s, 0, ps, Text(ps));
  }
}
