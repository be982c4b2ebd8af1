/**
 The leaf routines of the cJSON parser over its offset cursor: whitespace,
 numbers, and strings with their two passes and output buffer.
 */
module JsonLexer {
  import opened Bytes
  import opened JsonValue
  import opened JsonItem
  import opened JsonString
  import JsonNumber
  import Bits
  import G = JsonGrammar

  class ParseBuffer {
    const content: Bytes
    var offset: nat
    var depth: nat

    constructor (content: Bytes)
      ensures this.content == content && offset == 0 && depth == 0
    {
      this.content := content;
      offset, depth := 0, 0;
    }

    predicate Accessible()
      reads this`offset
    {
      offset < |content|
    }

    predicate At(c: byte)
      reads this`offset
    {
      offset < |content| && content[offset] == c
    }
  }

  /** `buffer_skip_whitespace`. */
  method SkipWhitespace(b: ParseBuffer)
    requires b.offset <= |b.content|
    modifies b`offset
    ensures b.offset == G.Skip(b.content, old(b.offset))
  {
    if !b.Accessible() { return; }
    while b.Accessible() && b.content[b.offset] <= 32
      invariant old(b.offset) <= b.offset <= |b.content|
      invariant G.SkipSpace(b.content, b.offset) == G.SkipSpace(b.content, old(b.offset))
      decreases |b.content| - b.offset
    {
      b.offset := b.offset + 1;
    }
    if b.offset == |b.content| {
      b.offset := b.offset - 1;
    }
  }

  /** The assignments of `parse_number`: the double and the integer saturated from it. */
  method SetNumber(item: Item, number: real)
    requires item.Empty()
    modifies item`kind, item`valueint, item`valuedouble, item`value
    ensures item.Valid() && item.value == JNumber(number)
  {
    item.valuedouble := number;
    if number >= INT_MAX as real {
      item.valueint := INT_MAX;
    } else if number <= INT_MIN as real {
      item.valueint := INT_MIN;
    } else {
      item.valueint := Truncate(number);
    }
    item.kind := Number;
    item.value := JNumber(number);
  }

  /** `parse_number`. */
  method ParseNumber(item: Item, b: ParseBuffer) returns (ok: bool)
    requires b.offset <= |b.content| && item.Empty()
    modifies item`kind, item`valueint, item`valuedouble, item`value, b`offset
    ensures ok == G.ParseNumber(b.content, old(b.offset)).Ok? && b.offset <= |b.content|
    ensures ok ==> item.Valid() && G.ParseNumber(b.content, old(b.offset)) == G.Ok(item.value, b.offset)
  {
    hide JsonNumber.StrToD, Item.Valid, Item.Empty;
    var i := 0;
    while b.offset + i < |b.content| && JsonNumber.NumberByte(b.content[b.offset + i])
      invariant b.offset + i <= |b.content|
      invariant JsonNumber.TokenEnd(b.content, b.offset + i) == JsonNumber.TokenEnd(b.content, b.offset)
    {
      i := i + 1;
    }
    var (number, used) := JsonNumber.StrToD(b.content[b.offset..b.offset + i]);
    if used == 0 { return false; }
    SetNumber(item, number);
    b.offset := b.offset + used;
    return true;
  }

  /** `parse_hex4`. */
  method ParseHex4(input: Bytes, start: nat) returns (h: nat)
    requires start + 4 <= |input|
    ensures h == Hex4(input, start)
  {
    h := 0;
    var i := 0;
    while i < 4
      invariant 0 <= i <= 4
      invariant forall j :: start <= j < start + i ==> HexDigit(input[j])
      invariant i == 0 ==> h == 0
      invariant i == 1 ==> h == 0x10 * HexValue(input[start])
      invariant i == 2 ==> h == 0x100 * HexValue(input[start]) + 0x10 * HexValue(input[start + 1])
      invariant i == 3 ==>
                  h == 0x1000 * HexValue(input[start]) + 0x100 * HexValue(input[start + 1])
                       + 0x10 * HexValue(input[start + 2])
      invariant i == 4 ==> Hex4Valid(input, start) && h == HexNumber(input, start)
    {
      var d := input[start + i];
      if 0x30 <= d <= 0x39 {
        h := h + d - 0x30;
      } else if 0x41 <= d <= 0x46 {
        h := h + 10 + d - 0x41;
      } else if 0x61 <= d <= 0x66 {
        h := h + 10 + d - 0x61;
      } else {
        return 0;
      }
      if i < 3 {
        h := h * 16;
      }
      i := i + 1;
    }
  }

  /** `n` shifted right by six bits, `k` times. */
  function Shifted(n: nat, k: nat): nat { if k == 0 then n else Shifted(n, k - 1) / 0x40 }

  /** The byte mark of each length of sequence. */
  function Mark(length: nat): nat
    requires 1 <= length <= 4
  {
    if length == 1 then 0 else if length == 2 then 0xC0 else if length == 3 then 0xE0 else 0xF0
  }

  /** One more than what is left for the first byte of each length of sequence. */
  function FirstLimit(length: nat): nat
    requires 1 <= length <= 4
  {
    if length == 1 then 0x80 else if length == 2 then 0x20 else if length == 3 then 0x10 else 0x08
  }

  lemma Sixes(cp: nat)
    ensures Shifted(cp, 0) == cp && Shifted(cp, 1) == cp / 0x40
    ensures Shifted(cp, 2) == cp / 0x1000 && Shifted(cp, 3) == cp / 0x40000
  {
    assert Shifted(cp, 1) == cp / 0x40;
    assert Shifted(cp, 2) == cp / 0x1000;
  }

  /** The bytes of a sequence from the last: six bits each, then the rest under the mark. */
  lemma Utf8Bytes(cp: nat)
    requires cp < 0x110000
    ensures var u := Utf8(cp);
            && Shifted(cp, |u| - 1) < FirstLimit(|u|)
            && u[0] == Mark(|u|) + Shifted(cp, |u| - 1)
            && forall j :: 0 < j < |u| ==> u[j] == 0x80 + Shifted(cp, |u| - 1 - j) % 0x40
  {
    Sixes(cp);
    hide Shifted;
  }

  /** `(rest | 0x80) & 0xBF`. */
  function ContinuationByte(rest: nat): (b: byte)
    ensures b == 0x80 + rest % 0x40
  {
    Bits.ContinuationMask(rest);
    Bits.And(Bits.Or(rest, 0x80), 0xBF)
  }

  /** `(rest | mark) & 0xFF`, or `rest & 0x7F` for a single byte. */
  function FirstByte(rest: nat, mark: nat, length: nat): (b: byte)
    requires 1 <= length <= 4 && mark == Mark(length) && rest < FirstLimit(length)
    ensures b == mark + rest
  {
    FirstByteMasks(rest, length);
    if length > 1 then Bits.And(Bits.Or(rest, mark), 0xFF) else Bits.And(rest, 0x7F)
  }

  lemma FirstByteMasks(rest: nat, length: nat)
    requires 1 <= length <= 4 && rest < FirstLimit(length)
    ensures length > 1 ==> Bits.And(Bits.Or(rest, Mark(length)), 0xFF) == Mark(length) + rest
    ensures length == 1 ==> Bits.And(rest, 0x7F) == Mark(length) + rest
  {
    Bits.Powers();
    hide Bits.And, Bits.Or, Bits.Pow2;
    if length == 1 {
      Bits.ByteMasks(rest);
    } else {
      var m: nat := if length == 2 then 6 else if length == 3 then 14 else 30;
      Bits.Join(m, rest, 7 - length);
      Bits.ByteMasks(Mark(length) + rest);
    }
  }

  /** `((first & 0x3FF) << 10) | (second & 0x3FF)` on a surrogate pair. */
  lemma SurrogatePair(first: nat, second: nat)
    requires 0xD800 <= first <= 0xDBFF && 0xDC00 <= second <= 0xDFFF
    ensures Bits.Or(Bits.And(first, 0x3FF) * 0x400, Bits.And(second, 0x3FF))
            == (first - 0xD800) * 0x400 + (second - 0xDC00)
  {
    Bits.Powers();
    hide Bits.And, Bits.Or, Bits.Pow2;
    Bits.WordMasks(first);
    Bits.WordMasks(second);
    Bits.Join(first - 0xD800, second - 0xDC00, 10);
  }

  /** Write the UTF-8 bytes of `codepoint` at `o`, last byte first. */
  method EncodeUtf8(codepoint: nat, out: array<byte>, o: nat) returns (length: nat)
    requires codepoint < 0x110000 && o + |Utf8(codepoint)| <= out.Length
    modifies out
    ensures length == |Utf8(codepoint)| && out[o..o + length] == Utf8(codepoint)
    ensures forall j :: 0 <= j < o ==> out[j] == old(out[j])
  {
    Utf8Bytes(codepoint);
    var mark := 0;
    if codepoint < 0x80 {
      length := 1;
    } else if codepoint < 0x800 {
      length, mark := 2, 0xC0;
    } else if codepoint < 0x10000 {
      length, mark := 3, 0xE0;
    } else {
      length, mark := 4, 0xF0;
    }
    FillUtf8(codepoint, length, mark, out, o);
  }

  /** The loop of six-bit groups, and the first byte. */
  method FillUtf8(codepoint: nat, length: nat, mark: nat, out: array<byte>, o: nat)
    requires codepoint < 0x110000 && length == |Utf8(codepoint)| && mark == Mark(length) && o + length <= out.Length
    modifies out
    ensures out[o..o + length] == Utf8(codepoint)
    ensures forall j :: 0 <= j < o ==> out[j] == old(out[j])
  {
    ghost var u := Utf8(codepoint);
    Utf8Bytes(codepoint);
    hide Utf8, Mark, FirstLimit, ContinuationByte, FirstByte;
    var rest, i := codepoint, length - 1;
    while i > 0
      invariant 0 <= i < length && rest == Shifted(codepoint, length - 1 - i)
      invariant forall j :: i < j < length ==> out[o + j] == u[j]
      invariant forall j :: 0 <= j < o ==> out[j] == old(out[j])
    {
      out[o + i] := ContinuationByte(rest);
      rest := rest / 0x40;
      i := i - 1;
    }
    out[o] := FirstByte(rest, mark, length);
    assert forall j :: 0 <= j < length ==> out[o + j] == u[j];
  }

  /** `utf16_literal_to_utf8` at the backslash `i`; 0 is failure. */
  method Utf16LiteralToUtf8(input: Bytes, i: nat, end: nat, out: array<byte>, o: nat) returns (used: nat, o': nat)
    requires i < end < |input| && input[i] == BACKSLASH && input[i + 1] == 0x75
    requires var st := Utf16Literal(input, i, end); st.Emit? ==> o + |st.bytes| <= out.Length
    modifies out
    ensures var st := Utf16Literal(input, i, end);
            if st.Bad? then used == 0
            else used == st.used && o' == o + |st.bytes| && out[o..o'] == st.bytes
    ensures forall j :: 0 <= j < o && j < out.Length ==> out[j] == old(out[j])
  {
    hide Utf8, Hex4, Bits.And, Bits.Or;
    o' := o;
    if end - i < 6 { return 0, o; }
    var first := ParseHex4(input, i + 2);
    if 0xDC00 <= first <= 0xDFFF { return 0, o; }
    var codepoint;
    if 0xD800 <= first <= 0xDBFF {
      used := 12;
      if end - (i + 6) < 6 { return 0, o; }
      if input[i + 6] != BACKSLASH || input[i + 7] != 0x75 { return 0, o; }
      var second := ParseHex4(input, i + 8);
      if second < 0xDC00 || second > 0xDFFF { return 0, o; }
      SurrogatePair(first, second);
      codepoint := 0x10000 + Bits.Or(Bits.And(first, 0x3FF) * 0x400, Bits.And(second, 0x3FF));
    } else {
      used := 6;
      codepoint := first;
    }
    var length := EncodeUtf8(codepoint, out, o);
    o' := o + length;
  }

  /** First pass of `parse_string`: the closing quote and the escapes seen on the way. */
  method FindClosingQuote(s: Bytes, start: nat) returns (ok: bool, end: nat, skipped: nat)
    requires start <= |s|
    ensures ok == ScanEnd(s, start).Some?
    ensures ok ==> ScanEnd(s, start) == Some(end) && end - start == Units(s, start, end) + skipped
  {
    end, skipped := start, 0;
    ghost var r := ScanEnd(s, start);
    while end < |s| && s[end] != QUOTE
      invariant start <= end <= |s| && ScanEnd(s, end) == r
      invariant r.Some? ==> end - start + Units(s, end, r.value) == Units(s, start, r.value) + skipped
      decreases |s| - end
    {
      if s[end] == BACKSLASH {
        if end + 1 >= |s| { return false, end, skipped; }
        skipped := skipped + 1;
        end := end + 1;
      }
      end := end + 1;
    }
    ok := end < |s| && s[end] == QUOTE;
  }

  /** One turn of the second pass: 0 used is failure. */
  method UnescapeOne(s: Bytes, i: nat, end: nat, out: array<byte>, n: nat) returns (used: nat, n': nat)
    requires i < end < |s| && (EscapeStep(s, i, end).Emit? ==> n + |EscapeStep(s, i, end).bytes| <= out.Length)
    requires n < out.Length
    modifies out
    ensures var st := EscapeStep(s, i, end);
            if st.Bad? then used == 0
            else used == st.used && n' == n + |st.bytes| <= out.Length && out[..n'] == old(out[..n]) + st.bytes
  {
    used, n' := 1, n + 1;
    if s[i] != BACKSLASH {
      out[n] := s[i];
    } else {
      used := 2;
      var c := s[i + 1];
      if c == 0x75 {
        used, n' := Utf16LiteralToUtf8(s, i, end, out, n);
      } else {
        var letter := Letter(c);
        if letter == None { return 0, n; }
        out[n] := letter.value;
      }
    }
  }

  /**
   Second pass of `parse_string` into `out`. Every write is inside `out` because its length is the
   first pass's count.
   */
  method UnescapeInto(s: Bytes, start: nat, end: nat, out: array<byte>) returns (ok: bool, n: nat, i: nat)
    requires end < |s| && start <= end && Units(s, start, end) < out.Length
    modifies out
    ensures ok == Unescape(s, start, end).Some?
    ensures ok ==> n < out.Length && out[..n] == Unescape(s, start, end).value
    ensures !ok ==> i < end
  {
    hide EscapeStep;
    n, i := 0, start;
    ghost var r := Unescape(s, start, end);
    assert out[..0] == [];
    PrependUnits([], r);
    while i < end
      invariant start <= i <= end + 1
      invariant n + Units(s, i, end) <= Units(s, start, end)
      invariant Prepend(out[..n], Unescape(s, i, end)) == r
      decreases end - i
    {
      ghost var before, st := out[..n], EscapeStep(s, i, end);
      if st.Emit? {
        StepBudget(s, i, end);
        NextTurn(s, i, end, before, st.bytes, st.used);
      }
      var used, n' := UnescapeOne(s, i, end, out, n);
      if used == 0 { return false, n, i; }
      n, i := n', i + used;
    }
    PrependUnits(out[..n], r);
    ok := true;
  }

  lemma PrependUnits(a: Bytes, r: Option<Bytes>)
    ensures Prepend([], r) == r && Prepend(a, Some([])) == Some(a)
  {
    if r.Some? { assert [] + r.value == r.value; }
    assert a + [] == a;
  }

  /** The one-letter escapes of the `switch` in `parse_string`. */
  function Letter(c: byte): (r: Option<byte>)
    ensures r == ShortMeaning(c)
  {
    if c == 0x62 then Some(0x08)
    else if c == 0x66 then Some(0x0C)
    else if c == 0x6E then Some(0x0A)
    else if c == 0x72 then Some(0x0D)
    else if c == 0x74 then Some(0x09)
    else if c == QUOTE || c == BACKSLASH || c == 0x2F then Some(c)
    else None
  }

  lemma NextTurn(s: Bytes, i: nat, end: nat, before: Bytes, b: Bytes, used: nat)
    requires i < end < |s| && EscapeStep(s, i, end) == Emit(b, used)
    ensures Prepend(before, Unescape(s, i, end)) == Prepend(before + b, Unescape(s, i + used, end))
  {
    hide EscapeStep;
    var rest := Unescape(s, i + used, end);
    if rest.Some? {
      assert before + (b + rest.value) == before + b + rest.value;
    }
  }

  /** `parse_string`. */
  method ParseString(item: Item, b: ParseBuffer) returns (ok: bool)
    requires b.offset < |b.content| && item.Empty()
    modifies item`kind, item`valuestring, item`value, b`offset
    ensures ok == JsonString.ParseString(b.content, old(b.offset)).Ok? && b.offset <= |b.content|
    ensures ok ==> item.kind == String && item.valuestring.Some?
    ensures ok ==> JsonString.ParseString(b.content, old(b.offset)) == JsonString.Ok(item.valuestring.value, b.offset)
    ensures ok ==> item.value == JString(item.valuestring.value) && item.Valid()
    ensures !ok ==> item.valuestring == None
  {
    var start, end, skipped, n, i := b.offset + 1, 0, 0, 0, 0;
    if b.content[b.offset] != QUOTE {
      b.offset := start;
      return false;
    }
    ok, end, skipped := FindClosingQuote(b.content, start);
    if !ok {
      b.offset := start;
      return false;
    }
    var length := end - b.offset - skipped;
    var output := new byte[length + 1];
    ok, n, i := UnescapeInto(b.content, start, end, output);
    if !ok {
      b.offset := i;
      return false;
    }
    output[n] := 0;
    item.kind := String;
    item.valuestring := Some(CString(output[..n]));
    item.value := JString(item.valuestring.value);
    b.offset := end + 1;
  }
}
