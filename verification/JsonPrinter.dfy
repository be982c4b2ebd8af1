/**
 The growing print buffer and the printer that writes through it, proved equal
 to the pure text. Offsets are found again with `strlen`, so every text must be
 NUL-free and NUL-terminated.
 */
module JsonPrinter {
  import opened Bytes
  import opened JsonValue
  import opened JsonItem
  import opened JsonText
  import opened JsonString
  import JsonNumber

  class PrintBuffer {
    var buffer: array<byte>
    var length: nat
    var offset: nat
    var depth: nat
    const noalloc: bool
    const format: bool

    /** `print` starts with 256 bytes; `cJSON_PrintPreallocated` passes its caller's buffer and `noalloc`. */
    constructor (buffer: array<byte>, noalloc: bool, format: bool)
      requires buffer.Length <= INT_MAX
      ensures this.buffer == buffer && this.noalloc == noalloc && this.format == format
      ensures Valid() && offset == 0 && depth == 0
    {
      this.buffer, this.length := buffer, buffer.Length;
      offset, depth := 0, 0;
      this.noalloc, this.format := noalloc, format;
    }

    ghost predicate Valid()
      reads this
    {
      length == buffer.Length && length <= INT_MAX && (offset < length || offset == length == 0)
    }

    /** The largest size the buffer can have. */
    ghost function Limit(): nat
      reads this
    {
      if noalloc then length else INT_MAX
    }

    /** The buffer starts with `content`, whose last `|text|` bytes `text` are NUL-terminated. */
    ghost predicate Shows(before: Bytes, text: Bytes)
      reads this, buffer
    {
      var end := |before| + |text|;
      end < buffer.Length && buffer[..end] == before + text && buffer[end] == 0
    }
  }

  /** What a printing step keeps: the mode, and how far the buffer may grow. */
  twostate predicate Kept(p: PrintBuffer)
    reads p
  {
    && p.Valid() && p.Limit() == old(p.Limit())
    && (p.buffer == old(p.buffer) || (!p.noalloc && fresh(p.buffer)))
  }

  /** `ensure`: room for `needed` more bytes and one to spare, growing the buffer if it may. */
  method Ensure(p: PrintBuffer, needed: nat) returns (ok: bool)
    requires p.Valid()
    modifies p`buffer, p`length
    ensures ok == (p.offset + needed + 1 <= old(p.Limit()))
    ensures ok ==> p.offset + needed + 1 <= p.length
    ensures Kept(p) && old(p.length) <= p.length && p.buffer[..old(p.length)] == old(p.buffer[..])
  {
    assert p.buffer[..p.length] == p.buffer[..];
    if p.length > 0 && p.offset >= p.length { return false; }
    if needed > INT_MAX { return false; }
    var total := needed + p.offset + 1;
    if total <= p.length { return true; }
    if p.noalloc { return false; }
    var newsize;
    if total > INT_MAX / 2 {
      if total <= INT_MAX {
        newsize := INT_MAX;
      } else {
        return false;
      }
    } else {
      newsize := total * 2;
    }
    var newbuffer := new byte[newsize];
    forall i | 0 <= i < p.length {
      newbuffer[i] := p.buffer[i];
    }
    assert newbuffer[..p.length] == p.buffer[..];
    p.length := newsize;
    p.buffer := newbuffer;
    return true;
  }

  /** `update_offset`: `strlen` from the offset finds the NUL that ends `text`. */
  method UpdateOffset(p: PrintBuffer, ghost before: Bytes, ghost text: Bytes)
    requires p.Valid() && p.Shows(before, text) && NulFree(text) && |before| <= p.offset <= |before| + |text|
    modifies p`offset
    ensures p.offset == |before| + |text| < p.buffer.Length && p.Valid()
    ensures p.buffer[..p.offset] == before + text && p.buffer[p.offset] == 0
  {
    ghost var end := |before| + |text|;
    while p.buffer[p.offset] != 0
      invariant |before| <= p.offset <= end < p.buffer.Length
      decreases end - p.offset
    {
      p.offset := p.offset + 1;
    }
  }

  /** A run of `*output_pointer++ = ...` after `ensure(needed)`, NUL-terminated or not. */
  method Write(p: PrintBuffer, text: Bytes, needed: nat, nul: bool) returns (ok: bool)
    requires p.Valid() && |text| + (if nul then 1 else 0) <= needed + 1
    modifies p`buffer, p`length, p.buffer
    ensures ok == (p.offset + needed + 1 <= old(p.Limit()))
    ensures ok ==> Kept(p) && p.offset + needed + 1 <= p.length
    ensures ok ==>
              && old(p.offset) <= old(p.buffer.Length)
              && p.buffer[..p.offset + |text|] == old(p.buffer[..p.offset]) + text
    ensures ok && nul ==> p.buffer[p.offset + |text|] == 0
  {
    ghost var before := p.buffer[..p.offset];
    ok := Ensure(p, needed);
    if !ok { return; }
    var i, output := 0, p.buffer;
    assert output[..p.offset] == before && text[..0] == [];
    while i < |text|
      invariant i <= |text|
      invariant output[..p.offset + i] == before + text[..i]
      modifies output
    {
      output[p.offset + i] := text[i];
      i := i + 1;
    }
    if nul {
      p.buffer[p.offset + |text|] := 0;
    }
  }

  /** A piece of text written at the offset, which moves past it. */
  method Put(p: PrintBuffer, text: Bytes, needed: nat, nul: bool) returns (ok: bool)
    requires p.Valid() && |text| + (if nul then 1 else 0) <= needed + 1 && |text| <= needed
    modifies p`buffer, p`length, p`offset, p.buffer
    ensures ok == (old(p.offset) + needed + 1 <= old(p.Limit()))
    ensures ok ==> Kept(p) && p.offset == old(p.offset) + |text| <= p.buffer.Length
    ensures ok ==> old(p.offset) <= old(p.buffer.Length) && p.buffer[..p.offset] == old(p.buffer[..p.offset]) + text
  {
    ok := Write(p, text, needed, nul);
    if !ok { return; }
    p.offset := p.offset + |text|;
  }

  // ---------------------------------------------------------------- strings

  /** The first pass of `print_string_ptr`. */
  method CountEscapes(input: Bytes) returns (n: nat)
    ensures n == EscapeCount(input)
  {
    n := 0;
    var i := 0;
    while i < |input|
      invariant i <= |input| && n == EscapeCount(input[..i])
    {
      var b := input[i];
      EscapeSnoc(input[..i], b);
      assert input[..i + 1] == input[..i] + [b];
      if b == QUOTE || b == BACKSLASH || b == 0x08 || b == 0x0C || b == 0x0A || b == 0x0D || b == 0x09 {
        n := n + 1;
      } else if b < 32 {
        n := n + 5;
      }
      i := i + 1;
    }
    assert input[..|input|] == input;
  }

  /** Write one byte, escaped if need be; `sprintf` also writes a NUL, which the next byte overwrites. */
  method EscapeOne(b: byte, output: array<byte>, o: nat) returns (o': nat)
    requires o + |EscapeByte(b)| < output.Length
    modifies output
    ensures o' == o + |EscapeByte(b)| && output[..o'] == old(output[..o]) + EscapeByte(b)
  {
    if b > 31 && b != QUOTE && b != BACKSLASH {
      output[o] := b;
      return o + 1;
    }
    output[o] := BACKSLASH;
    o' := o + 2;
    if b == BACKSLASH {
      output[o + 1] := BACKSLASH;
    } else if b == QUOTE {
      output[o + 1] := QUOTE;
    } else if b == 0x08 {
      output[o + 1] := 0x62;
    } else if b == 0x0C {
      output[o + 1] := 0x66;
    } else if b == 0x0A {
      output[o + 1] := 0x6E;
    } else if b == 0x0D {
      output[o + 1] := 0x72;
    } else if b == 0x09 {
      output[o + 1] := 0x74;
    } else {
      output[o + 1] := 0x75;
      output[o + 2] := 0x30;
      output[o + 3] := 0x30;
      output[o + 4] := HexLetter(b / 16);
      output[o + 5] := HexLetter(b % 16);
      output[o + 6] := 0;
      o' := o + 6;
    }
  }

  /** What one turn of the second pass does to the escaped text so far. */
  lemma EscapeTurn(input: Bytes, i: nat, before: Bytes)
    requires i < |input| && Escape(input) == Escape(input[..i]) + Escape(input[i..])
    ensures Escape(input) == Escape(input[..i + 1]) + Escape(input[i + 1..])
    ensures before + Escape(input[..i]) + EscapeByte(input[i]) == before + Escape(input[..i + 1])
    ensures |Escape(input[..i])| + |EscapeByte(input[i])| == |Escape(input[..i + 1])|
  {
    var b, tail := input[i], input[i..];
    EscapeSnoc(input[..i], b);
    assert input[..i + 1] == input[..i] + [b] && tail[1..] == input[i + 1..] && tail[0] == b;
    assert Escape(tail) == EscapeByte(b) + Escape(tail[1..]);
    hide Escape, EscapeByte;
    Shift(before, Escape(input[..i]), EscapeByte(b), Escape(input[i + 1..]));
  }

  lemma EscapeEnds(input: Bytes)
    ensures input[..0] == [] && input[0..] == input && input[..|input|] == input
    ensures Escape([]) == [] && Escape(input[|input|..]) == []
  {
  }

  /** The second pass of `print_string_ptr`. */
  method EscapeInto(input: Bytes, output: array<byte>, start: nat)
    requires start + |Escape(input)| < output.Length
    modifies output
    ensures output[..start + |Escape(input)|] == old(output[..start]) + Escape(input)
  {
    hide Escape, EscapeByte;
    ghost var before := output[..start];
    var i, o := 0, start;
    EscapeEnds(input);
    assert before + [] == before && [] + Escape(input) == Escape(input);
    while i < |input|
      invariant i <= |input| && Escape(input) == Escape(input[..i]) + Escape(input[i..])
      invariant o == start + |Escape(input[..i])| && output[..o] == before + Escape(input[..i])
    {
      EscapeTurn(input, i, before);
      o := EscapeOne(input[i], output, o);
      i := i + 1;
    }
  }

  /** The characters between the quotes: copied when nothing needs escaping, else escaped one by one. */
  method FillBody(s: Bytes, escapes: nat, output: array<byte>, o: nat)
    requires escapes == EscapeCount(s) && o + |Escape(s)| < output.Length
    modifies output
    ensures output[..o + |Escape(s)|] == old(output[..o]) + Escape(s)
  {
    EscapedLength(s);
    hide Escape;
    if escapes == 0 {
      forall i | 0 <= i < |s| {
        output[o + i] := s[i];
      }
    } else {
      EscapeInto(s, output, o);
    }
  }

  /** The writes of `print_string_ptr` once the room is there. */
  method QuoteInto(s: Bytes, escapes: nat, output: array<byte>, o: nat)
    requires escapes == EscapeCount(s) && o + |Quoted(s)| < output.Length
    modifies output
    ensures output[..o + |Quoted(s)|] == old(output[..o]) + Quoted(s) && output[o + |Quoted(s)|] == 0
  {
    ghost var before, q, body := output[..o], [QUOTE], Escape(s);
    EscapedLength(s);
    var end := o + 1 + |s| + escapes;
    hide Escape;
    output[o] := QUOTE;
    assert output[..o + 1] == before + q;
    FillBody(s, escapes, output, o + 1);
    CloseQuote(before, q, body, output, end);
  }

  /** The closing quote and the NUL. */
  method CloseQuote(ghost before: Bytes, ghost q: Bytes, ghost body: Bytes, output: array<byte>, end: nat)
    requires end + 1 < output.Length && output[..end] == before + q + body && q == [QUOTE]
    modifies output
    ensures output[..end + 1] == before + (q + body + q) && output[end + 1] == 0
  {
    output[end] := QUOTE;
    output[end + 1] := 0;
    assert output[..end + 1] == output[..end] + q;
    assert output[..end] == before + q + body;
    Join3(before, q, body, q);
  }

  /** `print_string_ptr`; a NULL string prints as the empty one. */
  method PrintStringPtr(input: Option<Bytes>, p: PrintBuffer) returns (ok: bool)
    requires p.Valid()
    modifies p`buffer, p`length, p.buffer
    ensures var text := Quoted(if input.Some? then input.value else []);
            && ok == (p.offset + |text| + 2 <= old(p.Limit()))
            && (ok ==> Kept(p) && old(p.offset) <= old(p.buffer.Length) && p.Shows(old(p.buffer[..p.offset]), text))
  {
    if input == None {
      ok := Write(p, [QUOTE, QUOTE], 3, true);
      return;
    }
    var s := input.value;
    EscapedLength(s);
    var escapes := CountEscapes(s);
    ghost var before := p.buffer[..p.offset];
    assert |Quoted(s)| == |s| + escapes + 2;
    hide Escape, Quoted;
    ok := Ensure(p, |s| + escapes + 3);
    if !ok { return; }
    assert p.buffer[..p.offset] == before;
    QuoteInto(s, escapes, p.buffer, p.offset);
  }

  // ----------------------------------------------------------------- values

  /** `print_number` on the `%d` path, which it takes when the stored integer is the stored number. */
  method PrintNumber(item: Item, p: PrintBuffer) returns (ok: bool)
    requires p.Valid() && INT_MIN <= item.valueint <= INT_MAX && item.valuedouble == item.valueint as real
    modifies p`buffer, p`length, p`offset, p.buffer
    ensures var text := JsonNumber.IntText(item.valueint);
            && ok == (old(p.offset) + |text| + 2 <= old(p.Limit()))
            && (ok ==> Kept(p) && old(p.offset) <= old(p.buffer.Length) && p.Shows(old(p.buffer[..p.offset]), text)
                       && p.offset == old(p.offset) + |text|)
  {
    var number := JsonNumber.IntText(item.valueint);
    JsonNumber.IntTextLength(item.valueint);
    assert |number| <= 25;
    ok := Write(p, number, |number| + 1, true);
    if !ok { return; }
    p.offset := p.offset + |number|;
  }

  /** What one turn of the loop of `print_array` writes. */
  function ItemPiece(vs: seq<Json>, i: nat, depth: nat, fmt: bool): Bytes
    requires i < |vs|
  {
    Print(vs[i], depth, fmt) + if i + 1 < |vs| then Separator(fmt) else []
  }

  lemma ItemsUnfold(vs: seq<Json>, i: nat, depth: nat, fmt: bool)
    requires i < |vs|
    ensures PrintItems(vs[i..], depth, fmt) == ItemPiece(vs, i, depth, fmt) + PrintItems(vs[i + 1..], depth, fmt)
  {
    assert vs[i..][0] == vs[i] && vs[i..][1..] == vs[i + 1..];
    hide Print;
    var a := Print(vs[i], depth, fmt);
    if i + 1 == |vs| { assert a + [] + [] == a; }
  }

  /** One turn of the loop of `print_array`. */
  method PrintElement(item: Item, p: PrintBuffer, ghost t: Bytes, ghost piece: Bytes) returns (ok: bool)
    requires p.Valid() && item.Valid() && Integers(item.value) && t == Print(item.value, p.depth, p.format)
    requires piece == t + if item.next != null then Separator(p.format) else []
    modifies p`buffer, p`length, p`offset, p`depth, p.buffer
    ensures ok ==> Kept(p) && p.depth == old(p.depth) && old(p.offset) <= old(p.buffer.Length)
    ensures ok ==> p.offset == old(p.offset) + |piece| <= p.buffer.Length
    ensures ok ==> p.buffer[..p.offset] == old(p.buffer[..p.offset]) + piece
    ensures ok ==> old(p.offset) + |t| + 2 <= old(p.Limit())
    ensures !ok ==> old(p.offset) + |piece| + 2 > old(p.Limit())
    decreases item.Repr, 4
  {
    ghost var before := p.buffer[..p.offset];
    hide Print, Integers, Item.Valid, Separator;
    ok := PrintValue(item, p);
    if !ok { return; }
    PrintNulFree(item.value, old(p.depth), p.format);
    UpdateOffset(p, before, t);
    if item.next != null {
      var sep := Separator(p.format);
      ok := Write(p, sep, |sep| + 1, true);
      if !ok { return; }
      p.offset := p.offset + |sep|;
      assert before + t + sep == before + (t + sep);
    } else {
      assert t + [] == t;
    }
  }

  /** The loop of `print_array`. */
  method PrintElements(list: Item, p: PrintBuffer) returns (ok: bool)
    requires p.Valid() && list.Valid() && list.kind == Array && Integers(list.value)
    modifies p`buffer, p`length, p`offset, p`depth, p.buffer
    ensures var text := PrintItems(list.value.items, old(p.depth), p.format);
            && ok == (list.value.items == [] || old(p.offset) + |text| + 2 <= old(p.Limit()))
            && (ok ==> Kept(p) && p.depth == old(p.depth) && old(p.offset) <= old(p.buffer.Length)
                       && p.offset == old(p.offset) + |text| <= p.buffer.Length
                       && p.buffer[..p.offset] == old(p.buffer[..p.offset]) + text)
    decreases list.Repr, 0
  {
    hide Print, PrintItems, Integers, Separator, Linked, Forest, Item.Valid, Values, Members;
    ListFacts(list);
    ghost var before, vs, ks, d := p.buffer[..p.offset], list.value.items, list.kids, p.depth;
    ghost var i, done: Bytes, text := 0, [], PrintItems(vs, d, p.format);
    var current := list.child;
    ItemsEnds(vs, d, p.format);
    assert before + [] == before && [] + text == text;
    while current != null
      invariant i <= |ks| && current == if i < |ks| then ks[i] else null
      invariant Kept(p) && p.depth == d && p.offset == |before| + |done| <= p.buffer.Length
      invariant p.buffer[..p.offset] == before + done
      invariant text == done + PrintItems(vs[i..], d, p.format)
      invariant i == |ks| > 0 ==> |before| + |text| + 2 <= old(p.Limit())
      decreases |ks| - i
    {
      ghost var t, piece := Print(vs[i], d, p.format), ItemPiece(vs, i, d, p.format);
      ItemsUnfold(vs, i, d, p.format);
      ChildFacts(list, i);
      ChildIntegers(list, i);
      ok := PrintElement(current, p, t, piece);
      if !ok { return; }
      Shift(before, done, piece, PrintItems(vs[i + 1..], d, p.format));
      done, i := done + piece, i + 1;
      current := current.next;
    }
    ok := true;
  }

  lemma Shift(a: Bytes, b: Bytes, c: Bytes, d: Bytes)
    ensures a + (b + c) == a + b + c && b + (c + d) == b + c + d
  {
  }

  lemma ArrayText(v: Json, depth: nat, fmt: bool)
    requires v.JArray?
    ensures Print(v, depth, fmt) == [LBRACKET] + PrintItems(v.items, depth + 1, fmt) + [RBRACKET]
    ensures PrintItems([], depth + 1, fmt) == []
  {
  }

  lemma ObjectText(v: Json, depth: nat, fmt: bool)
    requires v.JObject?
    ensures Print(v, depth, fmt) == Open(fmt) + PrintMembers(v.members, depth + 1, fmt) + Close(depth, fmt)
    ensures PrintMembers([], depth + 1, fmt) == []
    ensures |Close(depth, fmt)| == if fmt then depth + 1 else 1
    ensures |Open(fmt)| > 0
  {
  }

  lemma ItemsEnds(vs: seq<Json>, depth: nat, fmt: bool)
    ensures vs[0..] == vs && PrintItems(vs[|vs|..], depth, fmt) == []
  {
  }

  lemma MembersEnds(ms: seq<Member>, depth: nat, fmt: bool)
    ensures ms[0..] == ms && PrintMembers(ms[|ms|..], depth, fmt) == []
  {
  }

  lemma ChildIntegers(list: Item, i: nat)
    requires list.Valid() && list.Container() && Integers(list.value) && i < |list.kids|
    ensures Integers(list.kids[i].value)
  {
    hide Item.Valid;
    ChildShape(list, i);
  }

  lemma Join3(a: Bytes, b: Bytes, c: Bytes, d: Bytes)
    ensures a + b + c + d == a + (b + c + d) && |b + c + d| == |b| + |c| + |d|
  {
  }

  lemma ShowsShift(p: PrintBuffer, a: Bytes, b: Bytes, c: Bytes)
    requires p.Shows(a + b, c)
    ensures p.Shows(a, b + c)
  {
    assert a + b + c == a + (b + c);
  }

  /** The end of `print_array`: the elements and the closing bracket, one level up again. */
  method PrintArrayBody(list: Item, p: PrintBuffer) returns (ok: bool)
    requires p.Valid() && list.Valid() && list.kind == Array && Integers(list.value) && p.depth > 0
    modifies p`buffer, p`length, p`offset, p`depth, p.buffer
    ensures var text := PrintItems(list.value.items, old(p.depth), p.format) + [RBRACKET];
            && ok == (old(p.offset) + |text| + 2 <= old(p.Limit()))
            && (ok ==> Kept(p) && p.depth == old(p.depth) - 1 && old(p.offset) <= old(p.buffer.Length)
                       && p.Shows(old(p.buffer[..p.offset]), text)
                       && old(p.offset) <= p.offset <= old(p.offset) + |text|)
    decreases list.Repr, 1
  {
    hide Print, PrintItems, Integers, Item.Valid, Separator;
    ListFacts(list);
    ArrayText(list.value, p.depth - 1, p.format);
    ghost var before, text := p.buffer[..p.offset], PrintItems(list.value.items, p.depth, p.format);
    var close := [RBRACKET];
    assert before + text + close == before + (text + close);
    ok := PrintElements(list, p);
    if !ok { return; }
    ok := Write(p, close, 2, true);
    p.depth := p.depth - 1;
  }

  /** `print_array`. */
  method PrintArray(list: Item, p: PrintBuffer) returns (ok: bool)
    requires p.Valid() && list.Valid() && list.kind == Array && Integers(list.value)
    modifies p`buffer, p`length, p`offset, p`depth, p.buffer
    ensures var text := Print(list.value, old(p.depth), p.format);
            && ok == (old(p.offset) + |text| + 2 <= old(p.Limit()))
            && (ok ==> Kept(p) && p.depth == old(p.depth) && old(p.offset) <= old(p.buffer.Length)
                       && p.Shows(old(p.buffer[..p.offset]), text)
                       && old(p.offset) <= p.offset <= old(p.offset) + |text|)
    decreases list.Repr, 2
  {
    hide Print, PrintItems, Integers, Item.Valid, PrintBuffer.Shows;
    ListFacts(list);
    ArrayText(list.value, p.depth, p.format);
    ghost var before, text := p.buffer[..p.offset], PrintItems(list.value.items, p.depth + 1, p.format);
    var open := [LBRACKET];
    Shift([], open, text, [RBRACKET]);
    ok := Put(p, open, 1, false);
    if !ok { return; }
    p.depth := p.depth + 1;
    ok := PrintArrayBody(list, p);
    if ok { ShowsShift(p, before, open, text + [RBRACKET]); }
  }

  // ---------------------------------------------------------------- objects

  /** Tabs, key and colon of one member. */
  method PrintKey(item: Item, p: PrintBuffer) returns (ok: bool)
    requires p.Valid() && item.name.Some?
    modifies p`buffer, p`length, p`offset, p.buffer
    ensures var text := Indent(p.depth, p.format) + Quoted(item.name.value) + Middle(p.format);
            && ok == (old(p.offset) + |text| + 1 <= old(p.Limit()))
            && (ok ==> Kept(p) && p.offset == old(p.offset) + |text| <= p.buffer.Length
                       && old(p.offset) <= old(p.buffer.Length)
                       && p.buffer[..p.offset] == old(p.buffer[..p.offset]) + text)
  {
    hide Quoted, Escape;
    ghost var before, q := p.buffer[..p.offset], Quoted(item.name.value);
    var indent := if p.format then Tabs(p.depth) else [];
    if p.format {
      ok := Put(p, indent, p.depth, false);
      if !ok { return; }
    } else {
      assert before + indent == before;
    }
    ok := PrintStringPtr(item.name, p);
    if !ok { return; }
    QuotedNulFree(item.name.value);
    UpdateOffset(p, before + indent, q);
    var middle := Middle(p.format);
    ok := Put(p, middle, |middle|, false);
    assert before + indent + q + middle == before + (indent + q + middle);
  }

  /** One turn of the loop of `print_object`. */
  method PrintMemberOf(item: Item, p: PrintBuffer, ghost m: Member) returns (ok: bool)
    requires p.Valid() && item.Valid() && Integers(item.value) && IsMember(item, m)
    modifies p`buffer, p`length, p`offset, p`depth, p.buffer
    ensures var text := PrintMember(m, item.next == null, old(p.depth), p.format);
            && ok == (old(p.offset) + |text| + 2 <= old(p.Limit()))
            && (ok ==> Kept(p) && p.depth == old(p.depth) && old(p.offset) <= old(p.buffer.Length)
                       && p.offset == old(p.offset) + |text| <= p.buffer.Length
                       && p.buffer[..p.offset] == old(p.buffer[..p.offset]) + text)
    decreases item.Repr, 4
  {
    hide Print, Quoted, Indent, Middle, Integers, Item.Valid;
    ghost var before, d := p.buffer[..p.offset], p.depth;
    ghost var head := Indent(d, p.format) + Quoted(m.key) + Middle(p.format);
    ghost var v := Print(m.value, d, p.format);
    ok := PrintKey(item, p);
    if !ok { return; }
    ghost var before' := p.buffer[..p.offset];
    ok := PrintValue(item, p);
    if !ok { return; }
    PrintNulFree(m.value, d, p.format);
    UpdateOffset(p, before', v);
    var after := After(item.next == null, p.format);
    ok := Put(p, after, |after| + 1, true);
    Join3(before, head, v, after);
  }

  lemma MembersUnfold(ms: seq<Member>, i: nat, depth: nat, fmt: bool)
    requires i < |ms|
    ensures PrintMembers(ms[i..], depth, fmt)
         == PrintMember(ms[i], i + 1 == |ms|, depth, fmt) + PrintMembers(ms[i + 1..], depth, fmt)
  {
    assert ms[i..][0] == ms[i] && ms[i..][1..] == ms[i + 1..];
  }

  /** The loop of `print_object`. */
  method PrintAllMembers(list: Item, p: PrintBuffer) returns (ok: bool)
    requires p.Valid() && list.Valid() && list.kind == Object && Integers(list.value)
    modifies p`buffer, p`length, p`offset, p`depth, p.buffer
    ensures var text := PrintMembers(list.value.members, old(p.depth), p.format);
            && ok == (list.value.members == [] || old(p.offset) + |text| + 2 <= old(p.Limit()))
            && (ok ==> Kept(p) && p.depth == old(p.depth) && old(p.offset) <= old(p.buffer.Length)
                       && p.offset == old(p.offset) + |text| <= p.buffer.Length
                       && p.buffer[..p.offset] == old(p.buffer[..p.offset]) + text)
    decreases list.Repr, 0
  {
    hide Print, PrintMembers, PrintMember, Integers, Linked, Forest, Item.Valid, Values, Members;
    ListFacts(list);
    ghost var before, ms, ks, d := p.buffer[..p.offset], list.value.members, list.kids, p.depth;
    ghost var i, done: Bytes, text := 0, [], PrintMembers(ms, d, p.format);
    var current := list.child;
    MembersEnds(ms, d, p.format);
    assert before + [] == before && [] + text == text;
    while current != null
      invariant i <= |ks| && current == if i < |ks| then ks[i] else null
      invariant Kept(p) && p.depth == d && p.offset == |before| + |done| <= p.buffer.Length
      invariant p.buffer[..p.offset] == before + done
      invariant text == done + PrintMembers(ms[i..], d, p.format)
      invariant i == |ks| > 0 ==> |before| + |text| + 2 <= old(p.Limit())
      decreases |ks| - i
    {
      ghost var piece := PrintMember(ms[i], i + 1 == |ms|, d, p.format);
      MembersUnfold(ms, i, d, p.format);
      ChildFacts(list, i);
      ChildIntegers(list, i);
      ok := PrintMemberOf(current, p, ms[i]);
      if !ok { return; }
      Shift(before, done, piece, PrintMembers(ms[i + 1..], d, p.format));
      done, i := done + piece, i + 1;
      current := current.next;
    }
    ok := true;
  }

  /** The end of `print_object`: the members and the closing brace, one level up again. */
  method PrintObjectBody(list: Item, p: PrintBuffer) returns (ok: bool)
    requires p.Valid() && list.Valid() && list.kind == Object && Integers(list.value) && p.depth > 0
    modifies p`buffer, p`length, p`offset, p`depth, p.buffer
    ensures var text := PrintMembers(list.value.members, old(p.depth), p.format) + Close(old(p.depth) - 1, p.format);
            && ok == (old(p.offset) + |text| + 2 <= old(p.Limit()))
            && (ok ==> Kept(p) && p.depth == old(p.depth) - 1 && old(p.offset) <= old(p.buffer.Length)
                       && p.Shows(old(p.buffer[..p.offset]), text)
                       && old(p.offset) <= p.offset <= old(p.offset) + |text|)
    decreases list.Repr, 1
  {
    hide Print, PrintMembers, Integers, Item.Valid, Close, Open;
    ListFacts(list);
    ObjectText(list.value, p.depth - 1, p.format);
    ghost var before, text := p.buffer[..p.offset], PrintMembers(list.value.members, p.depth, p.format);
    var close := Close(p.depth - 1, p.format);
    assert before + text + close == before + (text + close);
    ok := PrintAllMembers(list, p);
    if !ok { return; }
    ok := Write(p, close, if p.format then p.depth + 1 else 2, true);
    p.depth := p.depth - 1;
  }

  /** `print_object`. */
  method PrintObject(list: Item, p: PrintBuffer) returns (ok: bool)
    requires p.Valid() && list.Valid() && list.kind == Object && Integers(list.value)
    modifies p`buffer, p`length, p`offset, p`depth, p.buffer
    ensures var text := Print(list.value, old(p.depth), p.format);
            && ok == (old(p.offset) + |text| + 2 <= old(p.Limit()))
            && (ok ==> Kept(p) && p.depth == old(p.depth) && old(p.offset) <= old(p.buffer.Length)
                       && p.Shows(old(p.buffer[..p.offset]), text)
                       && old(p.offset) <= p.offset <= old(p.offset) + |text|)
    decreases list.Repr, 2
  {
    hide Print, PrintMembers, Integers, Item.Valid, Tabs, Open, Close, PrintBuffer.Shows;
    ListFacts(list);
    ObjectText(list.value, p.depth, p.format);
    ghost var before, text := p.buffer[..p.offset], PrintMembers(list.value.members, p.depth + 1, p.format);
    var open := Open(p.format);
    ghost var close := Close(p.depth, p.format);
    Shift([], open, text, close);
    ok := Put(p, open, |open| + 1, false);
    if !ok { return; }
    p.depth := p.depth + 1;
    ok := PrintObjectBody(list, p);
    if ok { ShowsShift(p, before, open, text + close); }
  }

  /** `print_value`. Success is exactly a matter of room: the text, its NUL and one spare byte must fit. */
  method PrintValue(item: Item?, p: PrintBuffer) returns (ok: bool)
    requires p.Valid() && (item != null ==> item.Valid() && Integers(item.value))
    modifies p`buffer, p`length, p`offset, p`depth, p.buffer
    ensures item == null ==> !ok
    ensures item != null ==>
              var text := Print(item.value, old(p.depth), p.format);
              && ok == (old(p.offset) + |text| + 2 <= old(p.Limit()))
              && (ok ==> Kept(p) && p.depth == old(p.depth) && old(p.offset) <= old(p.buffer.Length)
                         && p.Shows(old(p.buffer[..p.offset]), text)
                         && old(p.offset) <= p.offset <= old(p.offset) + |text|)
    decreases if item == null then {} else item.Repr, 3
  {
    if item == null { return false; }
    hide PrintItems, PrintMembers, Quoted, Forest;
    match item.kind {
      case Null => ok := Write(p, NULL_TEXT, 5, true);
      case False => ok := Write(p, FALSE_TEXT, 6, true);
      case True => ok := Write(p, TRUE_TEXT, 5, true);
      case Number => ok := PrintNumber(item, p);
      case String => ok := PrintStringPtr(item.valuestring, p);
      case Array => ok := PrintArray(item, p);
      case Object => ok := PrintObject(item, p);
      case Invalid => ok := false;
    }
  }

  /** Copy the first `n` bytes of the buffer, which are `text`, and their NUL. */
  method CopyOut(p: PrintBuffer, ghost text: Bytes) returns (out: array<byte>)
    requires p.offset == |text| < p.buffer.Length && p.buffer[..p.offset] == text && p.buffer[p.offset] == 0
    ensures fresh(out) && out[..] == text + [0]
  {
    out := new byte[p.offset + 1];
    forall i | 0 <= i < out.Length {
      out[i] := p.buffer[i];
    }
    assert out[..p.offset] == p.buffer[..p.offset];
  }

  /** `print`: the text and its NUL in a buffer of exactly that size, or NULL if the text is too long. */
  method PrintText(item: Item?, format: bool) returns (printed: array?<byte>)
    requires item != null ==> item.Valid() && Integers(item.value)
    ensures (printed != null) == (item != null && |Print(item.value, 0, format)| + 2 <= INT_MAX)
    ensures printed != null ==> fresh(printed) && printed[..] == Print(item.value, 0, format) + [0]
  {
    hide Print, Integers, Item.Valid;
    var buffer := new byte[256];
    var p := new PrintBuffer(buffer, false, format);
    assert p.buffer[..p.offset] == [];
    var ok := PrintValue(item, p);
    if !ok { return null; }
    ghost var text := Print(item.value, 0, format);
    PrintNulFree(item.value, 0, format);
    UpdateOffset(p, [], text);
    assert [] + text == text;
    printed := CopyOut(p, text);
  }

  /** `cJSON_PrintPreallocated`: succeeds exactly when the buffer has two bytes more than the text. */
  method PrintPreallocated(item: Item, buffer: array<byte>, format: bool) returns (ok: bool)
    requires item.Valid() && Integers(item.value) && buffer.Length <= INT_MAX
    modifies buffer
    ensures ok == (|Print(item.value, 0, format)| + 2 <= buffer.Length)
    ensures ok ==> buffer[..|Print(item.value, 0, format)| + 1] == Print(item.value, 0, format) + [0]
  {
    hide Print, Integers, Item.Valid;
    var p := new PrintBuffer(buffer, true, format);
    ghost var text := Print(item.value, 0, format);
    assert p.buffer[..p.offset] == [] && [] + text == text;
    ok := PrintValue(item, p);
    assert ok ==> buffer[..|text| + 1] == buffer[..|text|] + [buffer[|text|]];
  }
}
