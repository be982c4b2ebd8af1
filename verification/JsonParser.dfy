/**
 The recursive-descent parser building a tree of nodes in place, proved equal
 to the grammar on every buffer.
 */
module JsonParser {
  import opened Bytes
  import opened JsonValue
  import opened JsonItem
  import opened JsonLexer
  import opened G = JsonGrammar
  import opened JsonText
  import JsonString

  /** How many more containers may be opened. */
  function Room(depth: nat): nat { if depth >= NESTING_LIMIT then 0 else NESTING_LIMIT - depth }

  function PrependItems(vs: seq<Json>, r: Parsed<seq<Json>>): Parsed<seq<Json>> {
    match r case Fail => Fail case Ok(ws, e) => Ok(vs + ws, e)
  }

  function PrependMembers(ms: seq<Member>, r: Parsed<seq<Member>>): Parsed<seq<Member>> {
    match r case Fail => Fail case Ok(ws, e) => Ok(ms + ws, e)
  }

  /** One turn of the grammar's element loop, seen from the elements `vs` already parsed. */
  lemma ItemsSoFar(s: Bytes, off: nat, room: nat, vs: seq<Json>)
    requires off <= |s|
    ensures var v := G.ParseValue(s, Skip(s, off), room);
            var r := PrependItems(vs, ParseItems(s, off, room));
            if v.Fail? then r == Fail
            else
              var p := Skip(s, v.end);
              if Is(s, p, COMMA) then r == PrependItems(vs + [v.value], ParseItems(s, p + 1, room))
              else if Is(s, p, RBRACKET) then r == Ok(vs + [v.value], p + 1)
              else r == Fail
  {
    hide G.ParseValue, G.ParseItems, Skip;
    G.ItemsTurn(s, off, room);
    var v := G.ParseValue(s, Skip(s, off), room);
    if v.Ok? && Is(s, Skip(s, v.end), COMMA) {
      var r := ParseItems(s, Skip(s, v.end) + 1, room);
      if r.Ok? { assert vs + ([v.value] + r.value) == vs + [v.value] + r.value; }
    }
  }

  lemma MembersSoFar(s: Bytes, off: nat, room: nat, ms: seq<Member>)
    requires off <= |s|
    ensures var k := ParseKey(s, off);
            var r := PrependMembers(ms, ParseMembers(s, off, room));
            if k.Fail? then r == Fail
            else
              var v := G.ParseValue(s, Skip(s, k.end), room);
              if v.Fail? then r == Fail
              else
                var p, m := Skip(s, v.end), Member(k.value, v.value);
                if Is(s, p, COMMA) then r == PrependMembers(ms + [m], ParseMembers(s, p + 1, room))
                else if Is(s, p, RBRACE) then r == Ok(ms + [m], p + 1)
                else r == Fail
  {
    hide G.ParseValue, G.ParseMembers, ParseKey, Skip;
    G.MembersTurn(s, off, room);
    var k := ParseKey(s, off);
    if k.Ok? {
      var v := G.ParseValue(s, Skip(s, k.end), room);
      if v.Ok? && Is(s, Skip(s, v.end), COMMA) {
        var r, m := ParseMembers(s, Skip(s, v.end) + 1, room), Member(k.value, v.value);
        if r.Ok? { assert ms + ([m] + r.value) == ms + [m] + r.value; }
      }
    }
  }

  /** The body of the element loop of `parse_array`, from the character before the element. */
  method ParseElement(b: ParseBuffer, head: Item?, last: Item?, ghost ks: seq<Item>, ghost all: set<Item>)
    returns (ok: bool, h: Item?, item: Item?)
    requires Chain(head, last, ks, all) && b.offset < |b.content|
    modifies (if last == null then {} else {last})`next, b`offset, b`depth
    ensures b.offset <= |b.content|
    ensures var v := G.ParseValue(b.content, Skip(b.content, old(b.offset) + 1), Room(old(b.depth)));
            ok == v.Ok? &&
            (ok ==> b.offset == Skip(b.content, v.end) && b.depth == old(b.depth)
                    && item != null && item.value == v.value)
    ensures ok ==> item != null && fresh(item.Repr) && Chain(h, item, ks + [item], all + item.Repr)
    decreases |b.content| - b.offset - 1, 3
  {
    hide *;
    h, item := AttachNew(head, last, ks, all);
    b.offset := b.offset + 1;
    SkipWhitespace(b);
    ok := ParseValue(item, b);
    if !ok { return; }
    SkipWhitespace(b);
    ChainGrown(h, item, ks, all);
  }

  /** `parse_array`, entered at its opening bracket. */
  method ParseArray(item: Item, b: ParseBuffer) returns (ok: bool)
    requires b.At(LBRACKET) && item.Empty()
    modifies item`child, item`kind, item`kids, item`Repr, item`value, b`offset, b`depth
    ensures b.offset <= |b.content|
    ensures var r := G.ParseArray(b.content, old(b.offset), Room(old(b.depth)));
            ok == r.Ok? && (ok ==> r.end == b.offset && b.depth == old(b.depth) && item.value == JArray(r.value))
    ensures ok ==> item.Valid() && fresh(item.Repr - {item})
    decreases |b.content| - b.offset, 1
  {
    hide G.ParseValue, G.ParseItems, G.ParseMembers, ParseKey, Skip, Chain, Item.Valid, Contents, Forest, Values;
    hide Members;
    if b.depth >= NESTING_LIMIT { return false; }
    b.depth := b.depth + 1;
    b.offset := b.offset + 1;
    SkipWhitespace(b);
    EmptyChain();
    var head: Item?, last: Item? := null, null;
    ghost var ks: seq<Item>, all: set<Item>, vs: seq<Json> := [], {}, [];
    if !b.At(RBRACKET) {
      if !b.Accessible() {
        b.offset := b.offset - 1;
        return false;
      }
      ok, head, last, ks, all, vs := ParseElements(b);
      if !ok { return false; }
      ChainEnds(head, last, ks, all);
    }
    FinishArray(item, b, head, last, ks, all, vs);
    return true;
  }

  /** The element loop, with the cursor on the first character of the first element. */
  method ParseElements(b: ParseBuffer)
    returns (ok: bool, head: Item?, last: Item?, ghost ks: seq<Item>, ghost all: set<Item>, ghost vs: seq<Json>)
    requires 0 < b.offset < |b.content|
    modifies b`offset, b`depth
    ensures b.offset <= |b.content|
    ensures var r := G.ParseItems(b.content, old(b.offset), Room(old(b.depth)));
            ok == r.Ok? && (ok ==> r == Ok(vs, b.offset + 1) && b.offset < |b.content| && b.depth == old(b.depth))
    ensures ok ==> Chain(head, last, ks, all) && Values(ks, vs) && fresh(all)
    decreases |b.content| - b.offset, 4
  {
    hide G.ParseValue, G.ParseItems, Skip, Chain;
    EmptyChain();
    head, last, ks, all, vs := null, null, [], {}, [];
    ghost var s, p0, room := b.content, b.offset, Room(b.depth);
    ghost var r := G.ParseItems(s, p0, room);
    assert r.Ok? ==> [] + r.value == r.value;
    b.offset := b.offset - 1;
    while true
      invariant p0 - 1 <= b.offset < |s| && b.depth == old(b.depth)
      invariant Chain(head, last, ks, all) && Values(ks, vs) && fresh(all)
      invariant PrependItems(vs, G.ParseItems(s, b.offset + 1, room)) == r
      decreases |s| - b.offset
    {
      ghost var off := b.offset + 1;
      ItemsSoFar(s, off, room, vs);
      ChainEnds(head, last, ks, all);
      ok, head, last := ParseElement(b, head, last, ks, all);
      if !ok { return; }
      ks, all, vs := ks + [last], all + last.Repr, vs + [last.value];
      if !b.At(COMMA) { break; }
    }
    ok := b.At(RBRACKET);
  }

  /** Close the chain and make it the children of the empty item. */
  method Assemble(item: Item, kind: Kind, head: Item?, last: Item?, ghost ks: seq<Item>, ghost all: set<Item>,
      ghost v: Json)
    requires item.Empty() && item !in all && Chain(head, last, ks, all) && Contents(kind, ks, v)
    modifies item`child, item`kind, item`kids, item`Repr, item`value
    modifies (if head == null then {} else {head})`prev
    ensures Became(item, ks, all, v)
  {
    hide Values, Members, Linked, Became;
    ChainNodes(head, last, ks, all);
    hide Chain, Forest;
    CloseChain(head, last, ks, all);
    item.kind := kind;
    item.child := head;
    Adopt(item, ks, all, v);
  }

  /** The `success:` part of `parse_array`. */
  method FinishArray(item: Item, b: ParseBuffer, head: Item?, last: Item?, ghost ks: seq<Item>, ghost all: set<Item>,
      ghost vs: seq<Json>)
    requires item.Empty() && item !in all && Chain(head, last, ks, all) && Values(ks, vs) && b.depth > 0
    modifies item`child, item`kind, item`kids, item`Repr, item`value, b`offset, b`depth
    modifies (if head == null then {} else {head})`prev
    ensures Became(item, ks, all, JArray(vs))
    ensures b.offset == old(b.offset) + 1 && b.depth == old(b.depth) - 1
  {
    hide Chain, Values, Members, Became;
    b.depth := b.depth - 1;
    b.offset := b.offset + 1;
    Assemble(item, Array, head, last, ks, all, JArray(vs));
  }

  /** Key and colon of a member: the key moves from `valuestring` to `name`. */
  method ParseMemberKey(b: ParseBuffer, item: Item) returns (ok: bool)
    requires b.offset < |b.content| && item.Empty()
    modifies item`kind, item`valuestring, item`value, item`name, b`offset
    ensures b.offset <= |b.content|
    ensures var k := ParseKey(b.content, old(b.offset) + 1);
            ok == k.Ok? && (ok ==> b.offset == Skip(b.content, k.end) && item.name == Some(k.value))
    ensures ok ==> item.Empty()
  {
    hide JsonString.ParseString, Skip;
    if b.offset + 1 >= |b.content| { return false; }
    b.offset := b.offset + 1;
    SkipWhitespace(b);
    ok := JsonLexer.ParseString(item, b);
    if !ok { return false; }
    SkipWhitespace(b);
    item.name := item.valuestring;
    item.valuestring := None;
    if !b.At(COLON) { return false; }
    b.offset := b.offset + 1;
    SkipWhitespace(b);
  }

  /** The body of the member loop of `parse_object`, from the character before the member. */
  method ParseMember(b: ParseBuffer, head: Item?, last: Item?, ghost ks: seq<Item>, ghost all: set<Item>)
    returns (ok: bool, h: Item?, item: Item?)
    requires Chain(head, last, ks, all) && b.offset < |b.content|
    modifies (if last == null then {} else {last})`next, b`offset, b`depth
    ensures b.offset <= |b.content|
    ensures var k := ParseKey(b.content, old(b.offset) + 1);
            if k.Fail? then !ok
            else
              var v := G.ParseValue(b.content, Skip(b.content, k.end), Room(old(b.depth)));
              ok == v.Ok? &&
              (ok ==> b.offset == Skip(b.content, v.end) && b.depth == old(b.depth)
                      && item != null && item.value == v.value && item.name == Some(k.value))
    ensures ok ==> item != null && fresh(item.Repr) && Chain(h, item, ks + [item], all + item.Repr)
    decreases |b.content| - b.offset - 1, 3
  {
    hide *;
    h, item := AttachNew(head, last, ks, all);
    ok := ParseMemberKey(b, item);
    if !ok { return; }
    ok := ParseValue(item, b);
    if !ok { return; }
    SkipWhitespace(b);
    ChainGrown(h, item, ks, all);
  }

  /** `parse_object`, entered at its opening brace. */
  method ParseObject(item: Item, b: ParseBuffer) returns (ok: bool)
    requires b.At(LBRACE) && item.Empty()
    modifies item`child, item`kind, item`kids, item`Repr, item`value, b`offset, b`depth
    ensures b.offset <= |b.content|
    ensures var r := G.ParseObject(b.content, old(b.offset), Room(old(b.depth)));
            ok == r.Ok? && (ok ==> r.end == b.offset && b.depth == old(b.depth) && item.value == JObject(r.value))
    ensures ok ==> item.Valid() && fresh(item.Repr - {item})
    decreases |b.content| - b.offset, 1
  {
    hide G.ParseValue, G.ParseItems, G.ParseMembers, ParseKey, Skip, Chain, Item.Valid, Contents, Forest, Values;
    hide Members;
    if b.depth >= NESTING_LIMIT { return false; }
    b.depth := b.depth + 1;
    b.offset := b.offset + 1;
    SkipWhitespace(b);
    EmptyChain();
    var head: Item?, last: Item? := null, null;
    ghost var ks: seq<Item>, all: set<Item>, ms: seq<Member> := [], {}, [];
    if !b.At(RBRACE) {
      if !b.Accessible() {
        b.offset := b.offset - 1;
        return false;
      }
      ok, head, last, ks, all, ms := ParseAllMembers(b);
      if !ok { return false; }
      ChainEnds(head, last, ks, all);
    }
    FinishObject(item, b, head, last, ks, all, ms);
    return true;
  }

  /** The member loop, with the cursor on the first character of the first member. */
  method ParseAllMembers(b: ParseBuffer)
    returns (ok: bool, head: Item?, last: Item?, ghost ks: seq<Item>, ghost all: set<Item>, ghost ms: seq<Member>)
    requires 0 < b.offset < |b.content|
    modifies b`offset, b`depth
    ensures b.offset <= |b.content|
    ensures var r := G.ParseMembers(b.content, old(b.offset), Room(old(b.depth)));
            ok == r.Ok? && (ok ==> r == Ok(ms, b.offset + 1) && b.offset < |b.content| && b.depth == old(b.depth))
    ensures ok ==> Chain(head, last, ks, all) && Members(ks, ms) && fresh(all)
    decreases |b.content| - b.offset, 4
  {
    hide G.ParseValue, G.ParseMembers, ParseKey, Skip, Chain;
    EmptyChain();
    head, last, ks, all, ms := null, null, [], {}, [];
    ghost var s, p0, room := b.content, b.offset, Room(b.depth);
    ghost var r := G.ParseMembers(s, p0, room);
    assert r.Ok? ==> [] + r.value == r.value;
    b.offset := b.offset - 1;
    while true
      invariant p0 - 1 <= b.offset < |s| && b.depth == old(b.depth)
      invariant Chain(head, last, ks, all) && Members(ks, ms) && fresh(all)
      invariant PrependMembers(ms, G.ParseMembers(s, b.offset + 1, room)) == r
      decreases |s| - b.offset
    {
      ghost var off := b.offset + 1;
      MembersSoFar(s, off, room, ms);
      ChainEnds(head, last, ks, all);
      ok, head, last := ParseMember(b, head, last, ks, all);
      if !ok { return; }
      ks, all, ms := ks + [last], all + last.Repr, ms + [Member(last.name.value, last.value)];
      if !b.At(COMMA) { break; }
    }
    ok := b.At(RBRACE);
  }

  /** The `success:` part of `parse_object`. */
  method FinishObject(item: Item, b: ParseBuffer, head: Item?, last: Item?, ghost ks: seq<Item>, ghost all: set<Item>,
      ghost ms: seq<Member>)
    requires item.Empty() && item !in all && Chain(head, last, ks, all) && Members(ks, ms) && b.depth > 0
    modifies item`child, item`kind, item`kids, item`Repr, item`value, b`offset, b`depth
    modifies (if head == null then {} else {head})`prev
    ensures Became(item, ks, all, JObject(ms))
    ensures b.offset == old(b.offset) + 1 && b.depth == old(b.depth) - 1
  {
    hide Chain, Values, Members, Became;
    b.depth := b.depth - 1;
    b.offset := b.offset + 1;
    Assemble(item, Object, head, last, ks, all, JObject(ms));
  }

  /** `strncmp` on a literal of the given length. */
  predicate Literal(b: ParseBuffer, text: Bytes)
    reads b`offset
  {
    b.offset + |text| <= |b.content| && b.content[b.offset..b.offset + |text|] == text
  }

  /** The three literal names, tried in the source's order. */
  method ParseLiteral(item: Item, b: ParseBuffer) returns (ok: bool)
    requires b.offset <= |b.content| && item.Empty()
    modifies item`kind, item`valueint, item`value, b`offset
    ensures b.offset <= |b.content|
    ensures ok == (At(b.content, old(b.offset), NULL_TEXT) || At(b.content, old(b.offset), FALSE_TEXT)
            || At(b.content, old(b.offset), TRUE_TEXT))
    ensures ok ==> item.value.JNull? || item.value.JBool?
    ensures ok ==> G.ParseValue(b.content, old(b.offset), 0) == Ok(item.value, b.offset)
    ensures ok ==> item.Valid() && item.Repr == {item}
    ensures !ok ==> item.Empty() && b.offset == old(b.offset)
  {
    if Literal(b, NULL_TEXT) {
      item.kind, item.value := Null, JNull;
      b.offset := b.offset + 4;
      return true;
    }
    if Literal(b, FALSE_TEXT) {
      item.kind, item.value := False, JBool(false);
      b.offset := b.offset + 5;
      return true;
    }
    if Literal(b, TRUE_TEXT) {
      item.kind, item.value := True, JBool(true);
      item.valueint := 1;
      b.offset := b.offset + 4;
      return true;
    }
    return false;
  }

  /** `parse_value`. */
  method ParseValue(item: Item, b: ParseBuffer) returns (ok: bool)
    requires b.offset <= |b.content| && item.Empty()
    modifies item`child, item`kind, item`valuestring, item`valueint, item`valuedouble, item`kids, item`Repr, item`value
    modifies b`offset, b`depth
    ensures b.offset <= |b.content|
    ensures var r := G.ParseValue(b.content, old(b.offset), Room(old(b.depth)));
            ok == r.Ok? && (ok ==> r == Ok(item.value, b.offset) && b.depth == old(b.depth))
    ensures ok ==> item.Valid() && fresh(item.Repr - {item})
    decreases |b.content| - b.offset, 2
  {
    hide JsonString.ParseString, G.ParseNumber, G.ParseArray, G.ParseObject;
    ok := ParseLiteral(item, b);
    if ok { return; }
    if b.At(QUOTE) {
      ok := JsonLexer.ParseString(item, b);
    } else if b.Accessible() && StartsNumber(b.content[b.offset]) {
      ok := JsonLexer.ParseNumber(item, b);
    } else if b.At(LBRACKET) {
      ok := ParseArray(item, b);
    } else if b.At(LBRACE) {
      ok := ParseObject(item, b);
    } else {
      ok := false;
    }
  }

  /** `skip_utf8_bom`. */
  method SkipUtf8Bom(b: ParseBuffer)
    requires b.offset == 0
    modifies b`offset
    ensures b.offset == SkipBom(b.content)
  {
    if 4 < |b.content| && Literal(b, [0xEF, 0xBB, 0xBF]) {
      b.offset := b.offset + 3;
    }
  }

  /** `cJSON_ParseWithLengthOpts`. */
  method ParseWithLengthOpts(value: Bytes, requireNul: bool) returns (r: Item?, parseEnd: nat)
    ensures (r != null) == ParseText(value, requireNul).Ok?
    ensures r != null ==> fresh(r.Repr) && r.Valid() && ParseText(value, requireNul) == Ok(r.value, parseEnd)
  {
    if value == [] { return null, 0; }
    var b := new ParseBuffer(value);
    var item := new Item();
    hide G.ParseValue;
    SkipUtf8Bom(b);
    SkipWhitespace(b);
    var ok := ParseValue(item, b);
    if !ok { return null, 0; }
    if requireNul {
      SkipWhitespace(b);
      if !b.At(0) { return null, 0; }
    }
    return item, b.offset;
  }
}
