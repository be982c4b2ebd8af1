/**
 A pure reading of cJSON's recursive-descent parser: the value found at an
 offset and the offset after it. `room` is how many more containers may be
 opened before CJSON_NESTING_LIMIT is reached.
 */
module JsonGrammar {
  import opened Bytes
  import opened JsonValue
  import opened JsonText
  import JsonNumber
  import JsonString

  const NESTING_LIMIT: nat := 1000

  datatype Parsed<+T> = Fail | Ok(value: T, end: nat)

  predicate Is(s: Bytes, off: nat, b: byte) { off < |s| && s[off] == b }

  /** First offset at or after `off` holding a byte above 32, or the length. */
  function SkipSpace(s: Bytes, off: nat): (e: nat)
    requires off <= |s|
    ensures off <= e <= |s|
    ensures forall j :: off <= j < e ==> s[j] <= 32
    ensures e < |s| ==> s[e] > 32
    decreases |s| - off
  {
    if off < |s| && s[off] <= 32 then SkipSpace(s, off + 1) else off
  }

  /** `buffer_skip_whitespace`: stepping back from the end never goes before the start. */
  function Skip(s: Bytes, off: nat): (e: nat)
    requires off <= |s|
    ensures off <= e <= |s|
    ensures off < |s| ==> e < |s|
  {
    if off >= |s| then off
    else
      var e := SkipSpace(s, off);
      if e == |s| then e - 1 else e
  }

  /** `parse_number`. */
  function ParseNumber(s: Bytes, off: nat): (r: Parsed<Json>)
    requires off <= |s|
    ensures r.Ok? ==> off < r.end <= |s|
  {
    var token := s[off..JsonNumber.TokenEnd(s, off)];
    var (x, used) := JsonNumber.StrToD(token);
    if used == 0 then Fail else Ok(JNumber(x), off + used)
  }

  predicate StartsNumber(b: byte) { b == 0x2D || JsonNumber.Digit(b) }

  /** `parse_value`. */
  function ParseValue(s: Bytes, off: nat, room: nat): (r: Parsed<Json>)
    requires off <= |s|
    ensures r.Ok? ==> off < r.end <= |s|
    decreases |s| - off, 1
  {
    if At(s, off, NULL_TEXT) then Ok(JNull, off + 4)
    else if At(s, off, FALSE_TEXT) then Ok(JBool(false), off + 5)
    else if At(s, off, TRUE_TEXT) then Ok(JBool(true), off + 4)
    else if off == |s| then Fail
    else if s[off] == QUOTE then
      match JsonString.ParseString(s, off)
      case Fail => Fail
      case Ok(t, e) => Ok(JString(t), e)
    else if StartsNumber(s[off]) then ParseNumber(s, off)
    else if s[off] == LBRACKET then
      match ParseArray(s, off, room)
      case Fail => Fail
      case Ok(vs, e) => Ok(JArray(vs), e)
    else if s[off] == LBRACE then
      match ParseObject(s, off, room)
      case Fail => Fail
      case Ok(ms, e) => Ok(JObject(ms), e)
    else Fail
  }

  function ParseArray(s: Bytes, off: nat, room: nat): (r: Parsed<seq<Json>>)
    requires off < |s|
    ensures r.Ok? ==> off < r.end <= |s|
    decreases |s| - off, 0
  {
    if room == 0 then Fail
    else
      var p := Skip(s, off + 1);
      if Is(s, p, RBRACKET) then Ok([], p + 1)
      else if p == |s| then Fail
      else ParseItems(s, p, room - 1)
  }

  /** The element loop, from the offset after '[' or ','. */
  function ParseItems(s: Bytes, off: nat, room: nat): (r: Parsed<seq<Json>>)
    requires off <= |s|
    ensures r.Ok? ==> off < r.end <= |s| && r.value != []
    decreases |s| - off, 2
  {
    match ParseValue(s, Skip(s, off), room)
    case Fail => Fail
    case Ok(v, e) =>
      var p := Skip(s, e);
      if Is(s, p, COMMA) then
        match ParseItems(s, p + 1, room)
        case Fail => Fail
        case Ok(vs, e') => Ok([v] + vs, e')
      else if Is(s, p, RBRACKET) then Ok([v], p + 1)
      else Fail
  }

  function ParseObject(s: Bytes, off: nat, room: nat): (r: Parsed<seq<Member>>)
    requires off < |s|
    ensures r.Ok? ==> off < r.end <= |s|
    decreases |s| - off, 0
  {
    if room == 0 then Fail
    else
      var p := Skip(s, off + 1);
      if Is(s, p, RBRACE) then Ok([], p + 1)
      else if p == |s| then Fail
      else ParseMembers(s, p, room - 1)
  }

  /** Key and colon: the key and the offset after the colon. */
  function ParseKey(s: Bytes, off: nat): (r: Parsed<Bytes>)
    requires off <= |s|
    ensures r.Ok? ==> off < r.end <= |s| && NulFree(r.value)
  {
    if off == |s| then Fail
    else
      match JsonString.ParseString(s, Skip(s, off))
      case Fail => Fail
      case Ok(key, e) =>
        var p := Skip(s, e);
        if Is(s, p, COLON) then Ok(key, p + 1) else Fail
  }

  /** The member loop, from the offset after '{' or ','. */
  function ParseMembers(s: Bytes, off: nat, room: nat): (r: Parsed<seq<Member>>)
    requires off <= |s|
    ensures r.Ok? ==> off < r.end <= |s| && r.value != []
    decreases |s| - off, 2
  {
    match ParseKey(s, off)
    case Fail => Fail
    case Ok(key, k) =>
      match ParseValue(s, Skip(s, k), room)
      case Fail => Fail
      case Ok(v, e) =>
        var p := Skip(s, e);
        if Is(s, p, COMMA) then
          match ParseMembers(s, p + 1, room)
          case Fail => Fail
          case Ok(ms, e') => Ok([Member(key, v)] + ms, e')
        else if Is(s, p, RBRACE) then Ok([Member(key, v)], p + 1)
        else Fail
  }

  /** `skip_utf8_bom` at offset 0. */
  function SkipBom(s: Bytes): (off: nat)
    ensures off <= |s|
  {
    if |s| > 4 && At(s, 0, [0xEF, 0xBB, 0xBF]) then 3 else 0
  }

  /** `cJSON_ParseWithLengthOpts` on a whole buffer. */
  function ParseText(s: Bytes, requireNul: bool): (r: Parsed<Json>)
    ensures r.Ok? ==> r.end <= |s|
  {
    if s == [] then Fail
    else
      match ParseValue(s, Skip(s, SkipBom(s)), NESTING_LIMIT)
      case Fail => Fail
      case Ok(v, e) =>
        if !requireNul then Ok(v, e)
        else if Is(s, Skip(s, e), 0) then Ok(v, Skip(s, e))
        else Fail
  }

  predicate StartsValue(b: byte) {
    || '0' as int <= b <= '9' as int || b == '-' as int || b == '"' as int || b == '[' as int || b == '{' as int
    || b == 'n' as int || b == 'f' as int || b == 't' as int
  }

  lemma OtherHead(s: Bytes, t: Bytes)
    requires s != [] && t != [] && s[0] != t[0]
    ensures !At(s, 0, t)
  {
    assert |t| <= |s| ==> s[0..|t|][0] == s[0];
  }

  /** A byte that starts no value and is no blank, in front of anything, makes the text unreadable. */
  lemma StrayByte(b: byte, t: Bytes, requireNul: bool)
    requires b > 32 && b != 0xEF && !StartsValue(b)
    ensures ParseText([b] + t, requireNul) == Fail
  {
    hide At;
    var s := [b] + t;
    OtherHead(s, NULL_TEXT);
    OtherHead(s, TRUE_TEXT);
    OtherHead(s, FALSE_TEXT);
    OtherHead(s, [0xEF, 0xBB, 0xBF]);
    assert Skip(s, 0) == 0;
  }

  // -------------------------------------------- one turn of the two loops

  lemma ItemsTurn(s: Bytes, off: nat, room: nat)
    requires off <= |s|
    ensures var v := ParseValue(s, Skip(s, off), room);
            if v.Fail? then ParseItems(s, off, room) == Fail
            else
              var p := Skip(s, v.end);
              if Is(s, p, COMMA) then
                var rest := ParseItems(s, p + 1, room);
                ParseItems(s, off, room) == if rest.Fail? then Fail else Ok([v.value] + rest.value, rest.end)
              else ParseItems(s, off, room) == if Is(s, p, RBRACKET) then Ok([v.value], p + 1) else Fail
  {
    hide ParseValue, ParseMembers, Skip;
  }

  lemma MembersTurn(s: Bytes, off: nat, room: nat)
    requires off <= |s|
    ensures var k := ParseKey(s, off);
            if k.Fail? then ParseMembers(s, off, room) == Fail
            else
              var v := ParseValue(s, Skip(s, k.end), room);
              if v.Fail? then ParseMembers(s, off, room) == Fail
              else
                var p, m := Skip(s, v.end), Member(k.value, v.value);
                if Is(s, p, COMMA) then
                  var rest := ParseMembers(s, p + 1, room);
                  ParseMembers(s, off, room) == if rest.Fail? then Fail else Ok([m] + rest.value, rest.end)
                else ParseMembers(s, off, room) == if Is(s, p, RBRACE) then Ok([m], p + 1) else Fail
  {
    hide ParseValue, ParseKey, Skip;
  }

  // ------------------------------------------------------ the nesting limit

  /** More room never changes a successful parse. */
  lemma {:induction false} MoreRoom(s: Bytes, off: nat, room: nat, more: nat)
    requires off <= |s| && room <= more && ParseValue(s, off, room).Ok?
    ensures ParseValue(s, off, more) == ParseValue(s, off, room)
    decreases |s| - off, 1
  {
    hide At, JsonString.ParseString, ParseNumber, Skip, ParseItems, ParseMembers;
    if off < |s| && s[off] == LBRACKET && ParseArray(s, off, room).Ok? && room > 0 {
      if Skip(s, off + 1) < |s| && !Is(s, Skip(s, off + 1), RBRACKET) {
        MoreRoomItems(s, Skip(s, off + 1), room - 1, more - 1);
      }
    }
    if off < |s| && s[off] == LBRACE && ParseObject(s, off, room).Ok? && room > 0 {
      if Skip(s, off + 1) < |s| && !Is(s, Skip(s, off + 1), RBRACE) {
        MoreRoomMembers(s, Skip(s, off + 1), room - 1, more - 1);
      }
    }
  }

  lemma {:induction false} MoreRoomItems(s: Bytes, off: nat, room: nat, more: nat)
    requires off <= |s| && room <= more && ParseItems(s, off, room).Ok?
    ensures ParseItems(s, off, more) == ParseItems(s, off, room)
    decreases |s| - off, 2
  {
    hide ParseValue, Skip;
    MoreRoom(s, Skip(s, off), room, more);
    var e := ParseValue(s, Skip(s, off), room).end;
    if Is(s, Skip(s, e), COMMA) {
      MoreRoomItems(s, Skip(s, e) + 1, room, more);
    }
  }

  lemma {:induction false} MoreRoomMembers(s: Bytes, off: nat, room: nat, more: nat)
    requires off <= |s| && room <= more && ParseMembers(s, off, room).Ok?
    ensures ParseMembers(s, off, more) == ParseMembers(s, off, room)
    decreases |s| - off, 2
  {
    hide ParseValue, ParseKey, Skip;
    var k := ParseKey(s, off).end;
    MoreRoom(s, Skip(s, k), room, more);
    var e := ParseValue(s, Skip(s, k), room).end;
    if Is(s, Skip(s, e), COMMA) {
      MoreRoomMembers(s, Skip(s, e) + 1, room, more);
    }
  }

  /** Whatever the parser accepts is nested no deeper than it was allowed. */
  lemma {:induction false} NestWithinRoom(s: Bytes, off: nat, room: nat)
    requires off <= |s| && ParseValue(s, off, room).Ok?
    ensures Nest(ParseValue(s, off, room).value) <= room
    decreases |s| - off, 1
  {
    hide At, JsonString.ParseString, Skip, ParseItems, ParseMembers;
    if off < |s| && s[off] == LBRACKET && ParseArray(s, off, room).Ok? && room > 0 {
      if Skip(s, off + 1) < |s| && !Is(s, Skip(s, off + 1), RBRACKET) {
        NestWithinRoomItems(s, Skip(s, off + 1), room - 1);
      }
    }
    if off < |s| && s[off] == LBRACE && ParseObject(s, off, room).Ok? && room > 0 {
      if Skip(s, off + 1) < |s| && !Is(s, Skip(s, off + 1), RBRACE) {
        NestWithinRoomMembers(s, Skip(s, off + 1), room - 1);
      }
    }
  }

  lemma {:induction false} NestWithinRoomItems(s: Bytes, off: nat, room: nat)
    requires off <= |s| && ParseItems(s, off, room).Ok?
    ensures NestItems(ParseItems(s, off, room).value) <= room
    decreases |s| - off, 2
  {
    hide ParseValue, Skip;
    var v, e := ParseValue(s, Skip(s, off), room).value, ParseValue(s, Skip(s, off), room).end;
    NestWithinRoom(s, Skip(s, off), room);
    if Is(s, Skip(s, e), COMMA) {
      NestWithinRoomItems(s, Skip(s, e) + 1, room);
      assert ([v] + ParseItems(s, Skip(s, e) + 1, room).value)[1..] == ParseItems(s, Skip(s, e) + 1, room).value;
    }
  }

  lemma {:induction false} NestWithinRoomMembers(s: Bytes, off: nat, room: nat)
    requires off <= |s| && ParseMembers(s, off, room).Ok?
    ensures NestMembers(ParseMembers(s, off, room).value) <= room
    decreases |s| - off, 2
  {
    hide ParseValue, ParseKey, Skip;
    var m, k := ParseKey(s, off).value, ParseKey(s, off).end;
    var e := ParseValue(s, Skip(s, k), room).end;
    NestWithinRoom(s, Skip(s, k), room);
    if Is(s, Skip(s, e), COMMA) {
      NestWithinRoomMembers(s, Skip(s, e) + 1, room);
      assert ParseMembers(s, off, room).value[1..] == ParseMembers(s, Skip(s, e) + 1, room).value;
    }
  }
}
