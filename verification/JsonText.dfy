/**
 The text of a JSON value: a pure reading of `print_value`, `print_array` and
 `print_object`, formatted and unformatted.
 */
module JsonText {
  import opened Bytes
  import opened JsonValue
  import JsonNumber
  import JsonString

  const NULL_TEXT: Bytes := [0x6E, 0x75, 0x6C, 0x6C]
  const TRUE_TEXT: Bytes := [0x74, 0x72, 0x75, 0x65]
  const FALSE_TEXT: Bytes := [0x66, 0x61, 0x6C, 0x73, 0x65]

  const COMMA: byte := 0x2C
  const COLON: byte := 0x3A
  const LBRACKET: byte := 0x5B
  const RBRACKET: byte := 0x5D
  const LBRACE: byte := 0x7B
  const RBRACE: byte := 0x7D
  const TAB: byte := 0x09
  const LF: byte := 0x0A
  const SPACE: byte := 0x20

  function Tabs(n: nat): (t: Bytes)
    ensures |t| == n && forall i :: 0 <= i < n ==> t[i] == TAB
  {
    seq(n, _ => TAB)
  }

  /** What separates two array elements. */
  function Separator(fmt: bool): Bytes { if fmt then [COMMA, SPACE] else [COMMA] }

  /** `depth` is the nesting depth at which the value is printed. */
  function Print(v: Json, depth: nat, fmt: bool): Bytes
    decreases v, 1
  {
    match v
    case JNull => NULL_TEXT
    case JBool(b) => if b then TRUE_TEXT else FALSE_TEXT
    case JNumber(r) => JsonNumber.IntText(Saturate(r))
    case JString(s) => JsonString.Quoted(s)
    case JArray(items) => [LBRACKET] + PrintItems(items, depth + 1, fmt) + [RBRACKET]
    case JObject(ms) => Open(fmt) + PrintMembers(ms, depth + 1, fmt) + Close(depth, fmt)
  }

  function PrintItems(vs: seq<Json>, depth: nat, fmt: bool): Bytes
    decreases vs, 0
  {
    if vs == [] then []
    else if |vs| == 1 then Print(vs[0], depth, fmt)
    else Print(vs[0], depth, fmt) + Separator(fmt) + PrintItems(vs[1..], depth, fmt)
  }

  function Open(fmt: bool): Bytes { if fmt then [LBRACE, LF] else [LBRACE] }

  function Close(depth: nat, fmt: bool): Bytes { (if fmt then Tabs(depth) else []) + [RBRACE] }

  function Indent(depth: nat, fmt: bool): Bytes { if fmt then Tabs(depth) else [] }

  function Middle(fmt: bool): Bytes { if fmt then [COLON, TAB] else [COLON] }

  /** What follows a member: a comma unless it is the last, a line feed when formatted. */
  function After(last: bool, fmt: bool): Bytes {
    (if last then [] else [COMMA]) + (if fmt then [LF] else [])
  }

  function PrintMembers(ms: seq<Member>, depth: nat, fmt: bool): Bytes
    decreases ms, 0
  {
    if ms == [] then []
    else PrintMember(ms[0], |ms| == 1, depth, fmt) + PrintMembers(ms[1..], depth, fmt)
  }

  function PrintMember(m: Member, last: bool, depth: nat, fmt: bool): Bytes
    decreases m, 2
  {
    Indent(depth, fmt) + JsonString.Quoted(m.key) + Middle(fmt) + Print(m.value, depth, fmt) + After(last, fmt)
  }

  // ------------------------------------------------------- text has no NULs

  lemma {:induction false} EscapeNulFree(s: Bytes)
    ensures NulFree(JsonString.Escape(s))
  {
    if s != [] {
      EscapeNulFree(s[1..]);
      assert NulFree(JsonString.EscapeByte(s[0]));
    }
  }

  lemma QuotedNulFree(s: Bytes)
    ensures NulFree(JsonString.Quoted(s))
  {
    EscapeNulFree(s);
  }

  /** No printed text contains a NUL, so `strlen` finds its end. */
  lemma {:induction false} PrintNulFree(v: Json, depth: nat, fmt: bool)
    ensures NulFree(Print(v, depth, fmt))
    decreases v, 1
  {
    match v
    case JString(s) => QuotedNulFree(s);
    case JArray(items) => ItemsNulFree(items, depth + 1, fmt);
    case JObject(ms) => MembersNulFree(ms, depth + 1, fmt);
    case _ =>
  }

  lemma {:induction false} ItemsNulFree(vs: seq<Json>, depth: nat, fmt: bool)
    ensures NulFree(PrintItems(vs, depth, fmt))
    decreases vs, 0
  {
    if vs != [] {
      PrintNulFree(vs[0], depth, fmt);
      ItemsNulFree(vs[1..], depth, fmt);
    }
  }

  lemma {:induction false} MembersNulFree(ms: seq<Member>, depth: nat, fmt: bool)
    ensures NulFree(PrintMembers(ms, depth, fmt))
    decreases ms, 0
  {
    if ms != [] {
      QuotedNulFree(ms[0].key);
      PrintNulFree(ms[0].value, depth, fmt);
      MembersNulFree(ms[1..], depth, fmt);
    }
  }
}
