/**
 JSON values as cJSON stores them: object members keep their order and may
 repeat a key, and a number is the value held in `valuedouble`.
 */
module JsonValue {
  import opened Bytes

  datatype Json =
    | JNull
    | JBool(b: bool)
    | JNumber(r: real)
    | JString(s: Bytes)
    | JArray(items: seq<Json>)
    | JObject(members: seq<Member>)

  datatype Member = Member(key: Bytes, value: Json)

  const INT_MAX: int := 0x7FFF_FFFF
  const INT_MIN: int := -0x8000_0000

  /** The cast `(int)number`, which drops the fraction. */
  function Truncate(r: real): (n: int)
    ensures if r >= 0.0 then n as real <= r < n as real + 1.0 else n as real - 1.0 < r <= n as real
  {
    if r >= 0.0 then r.Floor else -(-r).Floor
  }

  /** The saturating conversion kept in `valueint`. */
  function Saturate(r: real): (n: int)
    ensures INT_MIN <= n <= INT_MAX
  {
    if r >= INT_MAX as real then INT_MAX
    else if r <= INT_MIN as real then INT_MIN
    else Truncate(r)
  }

  /** A number that prints through the `%d` path. */
  predicate IntegerValued(r: real) {
    r == Saturate(r) as real
  }

  function Max(a: nat, b: nat): nat { if a < b then b else a }

  /** Nesting depth: a scalar is 0, a container one more than its deepest element. */
  function Nest(v: Json): nat {
    match v
    case JArray(items) => 1 + NestItems(items)
    case JObject(members) => 1 + NestMembers(members)
    case _ => 0
  }

  function NestItems(vs: seq<Json>): (n: nat)
    ensures forall i :: 0 <= i < |vs| ==> Nest(vs[i]) <= n
  {
    if vs == [] then 0 else Max(Nest(vs[0]), NestItems(vs[1..]))
  }

  function NestMembers(ms: seq<Member>): (n: nat)
    ensures forall i :: 0 <= i < |ms| ==> Nest(ms[i].value) <= n
  {
    if ms == [] then 0 else Max(Nest(ms[0].value), NestMembers(ms[1..]))
  }

  /** Values whose text determines them: 32-bit integers, NUL-free strings and keys. */
  predicate Printable(v: Json) {
    match v
    case JNumber(r) => IntegerValued(r)
    case JString(s) => NulFree(s)
    case JArray(items) => forall i :: 0 <= i < |items| ==> Printable(items[i])
    case JObject(members) => forall i :: 0 <= i < |members| ==> NulFree(members[i].key) && Printable(members[i].value)
    case _ => true
  }

  /** Every number in the value prints through the `%d` path. */
  predicate Integers(v: Json) {
    match v
    case JNumber(r) => IntegerValued(r)
    case JArray(items) => forall i :: 0 <= i < |items| ==> Integers(items[i])
    case JObject(members) => forall i :: 0 <= i < |members| ==> Integers(members[i].value)
    case _ => true
  }
}
