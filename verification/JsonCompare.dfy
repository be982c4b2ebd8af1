/**
 `cJSON_Compare` on values, and what it decides: equality of the values with
 objects read as maps from (possibly case-folded) keys.
 */
module JsonCompare {
  import opened Bytes
  import opened JsonValue

  /** `tolower` in the C locale. */
  function Lower(b: byte): byte { if 0x41 <= b <= 0x5A then b + 0x20 else b }

  function Fold(s: Bytes): Bytes { seq(|s|, i requires 0 <= i < |s| => Lower(s[i])) }

  /** What two keys must share to match. */
  function Norm(s: Bytes, sensitive: bool): Bytes { if sensitive then s else Fold(s) }

  /** A letter of the Latin alphabet. */
  predicate Letter(b: byte) { 'A' as int <= b <= 'Z' as int || 'a' as int <= b <= 'z' as int }

  /** Without case, bytes match that are equal or the two cases of one letter. */
  lemma CaseJoins(a: byte, b: byte)
    ensures Norm([a], false) == Norm([b], false) <==>
              a == b || (Letter(a) && Letter(b) && (a - b == 32 || b - a == 32))
  {
    assert Fold([a]) == [Lower(a)] && Fold([b]) == [Lower(b)];
  }

  /** Keys match byte by byte; with case they match only when equal. */
  lemma KeysMatch(x: Bytes, y: Bytes)
    ensures Norm(x, true) == Norm(y, true) <==> x == y
    ensures Norm(x, false) == Norm(y, false) <==>
              |x| == |y| && forall i :: 0 <= i < |x| ==> Norm([x[i]], false) == Norm([y[i]], false)
  {
    forall i | 0 <= i < |x| && i < |y| ensures Fold([x[i]]) == [Fold(x)[i]] && Fold([y[i]]) == [Fold(y)[i]] {}
    if |x| == |y| && forall i :: 0 <= i < |x| ==> Norm([x[i]], false) == Norm([y[i]], false) {
      forall i | 0 <= i < |x| ensures Fold(x)[i] == Fold(y)[i] {
        assert Fold([x[i]])[0] == Fold([y[i]])[0];
      }
      assert Fold(x) == Fold(y);
    }
    if Fold(x) == Fold(y) {
      assert |x| == |Fold(x)| == |Fold(y)| == |y|;
    }
  }

  /** `get_object_item`: the first member whose key matches. */
  function FindKey(ms: seq<Member>, name: Bytes, sensitive: bool): (k: Option<nat>)
    ensures k.Some? ==> k.value < |ms| && Norm(ms[k.value].key, sensitive) == Norm(name, sensitive)
    ensures k.Some? ==> forall i :: 0 <= i < k.value ==> Norm(ms[i].key, sensitive) != Norm(name, sensitive)
    ensures k.None? ==> forall i :: 0 <= i < |ms| ==> Norm(ms[i].key, sensitive) != Norm(name, sensitive)
  {
    if ms == [] then None
    else if Norm(ms[0].key, sensitive) == Norm(name, sensitive) then Some(0)
    else match FindKey(ms[1..], name, sensitive) case None => None case Some(k) => Some(k + 1)
  }

  function Abs(x: real): real { if x < 0.0 then -x else x }

  /** `compare_double`, with DBL_EPSILON = 2^-52. */
  predicate Close(a: real, b: real) {
    var m := if Abs(a) > Abs(b) then Abs(a) else Abs(b);
    Abs(a - b) * 4503599627370496.0 <= m
  }

  /** `cJSON_Compare` on two different nodes holding `a` and `b`. */
  ghost predicate Compare(a: Json, b: Json, sensitive: bool)
    decreases Nest(a) + Nest(b), 2
  {
    match (a, b)
    case (JNull, JNull) => true
    case (JBool(x), JBool(y)) => x == y
    case (JNumber(x), JNumber(y)) => Close(x, y)
    case (JString(x), JString(y)) => x == y
    case (JArray(xs), JArray(ys)) =>
      |xs| == |ys| && forall i :: 0 <= i < |xs| ==> Compare(xs[i], ys[i], sensitive)
    case (JObject(xs), JObject(ys)) => Covers(a, b, sensitive) && Covers(b, a, sensitive)
    case _ => false
  }

  /** Every member of `a` has a matching, equal member in `b`. */
  ghost predicate Covers(a: Json, b: Json, sensitive: bool)
    requires a.JObject? && b.JObject?
    decreases Nest(a) + Nest(b), 1
  {
    forall i :: 0 <= i < |a.members| ==> Covered(a, i, b, sensitive)
  }

  ghost predicate Covered(a: Json, i: nat, b: Json, sensitive: bool)
    requires a.JObject? && b.JObject? && i < |a.members|
    decreases Nest(a) + Nest(b), 0
  {
    var k := FindKey(b.members, a.members[i].key, sensitive);
    k.Some? && Compare(a.members[i].value, b.members[k.value].value, sensitive)
  }

  // ---------------------------------------------------------------- meaning

  /** A value with objects read as maps: member order and key spelling are forgotten. */
  datatype Meaning =
    | MNull
    | MBool(b: bool)
    | MNumber(r: real)
    | MString(s: Bytes)
    | MArray(items: seq<Meaning>)
    | MObject(members: map<Bytes, Meaning>)

  function MeaningOf(v: Json, sensitive: bool): Meaning {
    match v
    case JNull => MNull
    case JBool(b) => MBool(b)
    case JNumber(r) => MNumber(r)
    case JString(s) => MString(s)
    case JArray(items) => MArray(seq(|items|, i requires 0 <= i < |items| => MeaningOf(items[i], sensitive)))
    case JObject(ms) => MObject(MapOf(ms, sensitive))
  }

  function MapOf(ms: seq<Member>, sensitive: bool): map<Bytes, Meaning> {
    if ms == [] then map[]
    else MapOf(ms[1..], sensitive)[Norm(ms[0].key, sensitive) := MeaningOf(ms[0].value, sensitive)]
  }

  /** No object in the value has two keys that match each other. */
  predicate DistinctKeys(v: Json, sensitive: bool) {
    match v
    case JArray(items) => forall i :: 0 <= i < |items| ==> DistinctKeys(items[i], sensitive)
    case JObject(ms) =>
      && KeysApart(ms, sensitive)
      && forall i :: 0 <= i < |ms| ==> DistinctKeys(ms[i].value, sensitive)
    case _ => true
  }

  predicate KeysApart(ms: seq<Member>, sensitive: bool) {
    forall i, j :: 0 <= i < j < |ms| ==> Norm(ms[i].key, sensitive) != Norm(ms[j].key, sensitive)
  }

  /** Members whose keys match mean the same, in every object of the value. Distinct keys are a special case. */
  ghost predicate Consistent(v: Json, sensitive: bool) {
    match v
    case JArray(items) => forall i :: 0 <= i < |items| ==> Consistent(items[i], sensitive)
    case JObject(ms) =>
      && Agreeing(ms, sensitive)
      && forall i :: 0 <= i < |ms| ==> Consistent(ms[i].value, sensitive)
    case _ => true
  }

  ghost predicate Agreeing(ms: seq<Member>, sensitive: bool) {
    forall i, j :: 0 <= i < j < |ms| && Norm(ms[i].key, sensitive) == Norm(ms[j].key, sensitive) ==>
      MeaningOf(ms[i].value, sensitive) == MeaningOf(ms[j].value, sensitive)
  }

  lemma {:induction false} DistinctIsConsistent(v: Json, sensitive: bool)
    requires DistinctKeys(v, sensitive)
    ensures Consistent(v, sensitive)
  {
    match v
    case JArray(items) =>
      forall i | 0 <= i < |items| ensures Consistent(items[i], sensitive) { DistinctIsConsistent(items[i], sensitive); }
    case JObject(ms) =>
      forall i | 0 <= i < |ms| ensures Consistent(ms[i].value, sensitive) {
        DistinctIsConsistent(ms[i].value, sensitive);
      }
    case _ =>
  }

  lemma {:induction false} MapLookup(ms: seq<Member>, sensitive: bool, i: nat)
    requires Agreeing(ms, sensitive) && i < |ms|
    ensures Norm(ms[i].key, sensitive) in MapOf(ms, sensitive)
    ensures MapOf(ms, sensitive)[Norm(ms[i].key, sensitive)] == MeaningOf(ms[i].value, sensitive)
  {
    hide MeaningOf, Norm;
    if i > 0 {
      MapLookup(ms[1..], sensitive, i - 1);
    }
  }

  lemma {:induction false} MapKeys(ms: seq<Member>, sensitive: bool, key: Bytes)
    requires key in MapOf(ms, sensitive)
    ensures exists i :: 0 <= i < |ms| && Norm(ms[i].key, sensitive) == key
  {
    if Norm(ms[0].key, sensitive) != key {
      MapKeys(ms[1..], sensitive, key);
      var i :| 0 <= i < |ms[1..]| && Norm(ms[1..][i].key, sensitive) == key;
      assert ms[i + 1] == ms[1..][i];
    }
  }

  /** Which member is found depends on the key only up to the case rule. */
  lemma {:induction false} FindKeyNorm(ms: seq<Member>, name: Bytes, other: Bytes, sensitive: bool)
    requires Norm(name, sensitive) == Norm(other, sensitive)
    ensures FindKey(ms, name, sensitive) == FindKey(ms, other, sensitive)
  {
    hide Norm;
    if ms != [] { FindKeyNorm(ms[1..], name, other, sensitive); }
  }

  /** 32-bit integers are close only when equal. */
  lemma CloseIntegers(a: real, b: real)
    requires IntegerValued(a) && IntegerValued(b)
    ensures Close(a, b) <==> a == b
  {
    var x, y := Saturate(a), Saturate(b);
    assert a == x as real && b == y as real;
    if x != y {
      assert Abs(a - b) >= 1.0;
    }
  }

  /** Beyond 32 bits the tolerance lets differences add up. */
  lemma ToleranceAddsUp(sensitive: bool)
    ensures var x, y, z := 4503599627370496.0, 4503599627370497.0, 4503599627370498.0;
            Compare(JNumber(x), JNumber(y), sensitive) && Compare(JNumber(y), JNumber(z), sensitive)
            && !Compare(JNumber(x), JNumber(z), sensitive)
  {
  }

  ghost predicate Alike(v: Json, w: Json, sensitive: bool) {
    Consistent(v, sensitive) && Consistent(w, sensitive) && MeaningOf(v, sensitive) == MeaningOf(w, sensitive)
  }

  lemma ObjectParts(v: Json, sensitive: bool)
    requires v.JObject?
    ensures MeaningOf(v, sensitive) == MObject(MapOf(v.members, sensitive))
    ensures Consistent(v, sensitive) <==>
              Agreeing(v.members, sensitive) && forall i :: 0 <= i < |v.members| ==>
                Consistent(v.members[i].value, sensitive)
  {
  }

  // --------------------------------------------- what meanings distinguish

  /** No object anywhere in the value. */
  predicate ObjectFree(v: Json) {
    match v
    case JArray(items) => forall i :: 0 <= i < |items| ==> ObjectFree(items[i])
    case JObject(_) => false
    case _ => true
  }

  /** Without objects a meaning forgets nothing: two values mean the same only when they are the same. */
  lemma {:induction false} PlainMeaning(a: Json, b: Json, sensitive: bool)
    requires ObjectFree(a) && ObjectFree(b)
    ensures MeaningOf(a, sensitive) == MeaningOf(b, sensitive) <==> a == b
  {
    if a.JArray? && b.JArray? && MeaningOf(a, sensitive) == MeaningOf(b, sensitive) {
      var x, y := MeaningOf(a, sensitive).items, MeaningOf(b, sensitive).items;
      assert |a.items| == |x| == |y| == |b.items|;
      forall i | 0 <= i < |x| ensures a.items[i] == b.items[i] {
        assert x[i] == y[i];
        PlainMeaning(a.items[i], b.items[i], sensitive);
      }
    }
  }

  /** Some member of `b` has a key that matches the member's and the same meaning. */
  ghost predicate Echo(m: Member, b: seq<Member>, sensitive: bool) {
    exists k :: 0 <= k < |b| && Norm(m.key, sensitive) == Norm(b[k].key, sensitive)
                && MeaningOf(m.value, sensitive) == MeaningOf(b[k].value, sensitive)
  }

  /** Every member of `a` is echoed in `b`. */
  ghost predicate Echoed(a: seq<Member>, b: seq<Member>, sensitive: bool) {
    forall i :: 0 <= i < |a| ==> Echo(a[i], b, sensitive)
  }

  /** Two objects mean the same exactly when each echoes the other, and no object means what another value does. */
  lemma ObjectMeaning(a: Json, b: Json, sensitive: bool)
    requires a.JObject? && (b.JObject? ==> Agreeing(a.members, sensitive) && Agreeing(b.members, sensitive))
    ensures MeaningOf(a, sensitive) == MeaningOf(b, sensitive) <==>
              b.JObject? && Echoed(a.members, b.members, sensitive) && Echoed(b.members, a.members, sensitive)
  {
    hide Norm, Agreeing, MapOf, Echoed;
    if b.JObject? {
      var p, q := MapOf(a.members, sensitive), MapOf(b.members, sensitive);
      EchoedIff(a.members, b.members, sensitive);
      EchoedIff(b.members, a.members, sensitive);
      if Contained(p, q) && Contained(q, p) { assert p.Keys == q.Keys; }
    }
  }

  ghost predicate Contained(p: map<Bytes, Meaning>, q: map<Bytes, Meaning>) {
    forall key :: key in p ==> key in q && p[key] == q[key]
  }

  lemma EchoedIff(a: seq<Member>, b: seq<Member>, sensitive: bool)
    requires Agreeing(a, sensitive) && Agreeing(b, sensitive)
    ensures Echoed(a, b, sensitive) <==> Contained(MapOf(a, sensitive), MapOf(b, sensitive))
  {
    hide Norm, MeaningOf, MapOf, Agreeing, Echo;
    var p, q := MapOf(a, sensitive), MapOf(b, sensitive);
    if Echoed(a, b, sensitive) {
      forall key | key in p ensures key in q && p[key] == q[key] {
        MapKeys(a, sensitive, key);
        var i :| 0 <= i < |a| && Norm(a[i].key, sensitive) == key;
        EchoIff(a, i, b, sensitive);
      }
    }
    if Contained(p, q) {
      forall i | 0 <= i < |a| ensures Echo(a[i], b, sensitive) { EchoIff(a, i, b, sensitive); }
    }
  }

  lemma EchoIff(a: seq<Member>, i: nat, b: seq<Member>, sensitive: bool)
    requires Agreeing(a, sensitive) && Agreeing(b, sensitive) && i < |a|
    ensures var p, q, key := MapOf(a, sensitive), MapOf(b, sensitive), Norm(a[i].key, sensitive);
            key in p && (Echo(a[i], b, sensitive) <==> key in q && p[key] == q[key])
  {
    hide Norm, MeaningOf, MapOf, Agreeing;
    var p, q, key := MapOf(a, sensitive), MapOf(b, sensitive), Norm(a[i].key, sensitive);
    MapLookup(a, sensitive, i);
    if Echo(a[i], b, sensitive) {
      var k :| 0 <= k < |b| && key == Norm(b[k].key, sensitive)
               && MeaningOf(a[i].value, sensitive) == MeaningOf(b[k].value, sensitive);
      MapLookup(b, sensitive, k);
    }
    if key in q && p[key] == q[key] {
      MapKeys(b, sensitive, key);
      var k :| 0 <= k < |b| && Norm(b[k].key, sensitive) == key;
      MapLookup(b, sensitive, k);
    }
  }

  // ------------------------------------------- alike values compare equal

  lemma SameMapCovers(a: Json, b: Json, sensitive: bool)
    requires a.JObject? && b.JObject? && Agreeing(a.members, sensitive) && Agreeing(b.members, sensitive)
    requires forall i, k | 0 <= i < |a.members| && 0 <= k < |b.members| ::
               Alike(a.members[i].value, b.members[k].value, sensitive) ==>
               Compare(a.members[i].value, b.members[k].value, sensitive)
    requires forall i :: 0 <= i < |a.members| ==> Consistent(a.members[i].value, sensitive)
    requires forall k :: 0 <= k < |b.members| ==> Consistent(b.members[k].value, sensitive)
    requires MapOf(a.members, sensitive) == MapOf(b.members, sensitive)
    ensures Covers(a, b, sensitive)
  {
    hide Norm, MeaningOf, Consistent, Compare, FindKey, MapOf, Agreeing;
    forall i | 0 <= i < |a.members| ensures Covered(a, i, b, sensitive) {
      MapLookup(a.members, sensitive, i);
      MapKeys(b.members, sensitive, Norm(a.members[i].key, sensitive));
      var k := FindKey(b.members, a.members[i].key, sensitive);
      assert k.Some?;
      MapLookup(b.members, sensitive, k.value);
      assert Alike(a.members[i].value, b.members[k.value].value, sensitive);
    }
  }

  /** Consistent values with one meaning compare equal, whatever their numbers. */
  lemma {:induction false} AlikeCompares(a: Json, b: Json, sensitive: bool)
    requires Alike(a, b, sensitive)
    ensures Compare(a, b, sensitive)
    decreases Nest(a) + Nest(b)
  {
    match (a, b)
    case (JArray(xs), JArray(ys)) =>
      var x, y := MeaningOf(a, sensitive).items, MeaningOf(b, sensitive).items;
      forall i | 0 <= i < |xs| ensures Compare(xs[i], ys[i], sensitive) {
        assert x[i] == y[i];
        AlikeCompares(xs[i], ys[i], sensitive);
      }
    case (JObject(xs), JObject(ys)) =>
      forall i, k | 0 <= i < |xs| && 0 <= k < |ys| && Alike(xs[i].value, ys[k].value, sensitive)
        ensures Compare(xs[i].value, ys[k].value, sensitive) && Compare(ys[k].value, xs[i].value, sensitive)
      {
        AlikeCompares(xs[i].value, ys[k].value, sensitive);
        AlikeCompares(ys[k].value, xs[i].value, sensitive);
      }
      AlikeObjects(a, b, sensitive);
    case _ =>
  }

  lemma AlikeObjects(a: Json, b: Json, sensitive: bool)
    requires a.JObject? && b.JObject? && Alike(a, b, sensitive)
    requires forall i, k | 0 <= i < |a.members| && 0 <= k < |b.members| ::
               Alike(a.members[i].value, b.members[k].value, sensitive) ==>
               && Compare(a.members[i].value, b.members[k].value, sensitive)
               && Compare(b.members[k].value, a.members[i].value, sensitive)
    ensures Compare(a, b, sensitive)
  {
    hide Consistent, Agreeing, MapOf, MeaningOf, Covers;
    ObjectParts(a, sensitive);
    ObjectParts(b, sensitive);
    SameMapCovers(a, b, sensitive);
    SameMapCovers(b, a, sensitive);
  }

  // ----------------------------------- values that compare equal are alike

  /** One pass over `a` finds every key of `a` in `b` with the same meaning, and no two members of `a` at odds. */
  lemma CoversInto(a: Json, b: Json, sensitive: bool)
    requires a.JObject? && b.JObject? && Covers(a, b, sensitive)
    requires forall i, k | 0 <= i < |a.members| && 0 <= k < |b.members| ::
               Compare(a.members[i].value, b.members[k].value, sensitive) ==>
               Alike(a.members[i].value, b.members[k].value, sensitive)
    ensures Agreeing(a.members, sensitive)
    ensures forall i :: 0 <= i < |a.members| ==> Consistent(a.members[i].value, sensitive)
    ensures forall i :: 0 <= i < |a.members| ==>
              var k := FindKey(b.members, a.members[i].key, sensitive);
              k.Some? && MeaningOf(a.members[i].value, sensitive) == MeaningOf(b.members[k.value].value, sensitive)
  {
    hide Norm, MeaningOf, Consistent, Compare, FindKey;
    forall i | 0 <= i < |a.members|
      ensures var k := FindKey(b.members, a.members[i].key, sensitive);
              k.Some? && Consistent(a.members[i].value, sensitive)
              && MeaningOf(a.members[i].value, sensitive) == MeaningOf(b.members[k.value].value, sensitive)
    {
      assert Covered(a, i, b, sensitive);
    }
    forall i, j | 0 <= i < j < |a.members| && Norm(a.members[i].key, sensitive) == Norm(a.members[j].key, sensitive)
      ensures MeaningOf(a.members[i].value, sensitive) == MeaningOf(a.members[j].value, sensitive)
    {
      FindKeyNorm(b.members, a.members[i].key, a.members[j].key, sensitive);
    }
  }

  /** When every member of `a` has its meaning in `b`, the map of `a` is contained in that of `b`. */
  lemma MapInto(a: seq<Member>, b: seq<Member>, sensitive: bool)
    requires Agreeing(a, sensitive) && Agreeing(b, sensitive)
    requires forall i :: 0 <= i < |a| ==>
               var k := FindKey(b, a[i].key, sensitive);
               k.Some? && MeaningOf(a[i].value, sensitive) == MeaningOf(b[k.value].value, sensitive)
    ensures forall key :: key in MapOf(a, sensitive) ==>
            key in MapOf(b, sensitive) && MapOf(a, sensitive)[key] == MapOf(b, sensitive)[key]
  {
    hide Norm, MeaningOf, MapOf, FindKey, Agreeing;
    forall key | key in MapOf(a, sensitive)
      ensures key in MapOf(b, sensitive) && MapOf(a, sensitive)[key] == MapOf(b, sensitive)[key]
    {
      MapKeys(a, sensitive, key);
      var i :| 0 <= i < |a| && Norm(a[i].key, sensitive) == key;
      MapLookup(a, sensitive, i);
      MapLookup(b, sensitive, FindKey(b, a[i].key, sensitive).value);
    }
  }

  lemma EqualObjects(a: Json, b: Json, sensitive: bool)
    requires a.JObject? && b.JObject? && Covers(a, b, sensitive) && Covers(b, a, sensitive)
    requires forall i, k | 0 <= i < |a.members| && 0 <= k < |b.members| ::
               Compare(a.members[i].value, b.members[k].value, sensitive) ==>
               Alike(a.members[i].value, b.members[k].value, sensitive)
    requires forall i, k | 0 <= i < |a.members| && 0 <= k < |b.members| ::
               Compare(b.members[k].value, a.members[i].value, sensitive) ==>
               Alike(b.members[k].value, a.members[i].value, sensitive)
    ensures Alike(a, b, sensitive)
  {
    hide FindKey, Covers, Agreeing, MapOf, Norm, Consistent, MeaningOf, Compare;
    CoversInto(a, b, sensitive);
    CoversInto(b, a, sensitive);
    MapInto(a.members, b.members, sensitive);
    MapInto(b.members, a.members, sensitive);
    assert MapOf(a.members, sensitive).Keys == MapOf(b.members, sensitive).Keys;
    assert MapOf(a.members, sensitive) == MapOf(b.members, sensitive);
    ObjectParts(a, sensitive);
    ObjectParts(b, sensitive);
  }

  lemma EqualArrays(a: Json, b: Json, sensitive: bool)
    requires a.JArray? && b.JArray? && |a.items| == |b.items|
    requires forall i :: 0 <= i < |a.items| ==> Alike(a.items[i], b.items[i], sensitive)
    ensures Alike(a, b, sensitive)
  {
    var x, y := MeaningOf(a, sensitive).items, MeaningOf(b, sensitive).items;
    forall i | 0 <= i < |x|
      ensures x[i] == y[i] && Consistent(a.items[i], sensitive) && Consistent(b.items[i], sensitive)
    {
      assert Alike(a.items[i], b.items[i], sensitive);
    }
    assert x == y;
  }

  lemma {:induction false} ComparedAreAlike(a: Json, b: Json, sensitive: bool)
    requires Integers(a) && Integers(b) && Compare(a, b, sensitive)
    ensures Alike(a, b, sensitive)
    decreases Nest(a) + Nest(b)
  {
    match (a, b)
    case (JNumber(x), JNumber(y)) => CloseIntegers(x, y);
    case (JArray(xs), JArray(ys)) =>
      forall i | 0 <= i < |xs| ensures Alike(xs[i], ys[i], sensitive) {
        ComparedAreAlike(xs[i], ys[i], sensitive);
      }
      EqualArrays(a, b, sensitive);
    case (JObject(xs), JObject(ys)) =>
      forall i, k | 0 <= i < |xs| && 0 <= k < |ys| && Compare(xs[i].value, ys[k].value, sensitive)
        ensures Alike(xs[i].value, ys[k].value, sensitive)
      {
        ComparedAreAlike(xs[i].value, ys[k].value, sensitive);
      }
      forall i, k | 0 <= i < |xs| && 0 <= k < |ys| && Compare(ys[k].value, xs[i].value, sensitive)
        ensures Alike(ys[k].value, xs[i].value, sensitive)
      {
        ComparedAreAlike(ys[k].value, xs[i].value, sensitive);
      }
      EqualObjects(a, b, sensitive);
    case _ =>
  }

  // ------------------------------------------------------ what it decides

  /**
   What `cJSON_Compare` decides on integer trees, whatever their keys: both are consistent under the
   chosen case rule and mean the same.
   */
  lemma CompareDecides(a: Json, b: Json, sensitive: bool)
    requires Integers(a) && Integers(b)
    ensures Compare(a, b, sensitive) <==>
              Consistent(a, sensitive) && Consistent(b, sensitive) && MeaningOf(a, sensitive) == MeaningOf(b, sensitive)
  {
    hide Compare, Consistent, MeaningOf, Integers;
    if Compare(a, b, sensitive) { ComparedAreAlike(a, b, sensitive); }
    if Alike(a, b, sensitive) { AlikeCompares(a, b, sensitive); }
  }

  lemma CompareSymmetric(a: Json, b: Json, sensitive: bool)
    requires Integers(a) && Integers(b)
    ensures Compare(a, b, sensitive) <==> Compare(b, a, sensitive)
  {
    hide Compare, Consistent, MeaningOf, Integers;
    CompareDecides(a, b, sensitive);
    CompareDecides(b, a, sensitive);
  }

  lemma CompareTransitive(a: Json, b: Json, c: Json, sensitive: bool)
    requires Integers(a) && Integers(b) && Integers(c) && Compare(a, b, sensitive) && Compare(b, c, sensitive)
    ensures Compare(a, c, sensitive)
  {
    hide Compare, Consistent, MeaningOf, Integers;
    CompareDecides(a, b, sensitive);
    CompareDecides(b, c, sensitive);
    CompareDecides(a, c, sensitive);
  }

  /**
   An integer tree compares equal to a copy of itself exactly when it is consistent; for other trees
   that is enough.
   */
  lemma CompareOnCopy(v: Json, sensitive: bool)
    ensures Consistent(v, sensitive) ==> Compare(v, v, sensitive)
    ensures Integers(v) ==> (Compare(v, v, sensitive) <==> Consistent(v, sensitive))
  {
    hide Compare, Consistent, MeaningOf, Integers;
    if Consistent(v, sensitive) { AlikeCompares(v, v, sensitive); }
    if Integers(v) { CompareDecides(v, v, sensitive); }
  }

  /** A repeated key alone does no harm. */
  lemma RepeatedKeyHarmless()
    ensures var v := JObject([Member([0x61], JNull), Member([0x61], JNull)]);
            !DistinctKeys(v, true) && Compare(v, v, true)
  {
    var v := JObject([Member([0x61], JNull), Member([0x61], JNull)]);
    hide Compare;
    assert v.members[0].key == v.members[1].key;
    CompareOnCopy(v, true);
  }

  /** Members at odds under one key make comparison fail on a copy. */
  lemma RepeatedKeyAtOdds()
    ensures var v := JObject([Member([0x61], JNull), Member([0x61], JBool(true))]);
            !Consistent(v, true) && !Compare(v, v, true)
  {
    var v := JObject([Member([0x61], JNull), Member([0x61], JBool(true))]);
    hide Compare;
    assert v.members[0].key == v.members[1].key;
    assert MeaningOf(v.members[0].value, true) != MeaningOf(v.members[1].value, true);
    assert !Agreeing(v.members, true);
    CompareOnCopy(v, true);
  }
}
