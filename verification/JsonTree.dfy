/**
 Walks over whole trees: lookup by key, comparison and deep copy.
 */
module JsonTree {
  import opened Bytes
  import opened JsonValue
  import opened JsonItem
  import C = JsonCompare

  /** `case_insensitive_strcmp`: 0 only for two strings equal after `tolower`; NULL equals nothing. */
  method CaseInsensitiveStrcmp(s1: Option<Bytes>, s2: Option<Bytes>) returns (d: int)
    requires (s1.Some? ==> NulFree(s1.value)) && (s2.Some? ==> NulFree(s2.value))
    ensures d == 0 <==> s1.Some? && s2.Some? && C.Fold(s1.value) == C.Fold(s2.value)
  {
    if s1 == None || s2 == None { return 1; }
    var a, b := s1.value, s2.value;
    var i := 0;
    while CharAt(a, i) == CharAt(b, i)
      invariant i <= |a| && i <= |b|
      invariant forall j :: 0 <= j < i ==> C.Lower(a[j]) == C.Lower(b[j])
      decreases |a| - i
    {
      if i == |a| {
        assert C.Fold(a) == C.Fold(b);
        return 0;
      }
      i := i + 1;
    }
    d := CharAt(a, i) - CharAt(b, i);
    FoldDiffers(a, b, i);
  }

  lemma FoldDiffers(a: Bytes, b: Bytes, i: nat)
    requires i <= |a| && i <= |b| && NulFree(a) && NulFree(b) && CharAt(a, i) != CharAt(b, i)
    ensures C.Fold(a) != C.Fold(b)
  {
    var f, g := C.Fold(a), C.Fold(b);
    if i < |f| && i < |g| { assert f[i] != g[i]; }
  }

  /** The lower-cased byte of a C string at `i`, its NUL included. */
  function CharAt(s: Bytes, i: nat): (c: int)
    requires i <= |s| && NulFree(s)
    ensures c == 0 <==> i == |s|
  {
    if i < |s| then C.Lower(s[i]) else 0
  }

  /** Which of these keys `get_object_item` settles on: a case-sensitive search gives up at a child without one. */
  function FirstNamed(names: seq<Option<Bytes>>, name: Bytes, sensitive: bool): (k: Option<nat>)
    ensures k.Some? ==> k.value < |names|
  {
    if names == [] then None
    else if names[0] == None && sensitive then None
    else if names[0].Some? && C.Norm(names[0].value, sensitive) == C.Norm(name, sensitive) then Some(0)
    else Later(FirstNamed(names[1..], name, sensitive), 1)
  }

  function Later(k: Option<nat>, steps: nat): Option<nat> {
    match k case None => None case Some(n) => Some(n + steps)
  }

  /** The keys of the children. */
  ghost function NamesOf(ks: seq<Item>): (names: seq<Option<Bytes>>)
    reads Nodes(ks)`name
    ensures |names| == |ks| && forall i :: 0 <= i < |ks| ==> names[i] == ks[i].name
  {
    if ks == [] then [] else [ks[0].name] + NamesOf(ks[1..])
  }

  function KeysOf(ms: seq<Member>): (names: seq<Option<Bytes>>)
    ensures |names| == |ms|
  {
    seq(|ms|, i requires 0 <= i < |ms| => Some(ms[i].key))
  }

  /** Among the members of an object it is the first whose key matches. */
  lemma {:induction false} FirstNamedIsFindKey(ms: seq<Member>, name: Bytes, sensitive: bool)
    ensures FirstNamed(KeysOf(ms), name, sensitive) == C.FindKey(ms, name, sensitive)
  {
    hide C.Norm;
    if ms != [] {
      assert KeysOf(ms)[1..] == KeysOf(ms[1..]);
      FirstNamedIsFindKey(ms[1..], name, sensitive);
    }
  }

  /** One turn of the search. */
  lemma NamedStep(names: seq<Option<Bytes>>, i: nat, name: Bytes, sensitive: bool)
    requires i <= |names|
    ensures Later(FirstNamed(names[i..], name, sensitive), i)
         == if i == |names| then None
            else if Stops(names[i], name, sensitive) then if names[i] == None then None else Some(i)
            else Later(FirstNamed(names[i + 1..], name, sensitive), i + 1)
  {
    hide C.Norm;
    if i < |names| { assert names[i..][1..] == names[i + 1..]; }
  }

  /** When the two search loops stop at a child with this key. */
  predicate Stops(key: Option<Bytes>, name: Bytes, sensitive: bool) {
    if key == None then sensitive else C.Norm(key.value, sensitive) == C.Norm(name, sensitive)
  }

  /** The conditions of the two search loops. */
  method StopsAt(key: Option<Bytes>, name: Bytes, sensitive: bool) returns (stop: bool)
    requires NulFree(name) && (key.Some? ==> NulFree(key.value))
    ensures stop == Stops(key, name, sensitive)
  {
    if sensitive { return key == None || name == key.value; }
    var d := CaseInsensitiveStrcmp(Some(name), key);
    stop := d == 0;
  }

  /** `get_object_item`, on nodes of any kind. */
  method GetObjectItem(list: Item?, name: Option<Bytes>, sensitive: bool) returns (r: Item?)
    requires list != null ==> list.Valid() && forall k :: k in list.kids && k.name.Some? ==> NulFree(k.name.value)
    requires name.Some? ==> NulFree(name.value)
    ensures list == null || name == None ==> r == null
    ensures list != null && name.Some? ==>
              var k := FirstNamed(NamesOf(list.kids), name.value, sensitive);
              r == if k.Some? then list.kids[k.value] else null
  {
    hide Item.Valid, FirstNamed, Stops, NamesOf, Linked;
    if list == null || name == None { return null; }
    KidsLinked(list);
    r := list.child;
    ghost var i, names := 0, NamesOf(list.kids);
    assert names[0..] == names;
    while r != null
      invariant i <= |list.kids| && r == if i < |list.kids| then list.kids[i] else null
      invariant Later(FirstNamed(names[i..], name.value, sensitive), i) == FirstNamed(names, name.value, sensitive)
      decreases |list.kids| - i
    {
      NamedStep(names, i, name.value, sensitive);
      KidsLinked(list);
      Neighbours(list.child, list.kids, i);
      var stop := StopsAt(r.name, name.value, sensitive);
      if stop { break; }
      r := r.next;
      i := i + 1;
    }
    NamedStep(names, i, name.value, sensitive);
    assert names == NamesOf(list.kids);
    if r == null || r.name == None { return null; }
  }

  lemma KidsLinked(list: Item)
    requires list.Valid()
    ensures Linked(list.child, list.kids) && list.child == if list.kids == [] then null else list.kids[0]
  {
  }

  lemma KidsNamed(list: Item)
    requires list.Valid() && list.kind == Object
    ensures list.value.JObject? && Members(list.kids, list.value.members) && |list.value.members| == |list.kids|
    ensures forall k :: k in list.kids && k.name.Some? ==> NulFree(k.name.value)
  {
    forall k | k in list.kids && k.name.Some? ensures NulFree(k.name.value) {
      var i :| 0 <= i < |list.kids| && list.kids[i] == k;
      assert IsMember(list.kids[i], list.value.members[i]);
    }
  }

  /** On an object the search finds the first member whose key matches. */
  lemma ObjectSearch(list: Item, name: Bytes, sensitive: bool)
    requires list.Valid() && list.kind == Object
    ensures list.value.JObject? && |list.value.members| == |list.kids|
    ensures FirstNamed(NamesOf(list.kids), name, sensitive) == C.FindKey(list.value.members, name, sensitive)
  {
    hide Item.Valid, FirstNamed, C.FindKey;
    KidsNamed(list);
    FirstNamedIsFindKey(list.value.members, name, sensitive);
    assert forall i :: 0 <= i < |list.kids| ==> IsMember(list.kids[i], list.value.members[i]);
    assert NamesOf(list.kids) == KeysOf(list.value.members);
  }

  /**
   The shortcut for one and the same node is harmless: the trees share no node, or one of them is
   consistent and so equal to a copy of itself.
   */
  ghost predicate Comparable(a: Item, b: Item, sensitive: bool)
    reads a`Repr, b`Repr, a`value, b`value
  {
    a.Repr !! b.Repr || C.Consistent(a.value, sensitive) || C.Consistent(b.value, sensitive)
  }

  lemma SameNode(a: Item, sensitive: bool)
    requires a.Valid() && Comparable(a, a, sensitive)
    ensures C.Compare(a.value, a.value, sensitive)
  {
    hide Item.Valid;
    assert a in a.Repr;
    C.CompareOnCopy(a.value, sensitive);
  }

  /** `cJSON_Compare`, also on trees that share nodes. */
  method Compare(a: Item?, b: Item?, sensitive: bool) returns (r: bool)
    requires (a != null ==> a.Valid()) && (b != null ==> b.Valid())
    ensures a == null || b == null ==> !r
    ensures a != null && a == b ==> r
    ensures a != null && b != null && Comparable(a, b, sensitive) ==> r == C.Compare(a.value, b.value, sensitive)
    decreases (if a == null then 0 else Nest(a.value)) + (if b == null then 0 else Nest(b.value)), 2
  {
    if a == null || b == null || a.kind != b.kind { return false; }
    if a.kind == Invalid { return false; }
    if a == b {
      if Comparable(a, a, sensitive) { SameNode(a, sensitive); }
      return true;
    }
    match a.kind {
      case Null => return true;
      case True => return true;
      case False => return true;
      case Number => return C.Close(a.valuedouble, b.valuedouble);
      case String => return a.valuestring.Some? && b.valuestring.Some? && a.valuestring.value == b.valuestring.value;
      case Array => r := CompareArrays(a, b, sensitive);
      case Object =>
        r := CompareInto(a, b, sensitive);
        if r {
          r := CompareInto(b, a, sensitive);
        }
      case Invalid => return false;
    }
  }

  lemma ArraysUnfold(a: Json, b: Json, sensitive: bool)
    requires a.JArray? && b.JArray?
    ensures C.Compare(a, b, sensitive) <==>
              |a.items| == |b.items| && forall i :: 0 <= i < |a.items| ==> C.Compare(a.items[i], b.items[i], sensitive)
  {
  }

  /** What a comparison of child `i` of `a` with child `k` of `b` may rely on. */
  lemma PairFacts(a: Item, i: nat, b: Item, k: nat, sensitive: bool)
    requires a.Valid() && a.Container() && i < |a.kids| && b.Valid() && b.Container() && k < |b.kids|
    ensures a.kids[i].Valid() && b.kids[k].Valid()
    ensures Comparable(a, b, sensitive) ==> Comparable(a.kids[i], b.kids[k], sensitive)
    ensures Nest(a.kids[i].value) + Nest(b.kids[k].value) < Nest(a.value) + Nest(b.value)
  {
    hide Item.Valid, Nest;
    ChildFacts(a, i);
    ChildFacts(b, k);
  }

  method CompareArrays(a: Item, b: Item, sensitive: bool) returns (r: bool)
    requires a.Valid() && b.Valid() && a != b && a.kind == Array && b.kind == Array
    ensures Comparable(a, b, sensitive) ==> r == C.Compare(a.value, b.value, sensitive)
    decreases Nest(a.value) + Nest(b.value), 0
  {
    hide Item.Valid, C.Compare, Nest, Comparable;
    ListFacts(a);
    ListFacts(b);
    ArraysUnfold(a.value, b.value, sensitive);
    var x, y := a.child, b.child;
    ghost var i := 0;
    while x != null && y != null
      invariant i <= |a.kids| && i <= |b.kids|
      invariant x == if i < |a.kids| then a.kids[i] else null
      invariant y == if i < |b.kids| then b.kids[i] else null
      invariant Comparable(a, b, sensitive) ==> forall j :: 0 <= j < i ==>
                C.Compare(a.value.items[j], b.value.items[j], sensitive)
      decreases |a.kids| - i
    {
      ChildShape(a, i);
      ChildShape(b, i);
      PairFacts(a, i, b, i, sensitive);
      r := Compare(x, y, sensitive);
      if !r { return; }
      x := x.next;
      y := y.next;
      i := i + 1;
    }
    r := x == y;
  }

  lemma CoveredIs(a: Json, i: nat, b: Json, sensitive: bool)
    requires a.JObject? && b.JObject? && i < |a.members|
    ensures var k := C.FindKey(b.members, a.members[i].key, sensitive);
            (C.Covered(a, i, b, sensitive)
             <==> k.Some? && C.Compare(a.members[i].value, b.members[k.value].value, sensitive))
  {
    hide C.Compare, C.FindKey;
  }

  /** The body of the loop: whether child `x` of `a` has an equal namesake in `b`. */
  method CompareChild(x: Item, ghost i: nat, ghost a: Item, b: Item, sensitive: bool) returns (r: bool)
    requires a.Valid() && b.Valid() && a != b && a.kind == Object && b.kind == Object
    requires i < |a.kids| && x == a.kids[i]
    ensures a.value.JObject? && b.value.JObject? && i < |a.value.members|
    ensures Comparable(a, b, sensitive) ==> r == C.Covered(a.value, i, b.value, sensitive)
    decreases Nest(a.value) + Nest(b.value), 0
  {
    hide Item.Valid, C.Compare, C.FindKey, C.Norm, Nest, C.Covered, Comparable, FirstNamed;
    ListFacts(b);
    ChildShape(a, i);
    CoveredIs(a.value, i, b.value, sensitive);
    KidsNamed(b);
    var y := GetObjectItem(b, x.name, sensitive);
    ObjectSearch(b, x.name.value, sensitive);
    if y == null { return false; }
    ghost var k := C.FindKey(b.value.members, x.name.value, sensitive).value;
    ChildShape(b, k);
    PairFacts(a, i, b, k, sensitive);
    r := Compare(x, y, sensitive);
  }

  /** One of the two passes over an object: every child of `a` has an equal namesake in `b`. */
  method CompareInto(a: Item, b: Item, sensitive: bool) returns (r: bool)
    requires a.Valid() && b.Valid() && a != b && a.kind == Object && b.kind == Object
    ensures a.value.JObject? && b.value.JObject?
    ensures Comparable(a, b, sensitive) ==> r == C.Covers(a.value, b.value, sensitive)
    decreases Nest(a.value) + Nest(b.value), 1
  {
    hide Item.Valid, Nest, C.Covered, Comparable;
    ListFacts(a);
    ListFacts(b);
    var x := a.child;
    ghost var i := 0;
    while x != null
      invariant i <= |a.kids| && x == if i < |a.kids| then a.kids[i] else null
      invariant Comparable(a, b, sensitive) ==> forall j :: 0 <= j < i ==> C.Covered(a.value, j, b.value, sensitive)
      decreases |a.kids| - i
    {
      ChildShape(a, i);
      r := CompareChild(x, i, a, b, sensitive);
      if !r { return; }
      x := x.next;
      i := i + 1;
    }
    r := true;
  }

  const CIRCULAR_LIMIT: nat := 10000

  /** Like `Nest`, but an empty container counts as a leaf. */
  function Height(v: Json): nat {
    match v
    case JArray(items) => if items == [] then 0 else 1 + HeightItems(items)
    case JObject(ms) => if ms == [] then 0 else 1 + HeightMembers(ms)
    case _ => 0
  }

  function HeightItems(vs: seq<Json>): (n: nat)
    ensures forall i :: 0 <= i < |vs| ==> Height(vs[i]) <= n
    ensures vs != [] ==> exists i :: 0 <= i < |vs| && Height(vs[i]) == n
  {
    if vs == [] then 0
    else
      var rest := HeightItems(vs[1..]);
      assert forall i :: 1 <= i < |vs| ==> vs[i] == vs[1..][i - 1];
      assert vs[1..] != [] ==> exists i :: 0 <= i < |vs| - 1 && Height(vs[1..][i]) == rest && vs[i + 1] == vs[1..][i];
      Max(Height(vs[0]), rest)
  }

  function HeightMembers(ms: seq<Member>): (n: nat)
    ensures forall i :: 0 <= i < |ms| ==> Height(ms[i].value) <= n
    ensures ms != [] ==> exists i :: 0 <= i < |ms| && Height(ms[i].value) == n
  {
    if ms == [] then 0
    else
      var rest := HeightMembers(ms[1..]);
      assert forall i :: 1 <= i < |ms| ==> ms[i] == ms[1..][i - 1];
      assert ms[1..] != [] ==>
          exists i :: 0 <= i < |ms| - 1 && Height(ms[1..][i].value) == rest && ms[i + 1] == ms[1..][i];
      Max(Height(ms[0].value), rest)
  }

  /** The value of a copy without children. */
  function Shallow(v: Json): Json {
    match v case JArray(_) => JArray([]) case JObject(_) => JObject([]) case _ => v
  }

  /** The copy succeeds exactly when no node with children lies at depth CJSON_CIRCULAR_LIMIT or below. */
  predicate Copyable(v: Json, depth: nat) { depth + Height(v) <= CIRCULAR_LIMIT }

  lemma CopyableChildren(list: Item, depth: nat)
    requires list.Valid() && list.Container() && list.kids != []
    ensures Copyable(list.value, depth) <==>
              forall i :: 0 <= i < |list.kids| ==> Copyable(list.kids[i].value, depth + 1)
  {
    if list.kind == Array {
      var vs := list.value.items;
      var i :| 0 <= i < |vs| && Height(vs[i]) == HeightItems(vs);
      assert vs[i] == list.kids[i].value;
    } else {
      var ms := list.value.members;
      var i :| 0 <= i < |ms| && Height(ms[i].value) == HeightMembers(ms);
      assert IsMember(list.kids[i], ms[i]);
    }
  }

  lemma DepthLimit(v: Json, depth: nat)
    ensures depth >= CIRCULAR_LIMIT ==> !Copyable(v, depth + 1)
  {
  }

  /** The scalar fields of a copy. */
  method CopyFields(item: Item) returns (r: Item)
    requires item.Valid()
    ensures fresh(r) && r.Valid() && r.Repr == {r} && r.kids == [] && r.value == Shallow(item.value)
    ensures r.name == item.name && r.next == null && r.prev == null && r.kind == item.kind && r.child == null
  {
    r := new Item();
    r.kind := item.kind;
    r.valueint := item.valueint;
    r.valuedouble := item.valuedouble;
    r.valuestring := item.valuestring;
    r.name := item.name;
    r.value := Shallow(item.value);
  }

  lemma NoChildren(item: Item, depth: nat)
    requires item.Valid() && depth <= CIRCULAR_LIMIT
    ensures item.child == null ==> item.value == Shallow(item.value) && Copyable(item.value, depth)
    ensures item.child != null ==> item.Container() && item.kids != []
  {
  }

  /** `cJSON_Duplicate_rec`. */
  method Duplicate(item: Item?, depth: nat, recurse: bool) returns (r: Item?)
    requires item != null ==> item.Valid()
    requires depth <= CIRCULAR_LIMIT
    ensures (r != null) == (item != null && (recurse ==> Copyable(item.value, depth)))
    ensures r != null ==> fresh(r.Repr) && r.Valid() && r.name == item.name && r.next == null && r.prev == null
    ensures r != null ==> r.value == if recurse then item.value else Shallow(item.value)
    decreases if item == null then {} else item.Repr, 2
  {
    hide Item.Valid, Copyable, Shallow, Chain, Contents, Copied, Forest, Linked;
    if item == null { return null; }
    var newitem := CopyFields(item);
    if !recurse { return newitem; }
    NoChildren(item, depth);
    if item.child == null {
      return newitem;
    }
    var ok, head, last;
    ghost var ks, all;
    ok, head, last, ks, all := DuplicateChildren(item, depth);
    if !ok { return null; }
    CopiesHold(item, ks);
    ChainEnds(head, last, ks, all);
    FinishCopy(newitem, head, last, ks, all, item.value);
    return newitem;
  }

  ghost function ValuesOf(ks: seq<Item>): (vs: seq<Json>)
    reads Nodes(ks)`value
    ensures |vs| == |ks| && forall i :: 0 <= i < |ks| ==> vs[i] == ks[i].value
  {
    if ks == [] then [] else [ks[0].value] + ValuesOf(ks[1..])
  }

  /** The copies made so far have the first of these values and names. */
  ghost predicate Copied(ks: seq<Item>, vs: seq<Json>, names: seq<Option<Bytes>>)
    reads Nodes(ks)`value, Nodes(ks)`name
  {
    |ks| <= |vs| && |ks| <= |names| && forall j :: 0 <= j < |ks| ==> ks[j].value == vs[j] && ks[j].name == names[j]
  }

  lemma CopiesHold(item: Item, ks: seq<Item>)
    requires item.Valid() && item.Container() && |ks| == |item.kids|
             && Copied(ks, ValuesOf(item.kids), NamesOf(item.kids))
    ensures Contents(item.kind, ks, item.value)
  {
    if item.kind == Object {
      forall i | 0 <= i < |ks| ensures IsMember(ks[i], item.value.members[i]) {
        assert IsMember(item.kids[i], item.value.members[i]);
      }
    }
  }

  /** The loop of `cJSON_Duplicate_rec` over the children. */
  method DuplicateChildren(item: Item, depth: nat)
    returns (ok: bool, head: Item?, last: Item?, ghost ks: seq<Item>, ghost all: set<Item>)
    requires item.Valid() && item.Container() && item.kids != [] && depth <= CIRCULAR_LIMIT
    ensures ok == Copyable(item.value, depth)
    ensures ok ==> Chain(head, last, ks, all) && fresh(all)
    ensures ok ==> |ks| == |item.kids| && Copied(ks, ValuesOf(item.kids), NamesOf(item.kids))
    decreases item.Repr, 1
  {
    hide Item.Valid, Forest, Copyable, Nest, Chain, Linked, ValuesOf, NamesOf;
    ListFacts(item);
    EmptyChain();
    CopyableChildren(item, depth);
    var child := item.child;
    head, last, ks, all := null, null, [], {};
    ghost var i, vs, names := 0, ValuesOf(item.kids), NamesOf(item.kids);
    while child != null
      invariant i == |ks| <= |item.kids| && child == if i < |item.kids| then item.kids[i] else null
      invariant Chain(head, last, ks, all) && fresh(all) && Copied(ks, vs, names)
      invariant forall j :: 0 <= j < i ==> Copyable(vs[j], depth + 1)
      decreases |item.kids| - i
    {
      ChildFacts(item, i);
      ChainEnds(head, last, ks, all);
      ok, head, last := DuplicateChild(child, depth, head, last, ks, all);
      if !ok { return; }
      ks, all := ks + [last], all + last.Repr;
      child := child.next;
      i := i + 1;
    }
    ok := true;
    assert ValuesOf(item.kids) == vs && NamesOf(item.kids) == names;
  }

  /** The body of that loop: copy one child and link it after the last copy. */
  method DuplicateChild(child: Item, depth: nat, head: Item?, last: Item?, ghost ks: seq<Item>, ghost all: set<Item>)
    returns (ok: bool, h: Item?, copy: Item?)
    requires child.Valid() && depth <= CIRCULAR_LIMIT && Chain(head, last, ks, all) && child.Repr !! all
    modifies (if last == null then {} else {last})`next
    ensures ok == Copyable(child.value, depth + 1)
    ensures ok ==> copy != null && fresh(copy.Repr) && Chain(h, copy, ks + [copy], all + copy.Repr)
    ensures ok ==> copy.value == child.value && copy.name == child.name
    decreases child.Repr, 3
  {
    hide *;
    h, copy := head, last;
    DepthLimit(child.value, depth);
    ChainEnds(head, last, ks, all);
    if depth >= CIRCULAR_LIMIT { return false, h, copy; }
    copy := Duplicate(child, depth + 1, true);
    if copy == null { return false, h, copy; }
    h := LinkCopy(head, last, copy, ks, all);
    return true, h, copy;
  }

  method FinishCopy(newitem: Item, head: Item?, last: Item?, ghost ks: seq<Item>, ghost all: set<Item>, ghost v: Json)
    requires Chain(head, last, ks, all) && newitem !in all && Contents(newitem.kind, ks, v)
    modifies newitem`child, newitem`kids, newitem`Repr, newitem`value, (if head == null then {} else {head})`prev
    ensures Became(newitem, ks, all, v)
  {
    hide Linked;
    newitem.child := head;
    CloseChain(head, last, ks, all);
    Adopt(newitem, ks, all, v);
  }

  lemma Separate(item: Item, ks: seq<Item>, all: set<Item>)
    requires item.Valid() && item.Repr !! all && Forest(ks, all)
    ensures item !in all && item !in ks && forall k :: k in ks ==> k !in item.Repr
  {
  }

  /** Link a finished copy after the last one. */
  method LinkCopy(head: Item?, last: Item?, item: Item, ghost ks: seq<Item>, ghost all: set<Item>) returns (h: Item)
    requires Chain(head, last, ks, all) && item.Valid() && item.Repr !! all && item.next == null
    modifies (if last == null then {} else {last})`next, item`prev
    ensures Chain(h, item, ks + [item], all + item.Repr)
  {
    hide Forest, Item.Valid, Apart;
    ChainNodes(head, last, ks, all);
    Distinct(ks, all);
    Separate(item, ks, all);
    ChainEnds(head, last, ks, all);
    if last != null {
      h := head;
      last.next := item;
      item.prev := last;
    } else {
      h := item;
    }
    ChainGrown(h, item, ks, all);
  }
}
