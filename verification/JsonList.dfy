/**
 The child-list operations of cJSON, each proved to be the corresponding
 operation on a sequence of nodes.
 */
module JsonList {
  import opened Bytes
  import opened JsonValue
  import opened JsonItem

  function InsertAt<T>(s: seq<T>, w: nat, x: T): seq<T>
    requires w <= |s|
  {
    s[..w] + [x] + s[w..]
  }

  function RemoveAt<T>(s: seq<T>, w: nat): seq<T>
    requires w < |s|
  {
    s[..w] + s[w + 1..]
  }

  /** What a list operation may write: the container and its children. */
  ghost function Footprint(a: Item?): set<Item>
    reads a
  {
    if a == null then {} else {a} + Nodes(a.kids)
  }

  ghost function Children(a: Item?): set<Item>
    reads a
  {
    if a == null then {} else Nodes(a.kids)
  }

  ghost function Single(k: Item?): set<Item> { if k == null then {} else {k} }

  /** `item` may join `a`: a separate tree, named when `a` is an object. */
  ghost predicate Joinable(a: Item, item: Item)
    reads a, a.Repr, item, item.Repr
  {
    && a.Valid() && a.Container()
    && item.Valid() && item.Repr !! a.Repr
    && (a.kind == Object ==> item.name.Some? && NulFree(item.name.value))
  }

  /** The value of container `v` after `item` is inserted at position `w`. */
  ghost function ValueInsert(v: Json, w: nat, item: Item): Json
    reads item`value, item`name
    requires v.JArray? ==> w <= |v.items|
    requires v.JObject? ==> w <= |v.members|
    requires v.JArray? || v.JObject?
  {
    if v.JArray? then JArray(InsertAt(v.items, w, item.value))
    else JObject(InsertAt(v.members, w, Member(if item.name.Some? then item.name.value else [], item.value)))
  }

  ghost function ValueRemove(v: Json, w: nat): Json
    requires v.JArray? ==> w < |v.items|
    requires v.JObject? ==> w < |v.members|
    requires v.JArray? || v.JObject?
  {
    if v.JArray? then JArray(RemoveAt(v.items, w)) else JObject(RemoveAt(v.members, w))
  }

  /** `get_array_item`. */
  method GetArrayItem(list: Item?, index: nat) returns (r: Item?)
    requires list != null ==> Linked(list.child, list.kids)
    ensures r == if list != null && index < |list.kids| then list.kids[index] else null
  {
    if list == null { return null; }
    r := list.child;
    var left := index;
    ghost var i := 0;
    while r != null && left > 0
      invariant i <= |list.kids| && i + left == index
      invariant r == if i < |list.kids| then list.kids[i] else null
      decreases left
    {
      left := left - 1;
      i := i + 1;
      r := r.next;
    }
  }

  lemma ContentsInsert(kind: Kind, w: nat, item: Item, ks: seq<Item>, v: Json)
    requires w <= |ks| && Contents(kind, ks, v)
    requires kind == Object ==> item.name.Some? && NulFree(item.name.value)
    ensures Contents(kind, InsertAt(ks, w, item), ValueInsert(v, w, item))
  {
  }

  /** Record in the ghost view of `a` that `item` has been linked in at `w`. */
  ghost method AdoptInserted(a: Item, w: nat, item: Item, ks: seq<Item>, all: set<Item>, v: Json)
    requires Forest(ks, all) && w <= |ks| && item.Valid() && item.Repr !! all && a !in all && a !in item.Repr
    requires Contents(a.kind, ks, v)
    requires a.kind == Object ==> item.name.Some? && NulFree(item.name.value)
    requires Linked(a.child, InsertAt(ks, w, item))
    modifies a`kids, a`Repr, a`value
    ensures Became(a, InsertAt(ks, w, item), all + item.Repr, ValueInsert(v, w, item))
    ensures item.Valid()
  {
    ContentsInsert(a.kind, w, item, ks, v);
    hide Linked, Contents;
    ForestInsert(ks, all, w, item);
    Adopt(a, InsertAt(ks, w, item), all + item.Repr, ValueInsert(v, w, item));
  }

  /** What the callers of the pointer writes know of `item` and the children of `list`. */
  lemma Separate(list: Item, item: Item)
    requires Joinable(list, item)
    ensures Forest(list.kids, list.Repr - {list}) && Contents(list.kind, list.kids, list.value)
    ensures list !in item.Repr && item.Repr !! list.Repr && item !in list.kids && item in item.Repr
    ensures forall k :: k in list.kids ==> k in list.Repr && k != list && k !in item.Repr
    ensures list in list.Repr && item.Valid()
    ensures list.kind == Object ==> item.name.Some? && NulFree(item.name.value)
  {
  }

  /** No node occurs twice in a child list: its chain of `next` ends. */
  lemma {:induction false} NoRepeat(first: Item?, ks: seq<Item>, i: nat, j: nat)
    requires Linked(first, ks) && i < j < |ks|
    ensures ks[i] != ks[j]
    decreases |ks| - j
  {
    assert ks[i].next == ks[i + 1];
    if j < |ks| - 1 {
      NoRepeat(first, ks, i + 1, j + 1);
      assert ks[j].next == ks[j + 1];
    }
  }

  lemma LinkedDistinct(first: Item?, ks: seq<Item>)
    requires Linked(first, ks)
    ensures forall i, j :: 0 <= i < j < |ks| ==> ks[i] != ks[j]
  {
    forall i, j | 0 <= i < j < |ks| ensures ks[i] != ks[j] { NoRepeat(first, ks, i, j); }
  }

  /** A child cannot join its own list a second time. */
  lemma TwiceInList(first: Item?, ks: seq<Item>, w: nat, item: Item)
    requires w <= |ks| && item in ks
    ensures !Linked(first, InsertAt(ks, w, item))
  {
    var s := InsertAt(ks, w, item);
    var v :| 0 <= v < |ks| && ks[v] == item;
    if Linked(first, s) {
      if v < w { NoRepeat(first, s, v, w); } else { NoRepeat(first, s, w, v + 1); }
    }
  }

  lemma {:induction false} StaysInside(first: Item?, ks: seq<Item>, s: seq<Item>, i: nat)
    requires Linked(first, s) && i < |s| && Endless(first, ks)
    ensures s[i] in ks
  {
    if i > 0 {
      StaysInside(first, ks, s, i - 1);
      assert s[i - 1].next == s[i];
    }
  }

  /** The chain from `first` runs among `ks` for ever. */
  ghost predicate Endless(first: Item?, ks: seq<Item>)
    reads Nodes(ks)`next
  {
    first in ks && forall k :: k in ks ==> k.next != null && k.next in ks
  }

  /** Such a chain is no child list, of whatever nodes. */
  lemma NeverEnds(first: Item?, ks: seq<Item>)
    requires Endless(first, ks)
    ensures forall s :: !Linked(first, s)
  {
    forall s ensures !Linked(first, s) {
      if Linked(first, s) { StaysInside(first, ks, s, |s| - 1); }
    }
  }

  lemma TwiceAppended(first: Item?, ks: seq<Item>, item: Item)
    requires item in ks && (forall i :: 0 <= i < |ks| - 1 ==> ks[i].next == ks[i + 1]) && ks[|ks| - 1].next == item
    requires first == ks[0]
    ensures Endless(first, ks)
  {
    forall k | k in ks ensures k.next != null && k.next in ks {
      var i :| 0 <= i < |ks| && ks[i] == k;
      if i < |ks| - 1 { assert ks[i].next == ks[i + 1]; }
    }
  }

  /** The ends and the links of a child list. */
  lemma ListEnds(first: Item?, ks: seq<Item>)
    requires Linked(first, ks)
    ensures ks == [] <==> first == null
    ensures ks != [] ==> first == ks[0] && ks[0].prev == ks[|ks| - 1] && ks[|ks| - 1].next == null
    ensures forall i :: 0 <= i < |ks| - 1 ==> ks[i].next == ks[i + 1] && ks[i + 1].prev == ks[i]
  {
  }

  lemma LinkedSnoc(first: Item?, ks: seq<Item>, item: Item)
    requires Strung(ks) && (ks == [] ==> item.next == null)
    requires ks == [] ==> first == item && item.prev == item
    requires ks != [] ==> first == ks[0] && ks[0].prev == item && ks[|ks| - 1].next == item && item.prev == ks[|ks| - 1]
    ensures Linked(first, InsertAt(ks, |ks|, item)) <==> item.next == null
  {
    assert InsertAt(ks, |ks|, item) == ks + [item];
  }

  /** The append to a list that has children. */
  method SuffixLast(child: Item, ghost ks: seq<Item>, item: Item)
    requires Linked(child, ks) && child.prev != null
    modifies Nodes(ks)`next, Nodes(ks)`prev, item`prev
    ensures item.next == if item == ks[|ks| - 1] then item else old(item.next)
    ensures item !in ks ==> (Linked(child, InsertAt(ks, |ks|, item)) <==> item.next == null)
    ensures item in ks ==> Endless(child, ks)
  {
    hide Linked, InsertAt, Endless;
    ListEnds(child, ks);
    LinkedDistinct(child, ks);
    child.prev.next := item;
    item.prev := child.prev;
    child.prev := item;
    if item in ks {
      TwiceAppended(child, ks, item);
    } else {
      LinkedSnoc(child, ks, item);
    }
  }

  /**
   The pointer writes of `add_item_to_array`, whatever `item` is. They leave a well-formed list exactly
   when the item was not yet in it and the list was empty or the item was not followed by another,
   because `suffix_object` never clears its `next`. A child that is added again makes the list endless.
   */
  method LinkLast(list: Item, item: Item)
    requires Linked(list.child, list.kids)
    modifies list`child, Nodes(list.kids)`next, Nodes(list.kids)`prev, item`next, item`prev
    ensures list.kids != [] ==> item.next == if item == list.kids[|list.kids| - 1] then item else old(item.next)
    ensures Linked(list.child, InsertAt(list.kids, |list.kids|, item)) <==>
              item !in list.kids && (list.kids == [] || old(item.next) == null)
    ensures item in list.kids ==> Endless(list.child, list.kids)
  {
    hide Linked, InsertAt, Endless;
    var child := list.child;
    ghost var ks := list.kids;
    ListEnds(child, ks);
    if child == null {
      list.child := item;
      item.prev := item;
      item.next := null;
      LinkedSnoc(list.child, ks, item);
    } else if child.prev != null {
      SuffixLast(child, ks, item);
      if item in ks { TwiceInList(list.child, ks, |ks|, item); }
    }
  }

  /** Appending `item` leaves a well-formed list: it is not in it, and nothing follows it or nothing precedes it. */
  ghost predicate Appendable(list: Item, item: Item)
    reads list`kids, item`next
  {
    item !in list.kids && (list.kids == [] || item.next == null)
  }

  /**
   `add_item_to_array`, whatever the item: the result is a child list of the children and the item
   exactly when the item was appendable. A tree of its own that is appendable becomes part of the tree.
   */
  method AddItemToArray(list: Item?, item: Item?) returns (ok: bool)
    requires list != null && item != null && list != item ==> Linked(list.child, list.kids)
    modifies Single(list)`child, Single(list)`kids, Single(list)`Repr, Single(list)`value
    modifies Children(list)`next, Children(list)`prev, Single(item)`next, Single(item)`prev
    ensures ok == (list != null && item != null && list != item)
    ensures !ok ==> (forall o :: o in old(Footprint(list)) ==> unchanged(o)) && (item != null ==> unchanged(item))
    ensures ok && old(Joinable(list, item)) && old(Appendable(list, item)) ==>
              Became(list, InsertAt<Item>(old(list.kids), |old(list.kids)|, item),
                old(list.Repr) - {list} + old(item.Repr),
                     ValueInsert(old(list.value), |old(list.kids)|, item))
    ensures ok ==>
              var ks := InsertAt<Item>(old(list.kids), |old(list.kids)|, item);
              (Linked(list.child, ks) <==> old(Appendable(list, item)))
    ensures ok && item in old(list.kids) ==> Endless(list.child, old(list.kids))
    ensures ok && !(old(Joinable(list, item)) && old(Appendable(list, item))) ==> list.kids == old(list.kids)
    ensures ok && old(list.kids) != [] ==>
              item.next == if item == old(list.kids)[|old(list.kids)| - 1] then item else old(item.next)
    ensures ok && old(Joinable(list, item)) ==>
            item.Valid() && item.value == old(item.value) && item.name == old(item.name)
  {
    if item == null || list == null || list == item { return false; }
    ghost var ks, all, v := list.kids, list.Repr - {list}, list.value;
    ghost var joins, fits := Joinable(list, item), Appendable(list, item);
    if joins { Separate(list, item); }
    hide Linked, Forest, Item.Valid, Contents, ValueInsert, InsertAt, Endless;
    LinkLast(list, item);
    if joins && fits {
      AdoptInserted(list, |ks|, item, ks, all, v);
    }
    return true;
  }

  lemma ValidLinked(list: Item)
    requires list.Valid()
    ensures Linked(list.child, list.kids)
  {
  }

  lemma LeafJoins(list: Item, item: Item)
    requires list.Valid() && list.kind == Array && item.Valid() && item.Repr == {item} && item !in list.Repr
    ensures Joinable(list, item)
  {
    hide Item.Valid;
  }

  /** What the pointer writes need of a list with children. */
  lemma KidsFacts(list: Item)
    requires list.Valid() && list.kids != []
    ensures list !in list.kids && Linked(list.child, list.kids) && Forest(list.kids, list.Repr - {list})
  {
  }

  lemma FollowedBy(list: Item, y: Item, z: Item)
    requires list.Valid() && list.kids == [y, z]
    ensures y.next == z
  {
    KidsFacts(list);
    hide Item.Valid;
    ListEnds(list.child, list.kids);
  }

  /** `cJSON_CreateArray`. */
  method NewArray() returns (item: Item)
    ensures fresh(item) && item.Valid() && item.kind == Array && item.value == JArray([]) && item.Repr == {item}
            && item.kids == []
  {
    item := new Item();
    item.kind := Array;
    item.value := JArray([]);
  }

  /** A new array holding one new node. */
  method NewArrayOf(x: Item) returns (list: Item)
    requires x.Valid() && x.Repr == {x}
    modifies x`next, x`prev
    ensures fresh(list) && list.Valid() && list.kind == Array && list.kids == [x] && list.Repr == {list, x}
    ensures x.Valid() && x.Repr == {x}
  {
    hide Item.Valid, Forest, Linked, Contents, ValueInsert;
    list := NewArray();
    var ok := AddItemToArray(list, x);
  }

  method AppendSecond(list: Item, y: Item, z: Item)
    requires list.Valid() && list.kind == Array && list.kids == [y] && list.Repr == {list, y} && list != y
    requires y.Valid() && y.Repr == {y} && z.Valid() && z.Repr == {z} && z !in list.Repr && z.next == null
    modifies list`child, list`kids, list`Repr, list`value, y`next, y`prev, z`next, z`prev
    ensures y.next == z && y.Valid() && y.Repr == {y}
  {
    hide Item.Valid, Forest, Linked, Contents, ValueInsert;
    LeafJoins(list, z);
    ValidLinked(list);
    var ok := AddItemToArray(list, z);
    FollowedBy(list, y, z);
  }

  method AppendTaken(list: Item, x: Item, y: Item) returns (ok: bool)
    requires list.Valid() && list.kind == Array && list.kids == [x] && list.Repr == {list, x} && list != x
    requires x.Valid() && x.Repr == {x} && y.Valid() && y.Repr == {y} && y !in list.Repr && y.next != null
    modifies list`child, list`kids, list`Repr, list`value, x`next, x`prev, y`next, y`prev
    ensures ok && x.Valid() && y.Valid() && y.next == old(y.next) && list.kids == [x] && !Linked(list.child, [x, y])
  {
    hide Item.Valid, Forest, Linked, Contents, ValueInsert, Became;
    LeafJoins(list, y);
    ValidLinked(list);
    assert list.kids[..1] + [y] + list.kids[1..] == [x, y];
    ok := AddItemToArray(list, y);
  }

  /**
   A list that the append breaks, whatever the three new leaves: to [x] append the first node of
   [y, z]. The caller can see it coming, because y still has a `next`.
   */
  method AppendLinkedItem(x: Item, y: Item, z: Item) returns (list: Item, ok: bool)
    requires x.Valid() && x.Repr == {x} && y.Valid() && y.Repr == {y} && z.Valid() && z.Repr == {z}
    requires x != y && y != z && z != x && z.next == null
    modifies x`next, x`prev, y`next, y`prev, z`next, z`prev
    ensures ok && x.Valid() && y.Valid() && y.next == z && list.kids == [x] && !Linked(list.child, [x, y])
  {
    hide Item.Valid, Forest, Linked, Contents, ValueInsert;
    list := NewArrayOf(x);
    var other := NewArrayOf(y);
    AppendSecond(other, y, z);
    ok := AppendTaken(list, x, y);
  }

  /** Adding a child again, whatever the child: its `next` was NULL, and the list [x] no longer ends. */
  method AppendOwnChild(x: Item) returns (list: Item, ok: bool)
    requires x.Valid() && x.Repr == {x}
    modifies x`next, x`prev
    ensures ok && list.kids == [x] && x.next == x && Endless(list.child, [x])
  {
    hide Item.Valid, Forest, Linked, Contents, ValueInsert;
    list := NewArrayOf(x);
    ValidLinked(list);
    ok := AddItemToArray(list, x);
  }

  lemma LinkedInsert(first: Item?, ks: seq<Item>, w: nat, item: Item)
    requires w < |ks| && item !in ks && (forall i, j :: 0 <= i < j < |ks| ==> ks[i] != ks[j])
    requires item.next == ks[w] && ks[w].prev == item && ks[|ks| - 1].next == null
    requires first == if w == 0 then item else ks[0]
    requires w == 0 ==> item.prev == ks[|ks| - 1]
    requires w > 0 ==> item.prev == ks[w - 1] && ks[w - 1].next == item && ks[0].prev == ks[|ks| - 1]
    requires forall i :: 0 <= i < |ks| - 1 && i != w - 1 ==> ks[i].next == ks[i + 1] && ks[i + 1].prev == ks[i]
    ensures Linked(first, InsertAt(ks, w, item))
  {
    var s := InsertAt(ks, w, item);
    forall i | 0 <= i < |s| - 1 ensures s[i].next == s[i + 1] && s[i + 1].prev == s[i] {
      if i > w {
        assert s[i] == ks[i - 1] && s[i + 1] == ks[i];
      } else if i < w - 1 {
        assert s[i] == ks[i] && s[i + 1] == ks[i + 1];
      }
    }
  }

  ghost function IndexOf(ks: seq<Item>, k: Item): (w: nat)
    requires k in ks
    ensures w < |ks| && ks[w] == k
  {
    if ks[0] == k then 0 else 1 + IndexOf(ks[1..], k)
  }

  lemma NextIfLinked(first: Item?, ks: seq<Item>, v: nat)
    requires v < |ks|
    ensures Linked(first, ks) ==> ks[v].next == if v < |ks| - 1 then ks[v + 1] else null
  {
  }

  /** A child inserted before another leaves no `next` of its own behind. */
  lemma MovedChild(first: Item?, ks: seq<Item>, w: nat, v: nat)
    requires w < |ks| && v < |ks|
    requires ks[v].next == if v == w || v + 1 == w then ks[v] else ks[w]
    requires forall i, j :: 0 <= i < j < |ks| ==> ks[i] != ks[j]
    ensures !Linked(first, ks)
  {
    NextIfLinked(first, ks, v);
  }

  /**
   The pointer writes of `cJSON_InsertItemInArray` before child `w`, whatever `item` is. A child that
   is inserted again breaks the list.
   */
  method LinkBefore(list: Item, ghost w: nat, after: Item, item: Item)
    requires Linked(list.child, list.kids) && w < |list.kids| && after == list.kids[w]
    modifies list`child, Nodes(list.kids)`next, Nodes(list.kids)`prev, item`next, item`prev
    ensures Linked(list.child, InsertAt(list.kids, w, item)) <==> item !in list.kids
    ensures item in list.kids ==> !Linked(list.child, list.kids)
    ensures item !in list.kids ==> item.next == after
    ensures item !in list.kids ==> if w == 0 then list.child == item else list.kids[w - 1].next == item
  {
    hide Linked, InsertAt;
    ghost var ks := list.kids;
    ListEnds(list.child, ks);
    LinkedDistinct(list.child, ks);
    Neighbours(list.child, ks, w);
    ghost var v := if item in ks then IndexOf(ks, item) else 0;
    item.next := after;
    item.prev := after.prev;
    after.prev := item;
    if after == list.child {
      list.child := item;
    } else {
      item.prev.next := item;
    }
    if item in ks {
      TwiceInList(list.child, ks, w, item);
      MovedChild(list.child, ks, w, v);
    } else {
      LinkedInsert(list.child, ks, w, item);
    }
  }

  method InsertBefore(list: Item, ghost w: nat, after: Item, item: Item)
    requires Linked(list.child, list.kids) && w < |list.kids| && after == list.kids[w]
    modifies list`child, list`kids, list`Repr, list`value, Nodes(list.kids)`next, Nodes(list.kids)`prev
    modifies item`next, item`prev
    ensures old(Joinable(list, item)) ==>
              Became(list, InsertAt(old(list.kids), w, item), old(list.Repr) - {list} + old(item.Repr),
                ValueInsert(old(list.value), w, item))
              && item.Valid() && item.value == old(item.value) && item.name == old(item.name)
    ensures Linked(list.child, InsertAt(old(list.kids), w, item)) <==> item !in old(list.kids)
    ensures item in old(list.kids) ==> !Linked(list.child, old(list.kids))
    ensures item !in old(list.kids) ==>
              item.next == after && if w == 0 then list.child == item else old(list.kids)[w - 1].next == item
    ensures !old(Joinable(list, item)) ==> list.kids == old(list.kids)
  {
    hide Linked, Forest, Item.Valid, Contents, ValueInsert, InsertAt, Joinable, Became;
    ghost var ks, all, v := list.kids, list.Repr - {list}, list.value;
    ghost var joins := Joinable(list, item);
    if joins { Separate(list, item); }
    LinkBefore(list, w, after, item);
    if joins { AdoptInserted(list, w, item, ks, all, v); }
  }

  /**
   `cJSON_InsertItemInArray`, whatever the item: an index past the end appends. The result is a child
   list exactly when the item was not in it and, if it is appended, was appendable. Nothing stops a
   caller from inserting a container before one of its own children; it then is one of them.
   */
  method InsertItemInArray(list: Item?, which: int, item: Item?) returns (ok: bool)
    requires which >= 0 && list != null && item != null ==> Linked(list.child, list.kids)
    modifies Single(list)`child, Single(list)`kids, Single(list)`Repr, Single(list)`value
    modifies Children(list)`next, Children(list)`prev, Single(item)`next, Single(item)`prev
    ensures ok == (which >= 0 && list != null && item != null && (list != item || which < |old(list.kids)|))
    ensures ok && old(Joinable(list, item)) && (which < |old(list.kids)| || old(Appendable(list, item))) ==>
              var w := if which < |old(list.kids)| then which else |old(list.kids)|;
              Became(list, InsertAt<Item>(old(list.kids), w, item), old(list.Repr) - {list} + old(item.Repr),
                     ValueInsert(old(list.value), w, item))
    ensures ok ==>
              var w := if which < |old(list.kids)| then which else |old(list.kids)|;
              (Linked(list.child, InsertAt<Item>(old(list.kids), w, item)) <==>
                 item !in old(list.kids) && (which < |old(list.kids)| || old(Appendable(list, item))))
    ensures ok && item in old(list.kids) ==> !Linked(list.child, old(list.kids))
    ensures ok && old(Joinable(list, item)) ==>
            item.Valid() && item.value == old(item.value) && item.name == old(item.name)
    ensures ok && list == item && item !in old(list.kids) ==>
              list.next == old(list.kids)[which]
                && if which == 0 then list.child == list else old(list.kids)[which - 1].next == list
  {
    hide Item.Valid, Forest, Linked, Contents, InsertAt, ValueInsert, Endless, Became, Joinable;
    if which < 0 || item == null { return false; }
    var after := GetArrayItem(list, which);
    if after == null {
      ok := AddItemToArray(list, item);
      if ok && item in old(list.kids) { NeverEnds(list.child, old(list.kids)); }
      return;
    }
    Neighbours(list.child, list.kids, which);
    if after != list.child && after.prev == null { return false; }
    InsertBefore(list, which, after, item);
    return true;
  }

  // ----------------------------------------------------------------- detach

  lemma ContentsRemove(kind: Kind, w: nat, ks: seq<Item>, v: Json)
    requires w < |ks| && Contents(kind, ks, v)
    ensures Contents(kind, RemoveAt(ks, w), ValueRemove(v, w))
  {
  }

  lemma LinkedRemove(first: Item?, ks: seq<Item>, w: nat)
    requires w < |ks| && (forall i, j :: 0 <= i < j < |ks| ==> ks[i] != ks[j])
    requires first == if w > 0 then ks[0] else if |ks| == 1 then null else ks[1]
    requires 0 < w < |ks| - 1 ==> ks[w - 1].next == ks[w + 1] && ks[w + 1].prev == ks[w - 1]
    requires w == |ks| - 1 > 0 ==> ks[w - 1].next == null && ks[0].prev == ks[w - 1]
    requires w == 0 && |ks| > 1 ==> ks[1].prev == ks[|ks| - 1]
    requires 0 < w < |ks| - 1 ==> ks[0].prev == ks[|ks| - 1]
    requires w < |ks| - 1 ==> ks[|ks| - 1].next == null
    requires forall i :: 0 <= i < |ks| - 1 && i != w - 1 && i != w ==>
             ks[i].next == ks[i + 1] && ks[i + 1].prev == ks[i]
    ensures Linked(first, RemoveAt(ks, w))
  {
    var s := RemoveAt(ks, w);
    forall i | 0 <= i < |s| - 1 ensures s[i].next == s[i + 1] && s[i + 1].prev == s[i] {
      if i >= w {
        assert s[i] == ks[i + 1] && s[i + 1] == ks[i + 2];
      } else if i < w - 1 {
        assert s[i] == ks[i] && s[i + 1] == ks[i + 1];
      }
    }
  }

  /** Child `w` of another list cannot be cut out from here at either end: that list's own ends are not told. */
  lemma EndsRemain(first: Item?, hs: seq<Item>, w: nat)
    requires w < |hs| && (w == 0 || w == |hs| - 1) && first == hs[0]
    requires forall i, j :: 0 <= i < j < |hs| ==> hs[i] != hs[j]
    requires w > 0 ==> hs[0].prev == hs[w]
    ensures !Linked(first, RemoveAt(hs, w))
  {
  }

  /** A list whose head points back outside the list. */
  lemma BackOutside(first: Item?, ks: seq<Item>)
    requires ks != [] && first == ks[0] && (ks[0].prev == null || ks[0].prev !in ks)
    ensures !Linked(first, ks)
  {
  }

  /** Children whose links were not written are linked as before. */
  twostate lemma KeptLinked(list: Item)
    requires old(Linked(list.child, list.kids)) && list.child == old(list.child) && list.kids == old(list.kids)
    requires forall k :: k in list.kids ==> k.next == old(k.next) && k.prev == old(k.prev)
    ensures Linked(list.child, list.kids)
  {
  }

  lemma HeadIs(first: Item?, ks: seq<Item>)
    requires Linked(first, ks)
    ensures first == if ks == [] then null else ks[0]
  {
  }

  /** `item` is child `w` of `holder`, which is `list` itself or a container with other children. */
  ghost predicate Held(list: Item, holder: Item, w: nat, item: Item)
    reads list`child, list`kids, Nodes(list.kids)`next, Nodes(list.kids)`prev
    reads holder`child, holder`kids, Nodes(holder.kids)`next, Nodes(holder.kids)`prev
  {
    && Linked(list.child, list.kids) && Linked(holder.child, holder.kids)
    && w < |holder.kids| && item == holder.kids[w]
    && (holder == list || Nodes(list.kids) !! Nodes(holder.kids))
  }

  /**
   The pointer writes of `cJSON_DetachItemViaPointer`. For child `w` of another list they do the same
   work in the middle of that list; at its end they also write into `list`, which must not be empty.
   */
  method Unlink(list: Item, ghost holder: Item, ghost w: nat, item: Item)
    requires Held(list, holder, w, item) && (holder != list && w == |holder.kids| - 1 ==> list.kids != [])
    modifies list`child, Nodes(list.kids)`next, Nodes(list.kids)`prev, Nodes(holder.kids)`next, Nodes(holder.kids)`prev
    ensures holder == list ==> Linked(list.child, RemoveAt(list.kids, w))
    ensures holder != list ==>
              && (Linked(holder.child, RemoveAt(holder.kids, w)) <==> 0 < w < |holder.kids| - 1)
              && (Linked(list.child, list.kids) <==> w < |holder.kids| - 1)
    ensures item.next == null && item.prev == null
  {
    hide Linked, RemoveAt;
    ghost var ks, hs := list.kids, holder.kids;
    HeadIs(list.child, ks);
    ListEnds(holder.child, hs);
    LinkedDistinct(holder.child, hs);
    Neighbours(holder.child, hs, w);
    assert holder != list && ks != [] ==> ks[0] in Nodes(ks) && item in Nodes(hs);
    if item != list.child {
      item.prev.next := item.next;
    }
    if item.next != null {
      item.next.prev := item.prev;
    }
    if item == list.child {
      list.child := item.next;
    } else if item.next == null {
      list.child.prev := item.prev;
    }
    item.prev := null;
    item.next := null;
    if holder == list || 0 < w < |hs| - 1 {
      LinkedRemove(holder.child, hs, w);
    } else {
      EndsRemain(holder.child, hs, w);
    }
    if holder != list {
      if w < |hs| - 1 { KeptLinked(list); } else { BackOutside(list.child, ks); }
    }
  }

  /** Record in the ghost view of `a` that child `w` has been unlinked. */
  ghost method AdoptRemoved(a: Item, w: nat, ks: seq<Item>, all: set<Item>, v: Json)
    requires Forest(ks, all) && w < |ks| && a !in all
    requires Contents(a.kind, ks, v) && Linked(a.child, RemoveAt(ks, w))
    modifies a`kids, a`Repr, a`value
    ensures Became(a, RemoveAt(ks, w), all - ks[w].Repr, ValueRemove(v, w))
    ensures ks[w].Valid()
  {
    ContentsRemove(a.kind, w, ks, v);
    hide Linked, Contents;
    ForestRemove(ks, all, w);
    Adopt(a, RemoveAt(ks, w), all - ks[w].Repr, ValueRemove(v, w));
  }

  /**
   `cJSON_DetachItemViaPointer`; `holder` is the container whose list the item is in. In another
   container's list the item must not be the last while `parent` is empty, or the source follows a
   NULL pointer. Even so both lists survive exactly when it is neither the first nor the last.
   */
  method DetachItemViaPointer(parent: Item?, item: Item?, ghost holder: Item?) returns (r: Item?)
    requires parent != null && item != null && holder == null ==> item.prev == null && item != parent.child
    requires parent != null && item != null && holder != null ==>
               && item in holder.kids && Held(parent, holder, IndexOf(holder.kids, item), item)
               && (holder != parent && item.next == null ==> parent.kids != [])
    modifies Single(parent)`child, Single(parent)`kids, Single(parent)`Repr, Single(parent)`value
    modifies Children(parent)`next, Children(parent)`prev, Children(holder)`next, Children(holder)`prev
    ensures r == if parent != null && item != null && holder != null then item else null
    ensures r == null ==> forall o :: o in old(Footprint(parent)) ==> unchanged(o)
    ensures r != null && holder == parent ==>
            Linked(parent.child, RemoveAt<Item>(old(parent.kids), IndexOf(old(parent.kids), item)))
    ensures r != null && holder == parent && old(parent.Valid() && parent.Container()) ==>
              var w := IndexOf(old(parent.kids), item);
              Became(parent, RemoveAt<Item>(old(parent.kids), w), old(parent.Repr) - {parent} - old(item.Repr),
                ValueRemove(old(parent.value), w))
              && r.Valid()
    ensures r != null && holder != parent ==>
              var w := IndexOf(old(holder.kids), item);
              && (Linked(holder.child, RemoveAt<Item>(old(holder.kids), w)) <==> 0 < w < |old(holder.kids)| - 1)
              && (Linked(parent.child, old(parent.kids)) <==> w < |old(holder.kids)| - 1)
    ensures r != null ==> r.next == null && r.prev == null
  {
    hide Linked, Forest, Item.Valid, Contents, ValueRemove, RemoveAt;
    if parent != null && item != null && holder != null {
      Neighbours(holder.child, holder.kids, IndexOf(holder.kids, item));
    }
    if parent == null || item == null || (item != parent.child && item.prev == null) { return null; }
    ghost var ks, all, v := parent.kids, parent.Repr - {parent}, parent.value;
    ghost var w := IndexOf(holder.kids, item);
    ghost var tree := holder == parent && parent.Valid() && parent.Container();
    if tree { OwnChild(parent, item); }
    Unlink(parent, holder, w, item);
    if tree { AdoptRemoved(parent, w, ks, all, v); }
    return item;
  }

  lemma OwnChild(list: Item, item: Item)
    requires list.Valid() && list.Container() && item in list.kids
    ensures Contents(list.kind, list.kids, list.value) && list !in item.Repr && Forest(list.kids, list.Repr - {list})
    ensures forall k :: k in list.kids ==> k in list.Repr - {list}
  {
  }

  // ---------------------------------------------------------------- replace

  ghost function ValueReplace(v: Json, w: nat, item: Item): Json
    reads item`value, item`name
    requires v.JArray? ==> w < |v.items|
    requires v.JObject? ==> w < |v.members|
    requires v.JArray? || v.JObject?
  {
    if v.JArray? then JArray(v.items[w := item.value])
    else JObject(v.members[w := Member(if item.name.Some? then item.name.value else [], item.value)])
  }

  lemma ContentsReplace(kind: Kind, w: nat, item: Item, ks: seq<Item>, v: Json)
    requires w < |ks| && Contents(kind, ks, v)
    requires kind == Object ==> item.name.Some? && NulFree(item.name.value)
    ensures Contents(kind, ks[w := item], ValueReplace(v, w, item))
  {
  }

  lemma ForestReplace(ks: seq<Item>, all: set<Item>, w: nat, k: Item)
    requires Forest(ks, all) && w < |ks| && k.Valid() && k.Repr !! all
    ensures Forest(ks[w := k], all - ks[w].Repr + k.Repr)
  {
    ForestRemove(ks, all, w);
    ForestInsert(RemoveAt(ks, w), all - ks[w].Repr, w, k);
    assert RemoveAt(ks, w)[..w] + [k] + RemoveAt(ks, w)[w..] == ks[w := k];
  }

  lemma LinkedReplace(first: Item?, ks: seq<Item>, w: nat, item: Item)
    requires w < |ks| && (forall i, j :: 0 <= i < j < |ks| ==> ks[i] != ks[j]) && item !in ks
    requires first == if w == 0 then item else ks[0]
    requires item.prev == if |ks| == 1 then item else if w == 0 then ks[|ks| - 1] else ks[w - 1]
    requires item.next == if w == |ks| - 1 then null else ks[w + 1]
    requires w > 0 ==> ks[w - 1].next == item && ks[0].prev == if w == |ks| - 1 then item else ks[|ks| - 1]
    requires w < |ks| - 1 ==> ks[w + 1].prev == item && ks[|ks| - 1].next == null
    requires forall i :: 0 <= i < |ks| - 1 && i != w - 1 && i != w ==>
             ks[i].next == ks[i + 1] && ks[i + 1].prev == ks[i]
    ensures Linked(first, ks[w := item])
  {
  }

  /** A child put in the place of another is in the list twice. */
  lemma TwiceReplaced(first: Item?, ks: seq<Item>, w: nat, item: Item)
    requires w < |ks| && item in ks && item != ks[w]
    ensures !Linked(first, ks[w := item])
  {
    var s := ks[w := item];
    var v :| 0 <= v < |ks| && ks[v] == item;
    if Linked(first, s) { NoRepeat(first, s, if v < w then v else w, if v < w then w else v); }
  }

  /** Nor can an end of another list be replaced from here. */
  lemma EndsNotReplaced(first: Item?, hs: seq<Item>, w: nat, item: Item)
    requires w < |hs| && (w == 0 || w == |hs| - 1) && first == hs[0] && item !in hs
    requires w > 0 ==> hs[0].prev == hs[w]
    ensures !Linked(first, hs[w := item])
  {
  }

  /** The first writes of `cJSON_ReplaceItemViaPointer`: the replacement takes over the links of the item. */
  method CopyLinks(item: Item, replacement: Item)
    requires item != replacement
    modifies replacement`next, replacement`prev, Single(item.next)`prev
    ensures replacement.next == item.next
    ensures item.next != replacement ==> replacement.prev == old(item.prev)
    ensures item.next != null ==> item.next.prev == replacement
  {
    replacement.next := item.next;
    replacement.prev := item.prev;
    if replacement.next != null {
      replacement.next.prev := replacement;
    }
  }

  /** The pointer writes of `cJSON_ReplaceItemViaPointer`, with the same care for a child of another list. */
  method Relink(list: Item, ghost holder: Item, ghost w: nat, item: Item, replacement: Item)
    requires Held(list, holder, w, item) && list.kids != [] && replacement != item
    requires holder != list ==> replacement !in list.kids && replacement !in holder.kids
    modifies list`child, Nodes(list.kids)`next, Nodes(list.kids)`prev, Nodes(holder.kids)`next, Nodes(holder.kids)`prev
    modifies replacement`next, replacement`prev
    ensures holder == list && replacement !in list.kids ==> Linked(list.child, list.kids[w := replacement])
    ensures holder != list && 0 < w < |holder.kids| - 1 ==> Linked(holder.child, holder.kids[w := replacement])
    ensures holder != list && 0 < w == |holder.kids| - 1 ==> holder.kids[0].prev == item
    ensures holder != list ==> (Linked(list.child, list.kids) <==> w < |holder.kids| - 1)
    ensures item.next == null && item.prev == null
  {
    hide Linked;
    ghost var ks, hs := list.kids, holder.kids;
    HeadIs(list.child, ks);
    ListEnds(holder.child, hs);
    LinkedDistinct(holder.child, hs);
    Neighbours(holder.child, hs, w);
    assert holder != list ==> ks[0] in Nodes(ks) && item in Nodes(hs);
    assert item.prev in Nodes(hs) && (item.next != null ==> item.next in Nodes(hs));
    CopyLinks(item, replacement);
    if list.child == item {
      if list.child.prev == list.child {
        replacement.prev := replacement;
      }
      list.child := replacement;
    } else {
      if replacement.prev != null {
        replacement.prev.next := replacement;
      }
      if replacement.next == null {
        list.child.prev := replacement;
      }
    }
    item.next := null;
    item.prev := null;
    if replacement !in hs && (holder == list || 0 < w < |hs| - 1) {
      LinkedReplace(holder.child, hs, w, replacement);
    }
    if holder != list {
      if w == |hs| - 1 { BackOutside(list.child, ks); } else { KeptLinked(list); }
    }
  }

  /**
   `cJSON_ReplaceItemViaPointer`; freeing the replaced item is not modelled. `holder` is the container
   whose list the item is in. A replacement that is a child already breaks the list.
   */
  method ReplaceItemViaPointer(parent: Item?, item: Item?, replacement: Item?, ghost holder: Item?) returns (ok: bool)
    requires parent != null && parent.child != null && item != null && replacement != null && replacement != item ==>
               && holder != null && item in holder.kids && Held(parent, holder, IndexOf(holder.kids, item), item)
               && (holder != parent ==> replacement !in parent.kids && replacement !in holder.kids)
    modifies Single(parent)`child, Single(parent)`kids, Single(parent)`Repr, Single(parent)`value
    modifies Children(parent)`next, Children(parent)`prev, Children(holder)`next, Children(holder)`prev
    modifies Single(replacement)`next, Single(replacement)`prev
    ensures ok == (parent != null && old(parent.child) != null && item != null && replacement != null)
    ensures !ok || replacement == item ==>
              (forall o :: o in old(Footprint(parent)) ==> unchanged(o))
                && (replacement != null ==> unchanged(replacement))
    ensures ok && replacement != item && holder == parent ==>
              (Linked(parent.child, old(parent.kids)[IndexOf(old(parent.kids), item) := replacement])
               <==> replacement !in old(parent.kids))
    ensures ok && replacement != item && holder == parent && old(Joinable(parent, replacement)) ==>
              var w := IndexOf(old(parent.kids), item);
              Became(parent, old(parent.kids)[w := replacement],
                     old(parent.Repr) - {parent} - old(item.Repr) + old(replacement.Repr),
                     ValueReplace(old(parent.value), w, replacement))
              && item.Valid() && replacement.Valid()
    ensures ok && replacement != item && holder != parent ==>
              var w := IndexOf(old(holder.kids), item);
              && (Linked(holder.child, old(holder.kids)[w := replacement]) <==> 0 < w < |old(holder.kids)| - 1)
              && (Linked(parent.child, old(parent.kids)) <==> w < |old(holder.kids)| - 1)
    ensures ok && replacement != item ==> item.next == null && item.prev == null
  {
    hide Linked, Forest, Item.Valid, Contents, ValueReplace, Became, Joinable;
    if parent == null || parent.child == null || replacement == null || item == null { return false; }
    if replacement == item { return true; }
    ghost var ks, all, v := parent.kids, parent.Repr - {parent}, parent.value;
    ghost var w := IndexOf(holder.kids, item);
    ghost var joins := holder == parent && Joinable(parent, replacement);
    if joins { Separate(parent, replacement); }
    ListEnds(parent.child, ks);
    HeadIs(holder.child, holder.kids);
    Relink(parent, holder, w, item, replacement);
    if replacement in holder.kids { TwiceReplaced(parent.child, ks, w, replacement); }
    if holder != parent && !(0 < w < |holder.kids| - 1) { EndsNotReplaced(holder.child, holder.kids, w, replacement); }
    if joins { AdoptReplaced(parent, w, replacement, ks, all, v); }
    return true;
  }

  ghost method AdoptReplaced(a: Item, w: nat, item: Item, ks: seq<Item>, all: set<Item>, v: Json)
    requires Forest(ks, all) && w < |ks| && item.Valid() && item.Repr !! all && a !in all && a !in item.Repr
    requires Contents(a.kind, ks, v)
    requires a.kind == Object ==> item.name.Some? && NulFree(item.name.value)
    requires Linked(a.child, ks[w := item])
    modifies a`kids, a`Repr, a`value
    ensures Became(a, ks[w := item], all - ks[w].Repr + item.Repr, ValueReplace(v, w, item))
    ensures item.Valid() && ks[w].Valid()
  {
    ContentsReplace(a.kind, w, item, ks, v);
    hide Linked, Contents;
    ForestReplace(ks, all, w, item);
    Adopt(a, ks[w := item], all - ks[w].Repr + item.Repr, ValueReplace(v, w, item));
  }

  // -------------------------------------------------------- objects and keys

  lemma ObjectFacts(list: Item)
    requires list.Valid() && list.kind == Object
    ensures list.value.JObject? && |list.value.members| == |list.kids| && forall k :: k in list.kids ==> k in list.Repr
  {
  }

  lemma OwnRepr(item: Item)
    requires item.Valid()
    ensures item in item.Repr
  {
  }

  lemma AppendedMember(v: Json, ks: seq<Item>, item: Item)
    requires v.JObject? && |v.members| == |ks| && item.name.Some?
    ensures ValueInsert(v, |ks|, item) == JObject(v.members + [Member(item.name.value, item.value)])
  {
  }

  lemma SnocIsInsert(ks: seq<Item>, item: Item)
    ensures InsertAt(ks, |ks|, item) == ks + [item]
  {
  }

  /** `item` may join the object once it is named. */
  ghost predicate Nameable(object_: Item, item: Item)
    reads object_, object_.Repr, item, item.Repr
  {
    object_.Valid() && object_.kind == Object && item.Valid() && item.Repr !! object_.Repr
  }

  /** `add_item_to_object` with a copied key: the old name is dropped, then the item is appended. */
  method AddItemToObject(object_: Item?, key: Option<Bytes>, item: Item?) returns (ok: bool)
    requires object_ != null && key.Some? && item != null && object_ != item ==>
               Linked(object_.child, object_.kids) && NulFree(key.value)
    modifies Single(object_)`child, Single(object_)`kids, Single(object_)`Repr, Single(object_)`value
    modifies Children(object_)`next, Children(object_)`prev, Single(item)`next, Single(item)`prev, Single(item)`name
    ensures ok == (object_ != null && key.Some? && item != null && object_ != item)
    ensures ok ==> item.name == key
    ensures ok && old(Nameable(object_, item)) ==> item.Valid() && old(object_.value).JObject?
    ensures ok && old(Nameable(object_, item)) && old(Appendable(object_, item)) ==>
              && object_.Valid() && object_.kids == old(object_.kids) + [item]
              && object_.value == JObject(old(object_.value).members + [Member(key.value, old(item.value))])
    ensures ok ==> (Linked(object_.child, old(object_.kids) + [item]) <==> old(Appendable(object_, item)))
    ensures ok && item in old(object_.kids) ==> Endless(object_.child, old(object_.kids))
  {
    hide Item.Valid, Forest, Linked, Contents, ValueInsert, Endless, Appendable;
    if object_ == null || key == None || item == null || object_ == item { return false; }
    ghost var joins := Nameable(object_, item);
    if joins {
      ObjectFacts(object_);
      OwnRepr(item);
    }
    item.name := key;
    ok := AddItemToArray(object_, item);
    SnocIsInsert(old(object_.kids), item);
    if joins { AppendedMember(old(object_.value), old(object_.kids), item); }
  }

  /** Detaching what was just inserted restores the list and its value; inserting what was detached puts it back. */
  lemma InsertRemoveInverse<T>(s: seq<T>, w: nat, x: T)
    ensures w <= |s| ==> RemoveAt(InsertAt(s, w, x), w) == s
    ensures w < |s| ==> InsertAt(RemoveAt(s, w), w, s[w]) == s
  {
    if w <= |s| {
      var t := InsertAt(s, w, x);
      assert t[..w] == s[..w] && t[w + 1..] == s[w..];
    }
    if w < |s| {
      var t := RemoveAt(s, w);
      assert t[..w] == s[..w] && t[w..] == s[w + 1..];
    }
  }
}
