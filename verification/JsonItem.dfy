/**
 The cJSON node and its child list. Children form a NULL-terminated forward
 chain; each `prev` undoes a `next`, and the first child's `prev` is the last
 child. `kids`, `Repr` and `value` are the abstract view of the pointers.
 */
module JsonItem {
  import opened Bytes
  import opened JsonValue

  datatype Kind = Invalid | False | True | Null | Number | String | Array | Object

  class Item {
    var next: Item?
    var prev: Item?
    var child: Item?
    var kind: Kind
    var valuestring: Option<Bytes>
    var valueint: int
    var valuedouble: real
    var name: Option<Bytes>

    ghost var kids: seq<Item>
    ghost var Repr: set<Item>
    ghost var value: Json

    /** `cJSON_New_Item`: all fields zero. */
    constructor ()
      ensures Empty() && next == null && prev == null && name == None
    {
      next, prev, child := null, null, null;
      kind, valuestring, valueint, valuedouble, name := Invalid, None, 0, 0.0, None;
      kids, Repr, value := [], {this}, JNull;
    }

    /** A node that owns nothing yet. */
    ghost predicate Empty()
      reads this`child, this`valuestring, this`kids, this`Repr
    {
      child == null && valuestring == None && kids == [] && Repr == {this}
    }

    /** A well-formed tree holding `value`. The node's own list links and name are no part of it. */
    ghost predicate Valid()
      reads this`child, this`kind, this`valuestring, this`valueint, this`valuedouble
      reads this`kids, this`Repr, this`value, Repr - {this}
      ensures Valid() ==> this in Repr && Forest(kids, Repr - {this})
      decreases Repr, 0
    {
      && this in Repr
      && Forest(kids, Repr - {this})
      && Linked(child, kids)
      && Holds(value)
    }

    /** The fields and the children's values make up `v`. */
    ghost predicate Holds(v: Json)
      reads this`kind, this`valuestring, this`valueint, this`valuedouble, this`kids, kids
    {
      match kind
      case Invalid => false
      case False => v == JBool(false) && kids == []
      case True => v == JBool(true) && kids == []
      case Null => v == JNull && kids == []
      case Number => v == JNumber(valuedouble) && valueint == Saturate(valuedouble) && kids == []
      case String => valuestring.Some? && NulFree(valuestring.value) && v == JString(valuestring.value) && kids == []
      case Array => v.JArray? && Values(kids, v.items)
      case Object => v.JObject? && Members(kids, v.members)
    }

    ghost predicate Container()
      reads this`kind
    {
      kind == Array || kind == Object
    }
  }

  /** A valid node is of the kind its value is of. */
  lemma KindIsValue(item: Item)
    requires item.Valid()
    ensures item.kind == Null <==> item.value == JNull
    ensures item.kind == True <==> item.value == JBool(true)
    ensures item.kind == False <==> item.value == JBool(false)
    ensures item.kind == Number <==> item.value == JNumber(item.valuedouble)
    ensures item.kind == String <==> item.valuestring.Some? && item.value == JString(item.valuestring.value)
    ensures (item.kind == Array <==> item.value.JArray?) && (item.kind == Object <==> item.value.JObject?)
  {
  }

  /** Disjoint well-formed trees, all inside `all`. The links between the roots are no part of it. */
  ghost predicate Forest(ks: seq<Item>, all: set<Item>)
    reads all`child, all`kind, all`valuestring, all`valueint, all`valuedouble
    reads all`kids, all`Repr, all`value, all - Nodes(ks)
    decreases all, 1
  {
    && (forall k :: k in ks ==> k in all && k in k.Repr && k.Repr <= all)
    && Apart(ks)
    && (forall k :: k in ks ==> k.Valid())
  }

  ghost predicate Apart(ks: seq<Item>)
    reads Nodes(ks)`Repr
  {
    forall i, j :: 0 <= i < j < |ks| ==> ks[i].Repr !! ks[j].Repr
  }

  ghost function Nodes(ks: seq<Item>): set<Item> { set k | k in ks }

  ghost predicate Values(ks: seq<Item>, vs: seq<Json>)
    reads Nodes(ks)`value
  {
    |vs| == |ks| && forall i :: 0 <= i < |ks| ==> vs[i] == ks[i].value
  }

  ghost predicate Members(ks: seq<Item>, ms: seq<Member>)
    reads Nodes(ks)`value, Nodes(ks)`name
  {
    |ms| == |ks| && forall i :: 0 <= i < |ks| ==> IsMember(ks[i], ms[i])
  }

  ghost predicate IsMember(k: Item, m: Member)
    reads k`value, k`name
  {
    k.name.Some? && NulFree(k.name.value) && m == Member(k.name.value, k.value)
  }

  /** Neighbours are linked both ways; nothing is said of the two ends. */
  ghost predicate Strung(ks: seq<Item>)
    reads Nodes(ks)`next, Nodes(ks)`prev
  {
    forall i :: 0 <= i < |ks| - 1 ==> ks[i].next == ks[i + 1] && ks[i + 1].prev == ks[i]
  }

  /** The child list invariant. */
  ghost predicate Linked(first: Item?, ks: seq<Item>)
    reads Nodes(ks)`next, Nodes(ks)`prev
  {
    if ks == [] then first == null
    else
      && first == ks[0]
      && ks[0].prev == ks[|ks| - 1]
      && ks[|ks| - 1].next == null
      && Strung(ks)
  }

  /** What the links of child `w` are in a well-formed list. */
  lemma Neighbours(first: Item?, ks: seq<Item>, w: nat)
    requires Linked(first, ks) && w < |ks|
    ensures ks[w].prev == if w == 0 then ks[|ks| - 1] else ks[w - 1]
    ensures ks[w].next == if w == |ks| - 1 then null else ks[w + 1]
    ensures w > 0 ==> ks[w - 1].next == ks[w]
    ensures w < |ks| - 1 ==> ks[w + 1].prev == ks[w]
  {
    if w > 0 { assert ks[w - 1].next == ks[w]; }
  }

  /** No node occurs twice in a forest. */
  lemma Distinct(ks: seq<Item>, all: set<Item>)
    requires Forest(ks, all)
    ensures forall i, j :: 0 <= i < j < |ks| ==> ks[i] != ks[j]
  {
    forall i, j | 0 <= i < j < |ks| ensures ks[i] != ks[j] {
      assert ks[i].Repr !! ks[j].Repr;
      assert ks[i] in ks[i].Repr && ks[j] in ks[j].Repr;
    }
  }

  /** What a walk over the children knows of child `i`. */
  lemma ChildFacts(list: Item, i: nat)
    requires list.Valid() && list.Container() && i < |list.kids|
    ensures list.kids[i].Valid() && list.kids[i].Repr < list.Repr && list.kids[i] != list
            && list.kids[i] in list.kids[i].Repr
    ensures list.kids[i].next == if i + 1 < |list.kids| then list.kids[i + 1] else null
    ensures list.kind == Array ==>
            list.value.JArray? && |list.value.items| == |list.kids| && list.value.items[i] == list.kids[i].value
    ensures list.kind == Object ==> list.value.JObject? && |list.value.members| == |list.kids|
                                    && IsMember(list.kids[i], list.value.members[i])
    ensures Nest(list.kids[i].value) < Nest(list.value)
  {
    Neighbours(list.child, list.kids, i);
  }

  lemma ListFacts(list: Item)
    requires list.Valid() && list.Container()
    ensures list.kind == Array ==> list.value.JArray? && |list.value.items| == |list.kids|
    ensures list.kind == Object ==> list.value.JObject? && |list.value.members| == |list.kids|
    ensures list.child == if |list.kids| > 0 then list.kids[0] else null
  {
  }

  /** The parts of child `i` a walk looks at. */
  lemma ChildShape(list: Item, i: nat)
    requires list.Valid() && list.Container() && i < |list.kids|
    ensures list.kids[i].next == if i + 1 < |list.kids| then list.kids[i + 1] else null
    ensures list.kind == Array ==>
            list.value.JArray? && |list.value.items| == |list.kids| && list.value.items[i] == list.kids[i].value
    ensures list.kind == Object ==> list.value.JObject? && |list.value.members| == |list.kids|
                                    && IsMember(list.kids[i], list.value.members[i])
  {
    hide Item.Valid;
    ChildFacts(list, i);
  }

  lemma ForestInsert(ks: seq<Item>, all: set<Item>, w: nat, k: Item)
    requires Forest(ks, all) && w <= |ks| && k.Valid() && k.Repr !! all
    ensures Forest(ks[..w] + [k] + ks[w..], all + k.Repr)
  {
  }

  lemma ForestRemove(ks: seq<Item>, all: set<Item>, w: nat)
    requires Forest(ks, all) && w < |ks|
    ensures Forest(ks[..w] + ks[w + 1..], all - ks[w].Repr)
  {
    var rest := ks[..w] + ks[w + 1..];
    forall k | k in rest ensures k in all - ks[w].Repr && k.Repr <= all - ks[w].Repr {
      var i :| 0 <= i < |rest| && rest[i] == k;
      assert k == ks[if i < w then i else i + 1];
    }
  }

  /** The children `ks` hold the elements of container value `v`. */
  ghost predicate Contents(kind: Kind, ks: seq<Item>, v: Json)
    reads Nodes(ks)`value, Nodes(ks)`name
  {
    || (kind == Array && v.JArray? && Values(ks, v.items))
    || (kind == Object && v.JObject? && Members(ks, v.members))
  }

  /** `a` is a well-formed container with exactly these children and this value. */
  ghost predicate Became(a: Item, ks: seq<Item>, all: set<Item>, v: Json)
    reads a, a.Repr
  {
    a.Valid() && a.Container() && a.kids == ks && a.Repr == {a} + all && a.value == v
  }

  lemma ContainerValid(a: Item, ks: seq<Item>, all: set<Item>, v: Json)
    requires Forest(ks, all) && Linked(a.child, ks) && Contents(a.kind, ks, v) && a !in all
    requires a.kids == ks && a.Repr == {a} + all && a.value == v
    ensures a.Valid()
  {
    hide Linked, Values, Members, Apart;
    assert a.Repr - {a} == all;
  }

  /** Record in the ghost view of `a` the children its pointers already have. */
  ghost method Adopt(a: Item, ks: seq<Item>, all: set<Item>, v: Json)
    requires Forest(ks, all) && Linked(a.child, ks) && Contents(a.kind, ks, v) && a !in all
    modifies a`kids, a`Repr, a`value
    ensures Became(a, ks, all, v)
  {
    assert a !in ks;
    hide Forest, Linked, Values, Members;
    a.kids, a.Repr, a.value := ks, {a} + all, v;
    ContainerValid(a, ks, all, v);
  }

  /** A list under construction: complete trees, strung together, with the head's `prev` still to be set. */
  ghost predicate Chain(head: Item?, last: Item?, ks: seq<Item>, all: set<Item>)
    reads all
  {
    && Forest(ks, all) && Strung(ks)
    && if ks == [] then head == null && last == null
       else head == ks[0] && last == ks[|ks| - 1] && ks[|ks| - 1].next == null
  }

  lemma ChainEnds(head: Item?, last: Item?, ks: seq<Item>, all: set<Item>)
    requires Chain(head, last, ks, all)
    ensures head != null ==> head in all
    ensures last != null ==> last in all
  {
  }

  lemma ChainNodes(head: Item?, last: Item?, ks: seq<Item>, all: set<Item>)
    requires Chain(head, last, ks, all)
    ensures Nodes(ks) <= all && (head != null ==> head in all) && Forest(ks, all)
  {
  }

  lemma EmptyChain()
    ensures Chain(null, null, [], {}) && Values([], []) && Members([], [])
  {
  }

  /** Allocate the next item and link it after `last`. */
  method AttachNew(head: Item?, last: Item?, ghost ks: seq<Item>, ghost all: set<Item>) returns (h: Item, item: Item)
    requires Chain(head, last, ks, all)
    modifies (if last == null then {} else {last})`next
    ensures fresh(item) && item.Empty() && item.name == None && item.next == null && item !in all && item !in ks
    ensures Forest(ks, all) && Strung(ks + [item]) && h == (ks + [item])[0]
    ensures Nodes(ks + [item]) <= all + {item}
  {
    hide Forest, Item.Valid, Apart;
    Distinct(ks, all);
    ChainNodes(head, last, ks, all);
    item := new Item();
    if head == null {
      h := item;
    } else {
      h := head;
      last.next := item;
      item.prev := last;
    }
  }

  /** A parsed item completes the chain it was linked into. */
  lemma ChainGrown(head: Item, item: Item, ks: seq<Item>, all: set<Item>)
    requires Forest(ks, all) && Strung(ks + [item]) && head == (ks + [item])[0] && item.next == null
    requires item.Valid() && item.Repr !! all
    ensures Chain(head, item, ks + [item], all + item.Repr)
  {
    ForestInsert(ks, all, |ks|, item);
    assert ks[..|ks|] + [item] + ks[|ks|..] == ks + [item];
  }

  /** `head->prev = current_item` closes a chain into a child list. */
  method CloseChain(head: Item?, last: Item?, ghost ks: seq<Item>, ghost all: set<Item>)
    requires Chain(head, last, ks, all)
    modifies (if head == null then {} else {head})`prev
    ensures Forest(ks, all) && Linked(head, ks)
  {
    if head != null {
      Distinct(ks, all);
      hide Forest;
      head.prev := last;
    }
  }
}
