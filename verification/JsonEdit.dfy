/**
 Edits inside a tree. The list operations act on one container; here they act on a container
 anywhere below a root, and the whole tree is shown to stay well formed, with its value changed at
 that place only.
 */
module JsonEdit {
  import opened Bytes
  import opened JsonValue
  import opened JsonItem
  import opened JsonList

  /** `cJSON_InsertItemInArray`, `cJSON_DetachItemFromArray` and `cJSON_ReplaceItemInArray` and their operands. */
  datatype Edit = Insert(which: nat, item: Item) | Detach(which: nat) | Replace(which: nat, item: Item)

  ghost function Operand(e: Edit): set<Item> { if e.Detach? then {} else {e.item} }

  ghost function OperandRepr(e: Edit): set<Item>
    reads Operand(e)
  {
    if e.Detach? then {} else e.item.Repr
  }

  function Length(v: Json): nat
  {
    match v case JArray(items) => |items| case JObject(ms) => |ms| case _ => 0
  }

  /** The value of a container after the edit; past the end, insertion appends and the others do nothing. */
  ghost function ValueEdit(v: Json, e: Edit): Json
    requires v.JArray? || v.JObject?
    reads Operand(e)`value, Operand(e)`name
  {
    match e
    case Insert(which, item) => ValueInsert(v, if which < Length(v) then which else Length(v), item)
    case Detach(which) => if which < Length(v) then ValueRemove(v, which) else v
    case Replace(which, item) => if which < Length(v) then ValueReplace(v, which, item) else v
  }

  /** The operand is a tree of its own, off every list, and named if it is to join an object. */
  ghost predicate Ready(e: Edit, tree: set<Item>, named: bool)
    reads Operand(e), OperandRepr(e)
  {
    e.Detach? ||
    (e.item.Valid() && e.item.Repr !! tree && e.item.next == null
      && (named ==> e.item.name.Some? && NulFree(e.item.name.value)))
  }

  lemma ReadyJoins(list: Item, e: Edit)
    requires list.Valid() && list.Container() && Ready(e, list.Repr, list.kind == Object)
    ensures !e.Detach? ==> Joinable(list, e.item) && Appendable(list, e.item)
  {
    hide Item.Valid;
    if !e.Detach? { Separate(list, e.item); }
  }

  lemma ValueLength(list: Item)
    requires list.Valid() && list.Container()
    ensures (list.value.JArray? || list.value.JObject?) && Length(list.value) == |list.kids|
    ensures list.value.JObject? <==> list.kind == Object
  {
  }

  /** The edit on the container itself. */
  method Apply(list: Item, e: Edit)
    requires list.Valid() && list.Container() && Ready(e, list.Repr, list.kind == Object)
    modifies list`child, list`kids, list`Repr, list`value, Nodes(list.kids)`next, Nodes(list.kids)`prev
    modifies Operand(e)`next, Operand(e)`prev
    ensures list.Valid() && list.Repr <= old(list.Repr) + old(OperandRepr(e))
    ensures (old(list.value).JArray? || old(list.value).JObject?) && list.value == old(ValueEdit(list.value, e))
  {
    hide Item.Valid, Forest, Linked, Contents, ValueInsert, ValueRemove, ValueReplace, InsertAt, RemoveAt;
    ReadyJoins(list, e);
    ValueLength(list);
    ValidLinked(list);
    match e {
      case Insert(which, item) =>
        var ok := InsertItemInArray(list, which, item);
      case Detach(which) =>
        var item := GetArrayItem(list, which);
        if item != null {
          AtIndex(list, which);
          var r := DetachItemViaPointer(list, item, list);
        }
      case Replace(which, item) =>
        var old_ := GetArrayItem(list, which);
        if old_ != null {
          AtIndex(list, which);
          var ok := ReplaceItemViaPointer(list, old_, item, list);
        }
    }
  }

  lemma AtIndex(list: Item, w: nat)
    requires list.Valid() && w < |list.kids|
    ensures list.kids[w] in list.kids && IndexOf(list.kids, list.kids[w]) == w && list.child != null
    ensures list.kids[w] in list.Repr
  {
    Distinct(list.kids, list.Repr - {list});
    assert list.kids[w] in list.kids;
  }

  // ---------------------------------------------------------- along a path

  function Child(v: Json, w: nat): Json
    requires w < Length(v)
  {
    if v.JArray? then v.items[w] else v.members[w].value
  }

  /** `v` with its element `w` replaced by `c`; a member keeps its key. */
  function PutChild(v: Json, w: nat, c: Json): Json
    requires w < Length(v)
  {
    if v.JArray? then JArray(v.items[w := c]) else JObject(v.members[w := Member(v.members[w].key, c)])
  }

  /** Following these indices from `v` one always finds a container. */
  predicate Leads(v: Json, path: seq<nat>)
    decreases |path|
  {
    (v.JArray? || v.JObject?) && (path == [] || (path[0] < Length(v) && Leads(Child(v, path[0]), path[1..])))
  }

  function Target(v: Json, path: seq<nat>): (t: Json)
    requires Leads(v, path)
    ensures t.JArray? || t.JObject?
    decreases |path|
  {
    if path == [] then v else Target(Child(v, path[0]), path[1..])
  }

  /** The value of the whole tree after an edit of the container at the end of the path. */
  ghost function EditedValue(v: Json, path: seq<nat>, e: Edit): Json
    requires Leads(v, path)
    reads Operand(e)`value, Operand(e)`name
    decreases |path|
  {
    if path == [] then ValueEdit(v, e) else PutChild(v, path[0], EditedValue(Child(v, path[0]), path[1..], e))
  }

  /** Everything an edit below `root` leaves alone, as seen from `root`: its other children and its own links. */
  ghost predicate Around(root: Item, w: nat, rest: set<Item>, v: Json)
    reads root, rest, Nodes(root.kids)`next, Nodes(root.kids)`prev
    requires w < |root.kids|
  {
    && root.Container() && root !in rest && Linked(root.child, root.kids)
    && Forest(RemoveAt(root.kids, w), rest)
    && Nodes(RemoveAt(root.kids, w)) <= rest
    && Length(v) == |root.kids| && (v.JArray? || v.JObject?)
    && Contents(root.kind, RemoveAt(root.kids, w), ValueRemove(v, w))
  }

  lemma AroundStart(root: Item, w: nat)
    requires root.Valid() && root.Container() && w < |root.kids|
    ensures Around(root, w, root.Repr - {root} - root.kids[w].Repr, root.value)
    ensures root.kids[w].Valid() && root.kids[w].Repr < root.Repr && root.kids[w] in root.kids[w].Repr
    ensures root !in root.kids[w].Repr && root.kids[w].value == Child(root.value, w)
    ensures root.kind == Object ==>
            root.kids[w].name == Some(root.value.members[w].key) && NulFree(root.value.members[w].key)
  {
    var rest := root.Repr - {root} - root.kids[w].Repr;
    KidsFacts(root);
    ContainerContents(root);
    ChildFacts(root, w);
    InForest(root.kids, root.Repr - {root}, w);
    hide Item.Valid, Forest, Linked;
    ForestRemove(root.kids, root.Repr - {root}, w);
    ForestNodes(RemoveAt(root.kids, w), rest);
    ContentsRemove(root.kind, w, root.kids, root.value);
  }

  lemma ContainerContents(root: Item)
    requires root.Valid() && root.Container()
    ensures Contents(root.kind, root.kids, root.value) && Length(root.value) == |root.kids|
    ensures root.value.JArray? || root.value.JObject?
  {
  }

  lemma InForest(ks: seq<Item>, all: set<Item>, w: nat)
    requires Forest(ks, all) && w < |ks|
    ensures ks[w].Repr <= all
  {
    assert ks[w] in ks;
  }

  lemma ForestNodes(ks: seq<Item>, all: set<Item>)
    requires Forest(ks, all)
    ensures Nodes(ks) <= all
  {
  }

  /** Every child is the one edited or among the rest. */
  lemma OtherKids(root: Item, w: nat, rest: set<Item>, v: Json)
    requires w < |root.kids| && Around(root, w, rest, v)
    ensures forall k :: k in root.kids ==> k == root.kids[w] || k in rest
  {
    hide Forest, Linked, Contents;
    forall k | k in root.kids && k != root.kids[w] ensures k in rest {
      var i :| 0 <= i < |root.kids| && root.kids[i] == k;
      assert RemoveAt(root.kids, w)[if i < w then i else i - 1] == k;
    }
  }

  /** Once the child is well formed again, so is its parent: record the child's new tree and value. */
  ghost method Refresh(root: Item, w: nat, rest: set<Item>, v: Json)
    requires w < |root.kids| && Around(root, w, rest, v)
    requires root.kids[w].Valid() && root.kids[w].Repr !! rest && root !in root.kids[w].Repr
    requires root.kind == Object ==>
             v.JObject? && root.kids[w].name == Some(v.members[w].key) && NulFree(v.members[w].key)
    modifies root`kids, root`Repr, root`value
    ensures root.Valid() && root.kids == old(root.kids) && root.Repr == {root} + rest + root.kids[w].Repr
    ensures root.value == PutChild(v, w, root.kids[w].value)
  {
    hide Forest, Linked, ValueInsert, PutChild;
    var ks, c := root.kids, root.kids[w];
    var others := RemoveAt(ks, w);
    ForestInsert(others, rest, w, c);
    ContentsInsert(root.kind, w, c, others, ValueRemove(v, w));
    assert others[..w] + [c] + others[w..] == ks;
    PutIsInsert(v, w, c, root.kind);
    Adopt(root, ks, rest + c.Repr, ValueInsert(ValueRemove(v, w), w, c));
  }

  lemma PutIsInsert(v: Json, w: nat, c: Item, kind: Kind)
    requires w < Length(v) && (v.JArray? || v.JObject?)
    requires v.JObject? ==> c.name == Some(v.members[w].key)
    ensures ValueInsert(ValueRemove(v, w), w, c) == PutChild(v, w, c.value)
  {
  }

  /**
   The edit of the container at the end of a path: the whole tree stays well formed, its value
   changes at that place only, and it gains at most the operand's nodes.
   */
  method EditAt(root: Item, path: seq<nat>, e: Edit)
    requires root.Valid() && Leads(root.value, path)
    requires Ready(e, root.Repr, Target(root.value, path).JObject?)
    modifies root.Repr`child, root.Repr`kids, root.Repr`Repr, root.Repr`value
    modifies (root.Repr - {root})`next, (root.Repr - {root})`prev, Operand(e)`next, Operand(e)`prev
    ensures root.Valid() && root.Repr <= old(root.Repr) + old(OperandRepr(e))
    ensures root.value == old(EditedValue(root.value, path, e))
    decreases |path|, 1
  {
    hide Item.Valid, Forest, Linked, Contents, ValueEdit, Ready, OperandRepr;
    IsContainer(root);
    if path == [] {
      OwnChildren(root);
      Apply(root, e);
    } else {
      EditBelow(root, path, e);
    }
  }

  /** The same, one level down at least. */
  method EditBelow(root: Item, path: seq<nat>, e: Edit)
    requires root.Valid() && root.Container() && path != [] && Leads(root.value, path)
             && Length(root.value) == |root.kids|
    requires root.kind == Object <==> root.value.JObject?
    requires Ready(e, root.Repr, Target(root.value, path).JObject?)
    modifies root.Repr`child, root.Repr`kids, root.Repr`Repr, root.Repr`value
    modifies (root.Repr - {root})`next, (root.Repr - {root})`prev, Operand(e)`next, Operand(e)`prev
    ensures root.Valid() && root.Repr <= old(root.Repr) + old(OperandRepr(e))
    ensures root.value == old(EditedValue(root.value, path, e))
    decreases |path|, 0
  {
    hide Item.Valid, Forest, Contents, Ready, ValueEdit, PutChild, ValueRemove, RemoveAt;
    var w := path[0];
    ReadyApart(e, root.Repr, Target(root.value, path).JObject?);
    AroundStart(root, w);
    ghost var v, rest := root.value, root.Repr - {root} - root.kids[w].Repr;
    OtherKids(root, w, rest, v);
    ReadyInside(e, root.Repr, root.kids[w].Repr, Target(root.value, path).JObject?);
    ValidLinked(root);
    var child := GetArrayItem(root, w);
    EditAt(child, path[1..], e);
    assert forall k :: k in old(root.kids) ==> k.next == old(k.next) && k.prev == old(k.prev);
    Refresh(root, w, rest, v);
  }

  lemma ReadyInside(e: Edit, tree: set<Item>, part: set<Item>, named: bool)
    requires Ready(e, tree, named) && part <= tree
    ensures Ready(e, part, named)
  {
    hide Item.Valid;
  }

  lemma ReadyApart(e: Edit, tree: set<Item>, named: bool)
    requires Ready(e, tree, named)
    ensures Operand(e) !! tree && OperandRepr(e) !! tree && Operand(e) <= OperandRepr(e)
  {
  }

  lemma IsContainer(root: Item)
    requires root.Valid() && (root.value.JArray? || root.value.JObject?)
    ensures root.Container() && Length(root.value) == |root.kids| && (root.kind == Object <==> root.value.JObject?)
  {
  }

  lemma OwnChildren(root: Item)
    requires root.Valid()
    ensures root in root.Repr && Nodes(root.kids) <= root.Repr - {root}
  {
  }
}
