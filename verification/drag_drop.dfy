/** UI drag and drop (`DraggableItem`, `DroppableSlot`) as reparenting in
    a transform hierarchy. The hierarchy keeps, for every draggable item,
    its parent, and one sibling order over all items: a node's children
    are the items whose parent it is, in that order, and `SetParent`
    moves an item to the end (it becomes its new parent's last child).
    A drag gesture is begin-drag, an optional drop on the object under
    the pointer, then end-drag, the order the event system sends them in. */
module DragDrop {
  import opened Base

  datatype Board = Board(
    parent: map<Id, Id>,
    order: seq<Id>,
    parentAfterDrag: map<Id, Id>,
    blocksRaycasts: map<Id, bool>,
    root: Id)

  /** The children of `node`, in sibling order. */
  function Children(order: seq<Id>, parent: map<Id, Id>, node: Id): (cs: seq<Id>)
    ensures forall k :: 0 <= k < |cs| ==> cs[k] in order && cs[k] in parent && parent[cs[k]] == node
  {
    if |order| == 0 then []
    else
      (if order[0] in parent && parent[order[0]] == node then [order[0]] else [])
      + Children(order[1..], parent, node)
  }

  function ChildCount(b: Board, node: Id): nat
  {
    |Children(b.order, b.parent, node)|
  }

  /** `transform.GetChild(0)`. */
  function FirstChild(b: Board, node: Id): (c: Id)
    requires ChildCount(b, node) > 0
    ensures c in b.parent && b.parent[c] == node
  {
    Children(b.order, b.parent, node)[0]
  }

  function Remove(s: seq<Id>, x: Id): (r: seq<Id>)
    ensures x !in r
    ensures forall y :: y in r <==> y in s && y != x
  {
    if |s| == 0 then []
    else (if s[0] == x then [] else [s[0]]) + Remove(s[1..], x)
  }

  /** `item.SetParent(p)`. */
  function SetParent(b: Board, item: Id, p: Id): (r: Board)
    ensures r.parent == b.parent[item := p]
    ensures r.parentAfterDrag == b.parentAfterDrag && r.blocksRaycasts == b.blocksRaycasts && r.root == b.root
  {
    b.(parent := b.parent[item := p], order := Remove(b.order, item) + [item])
  }

  /** The item becomes the new parent's last child, and the other children
      keep their order; every other node just loses the item. */
  lemma SetParentMakesLastChild(b: Board, item: Id, p: Id, node: Id)
    ensures var r := SetParent(b, item, p);
      Children(r.order, r.parent, p) == Remove(Children(b.order, b.parent, p), item) + [item]
    ensures var r := SetParent(b, item, p);
      item !in b.parent || b.parent[item] != p ==>
        Children(r.order, r.parent, p) == Children(b.order, b.parent, p) + [item]
    ensures var r := SetParent(b, item, p);
      node != p ==> Children(r.order, r.parent, node) == Remove(Children(b.order, b.parent, node), item)
  {
    ReparentChildren(b.order, b.parent, item, p, p);
    ReparentChildren(b.order, b.parent, item, p, node);
    RemoveAbsent(Children(b.order, b.parent, p), item);
  }

  lemma {:induction false} RemoveAbsent(s: seq<Id>, x: Id)
    ensures x !in s ==> Remove(s, x) == s
    decreases |s|
  {
    if |s| > 0 && x !in s {
      RemoveAbsent(s[1..], x);
      assert s == [s[0]] + s[1..];
    }
  }

  lemma {:induction false} RemoveAppend(a: seq<Id>, c: seq<Id>, x: Id)
    ensures Remove(a + c, x) == Remove(a, x) + Remove(c, x)
    decreases |a|
  {
    if |a| > 0 {
      assert (a + c)[0] == a[0];
      assert (a + c)[1..] == a[1..] + c;
      RemoveAppend(a[1..], c, x);
    } else {
      assert a + c == c;
    }
  }

  /** Taking an item out of the sibling order takes it out of every
      node's children, and leaves the rest in order. */
  lemma {:induction false} ChildrenOfRemove(order: seq<Id>, parent: map<Id, Id>, item: Id, node: Id)
    ensures Children(Remove(order, item), parent, node) == Remove(Children(order, parent, node), item)
    decreases |order|
  {
    if |order| > 0 {
      var head := if order[0] in parent && parent[order[0]] == node then [order[0]] else [];
      ChildrenOfRemove(order[1..], parent, item, node);
      ChildrenAppend(if order[0] == item then [] else [order[0]], Remove(order[1..], item), parent, node);
      RemoveAppend(head, Children(order[1..], parent, node), item);
    }
  }

  /** The reparenting `SetParent` performs, node by node: the item leaves
      its old parent's children and is appended to the new parent's. */
  lemma ReparentChildren(order: seq<Id>, parent: map<Id, Id>, item: Id, p: Id, node: Id)
    ensures Children(Remove(order, item) + [item], parent[item := p], node)
         == Remove(Children(order, parent, node), item) + (if node == p then [item] else [])
  {
    var rest := Remove(order, item);
    ChildrenAppend(rest, [item], parent[item := p], node);
    ChildrenOtherParent(rest, parent, item, p, node);
    ChildrenOfRemove(order, parent, item, node);
    assert [item][1..] == [];
  }

  lemma {:induction false} ChildrenAppend(a: seq<Id>, c: seq<Id>, parent: map<Id, Id>, node: Id)
    ensures Children(a + c, parent, node) == Children(a, parent, node) + Children(c, parent, node)
    decreases |a|
  {
    if |a| > 0 {
      assert (a + c)[0] == a[0];
      assert (a + c)[1..] == a[1..] + c;
      ChildrenAppend(a[1..], c, parent, node);
    } else {
      assert a + c == c;
    }
  }

  lemma {:induction false} ChildrenRemove(order: seq<Id>, parent: map<Id, Id>, item: Id, node: Id)
    requires item !in parent || parent[item] != node
    ensures Children(Remove(order, item), parent, node) == Children(order, parent, node)
    decreases |order|
  {
    if |order| > 0 {
      ChildrenRemove(order[1..], parent, item, node);
      ChildrenAppend(if order[0] == item then [] else [order[0]], Remove(order[1..], item), parent, node);
    }
  }

  lemma {:induction false} ChildrenOtherParent(order: seq<Id>, parent: map<Id, Id>, item: Id, p: Id, node: Id)
    requires item !in order
    ensures Children(order, parent[item := p], node) == Children(order, parent, node)
    decreases |order|
  {
    if |order| > 0 {
      ChildrenOtherParent(order[1..], parent, item, p, node);
    }
  }

  /** Moving an item between two other nodes leaves a node's children as they were. */
  lemma ReparentElsewhere(b: Board, item: Id, p: Id, node: Id)
    requires p != node
    requires item !in b.parent || b.parent[item] != node
    ensures Children(SetParent(b, item, p).order, SetParent(b, item, p).parent, node)
         == Children(b.order, b.parent, node)
  {
    var rest := Remove(b.order, item);
    ChildrenAppend(rest, [item], b.parent[item := p], node);
    ChildrenOtherParent(rest, b.parent, item, p, node);
    ChildrenRemove(b.order, b.parent, item, node);
  }

  /** Whether a drag callback fired, and which. */
  datatype Callback = DragStarted | DragEnded

  /** `OnBeginDrag`: remember the parent, lift the item to the root, stop
      it from blocking raycasts, then notify. */
  function OnBeginDrag(b: Board, item: Id): (r: (Board, Callback))
    requires item in b.parent
    ensures r.0.parentAfterDrag == b.parentAfterDrag[item := b.parent[item]]
    ensures r.0.parent == b.parent[item := b.root]
    ensures r.0.blocksRaycasts == b.blocksRaycasts[item := false]
    ensures r.1 == DragStarted
  {
    var b1 := SetParent(b.(parentAfterDrag := b.parentAfterDrag[item := b.parent[item]]), item, b.root);
    (b1.(blocksRaycasts := b1.blocksRaycasts[item := false]), DragStarted)
  }

  /** `OnEndDrag`: put the item under `parentAfterDrag`, block raycasts
      again, then notify; the callback sees the item already reparented. */
  function OnEndDrag(b: Board, item: Id): (r: (Board, Callback))
    requires item in b.parentAfterDrag
    ensures r.0.parent == b.parent[item := b.parentAfterDrag[item]]
    ensures r.0.parentAfterDrag == b.parentAfterDrag
    ensures r.0.blocksRaycasts == b.blocksRaycasts[item := true]
    ensures r.1 == DragEnded
  {
    var b1 := SetParent(b, item, b.parentAfterDrag[item]);
    (b1.(blocksRaycasts := b1.blocksRaycasts[item := true]), DragEnded)
  }

  /** `DroppableSlot.OnDrop` for the item being dragged. */
  function OnDrop(b: Board, slot: Id, canReplaceItem: bool, dragged: Id): (r: Board)
    requires dragged in b.parentAfterDrag
    // an occupied slot that may not be replaced refuses the drop
    ensures ChildCount(b, slot) > 0 && !canReplaceItem ==> r == b
    // an empty slot becomes the item's destination
    ensures ChildCount(b, slot) == 0 ==> r == b.(parentAfterDrag := b.parentAfterDrag[dragged := slot])
    // an occupied replaceable slot sends its first child where the item came from
    ensures ChildCount(b, slot) > 0 && canReplaceItem ==>
      && r.parent == b.parent[FirstChild(b, slot) := b.parentAfterDrag[dragged]]
      && r.parentAfterDrag == b.parentAfterDrag[dragged := slot]
    // nothing else is touched
    ensures r.root == b.root && r.blocksRaycasts == b.blocksRaycasts
    ensures forall x :: x in b.parent && (ChildCount(b, slot) == 0 || x != FirstChild(b, slot)) ==>
      x in r.parent && r.parent[x] == b.parent[x]
    ensures forall x :: x != dragged && x in b.parentAfterDrag ==>
      x in r.parentAfterDrag && r.parentAfterDrag[x] == b.parentAfterDrag[x]
  {
    if ChildCount(b, slot) > 0 && !canReplaceItem then b
    else
      var b1 := if ChildCount(b, slot) > 0 then SetParent(b, FirstChild(b, slot), b.parentAfterDrag[dragged]) else b;
      b1.(parentAfterDrag := b1.parentAfterDrag[dragged := slot])
  }

  /** Where a gesture is released: over a slot (with its `canReplaceItem`)
      or over nothing that accepts drops. */
  datatype Target = NoSlot | Slot(node: Id, canReplaceItem: bool)

  /** Begin-drag, the drop if the pointer is over a slot, end-drag. */
  function Gesture(b: Board, item: Id, target: Target): Board
    requires item in b.parent
  {
    var b1 := OnBeginDrag(b, item).0;
    var b2 := if target.Slot? then OnDrop(b1, target.node, target.canReplaceItem, item) else b1;
    OnEndDrag(b2, item).0
  }

  /** A gesture that no slot accepts puts the item back under its original
      parent and leaves every other parent as it was; raycasts are
      blocked again afterwards. */
  lemma UnacceptedGestureReturns(b: Board, item: Id, target: Target)
    requires item in b.parent
    requires target.Slot? ==> target.node != b.root
    requires target.Slot? ==>
      ChildCount(OnBeginDrag(b, item).0, target.node) > 0 && !target.canReplaceItem
    ensures Gesture(b, item, target).parent == b.parent
    ensures Gesture(b, item, target).blocksRaycasts == b.blocksRaycasts[item := true]
    ensures Gesture(b, item, target).parentAfterDrag == b.parentAfterDrag[item := b.parent[item]]
  {
  }

  /** Dropping onto an empty slot moves the item there and nothing else. */
  lemma GestureToEmptySlot(b: Board, item: Id, slot: Id, canReplaceItem: bool)
    requires item in b.parent
    requires slot != b.root && b.parent[item] != slot
    requires ChildCount(b, slot) == 0
    ensures Gesture(b, item, Slot(slot, canReplaceItem)).parent == b.parent[item := slot]
  {
    ReparentElsewhere(b.(parentAfterDrag := b.parentAfterDrag[item := b.parent[item]]), item, b.root, slot);
  }

  /** Dropping an item from `a` onto a replaceable slot whose first child
      is `y` swaps them: the item lands in the slot and `y` moves to `a`. */
  lemma {:induction false} GestureSwaps(b: Board, item: Id, slot: Id)
    requires item in b.parent
    requires slot != b.root && b.parent[item] != slot
    requires ChildCount(b, slot) > 0
    ensures
      var y := FirstChild(b, slot);
      Gesture(b, item, Slot(slot, true)).parent == b.parent[y := b.parent[item]][item := slot]
  {
    var a := b.parent[item];
    var y := FirstChild(b, slot);
    var b0 := b.(parentAfterDrag := b.parentAfterDrag[item := a]);
    var lifted := SetParent(b0, item, b.root);
    var b1 := OnBeginDrag(b, item).0;
    assert b1.order == lifted.order && b1.parent == lifted.parent;
    assert Children(b1.order, b1.parent, slot) == Children(b.order, b.parent, slot) by {
      ReparentElsewhere(b0, item, b.root, slot);
    }
    assert FirstChild(b1, slot) == y && y != item;
    var b2 := OnDrop(b1, slot, true, item);
    assert b2.parent == b.parent[item := b.root][y := a];
    assert b2.parentAfterDrag[item] == slot;
    var b3 := OnEndDrag(b2, item).0;
    assert b3.parent == b.parent[item := b.root][y := a][item := slot];
    assert b.parent[item := b.root][y := a][item := slot] == b.parent[y := a][item := slot];
  }
}
