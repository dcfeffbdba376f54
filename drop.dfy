/**
 * The two state updates a drop gesture makes on the flat list: dropping a
 * dragged record on another record (the `onDrop` updater) and dropping it on
 * the empty area of the tree (the root container's drop handler). Both map
 * the list record by record, giving every record with the dragged id a new
 * parent key and returning every other record as it is.
 */
module Drop {
  import opened Records
  import opened TreeBuilder

  /** Every record whose id is `id` gets the parent key `parent`; all others are kept. */
  function Relink(nodes: seq<Node>, id: string, parent: Option<string>): (r: seq<Node>)
    ensures |r| == |nodes| && SameIds(nodes, r)
    ensures forall k :: 0 <= k < |nodes| && nodes[k].id == id ==> r[k] == nodes[k].(parentId := parent)
    ensures forall k :: 0 <= k < |nodes| && nodes[k].id != id ==> r[k] == nodes[k]
  {
    seq(|nodes|, k requires 0 <= k < |nodes| => if nodes[k].id == id then nodes[k].(parentId := parent) else nodes[k])
  }

  /**
   * Dropping the record `draggedId` on the record `containerId`. A drop on
   * itself leaves the list alone; otherwise the dragged records point at the
   * container and nothing else changes, length and order included.
   */
  function DropOnNode(nodes: seq<Node>, draggedId: string, containerId: string): (r: seq<Node>)
    ensures draggedId == containerId ==> r == nodes
    ensures |r| == |nodes| && SameIds(nodes, r)
    ensures forall k :: 0 <= k < |nodes| && nodes[k].id != draggedId ==> r[k] == nodes[k]
    ensures draggedId != containerId ==>
      forall k :: 0 <= k < |nodes| && nodes[k].id == draggedId ==> r[k] == nodes[k].(parentId := Some(containerId))
  {
    if containerId == draggedId then nodes else Relink(nodes, draggedId, Some(containerId))
  }

  /**
   * Dropping the record `item` on the root container. A record whose parent
   * key is already falsy is left where it is; otherwise every record with its
   * id loses its parent key and nothing else changes.
   */
  function DropOnRoot(nodes: seq<Node>, item: Node): (r: seq<Node>)
    ensures !Truthy(item.parentId) ==> r == nodes
    ensures |r| == |nodes| && SameIds(nodes, r)
    ensures forall k :: 0 <= k < |nodes| && nodes[k].id != item.id ==> r[k] == nodes[k]
    ensures Truthy(item.parentId) ==>
      forall k :: 0 <= k < |nodes| && nodes[k].id == item.id ==> r[k] == nodes[k].(parentId := None)
  {
    if !Truthy(item.parentId) then nodes else Relink(nodes, item.id, None)
  }

  /** Relinking twice to the same parent is relinking once. */
  lemma RelinkIdempotent(nodes: seq<Node>, id: string, parent: Option<string>)
    ensures Relink(Relink(nodes, id, parent), id, parent) == Relink(nodes, id, parent)
  {
    var once := Relink(nodes, id, parent);
    var twice := Relink(once, id, parent);
    assert forall k :: 0 <= k < |nodes| ==> twice[k] == once[k];
  }

  /** Repeating a drop on a record changes nothing more. */
  lemma DropOnNodeIdempotent(nodes: seq<Node>, draggedId: string, containerId: string)
    ensures DropOnNode(DropOnNode(nodes, draggedId, containerId), draggedId, containerId) == DropOnNode(nodes, draggedId, containerId)
  {
    if draggedId != containerId {
      RelinkIdempotent(nodes, draggedId, Some(containerId));
    }
  }

  /** Repeating a drop on the root with the same dragged record changes nothing more. */
  lemma DropOnRootIdempotent(nodes: seq<Node>, item: Node)
    ensures DropOnRoot(DropOnRoot(nodes, item), item) == DropOnRoot(nodes, item)
  {
    if Truthy(item.parentId) {
      RelinkIdempotent(nodes, item.id, None);
    }
  }

  /** The place a dragged record takes when it is dropped on `containerId`. */
  function DropTarget(nodes: seq<Node>, containerId: string): (pl: Place)
    ensures pl.Under? ==> pl.parent < |nodes| && nodes[pl.parent].id == containerId && containerId != ""
    ensures pl.Root? ==> containerId == "" || forall j :: 0 <= j < |nodes| ==> nodes[j].id != containerId
  {
    LastIndexSpec(nodes, containerId);
    if containerId != "" && LastIndex(nodes, containerId).Some? then Under(LastIndex(nodes, containerId).value) else Root
  }

  /**
   * In the rebuilt tree, a record dropped on another record hangs under the
   * last record with the container's id (or among the roots when that id is
   * empty or names no record); every other record keeps its place.
   */
  lemma DropOnNodePlaces(nodes: seq<Node>, draggedId: string, containerId: string, k: nat)
    requires k < |nodes| && draggedId != containerId
    ensures nodes[k].id == draggedId ==> PlaceOf(DropOnNode(nodes, draggedId, containerId), k) == DropTarget(nodes, containerId)
    ensures nodes[k].id != draggedId ==> PlaceOf(DropOnNode(nodes, draggedId, containerId), k) == PlaceOf(nodes, k)
  {
    var r := DropOnNode(nodes, draggedId, containerId);
    SameIdsSameIndex(r, nodes, containerId);
    if nodes[k].id != draggedId {
      SameIdsSamePlace(r, nodes, k);
    }
  }

  /**
   * In the rebuilt tree, a record dropped on the root becomes a root; every
   * other record keeps its place.
   */
  lemma DropOnRootPlaces(nodes: seq<Node>, item: Node, k: nat)
    requires k < |nodes|
    ensures Truthy(item.parentId) && nodes[k].id == item.id ==> PlaceOf(DropOnRoot(nodes, item), k) == Root
    ensures nodes[k].id != item.id ==> PlaceOf(DropOnRoot(nodes, item), k) == PlaceOf(nodes, k)
  {
    var r := DropOnRoot(nodes, item);
    if nodes[k].id != item.id {
      SameIdsSamePlace(r, nodes, k);
    }
  }

  /**
   * There is no descendant check: dropping record a on its own child c,
   * when c is the last record with its non-empty id, swaps the link, so a
   * hangs under c and c under a, and neither shows up under a root any more.
   */
  lemma DropOnChildHidesBoth(nodes: seq<Node>, a: nat, c: nat)
    requires a < |nodes| && c < |nodes| && nodes[a].id != nodes[c].id && nodes[c].id != ""
    requires LastIndex(nodes, nodes[c].id) == Some(c)
    requires PlaceOf(nodes, c) == Under(a)
    ensures var r := DropOnNode(nodes, nodes[a].id, nodes[c].id);
      PlaceOf(r, a) == Under(c) && PlaceOf(r, c) == Under(a) &&
      forall depth: nat :: !Reaches(r, a, depth) && !Reaches(r, c, depth)
  {
    var r := DropOnNode(nodes, nodes[a].id, nodes[c].id);
    DropOnNodePlaces(nodes, nodes[a].id, nodes[c].id, a);
    DropOnNodePlaces(nodes, nodes[a].id, nodes[c].id, c);
    assert DropTarget(nodes, nodes[c].id) == Under(c);
    TwoCycleHidden(r, a, c);
  }

  /**
   * The three-record example: moving record "2" onto its sibling "1" gives
   * one root "0" with the single child "1", which has the single child "2".
   */
  lemma MoveToSiblingScenario()
    ensures var r := DropOnNode([Node("0", None, false), Node("1", Some("0"), false), Node("2", Some("0"), false)], "2", "1");
      r == [Node("0", None, false), Node("1", Some("0"), false), Node("2", Some("1"), false)] &&
      Roots(r) == [0] && ChildrenOf(r, 0) == [1] && ChildrenOf(r, 1) == [2] && ChildrenOf(r, 2) == []
  {
    var nodes := [Node("0", None, false), Node("1", Some("0"), false), Node("2", Some("0"), false)];
    var r := DropOnNode(nodes, "2", "1");
    assert r == [Node("0", None, false), Node("1", Some("0"), false), Node("2", Some("1"), false)];
    assert r[..2] == [r[0], r[1]];
    assert r[..2][..1] == [r[0]];
    assert LastIndex(r[..2], "0") == LastIndex(r[..1], "0") == Some(0);
    assert LastIndex(r, "0") == Some(0);
    assert LastIndex(r, "1") == Some(1);
    assert PlaceOf(r, 0) == Root && PlaceOf(r, 1) == Under(0) && PlaceOf(r, 2) == Under(1);
    forall pl: Place ensures Members(r, pl, 3) == (if pl == Root then [0] else []) + (if pl == Under(0) then [1] else []) + (if pl == Under(1) then [2] else []) {
      assert Members(r, pl, 1) == if pl == Root then [0] else [];
      assert Members(r, pl, 2) == (if pl == Root then [0] else []) + (if pl == Under(0) then [1] else []);
    }
  }

  /**
   * Two records share the id "a" and "b" hangs under the second of them.
   * Dragging the first "a" onto "b" relinks both copies of "a" under "b",
   * while "b" still hangs under the last "a": no record is drawn any more.
   */
  lemma DuplicateIdDropHidesAll()
    ensures var r := DropOnNode([Node("a", None, false), Node("a", None, false), Node("b", Some("a"), false)], "a", "b");
      r == [Node("a", Some("b"), false), Node("a", Some("b"), false), Node("b", Some("a"), false)] &&
      PlaceOf(r, 0) == Under(2) && PlaceOf(r, 1) == Under(2) && PlaceOf(r, 2) == Under(1) &&
      forall i: nat, depth: nat | i < 3 :: !Reaches(r, i, depth)
  {
    var nodes := [Node("a", None, false), Node("a", None, false), Node("b", Some("a"), false)];
    var r := DropOnNode(nodes, "a", "b");
    assert r == [Node("a", Some("b"), false), Node("a", Some("b"), false), Node("b", Some("a"), false)];
    assert r[..2] == [r[0], r[1]];
    assert LastIndex(r, "b") == Some(2);
    assert LastIndex(r, "a") == Some(1);
    forall i: nat, depth: nat | i < 3 ensures !Reaches(r, i, depth) {
      ClosedSetHidden(r, {0, 1, 2}, i, depth);
    }
  }
}
