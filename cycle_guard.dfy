/**
 * A guarded form of the drop on a record, which the editor itself does not
 * have: it refuses a drop whose container lies inside the dragged record's
 * subtree, and so never detaches a part of the tree from its roots.
 */
module CycleGuard {
  import opened Records
  import opened TreeBuilder
  import opened Drop
  import opened Depth

  /**
   * Walking up from record x, at most `fuel` steps, meets no record whose id
   * is `id` and ends at a root.
   */
  predicate ClearPath(nodes: seq<Node>, x: nat, id: string, fuel: nat)
    requires x < |nodes|
    decreases fuel
  {
    nodes[x].id != id &&
    match PlaceOf(nodes, x)
    case Root => true
    case Under(p) => fuel > 0 && ClearPath(nodes, p, id, fuel - 1)
  }

  /** Record i shows up under some root of the rebuilt tree, at some depth. */
  ghost predicate Shown(nodes: seq<Node>, i: nat)
    requires i < |nodes|
  {
    exists depth: nat :: Reaches(nodes, i, depth)
  }

  /** Every record shows up under some root: the parent links hold no cycle. */
  ghost predicate AllShown(nodes: seq<Node>)
  {
    forall i :: 0 <= i < |nodes| ==> Shown(nodes, i)
  }

  /**
   * A drop the guard refuses: a drop on itself, or one whose container's
   * chain of parents meets the dragged id or does not end at a root within
   * as many steps as there are records.
   */
  predicate Refused(nodes: seq<Node>, draggedId: string, containerId: string)
  {
    draggedId == containerId ||
    (DropTarget(nodes, containerId).Under? && !ClearPath(nodes, DropTarget(nodes, containerId).parent, draggedId, |nodes|))
  }

  /** The guarded drop on a record: a refused drop leaves the list alone. */
  function DropOnNodeChecked(nodes: seq<Node>, draggedId: string, containerId: string): (r: seq<Node>)
    ensures Refused(nodes, draggedId, containerId) ==> r == nodes
    ensures !Refused(nodes, draggedId, containerId) ==> r == DropOnNode(nodes, draggedId, containerId)
    ensures draggedId == containerId ==> r == nodes
    ensures |r| == |nodes| && SameIds(nodes, r)
    ensures forall k :: 0 <= k < |nodes| && nodes[k].id != draggedId ==> r[k] == nodes[k]
  {
    if Refused(nodes, draggedId, containerId) then nodes else DropOnNode(nodes, draggedId, containerId)
  }

  /** Along a clear path nothing is relinked, so the path still ends at a root after the drop. */
  lemma {:induction false} ClearPathSurvives(nodes: seq<Node>, draggedId: string, containerId: string, x: nat, fuel: nat)
    requires x < |nodes| && draggedId != containerId
    requires ClearPath(nodes, x, draggedId, fuel)
    ensures Reaches(DropOnNode(nodes, draggedId, containerId), x, fuel)
    decreases fuel
  {
    DropOnNodePlaces(nodes, draggedId, containerId, x);
    if PlaceOf(nodes, x).Under? {
      ClearPathSurvives(nodes, draggedId, containerId, PlaceOf(nodes, x).parent, fuel - 1);
    }
  }

  /**
   * After an accepted drop, a record that reached a root within `depth`
   * steps reaches one within `depth + |nodes| + 1` steps.
   */
  lemma {:induction false} ReachesAfterAcceptedDrop(nodes: seq<Node>, draggedId: string, containerId: string, j: nat, depth: nat)
    requires j < |nodes| && !Refused(nodes, draggedId, containerId)
    requires Reaches(nodes, j, depth)
    ensures Reaches(DropOnNode(nodes, draggedId, containerId), j, depth + |nodes| + 1)
    decreases depth
  {
    var r := DropOnNode(nodes, draggedId, containerId);
    var n := |nodes|;
    DropOnNodePlaces(nodes, draggedId, containerId, j);
    if nodes[j].id == draggedId {
      var target := DropTarget(nodes, containerId);
      if target.Under? {
        ClearPathSurvives(nodes, draggedId, containerId, target.parent, n);
        ReachesMonotone(r, target.parent, n, depth + n);
      }
    } else if PlaceOf(nodes, j).Under? {
      ReachesAfterAcceptedDrop(nodes, draggedId, containerId, PlaceOf(nodes, j).parent, depth - 1);
    }
  }

  /** A clear path ends at a root within its fuel. */
  lemma {:induction false} ClearPathReaches(nodes: seq<Node>, x: nat, id: string, fuel: nat)
    requires x < |nodes| && ClearPath(nodes, x, id, fuel)
    ensures Reaches(nodes, x, fuel)
    decreases fuel
  {
    if PlaceOf(nodes, x).Under? {
      ClearPathReaches(nodes, PlaceOf(nodes, x).parent, id, fuel - 1);
    }
  }

  /**
   * The guard also refuses a drop on a container that is itself not drawn:
   * its chain of parents does not end at a root within |nodes| steps.
   */
  lemma RefusesHiddenContainer(nodes: seq<Node>, draggedId: string, containerId: string)
    requires DropTarget(nodes, containerId).Under?
    requires !Reaches(nodes, DropTarget(nodes, containerId).parent, |nodes|)
    ensures Refused(nodes, draggedId, containerId)
    ensures DropOnNodeChecked(nodes, draggedId, containerId) == nodes
  {
    var x := DropTarget(nodes, containerId).parent;
    if ClearPath(nodes, x, draggedId, |nodes|) {
      ClearPathReaches(nodes, x, draggedId, |nodes|);
    }
  }

  /**
   * Walking up from record x, at most `fuel` steps, meets a record whose id
   * is `id`: x itself or one of its ancestors.
   */
  predicate MeetsWithin(nodes: seq<Node>, x: nat, id: string, fuel: nat)
    requires x < |nodes|
    decreases fuel
  {
    nodes[x].id == id ||
    match PlaceOf(nodes, x)
    case Root => false
    case Under(p) => fuel > 0 && MeetsWithin(nodes, p, id, fuel - 1)
  }

  /**
   * The container lies in the dragged record's subtree: the record it
   * resolves to, or one of that record's ancestors, carries the dragged id.
   */
  ghost predicate ContainerInSubtree(nodes: seq<Node>, draggedId: string, containerId: string)
  {
    DropTarget(nodes, containerId).Under? &&
    exists fuel: nat :: MeetsWithin(nodes, DropTarget(nodes, containerId).parent, draggedId, fuel)
  }

  /** On a chain that ends at a root within `fuel` steps, a clear path is one that meets no record with the id. */
  lemma {:induction false} ClearPathIffNotMeets(nodes: seq<Node>, x: nat, id: string, fuel: nat)
    requires x < |nodes| && Reaches(nodes, x, fuel)
    ensures ClearPath(nodes, x, id, fuel) <==> !MeetsWithin(nodes, x, id, fuel)
    decreases fuel
  {
    if PlaceOf(nodes, x).Under? {
      ClearPathIffNotMeets(nodes, PlaceOf(nodes, x).parent, id, fuel - 1);
    }
  }

  /** A record with the id met anywhere up the chain is met before the chain reaches its root. */
  lemma {:induction false} MeetsWithinReach(nodes: seq<Node>, x: nat, id: string, f: nat, g: nat)
    requires x < |nodes| && Reaches(nodes, x, g) && MeetsWithin(nodes, x, id, f)
    ensures MeetsWithin(nodes, x, id, g)
    decreases f
  {
    if nodes[x].id != id {
      MeetsWithinReach(nodes, PlaceOf(nodes, x).parent, id, f - 1, g - 1);
    }
  }

  /**
   * When every record is drawn, the guard refuses exactly the drops on
   * itself and on a container inside the dragged record's subtree, however
   * deep; every other drop is the unguarded one.
   */
  lemma RefusedExactly(nodes: seq<Node>, draggedId: string, containerId: string)
    requires AllShown(nodes)
    ensures Refused(nodes, draggedId, containerId) <==> draggedId == containerId || ContainerInSubtree(nodes, draggedId, containerId)
    ensures DropOnNodeChecked(nodes, draggedId, containerId) ==
      if draggedId == containerId || ContainerInSubtree(nodes, draggedId, containerId) then nodes
      else DropOnNode(nodes, draggedId, containerId)
  {
    var target := DropTarget(nodes, containerId);
    if target.Under? {
      var x, n := target.parent, |nodes|;
      assert Shown(nodes, x);
      var f: nat :| Reaches(nodes, x, f);
      ReachesWithinLength(nodes, x, f);
      ClearPathIffNotMeets(nodes, x, draggedId, n);
      if ContainerInSubtree(nodes, draggedId, containerId) {
        var g: nat :| MeetsWithin(nodes, x, draggedId, g);
        MeetsWithinReach(nodes, x, draggedId, g, n);
      }
    }
  }

  /** The guarded drop keeps every record in the drawn tree. */
  lemma CheckedDropKeepsAllShown(nodes: seq<Node>, draggedId: string, containerId: string)
    requires AllShown(nodes)
    ensures AllShown(DropOnNodeChecked(nodes, draggedId, containerId))
  {
    if !Refused(nodes, draggedId, containerId) {
      var r := DropOnNode(nodes, draggedId, containerId);
      forall i | 0 <= i < |r| ensures Shown(r, i) {
        assert Shown(nodes, i);
        var d: nat :| Reaches(nodes, i, d);
        ReachesAfterAcceptedDrop(nodes, draggedId, containerId, i, d);
      }
    }
  }

  /** The guard refuses exactly the drop that the unguarded version turns into a hidden cycle. */
  lemma CheckedRefusesDropOnChild(nodes: seq<Node>, a: nat, c: nat)
    requires a < |nodes| && c < |nodes| && nodes[a].id != nodes[c].id && nodes[c].id != ""
    requires LastIndex(nodes, nodes[c].id) == Some(c)
    requires PlaceOf(nodes, c) == Under(a)
    ensures DropOnNodeChecked(nodes, nodes[a].id, nodes[c].id) == nodes
  {
    assert DropTarget(nodes, nodes[c].id) == Under(c);
    assert !ClearPath(nodes, c, nodes[a].id, |nodes|);
  }

  /** The two-record example: record "0" cannot be dropped on its child "1". */
  lemma DropOnChildScenario()
    ensures var nodes := [Node("0", None, false), Node("1", Some("0"), false)];
      DropOnNodeChecked(nodes, "0", "1") == nodes &&
      DropOnNode(nodes, "0", "1") == [Node("0", Some("1"), false), Node("1", Some("0"), false)]
  {
    var nodes := [Node("0", None, false), Node("1", Some("0"), false)];
    assert LastIndex(nodes, "1") == Some(1);
    assert LastIndex(nodes, "0") == Some(0);
    CheckedRefusesDropOnChild(nodes, 0, 1);
  }

  /** A drop on a grandchild is refused as well: "A" cannot go under "C" in the chain A, B, C. */
  lemma DropOnGrandchildScenario()
    ensures var nodes := [Node("A", None, false), Node("B", Some("A"), false), Node("C", Some("B"), false)];
      ContainerInSubtree(nodes, "A", "C") && DropOnNodeChecked(nodes, "A", "C") == nodes
  {
    var nodes := [Node("A", None, false), Node("B", Some("A"), false), Node("C", Some("B"), false)];
    assert nodes[..2] == [nodes[0], nodes[1]] && nodes[..2][..1] == [nodes[0]];
    assert LastIndex(nodes, "C") == Some(2);
    assert LastIndex(nodes, "B") == Some(1);
    assert LastIndex(nodes, "A") == Some(0);
    assert PlaceOf(nodes, 2) == Under(1) && PlaceOf(nodes, 1) == Under(0);
    assert DropTarget(nodes, "C") == Under(2);
    assert MeetsWithin(nodes, 2, "A", 2);
    assert !ClearPath(nodes, 2, "A", 3);
  }

  /** An accepted drop: in the three-record example "2" moves under its sibling "1". */
  lemma AcceptedDropScenario()
    ensures var nodes := [Node("0", None, false), Node("1", Some("0"), false), Node("2", Some("0"), false)];
      DropOnNodeChecked(nodes, "2", "1") == DropOnNode(nodes, "2", "1") == [Node("0", None, false), Node("1", Some("0"), false), Node("2", Some("1"), false)]
  {
    var nodes := [Node("0", None, false), Node("1", Some("0"), false), Node("2", Some("0"), false)];
    assert nodes[..2] == [nodes[0], nodes[1]] && nodes[..2][..1] == [nodes[0]];
    assert LastIndex(nodes, "1") == Some(1);
    assert LastIndex(nodes, "0") == Some(0);
    assert DropTarget(nodes, "1") == Under(1);
    assert PlaceOf(nodes, 1) == Under(0) && PlaceOf(nodes, 0) == Root;
    assert ClearPath(nodes, 0, "2", 2);
    assert ClearPath(nodes, 1, "2", 3);
  }

  /** With a duplicated id the guard follows the same lookup as the tree, and refuses the drop that hides every record. */
  lemma DuplicateIdScenario()
    ensures var nodes := [Node("a", None, false), Node("a", None, false), Node("b", Some("a"), false)];
      DropOnNodeChecked(nodes, "a", "b") == nodes
  {
    var nodes := [Node("a", None, false), Node("a", None, false), Node("b", Some("a"), false)];
    assert nodes[..2] == [nodes[0], nodes[1]];
    assert LastIndex(nodes, "b") == Some(2);
    assert LastIndex(nodes, "a") == Some(1);
    assert DropTarget(nodes, "b") == Under(2);
    assert PlaceOf(nodes, 2) == Under(1);
    assert !ClearPath(nodes, 2, "a", 3);
  }
}
