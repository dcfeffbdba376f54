/**
 * `mapTree`: the flat record list becomes the nested view the tree widget
 * draws. The records are copied into a working array, a first loop fills an
 * id-to-position dictionary, and a second loop appends every record either to
 * the children of the record its parent key resolves to or to the roots.
 *
 * The JavaScript shares record objects between the copies, the children lists
 * and the roots; here the children of the record at position p are the
 * positions in `children[p]`, and the roots are positions too.
 */
module TreeBuilder {
  import opened Records

  /** Strictly increasing positions: the input's relative order. */
  predicate Increasing(s: seq<nat>)
  {
    forall a, b :: 0 <= a < b < |s| ==> s[a] < s[b]
  }

  /**
   * The positions below `k` whose place is `pl`, in input order: with
   * `pl == Root` the roots, with `pl == Under(p)` the children of record p.
   */
  function Members(nodes: seq<Node>, pl: Place, k: nat): seq<nat>
    requires k <= |nodes|
  {
    if k == 0 then [] else Members(nodes, pl, k - 1) + if PlaceOf(nodes, k - 1) == pl then [k - 1] else []
  }

  /**
   * A position is listed exactly when it is below `k` and has place `pl`,
   * and the list keeps the input order.
   */
  lemma {:induction false} MembersSpec(nodes: seq<Node>, pl: Place, k: nat)
    requires k <= |nodes|
    ensures forall x: nat :: x in Members(nodes, pl, k) <==> x < k && PlaceOf(nodes, x) == pl
    ensures Increasing(Members(nodes, pl, k))
  {
    if k > 0 {
      MembersSpec(nodes, pl, k - 1);
      var prev := Members(nodes, pl, k - 1);
      forall a | 0 <= a < |prev| ensures prev[a] < k - 1 {
        var x: nat := prev[a];
        assert x in prev;
      }
    }
  }

  /**
   * The first pass: the dictionary from id to position, filled in list order
   * so that the last record with an id is the one it keeps.
   */
  method IndexById(items: seq<Node>) returns (ids: map<string, nat>)
    ensures forall s :: s in ids ==> LastIndex(items, s) == Some(ids[s])
    ensures forall s :: s !in ids ==> LastIndex(items, s).None?
  {
    ids := map[];
    var i := 0;
    while i < |items|
      invariant 0 <= i <= |items|
      invariant forall s :: s in ids <==> LastIndex(items[..i], s).Some?
      invariant forall s :: s in ids ==> ids[s] == LastIndex(items[..i], s).value
    {
      assert items[..i + 1][..i] == items[..i];
      ids := ids[items[i].id := i];
      i := i + 1;
    }
    assert items[..i] == items;
  }

  /**
   * The two-pass build. `temp` holds the copied records, `children[p]` the
   * children of the record at p, `roots` the top level, each in input order.
   */
  method MapTree(items: seq<Node>) returns (temp: array<Node>, children: array<seq<nat>>, roots: seq<nat>)
    ensures fresh(temp) && fresh(children)
    ensures temp[..] == items
    ensures children.Length == |items|
    ensures forall p :: 0 <= p < |items| ==> children[p] == Members(items, Under(p), |items|)
    ensures roots == Members(items, Root, |items|)
  {
    var n := |items|;
    temp := new Node[n](k requires 0 <= k < n => items[k]);
    children := new seq<nat>[n](_ => []);
    assert temp[..] == items;
    var ids := IndexById(temp[..]);
    var i := 0;
    roots := [];
    while i < n
      invariant 0 <= i <= n
      modifies children
      invariant forall p :: 0 <= p < n ==> children[p] == Members(items, Under(p), i)
      invariant roots == Members(items, Root, i)
    {
      var node := temp[i];
      ghost var pl := PlaceOf(items, i);
      assert Members(items, Root, i + 1) == roots + if pl == Root then [i] else [];
      if Truthy(node.parentId) && node.parentId.value in ids {
        var p := ids[node.parentId.value];
        assert pl == Under(p);
        children[p] := children[p] + [i];
        assert forall q :: 0 <= q < n && q != p ==> Members(items, Under(q), i + 1) == Members(items, Under(q), i);
      } else {
        assert pl == Root;
        roots := roots + [i];
      }
      i := i + 1;
    }
  }

  /** The roots of the whole list. */
  function Roots(items: seq<Node>): seq<nat>
  {
    Members(items, Root, |items|)
  }

  /** The children of record p in the whole list. */
  function ChildrenOf(items: seq<Node>, p: nat): seq<nat>
    requires p < |items|
  {
    Members(items, Under(p), |items|)
  }

  /** A record is a root exactly when its parent key is falsy or dangling. */
  lemma RootsAreUnresolved(items: seq<Node>, i: nat)
    requires i < |items|
    ensures i in Roots(items) <==> !Truthy(items[i].parentId) || forall j :: 0 <= j < |items| ==> items[j].id != items[i].parentId.value
  {
    RootIffUnresolved(items, i);
    MembersSpec(items, Root, |items|);
  }

  /**
   * A record is a child of p exactly when its truthy parent key names p's id
   * and p is the last record with that id, wherever p stands in the list.
   */
  lemma ChildrenAreResolved(items: seq<Node>, i: nat, p: nat)
    requires i < |items| && p < |items|
    ensures i in ChildrenOf(items, p) <==> Truthy(items[i].parentId) && LastIndex(items, items[i].parentId.value) == Some(p)
  {
    MembersSpec(items, Under(p), |items|);
  }

  /** How often x occurs in a sequence. */
  function Count(s: seq<nat>, x: nat): nat
  {
    multiset(s)[x]
  }

  lemma {:induction false} CountInIncreasing(s: seq<nat>, x: nat)
    requires Increasing(s)
    ensures Count(s, x) == if x in s then 1 else 0
  {
    if s != [] {
      assert s == [s[0]] + s[1..];
      assert Increasing(s[1..]);
      CountInIncreasing(s[1..], x);
      if x == s[0] {
        assert x !in s[1..];
      }
    }
  }

  /** Occurrences of x in the children lists of the records below m. */
  function ChildOccurrences(items: seq<Node>, m: nat, x: nat): nat
    requires m <= |items|
  {
    if m == 0 then 0 else ChildOccurrences(items, m - 1, x) + Count(ChildrenOf(items, m - 1), x)
  }

  lemma {:induction false} ChildOccurrencesBelow(items: seq<Node>, m: nat, x: nat)
    requires m <= |items| && x < |items|
    ensures ChildOccurrences(items, m, x) == if PlaceOf(items, x).Under? && PlaceOf(items, x).parent < m then 1 else 0
  {
    if m > 0 {
      ChildOccurrencesBelow(items, m - 1, x);
      MembersSpec(items, Under(m - 1), |items|);
      CountInIncreasing(ChildrenOf(items, m - 1), x);
    }
  }

  /**
   * Every record is placed exactly once: its occurrences among the roots and
   * in all the children lists add up to one.
   */
  lemma PlacedExactlyOnce(items: seq<Node>, x: nat)
    requires x < |items|
    ensures Count(Roots(items), x) + ChildOccurrences(items, |items|, x) == 1
  {
    MembersSpec(items, Root, |items|);
    CountInIncreasing(Roots(items), x);
    ChildOccurrencesBelow(items, |items|, x);
  }

  /** Sum of the sizes of the children lists of records below m, counting positions below k. */
  function ChildPlacements(items: seq<Node>, m: nat, k: nat): nat
    requires m <= |items| && k <= |items|
  {
    if m == 0 then 0 else ChildPlacements(items, m - 1, k) + |Members(items, Under(m - 1), k)|
  }

  lemma {:induction false} ChildPlacementsStep(items: seq<Node>, m: nat, k: nat)
    requires m <= |items| && k < |items|
    ensures ChildPlacements(items, m, k + 1) == ChildPlacements(items, m, k) + if PlaceOf(items, k).Under? && PlaceOf(items, k).parent < m then 1 else 0
  {
    if m > 0 {
      ChildPlacementsStep(items, m - 1, k);
    }
  }

  lemma {:induction false} PlacementsUpTo(items: seq<Node>, k: nat)
    requires k <= |items|
    ensures |Members(items, Root, k)| + ChildPlacements(items, |items|, k) == k
  {
    if k == 0 {
      ChildPlacementsZero(items, |items|);
    } else {
      PlacementsUpTo(items, k - 1);
      ChildPlacementsStep(items, |items|, k - 1);
      var roots := Members(items, Root, k - 1);
      assert Members(items, Root, k) == roots + if PlaceOf(items, k - 1) == Root then [k - 1] else [];
    }
  }

  lemma {:induction false} ChildPlacementsZero(items: seq<Node>, m: nat)
    requires m <= |items|
    ensures ChildPlacements(items, m, 0) == 0
  {
    if m > 0 {
      ChildPlacementsZero(items, m - 1);
    }
  }

  /** The roots and all the children lists together hold exactly as many entries as the input. */
  lemma PlacementsTotal(items: seq<Node>)
    ensures |Roots(items)| + ChildPlacements(items, |items|, |items|) == |items|
  {
    PlacementsUpTo(items, |items|);
  }

  /**
   * Record i shows up in the drawn tree, at most `depth` levels below a root:
   * it is a root, or its parent shows up one level higher.
   */
  predicate Reaches(items: seq<Node>, i: nat, depth: nat)
    requires i < |items|
    decreases depth
  {
    match PlaceOf(items, i)
    case Root => true
    case Under(p) => depth > 0 && Reaches(items, p, depth - 1)
  }

  lemma {:induction false} ReachesMonotone(items: seq<Node>, i: nat, d: nat, e: nat)
    requires i < |items| && d <= e && Reaches(items, i, d)
    ensures Reaches(items, i, e)
    decreases d
  {
    if PlaceOf(items, i).Under? {
      ReachesMonotone(items, PlaceOf(items, i).parent, d - 1, e - 1);
    }
  }

  /**
   * There is no cycle check: a set of records each attached under another
   * record of the set never shows up under a root, at any depth.
   */
  lemma {:induction false} ClosedSetHidden(items: seq<Node>, s: set<nat>, i: nat, depth: nat)
    requires forall x :: x in s ==> x < |items| && PlaceOf(items, x).Under? && PlaceOf(items, x).parent in s
    requires i in s
    ensures !Reaches(items, i, depth)
    decreases depth
  {
    if depth > 0 {
      ClosedSetHidden(items, s, PlaceOf(items, i).parent, depth - 1);
    }
  }

  /** Two records each attached under the other never show up under a root. */
  lemma TwoCycleHidden(items: seq<Node>, a: nat, c: nat)
    requires a < |items| && c < |items|
    requires PlaceOf(items, a) == Under(c) && PlaceOf(items, c) == Under(a)
    ensures forall depth: nat :: !Reaches(items, a, depth) && !Reaches(items, c, depth)
  {
    var s := {a, c};
    forall x | x in s ensures x < |items| && PlaceOf(items, x).Under? && PlaceOf(items, x).parent in s {
      assert x == a || x == c;
    }
    forall depth: nat ensures !Reaches(items, a, depth) && !Reaches(items, c, depth) {
      ClosedSetHidden(items, s, a, depth);
      ClosedSetHidden(items, s, c, depth);
    }
  }

  /**
   * A record whose truthy parent key is its own id (and which is the last
   * record with that id) becomes its own child, is not a root, and never shows
   * up under a root.
   */
  lemma SelfParentHidden(items: seq<Node>, i: nat)
    requires i < |items| && Truthy(items[i].parentId) && items[i].parentId.value == items[i].id
    requires forall j :: i < j < |items| ==> items[j].id != items[i].id
    ensures i in ChildrenOf(items, i) && i !in Roots(items)
    ensures forall depth: nat :: !Reaches(items, i, depth)
  {
    LastIndexSpec(items, items[i].id);
    assert PlaceOf(items, i) == Under(i);
    MembersSpec(items, Under(i), |items|);
    MembersSpec(items, Root, |items|);
    forall depth: nat ensures !Reaches(items, i, depth) {
      ClosedSetHidden(items, {i}, i, depth);
    }
  }

  /**
   * The list the session starts from, cut to its first three records: one
   * root with two children, in input order.
   */
  lemma ThreeNodeScenario()
    ensures var items := [Node("0", None, false), Node("1", Some("0"), false), Node("2", Some("0"), false)];
      Roots(items) == [0] && ChildrenOf(items, 0) == [1, 2] && ChildrenOf(items, 1) == [] && ChildrenOf(items, 2) == []
  {
    var items := [Node("0", None, false), Node("1", Some("0"), false), Node("2", Some("0"), false)];
    assert items[..2] == [items[0], items[1]] && items[..2][..1] == [items[0]];
    assert LastIndex(items, "0") == Some(0);
    assert PlaceOf(items, 0) == Root && PlaceOf(items, 1) == Under(0) && PlaceOf(items, 2) == Under(0);
    forall pl: Place ensures Members(items, pl, 3) == (if pl == Root then [0] else []) + (if pl == Under(0) then [1, 2] else []) {
      assert Members(items, pl, 1) == if pl == Root then [0] else [];
      assert Members(items, pl, 2) == (if pl == Root then [0] else []) + (if pl == Under(0) then [1] else []);
    }
  }

  /** A child listed before its parent still attaches: the dictionary is complete before the attach loop. */
  lemma ChildBeforeParentScenario()
    ensures var items := [Node("1", Some("0"), false), Node("0", None, false)];
      Roots(items) == [1] && ChildrenOf(items, 1) == [0]
  {
    var items := [Node("1", Some("0"), false), Node("0", None, false)];
    assert LastIndex(items, "0") == Some(1);
    assert PlaceOf(items, 0) == Under(1) && PlaceOf(items, 1) == Root;
    forall pl: Place ensures Members(items, pl, 2) == (if pl == Under(1) then [0] else []) + (if pl == Root then [1] else []) {
      assert Members(items, pl, 1) == if pl == Under(1) then [0] else [];
    }
  }
}
