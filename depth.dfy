/**
 * How deep the drawn tree can be. Walking up the parent links from a record
 * visits distinct records until it reaches a root, so a record that shows up
 * under a root at all shows up within as many levels as there are records.
 * This bound is what lets a walk with a fixed number of steps decide whether
 * a chain of parents ends at a root.
 */
module Depth {
  import opened Records
  import opened TreeBuilder

  /**
   * The records met walking up from x, at most `fuel` steps: x, its parent,
   * its grandparent, and so on. The walk stops early only at a root.
   */
  function Chain(nodes: seq<Node>, x: nat, fuel: nat): (s: seq<nat>)
    requires x < |nodes|
    ensures 1 <= |s| <= fuel + 1 && s[0] == x
    ensures forall k :: 0 <= k < |s| ==> s[k] < |nodes|
    ensures forall k :: 0 < k < |s| ==> PlaceOf(nodes, s[k - 1]) == Under(s[k])
    ensures |s| <= fuel ==> PlaceOf(nodes, s[|s| - 1]).Root?
    decreases fuel
  {
    match PlaceOf(nodes, x)
    case Root => [x]
    case Under(p) => if fuel > 0 then [x] + Chain(nodes, p, fuel - 1) else [x]
  }

  /** A record that reaches a root within f steps passes its k-th ancestor with f - k steps to spare. */
  lemma {:induction false} ReachesAlongChain(nodes: seq<Node>, x: nat, fuel: nat, f: nat, k: nat)
    requires x < |nodes| && Reaches(nodes, x, f) && k < |Chain(nodes, x, fuel)|
    ensures k <= f && Reaches(nodes, Chain(nodes, x, fuel)[k], f - k)
    decreases k
  {
    if k > 0 {
      var p := PlaceOf(nodes, x).parent;
      assert Chain(nodes, x, fuel) == [x] + Chain(nodes, p, fuel - 1);
      ReachesAlongChain(nodes, p, fuel - 1, f - 1, k - 1);
    }
  }

  /** If the k-th ancestor of x reaches a root within g steps, x does within k + g. */
  lemma {:induction false} ReachesFromChain(nodes: seq<Node>, x: nat, fuel: nat, k: nat, g: nat)
    requires x < |nodes| && k < |Chain(nodes, x, fuel)|
    requires Reaches(nodes, Chain(nodes, x, fuel)[k], g)
    ensures Reaches(nodes, x, k + g)
    decreases k
  {
    if k > 0 {
      var p := PlaceOf(nodes, x).parent;
      assert Chain(nodes, x, fuel) == [x] + Chain(nodes, p, fuel - 1);
      ReachesFromChain(nodes, p, fuel - 1, k - 1, g);
    }
  }

  /** A set of positions below n has at most n elements. */
  lemma {:induction false} BoundedSetSize(a: set<nat>, n: nat)
    requires forall x :: x in a ==> x < n
    ensures |a| <= n
    decreases n
  {
    if n == 0 {
      assert a == {};
    } else {
      BoundedSetSize(a - {n - 1}, n - 1);
    }
  }

  /** The positions occurring in a sequence, as a set. */
  function Elements(s: seq<nat>): (a: set<nat>)
    ensures forall x :: x in a <==> x in s
  {
    if s == [] then {} else {s[0]} + Elements(s[1..])
  }

  /** The elements of a sequence without repeats are as many as its length. */
  lemma {:induction false} DistinctSetSize(s: seq<nat>)
    requires forall i, j :: 0 <= i < j < |s| ==> s[i] != s[j]
    ensures |Elements(s)| == |s|
  {
    if s != [] {
      DistinctSetSize(s[1..]);
      assert s[0] !in s[1..];
      assert Elements(s) == {s[0]} + Elements(s[1..]);
    }
  }

  /** More than n positions below n repeat one of them. */
  lemma Pigeonhole(s: seq<nat>, n: nat)
    requires forall k :: 0 <= k < |s| ==> s[k] < n
    requires |s| > n
    ensures exists i, j :: 0 <= i < j < |s| && s[i] == s[j]
  {
    if forall i, j :: 0 <= i < j < |s| ==> s[i] != s[j] {
      DistinctSetSize(s);
      BoundedSetSize(Elements(s), n);
      assert false;
    }
  }

  /** A record shown at any depth is shown within |nodes| levels. */
  lemma {:induction false} ReachesWithinLength(nodes: seq<Node>, x: nat, f: nat)
    requires x < |nodes| && Reaches(nodes, x, f)
    ensures Reaches(nodes, x, |nodes|)
    decreases f
  {
    var n := |nodes|;
    if f <= n {
      ReachesMonotone(nodes, x, f, n);
    } else if Reaches(nodes, x, f - 1) {
      ReachesWithinLength(nodes, x, f - 1);
    } else {
      var s := Chain(nodes, x, f);
      if |s| <= f {
        ReachesFromChain(nodes, x, f, |s| - 1, 0);
        ReachesMonotone(nodes, x, |s| - 1, f - 1);
        assert false;
      }
      Pigeonhole(s, n);
      var i, j :| 0 <= i < j < |s| && s[i] == s[j];
      ReachesAlongChain(nodes, x, f, f, j);
      ReachesFromChain(nodes, x, f, i, f - j);
      ReachesMonotone(nodes, x, i + (f - j), f - 1);
      assert false;
    }
  }
}
