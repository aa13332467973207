/**
 * Chain-dot detection. The slice of an operation is grown from the operation
 * itself by repeatedly adding the producers of its operands (backward slice)
 * and the users of its results (forward slice), keeping only operations of the
 * same region; a dot is chained when another dot lies in that slice.
 */
module Slice {
  import opened Ir

  /** `m` produces an operand of `n`, or uses the result of `n`. */
  predicate Adjacent(nodes: map<NodeId, Node>, n: NodeId, m: NodeId)
    requires n in nodes && m in nodes
  {
    m in nodes[n].operands || n in nodes[m].operands
  }

  /** The operations of `region` one step away from `s`. */
  function Neighbours(nodes: map<NodeId, Node>, region: RegionId, s: set<NodeId>): (r: set<NodeId>)
    ensures r <= nodes.Keys
    ensures forall m :: m in r <==>
      m in nodes && nodes[m].region == region && exists n :: n in s && n in nodes && Adjacent(nodes, n, m)
  {
    set m | m in nodes && nodes[m].region == region
              && exists n :: n in s && n in nodes && Adjacent(nodes, n, m)
  }

  lemma NeighboursMonotonic(nodes: map<NodeId, Node>, region: RegionId, s: set<NodeId>, t: set<NodeId>)
    requires s <= t
    ensures Neighbours(nodes, region, s) <= Neighbours(nodes, region, t)
  {
  }

  lemma {:induction false} SubsetCard<T>(a: set<T>, b: set<T>)
    requires a <= b
    ensures |a| <= |b|
    decreases |a|
  {
    if a != {} {
      var x :| x in a;
      SubsetCard(a - {x}, b - {x});
    }
  }

  /** Growing `s` within the graph leaves fewer operations outside it. */
  lemma GrowingShrinksRest(keys: set<NodeId>, s: set<NodeId>, s': set<NodeId>)
    requires s < s' <= keys
    ensures |keys - s'| < |keys - s|
  {
    assert !(s' <= s);
    var x :| x in s' && x !in s;
    SubsetCard(keys - s', (keys - s) - {x});
  }

  /** The slice of `s`: everything reachable from it through same-region neighbours. */
  function Closure(nodes: map<NodeId, Node>, region: RegionId, s: set<NodeId>): (r: set<NodeId>)
    requires s <= nodes.Keys
    ensures s <= r <= nodes.Keys
    ensures Neighbours(nodes, region, r) <= r
    decreases |nodes.Keys - s|
  {
    var s' := s + Neighbours(nodes, region, s);
    if s' == s then s
    else
      GrowingShrinksRest(nodes.Keys, s, s');
      Closure(nodes, region, s')
  }

  /** isChainDot: another dot lies in the same-region slice of `dot`. */
  predicate IsChainDot(nodes: map<NodeId, Node>, dot: NodeId)
    requires dot in nodes
  {
    var slice := Closure(nodes, nodes[dot].region, {dot});
    exists n :: n in slice && n != dot && nodes[n].kind.Dot?
  }

  /** The slice is the least set containing `s` that is closed under same-region neighbours. */
  lemma {:induction false} ClosureIsLeast(nodes: map<NodeId, Node>, region: RegionId, s: set<NodeId>, t: set<NodeId>)
    requires s <= nodes.Keys && s <= t && Neighbours(nodes, region, t) <= t
    ensures Closure(nodes, region, s) <= t
    decreases |nodes.Keys - s|
  {
    var s' := s + Neighbours(nodes, region, s);
    NeighboursMonotonic(nodes, region, s, t);
    if s' != s {
      GrowingShrinksRest(nodes.Keys, s, s');
      ClosureIsLeast(nodes, region, s', t);
    }
  }

  /** A path of same-region neighbours from `s` stays inside the slice of `s`. */
  predicate IsRegionPath(nodes: map<NodeId, Node>, region: RegionId, p: seq<NodeId>) {
    && (forall i :: 0 <= i < |p| ==> p[i] in nodes)
    && (forall i :: 0 < i < |p| ==> nodes[p[i]].region == region)
    && (forall i :: 0 < i < |p| ==> Adjacent(nodes, p[i - 1], p[i]))
  }

  lemma {:induction false} PathStaysInClosure(nodes: map<NodeId, Node>, region: RegionId, s: set<NodeId>, p: seq<NodeId>)
    requires s <= nodes.Keys && |p| > 0 && p[0] in s && IsRegionPath(nodes, region, p)
    ensures p[|p| - 1] in Closure(nodes, region, s)
    decreases |p|
  {
    if |p| > 1 {
      var q := p[..|p| - 1];
      assert IsRegionPath(nodes, region, q);
      PathStaysInClosure(nodes, region, s, q);
      var c := Closure(nodes, region, s);
      assert p[|p| - 2] in c;
      assert p[|p| - 1] in Neighbours(nodes, region, c);
    }
  }

  /** A dot connected to another dot by a same-region path is chained. */
  lemma ConnectedDotIsChained(nodes: map<NodeId, Node>, dot: NodeId, p: seq<NodeId>)
    requires dot in nodes && |p| > 1 && p[0] == dot && IsRegionPath(nodes, nodes[dot].region, p)
    requires p[|p| - 1] != dot && nodes[p[|p| - 1]].kind.Dot?
    ensures IsChainDot(nodes, dot)
  {
    PathStaysInClosure(nodes, nodes[dot].region, {dot}, p);
  }

  /** A dot whose result feeds another dot of the same region is chained. */
  lemma FeedingDotIsChained(nodes: map<NodeId, Node>, dot: NodeId, user: NodeId)
    requires dot in nodes && user in nodes && user != dot
    requires nodes[user].kind.Dot? && nodes[user].region == nodes[dot].region
    requires dot in nodes[user].operands
    ensures IsChainDot(nodes, dot)
  {
    ConnectedDotIsChained(nodes, dot, [dot, user]);
  }

  /**
   * A dot is not chained when some same-region-closed set around it holds no
   * other dot; in particular a dot none of whose same-region neighbours
   * exists is alone in its slice.
   */
  lemma UnconnectedDotIsNotChained(nodes: map<NodeId, Node>, dot: NodeId, t: set<NodeId>)
    requires dot in nodes && dot in t && Neighbours(nodes, nodes[dot].region, t) <= t
    requires forall n :: n in t && n in nodes && n != dot ==> !nodes[n].kind.Dot?
    ensures !IsChainDot(nodes, dot)
  {
    ClosureIsLeast(nodes, nodes[dot].region, {dot}, t);
  }
}
