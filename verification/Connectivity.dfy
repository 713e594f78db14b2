/** Undirected graphs given by a finite set of edges, and their connected components. */
module Connectivity {
  type Edges = set<(nat, nat)>

  ghost predicate Adjacent(edges: Edges, a: nat, b: nat) {
    (a, b) in edges || (b, a) in edges
  }

  ghost predicate Walk(edges: Edges, path: seq<nat>) {
    |path| >= 1 &&
    (|path| == 1 || (Adjacent(edges, path[0], path[1]) && Walk(edges, path[1..])))
  }

  ghost predicate WalkBetween(edges: Edges, path: seq<nat>, a: nat, b: nat) {
    Walk(edges, path) && path[0] == a && path[|path| - 1] == b
  }

  ghost predicate Connected(edges: Edges, a: nat, b: nat) {
    exists path: seq<nat> :: WalkBetween(edges, path, a, b)
  }

  lemma Reflexive(edges: Edges, a: nat)
    ensures Connected(edges, a, a)
  {
    assert WalkBetween(edges, [a], a, a);
  }

  lemma AdjacentConnected(edges: Edges, a: nat, b: nat)
    requires Adjacent(edges, a, b)
    ensures Connected(edges, a, b)
  {
    assert [a, b][1..] == [b];
    assert WalkBetween(edges, [a, b], a, b);
  }

  /** Two walks that meet in their end node join into one. */
  lemma {:induction false} Join(edges: Edges, left: seq<nat>, right: seq<nat>)
    requires Walk(edges, left) && Walk(edges, right)
    requires left[|left| - 1] == right[0]
    ensures Walk(edges, left + right[1..])
    decreases |left|
  {
    var joined := left + right[1..];
    if |left| == 1 {
      assert joined == right;
    } else {
      Join(edges, left[1..], right);
      assert joined[1..] == left[1..] + right[1..];
    }
  }

  lemma Transitive(edges: Edges, a: nat, b: nat, c: nat)
    requires Connected(edges, a, b) && Connected(edges, b, c)
    ensures Connected(edges, a, c)
  {
    var left: seq<nat> :| WalkBetween(edges, left, a, b);
    var right: seq<nat> :| WalkBetween(edges, right, b, c);
    Join(edges, left, right);
    assert WalkBetween(edges, left + right[1..], a, c);
  }

  lemma {:induction false} Reversal(edges: Edges, path: seq<nat>)
    requires Walk(edges, path)
    ensures Connected(edges, path[|path| - 1], path[0])
    decreases |path|
  {
    if |path| == 1 {
      Reflexive(edges, path[0]);
    } else {
      Reversal(edges, path[1..]);
      AdjacentConnected(edges, path[1], path[0]);
      Transitive(edges, path[|path| - 1], path[1], path[0]);
    }
  }

  lemma Symmetric(edges: Edges, a: nat, b: nat)
    requires Connected(edges, a, b)
    ensures Connected(edges, b, a)
  {
    var path: seq<nat> :| WalkBetween(edges, path, a, b);
    Reversal(edges, path);
  }

  /** A node set that no edge leaves contains every walk that starts in it. */
  ghost predicate Closed(edges: Edges, nodes: set<nat>) {
    forall e :: e in edges ==> (e.0 in nodes <==> e.1 in nodes)
  }

  lemma {:induction false} WalkStays(edges: Edges, path: seq<nat>, nodes: set<nat>)
    requires Closed(edges, nodes) && Walk(edges, path) && path[0] in nodes
    ensures path[|path| - 1] in nodes
    decreases |path|
  {
    if |path| > 1 {
      WalkStays(edges, path[1..], nodes);
    }
  }

  lemma ConnectedStays(edges: Edges, a: nat, b: nat, nodes: set<nat>)
    requires Closed(edges, nodes) && a in nodes && Connected(edges, a, b)
    ensures b in nodes
  {
    var path: seq<nat> :| WalkBetween(edges, path, a, b);
    WalkStays(edges, path, nodes);
  }

  /** The connected component of a node among the given nodes. */
  ghost function Component(nodes: set<nat>, edges: Edges, a: nat): set<nat> {
    set b | b in nodes && Connected(edges, a, b)
  }

  ghost function EdgeSet(pairs: seq<(nat, nat)>): Edges {
    set p | p in pairs
  }

  /** The endpoints of a set of edges. */
  ghost function Touched(edges: Edges): set<nat> {
    (set e | e in edges :: e.0) + (set e | e in edges :: e.1)
  }

  lemma TouchedStep(pairs: seq<(nat, nat)>, i: nat)
    requires i < |pairs|
    ensures Touched(EdgeSet(pairs[..i + 1])) == Touched(EdgeSet(pairs[..i])) + {pairs[i].0, pairs[i].1}
    ensures Touched(EdgeSet(pairs[..i + 1])) <= Touched(EdgeSet(pairs))
  {
    assert EdgeSet(pairs[..i + 1]) == EdgeSet(pairs[..i]) + {pairs[i]};
    assert EdgeSet(pairs[..i + 1]) <= EdgeSet(pairs);
  }
}
