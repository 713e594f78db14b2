/**
 * Parent forests ordered by rank: what every node's root is, and why neither
 * path compression nor linking two roots can break the forest.
 */
module Forest {
  import opened Words

  /** Every non-root points at a node of strictly higher rank. */
  ghost predicate Ranked(parent: seq<nat>, rank: seq<u8>) {
    && |rank| == |parent|
    && (forall i {:trigger parent[i]} :: 0 <= i < |parent| ==>
          parent[i] < |parent| && (parent[i] != i ==> rank[i] < rank[parent[i]]))
  }

  ghost function Root(parent: seq<nat>, rank: seq<u8>, node: nat): (root: nat)
    requires Ranked(parent, rank) && node < |parent|
    ensures root < |parent| && parent[root] == root
    ensures root == node || rank[node] < rank[root]
    decreases U8_MAX - rank[node]
  {
    if parent[node] == node then node else Root(parent, rank, parent[node])
  }

  ghost function Roots(parent: seq<nat>, rank: seq<u8>): (labels: seq<nat>)
    requires Ranked(parent, rank)
    ensures |labels| == |parent|
    ensures forall i :: 0 <= i < |labels| ==> labels[i] == Root(parent, rank, i)
  {
    seq(|parent|, i requires 0 <= i < |parent| => Root(parent, rank, i))
  }

  /** A labelling that is constant along parent links and names each root by itself. */
  ghost predicate Labels(parent: seq<nat>, labels: seq<nat>) {
    && |labels| == |parent|
    && (forall i {:trigger parent[i]} :: 0 <= i < |parent| && parent[i] < |parent| ==>
          labels[i] == if parent[i] == i then i else labels[parent[i]])
  }

  lemma {:induction false} RootIsLabel(parent: seq<nat>, rank: seq<u8>, labels: seq<nat>, node: nat)
    requires Ranked(parent, rank) && Labels(parent, labels) && node < |parent|
    ensures Root(parent, rank, node) == labels[node]
    decreases U8_MAX - rank[node]
  {
    if parent[node] != node {
      RootIsLabel(parent, rank, labels, parent[node]);
    }
  }

  /** The roots are the only such labelling, whatever the ranks are. */
  lemma RootsAreTheLabels(parent: seq<nat>, rank: seq<u8>, labels: seq<nat>)
    requires Ranked(parent, rank) && Labels(parent, labels)
    ensures Roots(parent, rank) == labels
  {
    forall i | 0 <= i < |parent|
      ensures Roots(parent, rank)[i] == labels[i]
    {
      RootIsLabel(parent, rank, labels, i);
    }
  }

  lemma RootsLabel(parent: seq<nat>, rank: seq<u8>)
    requires Ranked(parent, rank)
    ensures Labels(parent, Roots(parent, rank))
  {
  }

  /** The nodes that carry one label. */
  ghost function Class(labels: seq<nat>, name: nat): set<nat> {
    set i: nat | i < |labels| && labels[i] == name
  }

  /** Union by rank keeps each root's class exponentially large in its rank. */
  ghost predicate Weighted(parent: seq<nat>, rank: seq<u8>)
    requires Ranked(parent, rank)
  {
    forall r {:trigger Class(Roots(parent, rank), r)} :: 0 <= r < |parent| && parent[r] == r ==>
      Pow2(rank[r]) <= |Class(Roots(parent, rank), r)|
  }

  /** What every reachable union-find state keeps; lengths are bounded by a 64-bit usize. */
  ghost predicate Sound(parent: seq<nat>, rank: seq<u8>) {
    && |parent| <= U64_MAX
    && Ranked(parent, rank)
    && Weighted(parent, rank)
  }

  lemma {:induction false} ClassSize(labels: seq<nat>, name: nat)
    ensures |Class(labels, name)| <= |labels|
  {
    if labels == [] {
      assert Class(labels, name) == {};
    } else {
      var last := |labels| - 1;
      ClassSize(labels[..last], name);
      assert Class(labels, name) == Class(labels[..last], name) + if labels[last] == name then {last} else {};
    }
  }

  /** No rank reaches 64 in a forest whose length fits a usize, so a u8 rank never saturates. */
  lemma RankBound(parent: seq<nat>, rank: seq<u8>, node: nat)
    requires Sound(parent, rank) && node < |parent|
    ensures rank[node] < 64
  {
    var root := Root(parent, rank, node);
    ClassSize(Roots(parent, rank), root);
    if rank[root] >= 64 {
      Pow2Monotone(64, rank[root]);
      Pow2Widths();
      assert false;
    }
  }

  /** A node and its parent have the same root. */
  lemma ParentSharesRoot(parent: seq<nat>, rank: seq<u8>, node: nat)
    requires Ranked(parent, rank) && node < |parent|
    ensures Roots(parent, rank)[parent[node]] == Roots(parent, rank)[node]
  {
  }

  /** Pointing one node straight at its own root changes no root. */
  lemma Compress(parent: seq<nat>, rank: seq<u8>, node: nat)
    requires Sound(parent, rank) && node < |parent|
    ensures
      var after := parent[node := Roots(parent, rank)[node]];
      Sound(after, rank) && Roots(after, rank) == Roots(parent, rank)
  {
    var labels := Roots(parent, rank);
    var after := parent[node := labels[node]];
    assert Labels(after, labels) by {
      RootsLabel(parent, rank);
    }
    RootsAreTheLabels(after, rank, labels);
    forall r | 0 <= r < |after| && after[r] == r
      ensures Pow2(rank[r]) <= |Class(Roots(after, rank), r)|
    {
      assert parent[r] == r;
    }
  }

  /** A fresh forest: every node is its own root. */
  lemma Discrete(parent: seq<nat>, rank: seq<u8>)
    requires |rank| == |parent| <= U64_MAX
    requires forall i :: 0 <= i < |parent| ==> parent[i] == i && rank[i] == 0
    ensures Sound(parent, rank) && Roots(parent, rank) == parent
  {
    RootsAreTheLabels(parent, rank, parent);
    forall r | 0 <= r < |parent|
      ensures Pow2(rank[r]) <= |Class(Roots(parent, rank), r)|
    {
      assert Class(Roots(parent, rank), r) == {r};
    }
  }

  /** Appending one lone node leaves the other roots alone. */
  lemma Append(parent: seq<nat>, rank: seq<u8>)
    requires Sound(parent, rank) && |parent| < U64_MAX
    ensures
      var after, ranks := parent + [|parent|], rank + [0];
      Sound(after, ranks) && Roots(after, ranks) == Roots(parent, rank) + [|parent|]
  {
    var after, ranks := parent + [|parent|], rank + [0];
    var labels := Roots(parent, rank);
    assert Ranked(after, ranks);
    assert Labels(after, labels + [|parent|]) by {
      RootsLabel(parent, rank);
    }
    RootsAreTheLabels(after, ranks, labels + [|parent|]);
    forall r | 0 <= r < |after| && after[r] == r
      ensures Pow2(ranks[r]) <= |Class(labels + [|parent|], r)|
    {
      if r < |parent| {
        assert Class(labels + [|parent|], r) == Class(labels, r);
        assert parent[r] == r;
      } else {
        assert Class(labels + [|parent|], r) == {r};
      }
    }
  }

  ghost function Relabel(labels: seq<nat>, from: nat, to: nat): (after: seq<nat>)
    ensures |after| == |labels|
    ensures forall i :: 0 <= i < |labels| ==> after[i] == if labels[i] == from then to else labels[i]
  {
    seq(|labels|, i requires 0 <= i < |labels| => if labels[i] == from then to else labels[i])
  }

  /** Hanging one root under another that outranks it, after raising the winner's rank, renames one class. */
  lemma Link(parent: seq<nat>, rank: seq<u8>, winner: nat, loser: nat, raised: u8)
    requires Ranked(parent, rank) && winner < |parent| && loser < |parent| && winner != loser
    requires parent[winner] == winner && parent[loser] == loser
    requires rank[loser] < raised && rank[winner] <= raised
    ensures
      var after, ranks := parent[loser := winner], rank[winner := raised];
      Ranked(after, ranks) && Roots(after, ranks) == Relabel(Roots(parent, rank), loser, winner)
  {
    var labels := Relabel(Roots(parent, rank), loser, winner);
    var after, ranks := parent[loser := winner], rank[winner := raised];
    assert Labels(after, labels) by {
      RootsLabel(parent, rank);
    }
    RootsAreTheLabels(after, ranks, labels);
  }

  lemma RelabelledClass(labels: seq<nat>, from: nat, to: nat)
    requires from != to
    ensures |Class(Relabel(labels, from, to), to)| == |Class(labels, from)| + |Class(labels, to)|
  {
    assert Class(Relabel(labels, from, to), to) == Class(labels, from) + Class(labels, to);
  }

  /** The rank the surviving root takes when two roots are linked. */
  function RaisedRank(winner: u8, loser: u8): (raised: u8)
    requires winner < U8_MAX
  {
    if winner == loser then winner + 1 else winner
  }

  /** Linking keeps the forest sound: the two classes together pay for the raised rank. */
  lemma LinkSound(parent: seq<nat>, rank: seq<u8>, winner: nat, loser: nat)
    requires Sound(parent, rank) && winner < |parent| && loser < |parent| && winner != loser
    requires parent[winner] == winner && parent[loser] == loser
    requires rank[loser] <= rank[winner] < U8_MAX
    ensures
      var after, ranks := parent[loser := winner], rank[winner := RaisedRank(rank[winner], rank[loser])];
      Sound(after, ranks) && Roots(after, ranks) == Relabel(Roots(parent, rank), loser, winner)
  {
    var raised := RaisedRank(rank[winner], rank[loser]);
    var after, ranks := parent[loser := winner], rank[winner := raised];
    var labels := Roots(parent, rank);
    Link(parent, rank, winner, loser, raised);
    forall r | 0 <= r < |after| && after[r] == r
      ensures Pow2(ranks[r]) <= |Class(Relabel(labels, loser, winner), r)|
    {
      if r == winner {
        RelabelledClass(labels, loser, winner);
        assert Pow2(rank[winner]) <= |Class(labels, winner)|;
        assert Pow2(rank[loser]) <= |Class(labels, loser)|;
      } else {
        assert Class(Relabel(labels, loser, winner), r) == Class(labels, r);
        assert parent[r] == r;
      }
    }
  }
}
