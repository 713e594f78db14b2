/** Union-find with full path compression and union by a saturating one-byte rank. */
module UnionFinding {
  import opened Words
  import opened Forest

  /** `after` joins the two classes of `left` and `right` and no others. */
  ghost predicate Merges(before: seq<nat>, after: seq<nat>, left: nat, right: nat)
    requires left < |before| && right < |before|
  {
    && |after| == |before|
    && (forall i, j {:trigger after[i], after[j]} :: 0 <= i < |before| && 0 <= j < |before| ==>
          (after[i] == after[j] <==>
           || before[i] == before[j]
           || (before[i] == before[left] && before[j] == before[right])
           || (before[i] == before[right] && before[j] == before[left])))
  }

  lemma RelabelMerges(labels: seq<nat>, left: nat, right: nat, winner: nat, loser: nat)
    requires left < |labels| && right < |labels|
    requires {winner, loser} == {labels[left], labels[right]}
    ensures Merges(labels, Relabel(labels, loser, winner), left, right)
  {
    assert winner in {labels[left], labels[right]} && loser in {labels[left], labels[right]};
    assert labels[left] in {winner, loser} && labels[right] in {winner, loser};
  }

  lemma UnchangedMerges(labels: seq<nat>, left: nat, right: nat)
    requires left < |labels| && right < |labels| && labels[left] == labels[right]
    ensures Merges(labels, labels, left, right)
  {
  }

  function SaturatingIncrement(value: u8): (next: u8) {
    if value == U8_MAX then value else value + 1
  }

  class UnionFind {
    var parent: seq<nat>
    var rank: seq<u8>

    ghost predicate Valid()
      reads this
    {
      Sound(parent, rank)
    }

    /** The class label of every node: the root it leads to. */
    ghost function Labelling(): (labels: seq<nat>)
      requires Valid()
      reads this
      ensures |labels| == |parent|
    {
      Roots(parent, rank)
    }

    lemma LabelsInRange()
      requires Valid()
      ensures forall i :: 0 <= i < |parent| ==> Labelling()[i] < |parent|
    {
    }

    constructor (length: nat)
      requires length <= U64_MAX
      ensures Valid()
      ensures Labelling() == seq(length, i => i)
    {
      parent := seq(length, i => i);
      rank := seq(length, i => 0);
      new;
      Discrete(parent, rank);
    }

    method Push()
      requires Valid() && |parent| < U64_MAX
      modifies this
      ensures Valid()
      ensures Labelling() == old(Labelling()) + [old(|parent|)]
    {
      Append(parent, rank);
      parent := parent + [|parent|];
      rank := rank + [0];
    }

    method Find(node: nat) returns (root: nat)
      requires Valid() && node < |parent|
      modifies this`parent
      ensures Valid()
      ensures Labelling() == old(Labelling())
      ensures root == Labelling()[node] && root < |parent| && parent[root] == root
    {
      ghost var labels := Roots(parent, rank);
      root := node;
      while parent[root] != root
        invariant Sound(parent, rank) && Roots(parent, rank) == labels
        invariant root < |parent| && labels[root] == labels[node]
        decreases U8_MAX - rank[root]
      {
        ParentSharesRoot(parent, rank, root);
        root := parent[root];
      }

      var current: nat := node;
      while parent[current] != current
        invariant Sound(parent, rank) && Roots(parent, rank) == labels
        invariant root == labels[node] && root < |parent| && parent[root] == root
        invariant current < |parent| && labels[current] == root
        decreases U8_MAX - rank[current]
      {
        var next: nat := parent[current];
        ParentSharesRoot(parent, rank, current);
        Compress(parent, rank, current);
        parent := parent[current := root];
        current := next;
      }
    }

    method Connected(left: nat, right: nat) returns (same: bool)
      requires Valid() && left < |parent| && right < |parent|
      modifies this`parent
      ensures Valid()
      ensures Labelling() == old(Labelling())
      ensures same <==> Labelling()[left] == Labelling()[right]
    {
      var leftRoot := Find(left);
      var rightRoot := Find(right);
      same := leftRoot == rightRoot;
    }

    method Union(left: nat, right: nat)
      requires Valid() && left < |parent| && right < |parent|
      modifies this
      ensures Valid()
      ensures Merges(old(Labelling()), Labelling(), left, right)
    {
      ghost var labels := Labelling();
      var leftRoot := Find(left);
      var rightRoot := Find(right);
      if leftRoot == rightRoot {
        UnchangedMerges(labels, left, right);
        return;
      }
      if rank[leftRoot] < rank[rightRoot] {
        leftRoot, rightRoot := rightRoot, leftRoot;
      }
      RelabelMerges(labels, left, right, leftRoot, rightRoot);
      Attach(leftRoot, rightRoot);
    }

    /** Hang one root below another of no smaller rank. */
    method Attach(winner: nat, loser: nat)
      requires Valid() && winner < |parent| && loser < |parent| && winner != loser
      requires parent[winner] == winner && parent[loser] == loser && rank[loser] <= rank[winner]
      modifies this
      ensures Valid() && Labelling() == Relabel(old(Labelling()), loser, winner)
    {
      RankBound(parent, rank, winner);
      LinkSound(parent, rank, winner, loser);
      parent := parent[loser := winner];
      if rank[winner] == rank[loser] {
        rank := rank[winner := SaturatingIncrement(rank[winner])];
      } else {
        assert rank == rank[winner := rank[winner]];
      }
    }
  }
}
