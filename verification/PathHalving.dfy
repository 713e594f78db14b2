/** The benchmark's own union-find: a dictionary of parents, path halving, and the smaller root wins. */
module PathHalving {
  import opened Sorting
  import opened Connectivity
  import opened Components
  import opened Grouping

  type Parents = map<nat, nat>

  /** The parent of `v` is known and no larger, and the two end in the same root. */
  ghost predicate Steps(parent: Parents, labels: map<nat, nat>, v: nat) {
    && v in parent && v in labels
    && parent[v] in parent && parent[v] in labels
    && parent[v] <= v && labels[v] <= v && labels[v] in labels
    && labels[v] == if parent[v] == v then v else labels[parent[v]]
  }

  /** Parents never point upwards, so following them ends; `labels` names the value each chain ends in. */
  ghost predicate Sound(parent: Parents, labels: map<nat, nat>) {
    && labels.Keys == parent.Keys
    && (forall v {:trigger Steps(parent, labels, v)} :: v in parent ==> Steps(parent, labels, v))
  }

  /** Skipping to the grandparent changes no root. */
  lemma Halve(parent: Parents, labels: map<nat, nat>, v: nat)
    requires Sound(parent, labels) && v in parent
    ensures parent[v] in parent && Sound(parent[v := parent[parent[v]]], labels)
  {
    assert Steps(parent, labels, v) && Steps(parent, labels, parent[v]);
    var after := parent[v := parent[parent[v]]];
    forall x | x in after
      ensures Steps(after, labels, x)
    {
      assert Steps(parent, labels, x);
    }
  }

  lemma RootOfItself(parent: Parents, labels: map<nat, nat>, v: nat)
    requires Sound(parent, labels) && v in labels && labels[v] == v
    ensures parent[v] == v
  {
    assert Steps(parent, labels, v) && Steps(parent, labels, parent[v]);
  }

  lemma AddLone(parent: Parents, labels: map<nat, nat>, v: nat)
    requires Sound(parent, labels) && v !in parent
    ensures Sound(parent[v := v], labels[v := v])
  {
    var after, grown := parent[v := v], labels[v := v];
    forall x | x in after
      ensures Steps(after, grown, x)
    {
      if x != v {
        assert Steps(parent, labels, x);
      }
    }
  }

  ghost function Relabel(labels: map<nat, nat>, from: nat, to: nat): (after: map<nat, nat>)
    ensures after.Keys == labels.Keys
    ensures forall v {:trigger after[v]} :: v in labels ==> after[v] == if labels[v] == from then to else labels[v]
  {
    map v | v in labels :: if labels[v] == from then to else labels[v]
  }

  lemma LinkRoots(parent: Parents, labels: map<nat, nat>, low: nat, high: nat)
    requires Sound(parent, labels) && low in parent && high in parent && low <= high
    requires parent[low] == low && parent[high] == high
    ensures Sound(parent[high := low], Relabel(labels, high, low))
  {
    var after, merged := parent[high := low], Relabel(labels, high, low);
    assert Steps(parent, labels, low) && Steps(parent, labels, high);
    forall x | x in after
      ensures Steps(after, merged, x)
    {
      assert Steps(parent, labels, x);
    }
  }

  /** Values share a root only if the edges connect them. */
  ghost predicate Explained(labels: map<nat, nat>, edges: Edges) {
    forall x, y {:trigger Connected(edges, x, y)} ::
      x in labels && y in labels && labels[x] == labels[y] ==> Connected(edges, x, y)
  }

  lemma LoneExplained(parent: Parents, labels: map<nat, nat>, v: nat, edges: Edges)
    requires Sound(parent, labels) && v !in parent && Explained(labels, edges)
    ensures Explained(labels[v := v], edges)
  {
    forall x | x in labels
      ensures labels[x] != v
    {
      assert Steps(parent, labels, x);
    }
    Reflexive(edges, v);
  }

  lemma LinkExplained(labels: map<nat, nat>, left: nat, right: nat, from: nat, to: nat, edges: Edges)
    requires Explained(labels, edges) && left in labels && right in labels && Adjacent(edges, left, right)
    requires (from == labels[left] && to == labels[right]) || (from == labels[right] && to == labels[left])
    ensures Explained(Relabel(labels, from, to), edges)
  {
    var after := Relabel(labels, from, to);
    AdjacentConnected(edges, left, right);
    AdjacentConnected(edges, right, left);
    forall x, y | x in after && y in after && after[x] == after[y]
      ensures Connected(edges, x, y)
    {
      if labels[x] == labels[left] && labels[y] == labels[right] {
        Transitive(edges, x, left, right);
        Transitive(edges, x, right, y);
      } else if labels[x] == labels[right] && labels[y] == labels[left] {
        Transitive(edges, x, right, left);
        Transitive(edges, x, left, y);
      } else {
        assert labels[x] == labels[y];
      }
    }
  }

  /** Both ends are known and share a root. */
  ghost predicate Paired(labels: map<nat, nat>, pair: (nat, nat)) {
    pair.0 in labels && pair.1 in labels && labels[pair.0] == labels[pair.1]
  }

  /** Whatever shared a root before still does. */
  ghost predicate Keeps(before: map<nat, nat>, after: map<nat, nat>) {
    forall p :: Paired(before, p) ==> Paired(after, p)
  }

  lemma RelabelKeeps(before: map<nat, nat>, labels: map<nat, nat>, from: nat, to: nat)
    requires before.Keys <= labels.Keys && forall v :: v in before ==> labels[v] == before[v]
    ensures Keeps(before, Relabel(labels, from, to))
  {
  }

  lemma LinkStep(parent: Parents, labels: map<nat, nat>, left: nat, right: nat, low: nat, high: nat, edges: Edges)
    requires Sound(parent, labels) && Explained(labels, edges) && Adjacent(edges, left, right)
    requires left in labels && right in labels && low in labels && high in labels && low <= high
    requires labels[low] == low && labels[high] == high
    requires (low == labels[left] && high == labels[right]) || (low == labels[right] && high == labels[left])
    ensures Sound(parent[high := low], Relabel(labels, high, low))
    ensures Explained(Relabel(labels, high, low), edges)
    ensures Paired(Relabel(labels, high, low), (left, right))
  {
    RootOfItself(parent, labels, low);
    RootOfItself(parent, labels, high);
    LinkRoots(parent, labels, low, high);
    LinkExplained(labels, left, right, high, low, edges);
  }

  /** The root a value has, or will have once it is added. */
  ghost function RootOf(labels: map<nat, nat>, v: nat): nat {
    if v in labels then labels[v] else v
  }

  class HalvingForest {
    var parent: Parents
    ghost var labels: map<nat, nat>

    ghost predicate Valid(edges: Edges)
      reads this
    {
      Sound(parent, labels) && Explained(labels, edges)
    }

    constructor (ghost edges: Edges)
      ensures Valid(edges) && labels == map[]
    {
      parent := map[];
      labels := map[];
    }

    /** Look a value up, adding it alone if it is new, and halve the path walked. */
    method Find(value: nat, ghost edges: Edges) returns (root: nat)
      requires Valid(edges)
      modifies this
      ensures Valid(edges)
      ensures labels == if value in old(labels) then old(labels) else old(labels)[value := value]
      ensures value in labels && root == labels[value] && root in labels && labels[root] == root
    {
      if value !in parent {
        LoneExplained(parent, labels, value, edges);
        AddLone(parent, labels, value);
        parent := parent[value := value];
        labels := labels[value := value];
      }
      ghost var fixed := labels;
      root := value;
      while parent[root] != root
        invariant Sound(parent, labels) && labels == fixed
        invariant value in parent && root in parent && root in labels && value in labels
        invariant labels[root] == labels[value]
        decreases root
      {
        Halve(parent, labels, root);
        assert Steps(parent, labels, root) && Steps(parent, labels, parent[root]);
        parent := parent[root := parent[parent[root]]];
        root := parent[root];
      }
      assert Steps(parent, labels, root);
    }

    /** Join two values that an edge connects; the larger root is hung under the smaller. */
    method Link(left: nat, right: nat, ghost edges: Edges)
      requires Valid(edges) && Adjacent(edges, left, right)
      modifies this
      ensures Valid(edges)
      ensures labels.Keys == old(labels).Keys + {left, right}
      ensures Paired(labels, (left, right)) && Keeps(old(labels), labels)
      ensures
        var a, b := RootOf(old(labels), left), RootOf(old(labels), right);
        var low, high := if a < b then a else b, if a < b then b else a;
        && high in parent && parent[high] == low && labels[left] == low
        && (forall v :: v in old(labels) ==> labels[v] == if old(labels)[v] == high then low else old(labels)[v])
    {
      var a := Find(left, edges);
      var b := Find(right, edges);
      var low, high := if a < b then a else b, if a < b then b else a;
      LinkStep(parent, labels, left, right, low, high, edges);
      RelabelKeeps(old(labels), labels, high, low);
      parent := parent[high := low];
      labels := Relabel(labels, high, low);
    }
  }

  function SortPairs(pairs: seq<(nat, nat)>): seq<(nat, nat)> {
    Sort(pairs, (p: (nat, nat), q: (nat, nat)) => LexLeq([p.0, p.1], [q.0, q.1]))
  }

  ghost predicate AllPaired(labels: map<nat, nat>, pairs: seq<(nat, nat)>) {
    forall p :: p in pairs ==> Paired(labels, p)
  }

  method LinkAll(forest: HalvingForest, pairs: seq<(nat, nat)>)
    requires forest.Valid(EdgeSet(pairs)) && forest.labels == map[]
    modifies forest
    ensures forest.Valid(EdgeSet(pairs))
    ensures forest.labels.Keys == Touched(EdgeSet(pairs))
    ensures AllPaired(forest.labels, pairs)
  {
    ghost var edges := EdgeSet(pairs);
    var i := 0;
    while i < |pairs|
      invariant 0 <= i <= |pairs|
      invariant forest.Valid(edges)
      invariant forest.labels.Keys == Touched(EdgeSet(pairs[..i]))
      invariant AllPaired(forest.labels, pairs[..i])
    {
      TouchedStep(pairs, i);
      assert pairs[i] in edges;
      forest.Link(pairs[i].0, pairs[i].1, edges);
      assert pairs[..i + 1] == pairs[..i] + [pairs[i]];
      i := i + 1;
    }
    assert pairs[..|pairs|] == pairs;
  }

  /** Values are visited in dictionary order; only the grouping by root matters. */
  method GatherGroups(forest: HalvingForest, ghost edges: Edges) returns (groups: map<nat, seq<nat>>)
    requires forest.Valid(edges)
    modifies forest
    ensures forest.Valid(edges) && forest.labels == old(forest.labels)
    ensures ByRoot(groups, forest.labels)
  {
    groups := map[];
    ghost var visited: map<nat, nat> := map[];
    var remaining := forest.parent.Keys;
    while remaining != {}
      invariant forest.Valid(edges) && forest.labels == old(forest.labels)
      invariant remaining <= forest.labels.Keys && visited == forest.labels - remaining
      invariant ByRoot(groups, visited)
      decreases remaining
    {
      var value: nat :| value in remaining;
      var root := forest.Find(value, edges);
      ByRootStep(groups, visited, root, value);
      groups := groups[root := (if root in groups then groups[root] else []) + [value]];
      remaining := remaining - {value};
      assert visited[value := root] == forest.labels - remaining;
      visited := visited[value := root];
    }
    assert visited == forest.labels;
  }

  /** The components of at least two values, as sorted tuples in sorted order. */
  method PairComponents(pairs: seq<(nat, nat)>) returns (components: seq<seq<nat>>)
    ensures ClassList(components, ComponentsOf(Touched(EdgeSet(pairs)), EdgeSet(pairs)), 2)
  {
    var sorted := SortPairs(pairs);
    SortPermutes(pairs, (p: (nat, nat), q: (nat, nat)) => LexLeq([p.0, p.1], [q.0, q.1]));
    SameElements(sorted, pairs);
    ghost var edges := EdgeSet(pairs);
    assert EdgeSet(sorted) == edges;
    var forest := new HalvingForest(edges);
    LinkAll(forest, sorted);
    ghost var labels := forest.labels;
    assert forall e :: e in edges ==> Paired(labels, e);
    assert forall x, y :: x in labels && y in labels && labels[x] == labels[y] ==> Connected(edges, x, y);
    LabelsSeparate(labels, edges);
    var groups := GatherGroups(forest, edges);
    var lists := SelectClasses(groups, 2, labels);
    FibersPartition(labels);
    SortedClasses(lists, Fibers(labels), 2);
    components := SortLists(lists);
  }
}
