/** Grouping an arbitrary stream of key pairs: keys are interned as they appear, and edges are not kept. */
module PairGrouping {
  import opened Words
  import opened Sorting
  import opened IndexState
  import opened Connectivity
  import opened Components
  import opened UnionFinding
  import opened KeyGraph
  import opened Grouping

  function Slots(keys: seq<nat>): (slots: seq<Option<nat>>)
    ensures |slots| == |keys| && forall i :: 0 <= i < |keys| ==> slots[i] == Some(keys[i])
  {
    seq(|keys|, i requires 0 <= i < |keys| => Some(keys[i]))
  }

  lemma {:induction false} DistinctSize(keys: seq<nat>, bound: set<nat>)
    requires Distinct(keys) && forall key :: key in keys ==> key in bound
    ensures |keys| <= |bound|
  {
    if keys != [] {
      var last := |keys| - 1;
      assert keys[last] in keys;
      DistinctSize(keys[..last], bound - {keys[last]});
    }
  }

  lemma RoomToIntern(ids: map<nat, nat>, keys: seq<nat>, key: nat, bound: set<nat>)
    requires KeysMatch(ids, Slots(keys)) && key !in ids && key in bound
    requires forall k :: k in keys ==> k in bound
    ensures |keys| < |bound|
  {
    assert Distinct(keys + [key]);
    DistinctSize(keys + [key], bound);
  }

  lemma PushExplained(labels: seq<nat>, keys: seq<nat>, key: nat, edges: Edges)
    requires Explained(labels, Slots(keys), edges)
    requires forall i :: 0 <= i < |labels| ==> labels[i] < |labels|
    ensures Explained(labels + [|labels|], Slots(keys + [key]), edges)
  {
    var grown, slots := labels + [|labels|], Slots(keys + [key]);
    forall i, j | 0 <= i < |grown| && 0 <= j < |grown| && grown[i] == grown[j]
      ensures Linked(slots, edges, i, j)
    {
      if i < |labels| && j < |labels| {
        assert Linked(Slots(keys), edges, i, j);
      }
    }
  }

  /** Give a key its node, adding a lone one when the key is new. */
  method InternKey(key: nat, ids: map<nat, nat>, keys: seq<nat>, unionFind: UnionFind, ghost edges: Edges)
    returns (id: nat, ids': map<nat, nat>, keys': seq<nat>)
    requires unionFind.Valid() && KeysMatch(ids, Slots(keys))
    requires Explained(unionFind.Labelling(), Slots(keys), edges)
    requires key !in ids ==> |keys| < U64_MAX
    modifies unionFind
    ensures unionFind.Valid() && KeysMatch(ids', Slots(keys'))
    ensures Explained(unionFind.Labelling(), Slots(keys'), edges)
    ensures old(unionFind.Labelling()) <= unionFind.Labelling()
    ensures ids'.Keys == ids.Keys + {key} && ids'[key] == id
    ensures forall k :: k in ids ==> ids'[k] == ids[k]
  {
    if key in ids {
      return ids[key], ids, keys;
    }
    id := |keys|;
    unionFind.LabelsInRange();
    PushExplained(unionFind.Labelling(), keys, key, edges);
    keys' := keys + [key];
    unionFind.Push();
    ids' := ids[key := id];
  }

  /** Both ends of a pair are interned and share a label. */
  ghost predicate Joined(ids: map<nat, nat>, labels: seq<nat>, pair: (nat, nat)) {
    && pair.0 in ids && ids[pair.0] < |labels|
    && pair.1 in ids && ids[pair.1] < |labels|
    && labels[ids[pair.0]] == labels[ids[pair.1]]
  }

  method JoinPair(pair: (nat, nat), ids: map<nat, nat>, keys: seq<nat>, unionFind: UnionFind,
                  ghost edges: Edges, ghost nodes: set<nat>)
    returns (ids': map<nat, nat>, keys': seq<nat>)
    requires unionFind.Valid() && KeysMatch(ids, Slots(keys))
    requires Explained(unionFind.Labelling(), Slots(keys), edges)
    requires pair in edges && ids.Keys <= nodes && {pair.0, pair.1} <= nodes && |nodes| <= U64_MAX
    modifies unionFind
    ensures unionFind.Valid() && KeysMatch(ids', Slots(keys'))
    ensures Explained(unionFind.Labelling(), Slots(keys'), edges)
    ensures ids'.Keys == ids.Keys + {pair.0, pair.1}
    ensures Joined(ids', unionFind.Labelling(), pair)
    ensures Keeps(ids, old(unionFind.Labelling()), ids', unionFind.Labelling())
  {
    RoomFor(ids, keys, pair.0, nodes);
    ghost var start := unionFind.Labelling();
    var leftId, ids1, keys1 := InternKey(pair.0, ids, keys, unionFind, edges);
    RoomFor(ids1, keys1, pair.1, nodes);
    var rightId, ids2, keys2 := InternKey(pair.1, ids1, keys1, unionFind, edges);
    ids', keys' := ids2, keys2;
    ghost var labels := unionFind.Labelling();
    unionFind.Union(leftId, rightId);
    UnionExplained(ids', keys', labels, unionFind.Labelling(), pair, edges);
    KeepsJoined(ids, start, ids', labels, unionFind.Labelling());
  }

  lemma UnionExplained(ids: map<nat, nat>, keys: seq<nat>, before: seq<nat>, after: seq<nat>,
                       pair: (nat, nat), edges: Edges)
    requires KeysMatch(ids, Slots(keys)) && Explained(before, Slots(keys), edges)
    requires pair in edges && pair.0 in ids && pair.1 in ids
    requires Merges(before, after, ids[pair.0], ids[pair.1])
    ensures Explained(after, Slots(keys), edges) && Coarser(before, after) && Joined(ids, after, pair)
  {
    var left, right := ids[pair.0], ids[pair.1];
    AdjacentLinked(Slots(keys), edges, left, right);
    MergeExplained(before, after, left, right, Slots(keys), edges);
    MergeCoarsens(before, after, left, right);
  }

  ghost predicate AllJoined(ids: map<nat, nat>, labels: seq<nat>, pairs: seq<(nat, nat)>) {
    forall p :: p in pairs ==> Joined(ids, labels, p)
  }

  /** Whatever was joined before stays joined. */
  ghost predicate Keeps(ids: map<nat, nat>, labels: seq<nat>, ids': map<nat, nat>, labels': seq<nat>) {
    forall p :: Joined(ids, labels, p) ==> Joined(ids', labels', p)
  }

  lemma KeepsJoined(ids: map<nat, nat>, start: seq<nat>, ids': map<nat, nat>, grown: seq<nat>, merged: seq<nat>)
    requires ids.Keys <= ids'.Keys && (forall k :: k in ids ==> ids'[k] == ids[k])
    requires start <= grown && Coarser(grown, merged)
    ensures Keeps(ids, start, ids', merged)
  {
  }

  lemma AllJoinedStep(ids: map<nat, nat>, labels: seq<nat>, ids': map<nat, nat>, labels': seq<nat>,
                      pairs: seq<(nat, nat)>, i: nat)
    requires i < |pairs| && AllJoined(ids, labels, pairs[..i])
    requires Keeps(ids, labels, ids', labels') && Joined(ids', labels', pairs[i])
    ensures AllJoined(ids', labels', pairs[..i + 1])
  {
    assert pairs[..i + 1] == pairs[..i] + [pairs[i]];
  }

  /** Everything the stream has interned and joined after its first `i` pairs. */
  ghost predicate Streamed(ids: map<nat, nat>, keys: seq<nat>, labels: seq<nat>, pairs: seq<(nat, nat)>, i: nat)
    requires i <= |pairs|
  {
    && KeysMatch(ids, Slots(keys)) && Explained(labels, Slots(keys), EdgeSet(pairs))
    && ids.Keys == Touched(EdgeSet(pairs[..i])) && AllJoined(ids, labels, pairs[..i])
  }

  lemma StreamStarts(pairs: seq<(nat, nat)>)
    ensures Streamed(map[], [], [], pairs, 0)
  {
    assert pairs[..0] == [];
  }

  lemma StreamEnds(ids: map<nat, nat>, keys: seq<nat>, labels: seq<nat>, pairs: seq<(nat, nat)>)
    requires Streamed(ids, keys, labels, pairs, |pairs|)
    ensures KeysMatch(ids, Slots(keys)) && Explained(labels, Slots(keys), EdgeSet(pairs))
    ensures ids.Keys == Touched(EdgeSet(pairs)) && AllJoined(ids, labels, pairs)
  {
    assert pairs[..|pairs|] == pairs;
  }

  method StreamStep(pairs: seq<(nat, nat)>, i: nat, ids: map<nat, nat>, keys: seq<nat>, unionFind: UnionFind)
    returns (ids': map<nat, nat>, keys': seq<nat>)
    requires i < |pairs| && |Touched(EdgeSet(pairs))| <= U64_MAX
    requires unionFind.Valid() && Streamed(ids, keys, unionFind.Labelling(), pairs, i)
    modifies unionFind
    ensures unionFind.Valid() && Streamed(ids', keys', unionFind.Labelling(), pairs, i + 1)
  {
    TouchedStep(pairs, i);
    ghost var labels := unionFind.Labelling();
    ids', keys' := JoinPair(pairs[i], ids, keys, unionFind, EdgeSet(pairs), Touched(EdgeSet(pairs)));
    AllJoinedStep(ids, labels, ids', unionFind.Labelling(), pairs, i);
  }

  method UnionStream(pairs: seq<(nat, nat)>)
    returns (unionFind: UnionFind, keys: seq<nat>, ghost ids: map<nat, nat>)
    requires |Touched(EdgeSet(pairs))| <= U64_MAX
    ensures fresh(unionFind) && unionFind.Valid()
    ensures KeysMatch(ids, Slots(keys)) && ids.Keys == Touched(EdgeSet(pairs))
    ensures Explained(unionFind.Labelling(), Slots(keys), EdgeSet(pairs))
    ensures AllJoined(ids, unionFind.Labelling(), pairs)
  {
    var table: map<nat, nat> := map[];
    keys := [];
    unionFind := new UnionFind(0);
    StreamStarts(pairs);
    var i := 0;
    while i < |pairs|
      invariant 0 <= i <= |pairs|
      invariant fresh(unionFind) && unionFind.Valid() && Streamed(table, keys, unionFind.Labelling(), pairs, i)
    {
      table, keys := StreamStep(pairs, i, table, keys, unionFind);
      i := i + 1;
    }
    ids := table;
    StreamEnds(ids, keys, unionFind.Labelling(), pairs);
  }

  lemma RoomFor(ids: map<nat, nat>, keys: seq<nat>, key: nat, nodes: set<nat>)
    requires KeysMatch(ids, Slots(keys)) && ids.Keys <= nodes && key in nodes && |nodes| <= U64_MAX
    ensures key !in ids ==> |keys| < U64_MAX
  {
    if key !in ids {
      forall k | k in keys
        ensures k in nodes
      {
        var i :| 0 <= i < |keys| && keys[i] == k;
        assert Slots(keys)[i].value in ids;
      }
      RoomToIntern(ids, keys, key, nodes);
    }
  }

  lemma StreamLabels(ids: map<nat, nat>, keys: seq<nat>, labels: seq<nat>, pairs: seq<(nat, nat)>, edges: Edges)
    requires KeysMatch(ids, Slots(keys)) && Explained(labels, Slots(keys), edges)
    requires AllJoined(ids, labels, pairs) && edges == EdgeSet(pairs)
    ensures Fibers(KeyLabels(ids, labels)) == ComponentsOf(ids.Keys, edges)
  {
    var keyLabels := KeyLabels(ids, labels);
    forall x, y | x in keyLabels && y in keyLabels && keyLabels[x] == keyLabels[y]
      ensures Connected(edges, x, y)
    {
      assert Linked(Slots(keys), edges, ids[x], ids[y]);
      Reflexive(edges, x);
    }
    assert forall e :: e in edges ==> Joined(ids, labels, e);
    LabelsSeparate(keyLabels, edges);
    assert keyLabels.Keys == ids.Keys;
  }

  /** Exactly the components of the given pairs over the keys they mention. */
  method GroupPairs(pairs: seq<(nat, nat)>, minSize: nat) returns (groups: seq<DuplicateGroup>)
    requires |Touched(EdgeSet(pairs))| <= U64_MAX
    ensures DefaultGroups(groups, ComponentsOf(Touched(EdgeSet(pairs)), EdgeSet(pairs)), minSize)
  {
    var unionFind, keys, ids := UnionStream(pairs);
    StreamLabels(ids, keys, unionFind.Labelling(), pairs, EdgeSet(pairs));
    LiveMemberLabels(ids, Slots(keys), unionFind.Labelling());
    groups := CollectDefaultGroups(unionFind, LiveMembers(Slots(keys)), minSize);
  }
}
