/** Grouping by union-find: bucket passes with and without a verifier, and the collection of components. */
module Grouping {
  import opened Words
  import opened Sorting
  import opened IndexState
  import opened LshIndexing
  import opened Connectivity
  import opened Components
  import opened UnionFinding
  import opened KeyGraph

  datatype DuplicateGroup = DuplicateGroup(representative: nat, members: seq<nat>)

  ghost function MembersOf(groups: seq<DuplicateGroup>): (lists: seq<seq<nat>>)
    ensures |lists| == |groups| && forall i :: 0 <= i < |groups| ==> lists[i] == groups[i].members
  {
    seq(|groups|, i requires 0 <= i < |groups| => groups[i].members)
  }

  /** The class list of a partition, each class represented by its smallest member. */
  ghost predicate DefaultGroups(groups: seq<DuplicateGroup>, classes: Classes, minimum: nat) {
    && ClassList(MembersOf(groups), classes, minimum)
    && (forall i :: 0 <= i < |groups| ==>
          groups[i].members != [] && groups[i].representative == groups[i].members[0])
  }

  // ---- Collecting components ----

  /** The label of each member key whose node the forest knows. */
  ghost function MemberLabels(members: seq<(nat, nat)>, labels: seq<nat>): map<nat, nat> {
    if members == [] then map[]
    else
      var last := |members| - 1;
      var earlier := MemberLabels(members[..last], labels);
      if members[last].0 < |labels| then earlier[members[last].1 := labels[members[last].0]] else earlier
  }

  ghost predicate DistinctKeys(members: seq<(nat, nat)>) {
    forall i, j :: 0 <= i < j < |members| ==> members[i].1 != members[j].1
  }

  ghost predicate HasKey(members: seq<(nat, nat)>, key: nat) {
    exists i :: 0 <= i < |members| && members[i].1 == key
  }

  lemma {:induction false} MemberLabelKeys(members: seq<(nat, nat)>, labels: seq<nat>, key: nat)
    requires key in MemberLabels(members, labels)
    ensures HasKey(members, key)
  {
    var last := |members| - 1;
    if key in MemberLabels(members[..last], labels) {
      MemberLabelKeys(members[..last], labels, key);
      var i :| 0 <= i < |members[..last]| && members[..last][i].1 == key;
      assert members[i].1 == key;
    }
  }

  /** Keys gathered under their roots: each list holds one fiber of the labelling. */
  ghost predicate ByRoot(byRoot: map<nat, seq<nat>>, keyLabels: map<nat, nat>) {
    && (forall root :: root in byRoot ==>
          byRoot[root] != [] && Distinct(byRoot[root]) &&
          forall x :: x in byRoot[root] <==> x in Fiber(keyLabels, root))
    && (forall x :: x in keyLabels ==> keyLabels[x] in byRoot)
  }

  lemma ByRootStep(byRoot: map<nat, seq<nat>>, keyLabels: map<nat, nat>, root: nat, key: nat)
    requires ByRoot(byRoot, keyLabels) && key !in keyLabels
    ensures ByRoot(byRoot[root := (if root in byRoot then byRoot[root] else []) + [key]], keyLabels[key := root])
  {
    var after := byRoot[root := (if root in byRoot then byRoot[root] else []) + [key]];
    forall r | r in after
      ensures after[r] != [] && Distinct(after[r])
      ensures forall x :: x in after[r] <==> x in Fiber(keyLabels[key := root], r)
    {
      if r in byRoot {
        assert key !in Fiber(keyLabels, r);
      }
    }
  }

  method GatherByRoot(unionFind: UnionFind, members: seq<(nat, nat)>) returns (byRoot: map<nat, seq<nat>>)
    requires unionFind.Valid() && DistinctKeys(members)
    modifies unionFind`parent
    ensures unionFind.Valid() && unionFind.Labelling() == old(unionFind.Labelling())
    ensures ByRoot(byRoot, MemberLabels(members, unionFind.Labelling()))
  {
    ghost var labels := unionFind.Labelling();
    byRoot := map[];
    var i := 0;
    while i < |members|
      invariant 0 <= i <= |members|
      invariant unionFind.Valid() && unionFind.Labelling() == labels
      invariant ByRoot(byRoot, MemberLabels(members[..i], labels))
    {
      var (id, key) := members[i];
      assert members[..i + 1][..i] == members[..i];
      if id < |unionFind.parent| {
        if key in MemberLabels(members[..i], labels) {
          MemberLabelKeys(members[..i], labels, key);
          assert false;
        }
        var root := unionFind.Find(id);
        ByRootStep(byRoot, MemberLabels(members[..i], labels), root, key);
        byRoot := byRoot[root := (if root in byRoot then byRoot[root] else []) + [key]];
      }
      i := i + 1;
    }
    assert members[..|members|] == members;
  }

  lemma SortedFiber(values: seq<nat>, keyLabels: map<nat, nat>, root: nat, minimum: nat)
    requires values != [] && Distinct(values)
    requires forall x :: x in values <==> x in Fiber(keyLabels, root)
    ensures |values| == |Fiber(keyLabels, root)|
    ensures forall x :: x in SortKeys(values) <==> x in Fiber(keyLabels, root)
    ensures minimum <= |values| ==> IsClass(SortKeys(values), Fibers(keyLabels), minimum)
  {
    SortKeysAscending(values);
    AscendingListIs(SortKeys(values), Fiber(keyLabels, root));
    assert SortKeys(values)[0] in Fiber(keyLabels, root);
  }

  /** The classes whose roots are no longer ahead. */
  ghost predicate Selected(lists: seq<seq<nat>>, remaining: set<nat>, keyLabels: map<nat, nat>, minimum: nat) {
    && Distinct(lists)
    && (forall list :: list in lists ==> IsClass(list, Fibers(keyLabels), minimum))
    && (forall list, x :: list in lists && x in list ==> x in keyLabels && keyLabels[x] !in remaining)
    && (forall x :: x in keyLabels && keyLabels[x] !in remaining && minimum <= |Fiber(keyLabels, keyLabels[x])| ==>
          exists list :: list in lists && x in list)
  }

  lemma SelectStep(lists: seq<seq<nat>>, remaining: set<nat>, root: nat, sorted: seq<nat>, keyLabels: map<nat, nat>,
                   minimum: nat)
    requires Selected(lists, remaining, keyLabels, minimum) && root in remaining
    requires IsClass(sorted, Fibers(keyLabels), minimum)
    requires forall x :: x in sorted <==> x in Fiber(keyLabels, root)
    ensures Selected(lists + [sorted], remaining - {root}, keyLabels, minimum)
  {
    assert sorted !in lists by {
      assert sorted[0] in sorted && keyLabels[sorted[0]] in remaining;
    }
    var all := lists + [sorted];
    assert sorted in all && forall list :: list in lists ==> list in all;
  }

  lemma SkipStep(lists: seq<seq<nat>>, remaining: set<nat>, root: nat, keyLabels: map<nat, nat>, minimum: nat)
    requires Selected(lists, remaining, keyLabels, minimum) && |Fiber(keyLabels, root)| < minimum
    ensures Selected(lists, remaining - {root}, keyLabels, minimum)
  {
  }

  /** The roots come in an arbitrary order, as a hash map yields them. */
  method SelectClasses(byRoot: map<nat, seq<nat>>, minimum: nat, ghost keyLabels: map<nat, nat>)
    returns (lists: seq<seq<nat>>)
    requires ByRoot(byRoot, keyLabels)
    ensures Gathered(lists, Fibers(keyLabels), minimum)
  {
    lists := [];
    var remaining := byRoot.Keys;
    while remaining != {}
      invariant remaining <= byRoot.Keys
      invariant Selected(lists, remaining, keyLabels, minimum)
      decreases remaining
    {
      var root :| root in remaining;
      var values := byRoot[root];
      SortedFiber(values, keyLabels, root, minimum);
      if minimum <= |values| {
        var sorted := SortKeys(values);
        SelectStep(lists, remaining, root, sorted, keyLabels, minimum);
        lists := lists + [sorted];
      } else {
        SkipStep(lists, remaining, root, keyLabels, minimum);
      }
      remaining := remaining - {root};
    }
  }

  method CollectComponents(unionFind: UnionFind, members: seq<(nat, nat)>, minSize: nat)
    returns (components: seq<seq<nat>>)
    requires unionFind.Valid() && DistinctKeys(members)
    modifies unionFind`parent
    ensures unionFind.Valid() && unionFind.Labelling() == old(unionFind.Labelling())
    ensures ClassList(components, Fibers(MemberLabels(members, unionFind.Labelling())), minSize)
  {
    var minimum := if minSize < 1 then 1 else minSize;
    var byRoot := GatherByRoot(unionFind, members);
    ghost var keyLabels := MemberLabels(members, unionFind.Labelling());
    var lists := SelectClasses(byRoot, minimum, keyLabels);
    FibersPartition(keyLabels);
    SortedClasses(lists, Fibers(keyLabels), minimum);
    components := SortLists(lists);
    ClassListOfNonempty(components, Fibers(keyLabels), minSize);
  }

  function SortGroups(groups: seq<DuplicateGroup>): seq<DuplicateGroup> {
    Sort(groups, (a: DuplicateGroup, b: DuplicateGroup) =>
           LexLeq([a.representative] + a.members, [b.representative] + b.members))
  }

  lemma DefaultGroupsOrdered(groups: seq<DuplicateGroup>)
    requires HeadsAscend(MembersOf(groups))
    requires forall i :: 0 <= i < |groups| ==>
               groups[i].members != [] && groups[i].representative == groups[i].members[0]
    ensures SortGroups(groups) == groups
  {
    forall i, j | 0 <= i < j < |groups|
      ensures LexLeq([groups[i].representative] + groups[i].members, [groups[j].representative] + groups[j].members)
    {
      assert MembersOf(groups)[i][0] < MembersOf(groups)[j][0];
    }
    SortOrdered(groups, (a: DuplicateGroup, b: DuplicateGroup) =>
                  LexLeq([a.representative] + a.members, [b.representative] + b.members));
  }

  method CollectDefaultGroups(unionFind: UnionFind, members: seq<(nat, nat)>, minSize: nat)
    returns (groups: seq<DuplicateGroup>)
    requires unionFind.Valid() && DistinctKeys(members)
    modifies unionFind`parent
    ensures unionFind.Valid() && unionFind.Labelling() == old(unionFind.Labelling())
    ensures DefaultGroups(groups, Fibers(MemberLabels(members, unionFind.Labelling())), minSize)
  {
    var components := CollectComponents(unionFind, members, minSize);
    groups := [];
    var i := 0;
    while i < |components|
      invariant 0 <= i <= |components| && |groups| == i
      invariant forall j :: 0 <= j < i ==>
                  components[j] != [] && groups[j] == DuplicateGroup(components[j][0], components[j])
    {
      assert components[i] != [];
      groups := groups + [DuplicateGroup(components[i][0], components[i])];
      i := i + 1;
    }
    assert MembersOf(groups) == components;
    DefaultGroupsOrdered(groups);
    groups := SortGroups(groups);
  }

  /** Pairs of an id and its key, by ascending id. */
  ghost predicate Enumerates(members: seq<(nat, nat)>, idToKey: seq<Option<nat>>) {
    && (forall i :: 0 <= i < |members| ==>
          members[i].0 < |idToKey| && idToKey[members[i].0] == Some(members[i].1))
    && (forall i, j :: 0 <= i < j < |members| ==> members[i].0 < members[j].0)
  }

  lemma {:induction false} LiveMembersAre(idToKey: seq<Option<nat>>)
    ensures Enumerates(LiveMembers(idToKey), idToKey)
  {
    if idToKey != [] {
      var last := |idToKey| - 1;
      LiveMembersAre(idToKey[..last]);
      var earlier := LiveMembers(idToKey[..last]);
      assert Enumerates(earlier, idToKey) && forall i :: 0 <= i < |earlier| ==> earlier[i].0 < last;
      if idToKey[last].Some? {
        assert LiveMembers(idToKey) == earlier + [(last, idToKey[last].value)];
      } else {
        assert LiveMembers(idToKey) == earlier;
      }
    }
  }

  /** `keyLabels` labels the keys whose ids are below `n`. */
  ghost predicate PrefixLabels(keyLabels: map<nat, nat>, keyToId: map<nat, nat>, labels: seq<nat>, n: nat) {
    && (forall key :: key in keyLabels <==> key in keyToId && keyToId[key] < n)
    && (forall key :: key in keyLabels ==> keyToId[key] < |labels| && keyLabels[key] == labels[keyToId[key]])
  }

  lemma {:induction false} MemberLabelsAppend(members: seq<(nat, nat)>, member: (nat, nat), labels: seq<nat>)
    requires member.0 < |labels|
    ensures MemberLabels(members + [member], labels) == MemberLabels(members, labels)[member.1 := labels[member.0]]
  {
    assert (members + [member])[..|members|] == members;
  }

  lemma LiveMembersSplit(idToKey: seq<Option<nat>>, n: nat)
    requires n < |idToKey|
    ensures LiveMembers(idToKey[..n + 1]) ==
            LiveMembers(idToKey[..n]) + if idToKey[n].Some? then [(n, idToKey[n].value)] else []
  {
    assert idToKey[..n + 1][..n] == idToKey[..n];
  }

  lemma PrefixLabelsStep(keyLabels: map<nat, nat>, keyToId: map<nat, nat>, idToKey: seq<Option<nat>>,
                         labels: seq<nat>, n: nat)
    requires KeysMatch(keyToId, idToKey) && |labels| == |idToKey| && n < |idToKey|
    requires PrefixLabels(keyLabels, keyToId, labels, n)
    ensures PrefixLabels(if idToKey[n].Some? then keyLabels[idToKey[n].value := labels[n]] else keyLabels,
                         keyToId, labels, n + 1)
  {
  }

  lemma {:induction false} LiveMembersLabelled(keyToId: map<nat, nat>, idToKey: seq<Option<nat>>, labels: seq<nat>,
                                               n: nat)
    requires KeysMatch(keyToId, idToKey) && |labels| == |idToKey| && n <= |idToKey|
    ensures PrefixLabels(MemberLabels(LiveMembers(idToKey[..n]), labels), keyToId, labels, n)
    decreases n
  {
    if n > 0 {
      LiveMembersLabelled(keyToId, idToKey, labels, n - 1);
      var earlier := LiveMembers(idToKey[..n - 1]);
      PrefixLabelsStep(MemberLabels(earlier, labels), keyToId, idToKey, labels, n - 1);
      LiveMembersSplit(idToKey, n - 1);
      if idToKey[n - 1].Some? {
        MemberLabelsAppend(earlier, (n - 1, idToKey[n - 1].value), labels);
      } else {
        assert earlier + [] == earlier;
      }
    }
  }

  /** Labels of live members are labels of keys. */
  lemma {:induction false} LiveMemberLabels(keyToId: map<nat, nat>, idToKey: seq<Option<nat>>, labels: seq<nat>)
    requires KeysMatch(keyToId, idToKey) && |labels| == |idToKey|
    ensures DistinctKeys(LiveMembers(idToKey))
    ensures MemberLabels(LiveMembers(idToKey), labels) == KeyLabels(keyToId, labels)
  {
    LiveMembersAre(idToKey);
    LiveMembersLabelled(keyToId, idToKey, labels, |idToKey|);
    assert idToKey[..|idToKey|] == idToKey;
  }

  // ---- Bucket passes ----

  /** Join one colliding pair unless it is already connected, dead, or refused. */
  method UnionPair(unionFind: UnionFind, idToKey: seq<Option<nat>>, left: nat, right: nat,
                   verify: Verifier, ghost edges: Edges)
    requires unionFind.Valid() && Explained(unionFind.Labelling(), idToKey, edges)
    requires left < |idToKey| && right < |idToKey|
    requires Accepted(idToKey, verify, left, right) ==> Adjacent(edges, idToKey[left].value, idToKey[right].value)
    modifies unionFind
    ensures unionFind.Valid() && Explained(unionFind.Labelling(), idToKey, edges)
    ensures Coarser(old(unionFind.Labelling()), unionFind.Labelling())
    ensures Accepted(idToKey, verify, left, right) ==> unionFind.Labelling()[left] == unionFind.Labelling()[right]
  {
    ghost var labels := unionFind.Labelling();
    var same := unionFind.Connected(left, right);
    if same || idToKey[left].None? || idToKey[right].None? {
      return;
    }
    var (leftKey, rightKey) := OrderedPair(idToKey[left].value, idToKey[right].value);
    if verify(leftKey, rightKey) {
      AdjacentLinked(idToKey, edges, left, right);
      unionFind.Union(left, right);
      MergeExplained(labels, unionFind.Labelling(), left, right, idToKey, edges);
      MergeCoarsens(labels, unionFind.Labelling(), left, right);
    }
  }

  /** Pairs of one bucket in the nested-loop order. */
  method UnionBucket(unionFind: UnionFind, idToKey: seq<Option<nat>>, ids: seq<nat>,
                     verify: Verifier, ghost edges: Edges)
    requires unionFind.Valid() && Explained(unionFind.Labelling(), idToKey, edges)
    requires Bridged(idToKey, edges, verify, ids)
    modifies unionFind
    ensures unionFind.Valid() && Explained(unionFind.Labelling(), idToKey, edges)
    ensures Coarser(old(unionFind.Labelling()), unionFind.Labelling())
    ensures BucketDone(unionFind.Labelling(), idToKey, verify, ids)
  {
    ghost var start := unionFind.Labelling();
    var leftIndex := 0;
    while leftIndex < |ids|
      invariant 0 <= leftIndex <= |ids|
      invariant unionFind.Valid() && Explained(unionFind.Labelling(), idToKey, edges)
      invariant Coarser(start, unionFind.Labelling())
      invariant PairsDone(unionFind.Labelling(), idToKey, verify, ids, leftIndex, leftIndex + 1)
    {
      var rightIndex := leftIndex + 1;
      while rightIndex < |ids|
        invariant leftIndex < rightIndex <= |ids|
        invariant unionFind.Valid() && Explained(unionFind.Labelling(), idToKey, edges)
        invariant Coarser(start, unionFind.Labelling())
        invariant PairsDone(unionFind.Labelling(), idToKey, verify, ids, leftIndex, rightIndex)
      {
        ghost var labels := unionFind.Labelling();
        assert ids[leftIndex] in ids && ids[rightIndex] in ids;
        UnionPair(unionFind, idToKey, ids[leftIndex], ids[rightIndex], verify, edges);
        PairStep(start, labels, unionFind.Labelling(), idToKey, verify, ids, leftIndex, rightIndex);
        rightIndex := rightIndex + 1;
      }
      leftIndex := leftIndex + 1;
    }
  }

  /** All accepted pairs before position `(left, right)` of the nested loops share a label. */
  ghost predicate PairsDone(labels: seq<nat>, idToKey: seq<Option<nat>>, verify: Verifier,
                            ids: seq<nat>, left: nat, right: nat)
    requires |labels| == |idToKey|
  {
    forall l, r {:trigger ids[l], ids[r]} ::
      0 <= l < r < |ids| && (l < left || (l == left && r < right)) && Accepted(idToKey, verify, ids[l], ids[r]) ==>
        labels[ids[l]] == labels[ids[r]]
  }

  lemma PairStep(start: seq<nat>, before: seq<nat>, after: seq<nat>, idToKey: seq<Option<nat>>, verify: Verifier,
                 ids: seq<nat>, left: nat, right: nat)
    requires |before| == |idToKey| && Coarser(start, before) && Coarser(before, after) && left < right < |ids|
    requires ids[left] < |idToKey| && ids[right] < |idToKey|
    requires PairsDone(before, idToKey, verify, ids, left, right)
    requires Accepted(idToKey, verify, ids[left], ids[right]) ==> after[ids[left]] == after[ids[right]]
    ensures Coarser(start, after) && PairsDone(after, idToKey, verify, ids, left, right + 1)
  {
    CoarserTransitive(start, before, after);
  }

  /** Join every live member of a bucket to its first live member. */
  method UnionBucketByAnchor(unionFind: UnionFind, idToKey: seq<Option<nat>>, ids: seq<nat>, ghost edges: Edges)
    requires unionFind.Valid() && Explained(unionFind.Labelling(), idToKey, edges)
    requires Bridged(idToKey, edges, ByAnchor.Check(), ids)
    modifies unionFind
    ensures unionFind.Valid() && Explained(unionFind.Labelling(), idToKey, edges)
    ensures Coarser(old(unionFind.Labelling()), unionFind.Labelling())
    ensures BucketDone(unionFind.Labelling(), idToKey, ByAnchor.Check(), ids)
  {
    ghost var start := unionFind.Labelling();
    var anchor: Option<nat> := None;
    ghost var first := 0;
    var i := 0;
    while i < |ids|
      invariant 0 <= i <= |ids|
      invariant unionFind.Valid() && Explained(unionFind.Labelling(), idToKey, edges)
      invariant Coarser(start, unionFind.Labelling())
      invariant anchor.Some? ==> 0 <= first < i && ids[first] == anchor.value < |idToKey| && idToKey[anchor.value].Some?
      invariant forall k :: 0 <= k < i && ids[k] < |idToKey| && idToKey[ids[k]].Some? ==>
                  anchor.Some? && unionFind.Labelling()[ids[k]] == unionFind.Labelling()[anchor.value]
    {
      var node := ids[i];
      assert node in ids;
      if idToKey[node].Some? {
        if anchor.Some? {
          ghost var labels := unionFind.Labelling();
          assert Accepted(idToKey, ByAnchor.Check(), ids[first], ids[i]);
          AdjacentLinked(idToKey, edges, anchor.value, node);
          unionFind.Union(anchor.value, node);
          MergeExplained(labels, unionFind.Labelling(), anchor.value, node, idToKey, edges);
          MergeCoarsens(labels, unionFind.Labelling(), anchor.value, node);
          CoarserTransitive(start, labels, unionFind.Labelling());
        } else {
          anchor := Some(node);
          first := i;
        }
      }
      i := i + 1;
    }
  }

  /** Any order of the table's buckets, as a hash map yields them. */
  method UnionTable(unionFind: UnionFind, idToKey: seq<Option<nat>>, table: Table,
                    pass: Pass, ghost edges: Edges)
    requires unionFind.Valid() && Explained(unionFind.Labelling(), idToKey, edges)
    requires forall hash :: hash in table ==> Bridged(idToKey, edges, pass.Check(), table[hash])
    modifies unionFind
    ensures unionFind.Valid() && Explained(unionFind.Labelling(), idToKey, edges)
    ensures Coarser(old(unionFind.Labelling()), unionFind.Labelling())
    ensures TableDone(unionFind.Labelling(), idToKey, pass.Check(), table)
  {
    ghost var start := unionFind.Labelling();
    var remaining := table.Keys;
    while remaining != {}
      invariant remaining <= table.Keys
      invariant unionFind.Valid() && Explained(unionFind.Labelling(), idToKey, edges)
      invariant Coarser(start, unionFind.Labelling())
      invariant forall hash :: hash in table && hash !in remaining ==>
                  BucketDone(unionFind.Labelling(), idToKey, pass.Check(), table[hash])
      decreases remaining
    {
      var hash :| hash in remaining;
      ghost var labels := unionFind.Labelling();
      if pass.Pairwise? {
        UnionBucket(unionFind, idToKey, table[hash], pass.verify, edges);
      } else {
        UnionBucketByAnchor(unionFind, idToKey, table[hash], edges);
      }
      CoarserTransitive(start, labels, unionFind.Labelling());
      forall h | h in table && h !in remaining
        ensures BucketDone(unionFind.Labelling(), idToKey, pass.Check(), table[h])
      {
        BucketStaysDone(labels, unionFind.Labelling(), idToKey, pass.Check(), table[h]);
      }
      remaining := remaining - {hash};
    }
  }

  method UnionIndexBuckets(index: IndexData, unionFind: UnionFind, pass: Pass)
    requires index.Valid() && unionFind.Valid()
    requires unionFind.Labelling() == seq(|index.idToKey|, i => i)
    modifies unionFind
    ensures unionFind.Valid() && |unionFind.Labelling()| == |index.idToKey|
    ensures Explained(unionFind.Labelling(), index.idToKey, KeyEdges(index.Contents(), pass.Check()))
    ensures forall band :: 0 <= band < |index.buckets| ==>
              TableDone(unionFind.Labelling(), index.idToKey, pass.Check(), index.buckets[band])
  {
    ghost var edges := KeyEdges(index.Contents(), pass.Check());
    LoneExplained(unionFind.Labelling(), index.idToKey, edges);
    var band := 0;
    while band < |index.buckets|
      invariant 0 <= band <= |index.buckets|
      invariant unionFind.Valid() && Explained(unionFind.Labelling(), index.idToKey, edges)
      invariant forall b :: 0 <= b < band ==>
                  TableDone(unionFind.Labelling(), index.idToKey, pass.Check(), index.buckets[b])
    {
      ghost var labels := unionFind.Labelling();
      forall hash | hash in index.buckets[band]
        ensures Bridged(index.idToKey, edges, pass.Check(), index.buckets[band][hash])
      {
        BucketEdges(index.Snapshot(), |index.buckets|, pass.Check(), band, hash);
      }
      UnionTable(unionFind, index.idToKey, index.buckets[band], pass, edges);
      forall b | 0 <= b < band
        ensures TableDone(unionFind.Labelling(), index.idToKey, pass.Check(), index.buckets[b])
      {
        TableStaysDone(labels, unionFind.Labelling(), index.idToKey, pass.Check(), index.buckets[b]);
      }
      band := band + 1;
    }
  }

  method GroupIndex(index: IndexData, minSize: nat, pass: Pass) returns (groups: seq<DuplicateGroup>)
    requires index.Valid()
    ensures DefaultGroups(groups, KeyComponents(index.Contents(), pass.Check()), minSize)
  {
    var unionFind := new UnionFind(|index.idToKey|);
    UnionIndexBuckets(index, unionFind, pass);
    LiveMemberLabels(index.keyToId, index.idToKey, unionFind.Labelling());
    LabelsAreComponents(index.Snapshot(), |index.buckets|, pass.Check(), unionFind.Labelling());
    groups := CollectDefaultGroups(unionFind, LiveMembers(index.idToKey), minSize);
  }

  /** Verified grouping: exactly the components of the accepted colliding pairs, of at least the minimum size. */
  method DuplicateGroupsWith(index: IndexData, minSize: nat, verify: Verifier) returns (groups: seq<DuplicateGroup>)
    requires index.Valid()
    ensures DefaultGroups(groups, KeyComponents(index.Contents(), verify), minSize)
  {
    groups := GroupIndex(index, minSize, Pairwise(verify));
  }

  /** Unverified grouping through bucket anchors: the components of all colliding pairs, of size two or more. */
  method DuplicateGroups(index: IndexData) returns (groups: seq<DuplicateGroup>)
    requires index.Valid()
    ensures DefaultGroups(groups, KeyComponents(index.Contents(), AnyPair), 2)
  {
    groups := GroupIndex(index, 2, ByAnchor);
    SameEdges(index.Contents(), ByAnchor.Check(), AnyPair);
  }
}
