/** The four ways to group an index agree, in content and in order. */
module Routes {
  import opened Words
  import opened Connectivity
  import opened Components
  import opened IndexState
  import opened LshIndexing
  import opened KeyGraph
  import opened Grouping
  import opened CandidatePairing
  import opened PairGrouping
  import opened PathHalving

  /** A node no edge touches is its own component. */
  lemma Untouched(nodes: set<nat>, edges: Edges, x: nat)
    requires x in nodes && x !in Touched(edges)
    ensures Component(nodes, edges, x) == {x}
  {
    Reflexive(edges, x);
    forall y | Connected(edges, x, y)
      ensures y == x
    {
      assert Closed(edges, {x});
      ConnectedStays(edges, x, y, {x});
    }
  }

  /** Restricting the nodes to the touched ones changes no component of a touched node. */
  lemma TouchedComponent(nodes: set<nat>, edges: Edges, x: nat)
    requires Touched(edges) <= nodes && x in Touched(edges)
    ensures Component(nodes, edges, x) == Component(Touched(edges), edges, x)
  {
    forall y | y in nodes && Connected(edges, x, y)
      ensures y in Touched(edges)
    {
      assert Closed(edges, Touched(edges));
      ConnectedStays(edges, x, y, Touched(edges));
    }
  }

  /** Components of two or more never contain an untouched node. */
  lemma IgnoreUntouched(lists: seq<seq<nat>>, nodes: set<nat>, edges: Edges)
    requires Touched(edges) <= nodes
    requires ClassList(lists, ComponentsOf(Touched(edges), edges), 2)
    ensures ClassList(lists, ComponentsOf(nodes, edges), 2)
  {
    var few, all := ComponentsOf(Touched(edges), edges), ComponentsOf(nodes, edges);
    forall i | 0 <= i < |lists|
      ensures IsClass(lists[i], all, 2)
    {
      assert IsClass(lists[i], few, 2);
      TouchedComponent(nodes, edges, lists[i][0]);
    }
    forall x | x in all && 2 <= |all[x]|
      ensures Listed(lists, x)
    {
      if x in Touched(edges) {
        TouchedComponent(nodes, edges, x);
        assert few[x] == all[x];
      } else {
        Untouched(nodes, edges, x);
      }
    }
  }

  lemma SameGroups(left: seq<DuplicateGroup>, right: seq<DuplicateGroup>, classes: Classes, minimum: nat)
    requires Partition(classes) && DefaultGroups(left, classes, minimum) && DefaultGroups(right, classes, minimum)
    ensures left == right
  {
    ClassListUnique(MembersOf(left), MembersOf(right), classes, minimum);
    forall i | 0 <= i < |left|
      ensures left[i] == right[i]
    {
      assert MembersOf(left)[i] == MembersOf(right)[i];
    }
  }

  lemma KeyEdgesTouchKeys(contents: map<nat, seq<nat>>, verify: Verifier)
    ensures Touched(KeyEdges(contents, verify)) <= contents.Keys
  {
  }

  lemma FewKeys(keyToId: map<nat, nat>, idToKey: seq<Option<nat>>, keys: set<nat>)
    requires KeysMatch(keyToId, idToKey) && |idToKey| <= U32_MAX && keys <= keyToId.Keys
    ensures |keys| <= U32_MAX
  {
    KeyCount(keyToId, idToKey);
    assert keyToId.Keys == keys + (keyToId.Keys - keys);
    assert |keyToId.Keys| == |keys| + |keyToId.Keys - keys|;
  }

  /**
   * Runs all four routes on one index: bucket anchors, the pairwise pass with a
   * verifier that accepts everything, the candidate-pair stream, and the path
   * halving reference on that stream.
   */
  method GroupFourWays(index: IndexData)
    returns (anchored: seq<DuplicateGroup>, verified: seq<DuplicateGroup>,
             streamed: seq<DuplicateGroup>, halved: seq<seq<nat>>)
    requires index.Valid()
    ensures DefaultGroups(anchored, KeyComponents(index.Contents(), AnyPair), 2)
    ensures anchored == verified == streamed
    ensures halved == MembersOf(anchored)
    ensures forall i :: 0 <= i < |anchored| ==>
              |anchored[i].members| >= 2 && anchored[i].representative == anchored[i].members[0]
  {
    ghost var contents := index.Contents();
    ghost var edges, classes := KeyEdges(contents, AnyPair), KeyComponents(contents, AnyPair);
    ComponentsPartition(contents.Keys, edges);
    anchored := DuplicateGroups(index);
    verified := DuplicateGroupsWith(index, 2, AnyPair);
    SameGroups(anchored, verified, classes, 2);
    var pairs := AllCandidatePairs(index);
    assert EdgeSet(pairs) == edges;
    KeyEdgesTouchKeys(contents, AnyPair);
    FewKeys(index.keyToId, index.idToKey, Touched(edges));
    streamed := GroupPairs(pairs, 2);
    IgnoreUntouched(MembersOf(streamed), contents.Keys, edges);
    SameGroups(anchored, streamed, classes, 2);
    halved := PairComponents(pairs);
    IgnoreUntouched(halved, contents.Keys, edges);
    ClassListUnique(halved, MembersOf(anchored), classes, 2);
    assert forall i :: 0 <= i < |anchored| ==> IsClass(MembersOf(anchored)[i], classes, 2);
  }
}
