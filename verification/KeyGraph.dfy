/**
 * The graph whose components the index groups by: live keys, joined when they
 * share a bucket and the verifier accepts them. Union-find runs over internal
 * ids; these lemmas carry its labels over to keys.
 */
module KeyGraph {
  import opened Words
  import opened Banding
  import opened IndexState
  import opened Connectivity
  import opened Components
  import opened UnionFinding

  type Verifier = (nat, nat) -> bool

  /** How a bucket pass joins its members: pair by pair through a verifier, or all to one live anchor. */
  datatype Pass = Pairwise(verify: Verifier) | ByAnchor {
    function Check(): Verifier {
      if Pairwise? then verify else (a: nat, b: nat) => true
    }
  }

  function OrderedPair(left: nat, right: nat): (nat, nat) {
    if left <= right then (left, right) else (right, left)
  }

  function Verified(verify: Verifier, left: nat, right: nat): bool {
    verify(OrderedPair(left, right).0, OrderedPair(left, right).1)
  }

  /** Normalised pairs of live keys that share a bucket and pass the verifier. */
  ghost function KeyEdges(contents: map<nat, seq<nat>>, verify: Verifier): Edges {
    set a, b | a in contents && b in contents && a < b && Collide(contents[a], contents[b]) && verify(a, b)
      :: (a, b)
  }

  /** The verifier of the unverified routes. */
  const AnyPair: Verifier := (a, b) => true

  /** Each live key with its component in the verified key graph. */
  ghost function KeyComponents(contents: map<nat, seq<nat>>, verify: Verifier): Classes {
    ComponentsOf(contents.Keys, KeyEdges(contents, verify))
  }

  lemma SameEdges(contents: map<nat, seq<nat>>, left: Verifier, right: Verifier)
    requires forall a, b :: left(a, b) == right(a, b)
    ensures KeyEdges(contents, left) == KeyEdges(contents, right)
  {
  }

  /** Distinct nodes may share a label only if both are live and their keys are connected. */
  ghost predicate Linked(idToKey: seq<Option<nat>>, edges: Edges, i: nat, j: nat)
    requires i < |idToKey| && j < |idToKey|
  {
    i == j || (idToKey[i].Some? && idToKey[j].Some? && Connected(edges, idToKey[i].value, idToKey[j].value))
  }

  ghost predicate Explained(labels: seq<nat>, idToKey: seq<Option<nat>>, edges: Edges) {
    && |labels| == |idToKey|
    && (forall i, j :: 0 <= i < |labels| && 0 <= j < |labels| && labels[i] == labels[j] ==>
          Linked(idToKey, edges, i, j))
  }

  lemma LinkedTransitive(idToKey: seq<Option<nat>>, edges: Edges, i: nat, j: nat, k: nat)
    requires i < |idToKey| && j < |idToKey| && k < |idToKey|
    requires Linked(idToKey, edges, i, j) && Linked(idToKey, edges, j, k)
    ensures Linked(idToKey, edges, i, k)
  {
    if i != j && j != k && i != k {
      Transitive(edges, idToKey[i].value, idToKey[j].value, idToKey[k].value);
    }
  }

  /** Merging the classes of two linked nodes adds no unexplained label. */
  lemma MergeExplained(before: seq<nat>, after: seq<nat>, left: nat, right: nat,
                       idToKey: seq<Option<nat>>, edges: Edges)
    requires left < |before| && right < |before| && Merges(before, after, left, right)
    requires Explained(before, idToKey, edges)
    requires Linked(idToKey, edges, left, right) && Linked(idToKey, edges, right, left)
    ensures Explained(after, idToKey, edges)
  {
    forall i: nat, j: nat | i < |after| && j < |after| && after[i] == after[j]
      ensures Linked(idToKey, edges, i, j)
    {
      if before[i] == before[left] && before[j] == before[right] {
        LinkedTransitive(idToKey, edges, i, left, right);
        LinkedTransitive(idToKey, edges, i, right, j);
      } else if before[i] == before[right] && before[j] == before[left] {
        LinkedTransitive(idToKey, edges, i, right, left);
        LinkedTransitive(idToKey, edges, i, left, j);
      }
    }
  }

  /** Later labels only join classes. */
  ghost predicate Coarser(before: seq<nat>, after: seq<nat>) {
    && |after| == |before|
    && (forall i, j {:trigger after[i], after[j]} ::
          0 <= i < |before| && 0 <= j < |before| && before[i] == before[j] ==>
          after[i] == after[j])
  }

  ghost predicate Accepted(idToKey: seq<Option<nat>>, verify: Verifier, a: nat, b: nat) {
    && a < |idToKey| && b < |idToKey|
    && idToKey[a].Some? && idToKey[b].Some?
    && Verified(verify, idToKey[a].value, idToKey[b].value)
  }

  /** Every accepted pair of the bucket already shares a label. */
  ghost predicate BucketDone(labels: seq<nat>, idToKey: seq<Option<nat>>, verify: Verifier, ids: seq<nat>)
    requires |labels| == |idToKey|
  {
    forall l, r {:trigger ids[l], ids[r]} :: 0 <= l < r < |ids| && Accepted(idToKey, verify, ids[l], ids[r]) ==>
      labels[ids[l]] == labels[ids[r]]
  }

  lemma BucketStaysDone(before: seq<nat>, after: seq<nat>, idToKey: seq<Option<nat>>, verify: Verifier, ids: seq<nat>)
    requires |before| == |idToKey| && Coarser(before, after)
    requires BucketDone(before, idToKey, verify, ids)
    ensures BucketDone(after, idToKey, verify, ids)
  {
  }

  ghost predicate TableDone(labels: seq<nat>, idToKey: seq<Option<nat>>, verify: Verifier, table: Table)
    requires |labels| == |idToKey|
  {
    forall hash :: hash in table ==> BucketDone(labels, idToKey, verify, table[hash])
  }

  lemma TableStaysDone(before: seq<nat>, after: seq<nat>, idToKey: seq<Option<nat>>, verify: Verifier, table: Table)
    requires |before| == |idToKey| && Coarser(before, after)
    requires TableDone(before, idToKey, verify, table)
    ensures TableDone(after, idToKey, verify, table)
  {
    forall hash | hash in table
      ensures BucketDone(after, idToKey, verify, table[hash])
    {
      BucketStaysDone(before, after, idToKey, verify, table[hash]);
    }
  }

  /** The members of one bucket that the verifier accepts are joined by an edge. */
  lemma BucketEdges(s: State, bands: nat, verify: Verifier, band: nat, hash: nat)
    requires Consistent(s, bands) && band < bands && hash in s.buckets[band]
    ensures Bridged(s.idToKey, KeyEdges(View(s, bands), verify), verify, s.buckets[band][hash])
  {
    var ids := s.buckets[band][hash];
    var contents := View(s, bands);
    assert TableMatches(s.buckets[band], s.bandHashes, band);
    forall l, r | 0 <= l < r < |ids|
      ensures ids[l] < |s.idToKey| && ids[r] < |s.idToKey| && s.idToKey[ids[l]].Some? && s.idToKey[ids[r]].Some?
      ensures Accepted(s.idToKey, verify, ids[l], ids[r]) ==>
              Adjacent(KeyEdges(contents, verify), s.idToKey[ids[l]].value, s.idToKey[ids[r]].value)
    {
      assert Stored(s.bandHashes, band, hash, ids[l]) && Stored(s.bandHashes, band, hash, ids[r]);
      var x, y := s.idToKey[ids[l]].value, s.idToKey[ids[r]].value;
      assert x != y;
      assert contents[x][band] == hash && contents[y][band] == hash;
      assert Collide(contents[x], contents[y]) && Collide(contents[y], contents[x]);
    }
    forall id | id in ids
      ensures id < |s.idToKey|
    {
      assert Stored(s.bandHashes, band, hash, id);
    }
  }

  ghost predicate Bridged(idToKey: seq<Option<nat>>, edges: Edges, verify: Verifier, ids: seq<nat>) {
    && (forall id :: id in ids ==> id < |idToKey|)
    && (forall l, r {:trigger ids[l], ids[r]} :: 0 <= l < r < |ids| && Accepted(idToKey, verify, ids[l], ids[r]) ==>
          Adjacent(edges, idToKey[ids[l]].value, idToKey[ids[r]].value))
  }

  /** Once every table is done, an edge joins nodes of one label. */
  lemma EdgeShared(s: State, bands: nat, verify: Verifier, labels: seq<nat>, x: nat, y: nat)
    requires Consistent(s, bands) && |labels| == |s.idToKey|
    requires forall band :: 0 <= band < bands ==> TableDone(labels, s.idToKey, verify, s.buckets[band])
    requires (x, y) in KeyEdges(View(s, bands), verify)
    ensures labels[s.keyToId[x]] == labels[s.keyToId[y]]
  {
    var i, j := s.keyToId[x], s.keyToId[y];
    var band :| 0 <= band < bands && View(s, bands)[x][band] == View(s, bands)[y][band];
    var hash := s.bandHashes[i].value[band];
    assert TableMatches(s.buckets[band], s.bandHashes, band);
    assert Stored(s.bandHashes, band, hash, i) && Stored(s.bandHashes, band, hash, j);
    var ids := s.buckets[band][hash];
    assert BucketDone(labels, s.idToKey, verify, ids);
    var l :| 0 <= l < |ids| && ids[l] == i;
    var r :| 0 <= r < |ids| && ids[r] == j;
    assert l != r;
    assert Accepted(s.idToKey, verify, i, j) && Accepted(s.idToKey, verify, j, i);
  }

  /** The label of each live key. */
  ghost function KeyLabels(keyToId: map<nat, nat>, labels: seq<nat>): map<nat, nat>
    requires forall key :: key in keyToId ==> keyToId[key] < |labels|
  {
    map key | key in keyToId :: labels[keyToId[key]]
  }

  /** A finished pass over all buckets separates exactly the connected components of the key graph. */
  lemma LabelsAreComponents(s: State, bands: nat, verify: Verifier, labels: seq<nat>)
    requires Consistent(s, bands)
    requires Explained(labels, s.idToKey, KeyEdges(View(s, bands), verify))
    requires forall band :: 0 <= band < bands ==> TableDone(labels, s.idToKey, verify, s.buckets[band])
    ensures Fibers(KeyLabels(s.keyToId, labels)) ==
            ComponentsOf(View(s, bands).Keys, KeyEdges(View(s, bands), verify))
  {
    var edges := KeyEdges(View(s, bands), verify);
    var keyLabels := KeyLabels(s.keyToId, labels);
    forall x, y | x in keyLabels && y in keyLabels && keyLabels[x] == keyLabels[y]
      ensures Connected(edges, x, y)
    {
      assert Linked(s.idToKey, edges, s.keyToId[x], s.keyToId[y]);
      Reflexive(edges, x);
    }
    forall e | e in edges
      ensures e.0 in keyLabels && e.1 in keyLabels && keyLabels[e.0] == keyLabels[e.1]
    {
      EdgeShared(s, bands, verify, labels, e.0, e.1);
    }
    LabelsSeparate(keyLabels, edges);
    assert keyLabels.Keys == View(s, bands).Keys;
  }

  lemma MergeCoarsens(before: seq<nat>, after: seq<nat>, left: nat, right: nat)
    requires left < |before| && right < |before| && Merges(before, after, left, right)
    ensures Coarser(before, after) && after[left] == after[right]
  {
  }

  lemma CoarserTransitive(first: seq<nat>, second: seq<nat>, third: seq<nat>)
    requires Coarser(first, second) && Coarser(second, third)
    ensures Coarser(first, third)
  {
    assert forall i, j :: 0 <= i < |first| && 0 <= j < |first| && first[i] == first[j] ==> second[i] == second[j];
  }

  lemma AdjacentLinked(idToKey: seq<Option<nat>>, edges: Edges, i: nat, j: nat)
    requires i < |idToKey| && j < |idToKey| && idToKey[i].Some? && idToKey[j].Some?
    requires Adjacent(edges, idToKey[i].value, idToKey[j].value)
    ensures Linked(idToKey, edges, i, j) && Linked(idToKey, edges, j, i)
  {
    AdjacentConnected(edges, idToKey[i].value, idToKey[j].value);
    AdjacentConnected(edges, idToKey[j].value, idToKey[i].value);
  }

  /** A forest of lone nodes explains its labels. */
  lemma LoneExplained(labels: seq<nat>, idToKey: seq<Option<nat>>, edges: Edges)
    requires |labels| == |idToKey| && forall i :: 0 <= i < |labels| ==> labels[i] == i
    ensures Explained(labels, idToKey, edges)
  {
  }

  /** Live slots in id order, each with its key. */
  function LiveMembers(idToKey: seq<Option<nat>>): seq<(nat, nat)> {
    if idToKey == [] then []
    else
      var last := |idToKey| - 1;
      LiveMembers(idToKey[..last]) +
      if idToKey[last].Some? then [(last, idToKey[last].value)] else []
  }
}
