/**
 * The four cross-linked structures of the in-memory index as one value, the
 * invariant that ties them together, and the abstract map they represent.
 */
module IndexState {
  import opened Words
  import opened Sorting

  type Table = map<nat, seq<nat>>
  type Records = seq<Option<seq<nat>>>

  datatype State = State(
    buckets: seq<Table>,
    keyToId: map<nat, nat>,
    idToKey: seq<Option<nat>>,
    bandHashes: Records)

  /** Item `id` is live and hashes to `hash` in `band`. */
  ghost predicate Stored(records: Records, band: nat, hash: nat, id: nat) {
    && id < |records|
    && records[id].Some?
    && band < |records[id].value|
    && records[id].value[band] == hash
  }

  /** One bucket lists, in ascending order, exactly the live items hashing to it; no bucket is empty. */
  ghost predicate BucketMatches(ids: seq<nat>, records: Records, band: nat, hash: nat) {
    && ids != []
    && Ascending(ids)
    && (forall id :: id in ids <==> Stored(records, band, hash, id))
  }

  ghost predicate TableMatches(table: Table, records: Records, band: nat) {
    && (forall hash :: hash in table ==> BucketMatches(table[hash], records, band, hash))
    && (forall id, hash :: Stored(records, band, hash, id) ==> hash in table)
  }

  ghost predicate KeysMatch(keyToId: map<nat, nat>, idToKey: seq<Option<nat>>) {
    && (forall key :: key in keyToId ==>
          keyToId[key] < |idToKey| && idToKey[keyToId[key]] == Some(key))
    && (forall id :: 0 <= id < |idToKey| && idToKey[id].Some? ==>
          idToKey[id].value in keyToId && keyToId[idToKey[id].value] == id)
  }

  ghost predicate RecordsMatch(idToKey: seq<Option<nat>>, records: Records, bands: nat) {
    && |idToKey| == |records| <= U32_MAX
    && (forall id :: 0 <= id < |records| ==>
          (idToKey[id].Some? <==> records[id].Some?) &&
          (records[id].Some? ==> |records[id].value| == bands))
  }

  ghost predicate Consistent(s: State, bands: nat) {
    && RecordsMatch(s.idToKey, s.bandHashes, bands)
    && KeysMatch(s.keyToId, s.idToKey)
    && |s.buckets| == bands
    && (forall band :: 0 <= band < bands ==> TableMatches(s.buckets[band], s.bandHashes, band))
  }

  /** What the index means: each live key with its stored band hashes. */
  ghost function View(s: State, bands: nat): (view: map<nat, seq<nat>>)
    requires Consistent(s, bands)
  {
    map key | key in s.keyToId :: s.bandHashes[s.keyToId[key]].value
  }

  /** Append an item to the bucket of its hash. */
  function Enter(table: Table, hash: nat, id: nat): Table {
    table[hash := (if hash in table then table[hash] else []) + [id]]
  }

  lemma EnterMatches(table: Table, records: Records, band: nat, hashes: seq<nat>)
    requires TableMatches(table, records, band) && band < |hashes|
    ensures TableMatches(Enter(table, hashes[band], |records|), records + [Some(hashes)], band)
  {
    var after, grown := Enter(table, hashes[band], |records|), records + [Some(hashes)];
    forall hash | hash in after
      ensures BucketMatches(after[hash], grown, band, hash)
    {
      if hash in table {
        assert forall i :: 0 <= i < |table[hash]| ==> Stored(records, band, hash, table[hash][i]);
      }
      forall id: nat
        ensures id in after[hash] <==> Stored(grown, band, hash, id)
      {
        if id < |records| {
          assert Stored(grown, band, hash, id) <==> Stored(records, band, hash, id);
        }
      }
    }
    forall id: nat, hash: nat | Stored(grown, band, hash, id)
      ensures hash in after
    {
      if id < |records| {
        assert Stored(records, band, hash, id);
      }
    }
  }

  function Without(ids: seq<nat>, id: nat): (rest: seq<nat>) {
    if ids == [] then []
    else if ids[0] == id then Without(ids[1..], id)
    else [ids[0]] + Without(ids[1..], id)
  }

  lemma {:induction false} WithoutElements(ids: seq<nat>, id: nat)
    ensures forall x :: x in Without(ids, id) <==> x in ids && x != id
  {
    if ids != [] {
      WithoutElements(ids[1..], id);
      assert ids == [ids[0]] + ids[1..];
    }
  }

  lemma {:induction false} WithoutAscends(ids: seq<nat>, id: nat)
    requires Ascending(ids)
    ensures Ascending(Without(ids, id))
  {
    if ids != [] {
      WithoutAscends(ids[1..], id);
      if ids[0] != id {
        WithoutElements(ids[1..], id);
        AscendingCons(ids[0], Without(ids[1..], id));
      }
    }
  }

  /** Drop an item from the bucket of its hash, and the bucket with it when it becomes empty. */
  function Leave(table: Table, hash: nat, id: nat): Table {
    if hash !in table then table
    else if Without(table[hash], id) == [] then table - {hash}
    else table[hash := Without(table[hash], id)]
  }

  lemma LeaveMatches(table: Table, records: Records, band: nat, id: nat)
    requires TableMatches(table, records, band)
    requires id < |records| && records[id].Some? && band < |records[id].value|
    ensures TableMatches(Leave(table, records[id].value[band], id), records[id := None], band)
  {
    var own := records[id].value[band];
    var after, shrunk := Leave(table, own, id), records[id := None];
    assert Stored(records, band, own, id);
    WithoutElements(table[own], id);
    WithoutAscends(table[own], id);
    forall hash | hash in after
      ensures BucketMatches(after[hash], shrunk, band, hash)
    {
      forall x: nat
        ensures x in after[hash] <==> Stored(shrunk, band, hash, x)
      {
        assert Stored(shrunk, band, hash, x) <==> Stored(records, band, hash, x) && x != id;
      }
    }
    forall x: nat, hash: nat | Stored(shrunk, band, hash, x)
      ensures hash in after
    {
      assert Stored(records, band, hash, x) && x != id;
      if hash == own {
        assert x in Without(table[own], id);
      }
    }
  }

  function EnterAll(buckets: seq<Table>, hashes: seq<nat>, id: nat): (after: seq<Table>)
    requires |buckets| == |hashes|
    ensures |after| == |buckets|
    ensures forall b :: 0 <= b < |buckets| ==> after[b] == Enter(buckets[b], hashes[b], id)
  {
    seq(|buckets|, b requires 0 <= b < |buckets| => Enter(buckets[b], hashes[b], id))
  }

  function LeaveAll(buckets: seq<Table>, hashes: seq<nat>, id: nat): (after: seq<Table>)
    requires |buckets| == |hashes|
    ensures |after| == |buckets|
    ensures forall b :: 0 <= b < |buckets| ==> after[b] == Leave(buckets[b], hashes[b], id)
  {
    seq(|buckets|, b requires 0 <= b < |buckets| => Leave(buckets[b], hashes[b], id))
  }

  function Inserted(s: State, key: nat, hashes: seq<nat>): State
    requires |s.buckets| == |hashes|
  {
    var id := |s.idToKey|;
    State(EnterAll(s.buckets, hashes, id), s.keyToId[key := id],
          s.idToKey + [Some(key)], s.bandHashes + [Some(hashes)])
  }

  /** Inserting a new key keeps the four structures linked and adds one entry to the view. */
  lemma InsertedMatches(s: State, bands: nat, key: nat, hashes: seq<nat>)
    requires Consistent(s, bands) && |hashes| == bands
    requires key !in s.keyToId && |s.idToKey| < U32_MAX
    ensures Consistent(Inserted(s, key, hashes), bands)
    ensures View(Inserted(s, key, hashes), bands) == View(s, bands)[key := hashes]
  {
    var after := Inserted(s, key, hashes);
    forall band | 0 <= band < bands
      ensures TableMatches(after.buckets[band], after.bandHashes, band)
    {
      EnterMatches(s.buckets[band], s.bandHashes, band, hashes);
    }
    assert KeysMatch(after.keyToId, after.idToKey);
    assert RecordsMatch(after.idToKey, after.bandHashes, bands);
  }

  function Removed(s: State, key: nat, bands: nat): State
    requires key in s.keyToId && s.keyToId[key] < |s.idToKey| == |s.bandHashes|
    requires s.bandHashes[s.keyToId[key]].Some?
    requires |s.bandHashes[s.keyToId[key]].value| == bands == |s.buckets|
  {
    var id := s.keyToId[key];
    State(LeaveAll(s.buckets, s.bandHashes[id].value, id), s.keyToId - {key},
          s.idToKey[id := None], s.bandHashes[id := None])
  }

  /** Removing a live key keeps the four structures linked and deletes exactly its entry from the view. */
  lemma RemovedMatches(s: State, bands: nat, key: nat)
    requires Consistent(s, bands) && key in s.keyToId
    ensures Consistent(Removed(s, key, bands), bands)
    ensures View(Removed(s, key, bands), bands) == View(s, bands) - {key}
  {
    var id := s.keyToId[key];
    var after := Removed(s, key, bands);
    forall band | 0 <= band < bands
      ensures TableMatches(after.buckets[band], after.bandHashes, band)
    {
      LeaveMatches(s.buckets[band], s.bandHashes, band, id);
    }
    assert KeysMatch(after.keyToId, after.idToKey);
    assert RecordsMatch(after.idToKey, after.bandHashes, bands);
  }

  /** Live keys need different ids, so there are no more of them than ids. */
  lemma {:induction false} KeyCount(keyToId: map<nat, nat>, idToKey: seq<Option<nat>>)
    requires KeysMatch(keyToId, idToKey)
    ensures |keyToId| <= |idToKey|
    decreases |idToKey|
  {
    if idToKey == [] {
      assert keyToId.Keys == {};
    } else {
      var last := |idToKey| - 1;
      if idToKey[last].Some? {
        var key := idToKey[last].value;
        KeyCount(keyToId - {key}, idToKey[..last]);
        assert (keyToId - {key}).Keys == keyToId.Keys - {key};
        assert |keyToId.Keys| == |keyToId.Keys - {key}| + 1;
      } else {
        KeyCount(keyToId, idToKey[..last]);
      }
    }
  }
}
