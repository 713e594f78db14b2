/** Bucket statistics: exact membership counts, and the conservation law they obey. */
module Statistics {
  import opened Words
  import opened Sorting
  import opened IndexState
  import opened LshIndexing
  import opened BackendState
  import opened Backend

  function Sum(sizes: seq<nat>): nat {
    if sizes == [] then 0 else Sum(sizes[..|sizes| - 1]) + sizes[|sizes| - 1]
  }

  function SaturatingAdd(a: nat, b: nat): nat {
    if a + b > U64_MAX then U64_MAX else a + b
  }

  /** The running total of `from_sizes`, clamped to 64 bits. */
  method Memberships(sizes: seq<nat>) returns (total: nat)
    ensures total == if Sum(sizes) > U64_MAX then U64_MAX else Sum(sizes)
  {
    total := 0;
    var i := 0;
    while i < |sizes|
      invariant 0 <= i <= |sizes|
      invariant total == if Sum(sizes[..i]) > U64_MAX then U64_MAX else Sum(sizes[..i])
    {
      assert sizes[..i + 1][..i] == sizes[..i];
      total := SaturatingAdd(total, sizes[i]);
      i := i + 1;
    }
    assert sizes[..|sizes|] == sizes;
  }

  // ---- In-memory index ----

  /** Live items whose hash in `band` is one of `hashes`. */
  ghost function LiveIn(records: IndexState.Records, band: nat, hashes: set<nat>): set<nat> {
    set id: nat | id < |records| && records[id].Some? && band < |records[id].value| && records[id].value[band] in hashes
  }

  lemma LiveInOne(records: IndexState.Records, band: nat, hash: nat, ids: seq<nat>)
    requires BucketMatches(ids, records, band, hash)
    ensures |LiveIn(records, band, {hash})| == |ids|
  {
    forall id: nat
      ensures id in ids <==> id in LiveIn(records, band, {hash})
    {
      assert id in ids <==> Stored(records, band, hash, id);
    }
    AscendingSize(ids, LiveIn(records, band, {hash}));
  }

  lemma LiveInStep(records: IndexState.Records, band: nat, hashes: set<nat>, hash: nat, ids: seq<nat>)
    requires BucketMatches(ids, records, band, hash) && hash !in hashes
    ensures |LiveIn(records, band, hashes + {hash})| == |LiveIn(records, band, hashes)| + |ids|
  {
    LiveInOne(records, band, hash, ids);
    LiveInDisjoint(records, band, hashes, hash);
  }

  lemma LiveInDisjoint(records: IndexState.Records, band: nat, hashes: set<nat>, hash: nat)
    requires hash !in hashes
    ensures |LiveIn(records, band, hashes + {hash})| ==
            |LiveIn(records, band, hashes)| + |LiveIn(records, band, {hash})|
  {
    var old', one := LiveIn(records, band, hashes), LiveIn(records, band, {hash});
    assert LiveIn(records, band, hashes + {hash}) == old' + one;
    assert old' !! one;
  }

  ghost function LiveIds(idToKey: seq<Option<nat>>): set<nat> {
    set id: nat | id < |idToKey| && idToKey[id].Some?
  }

  lemma LiveIdsSplit(idToKey: seq<Option<nat>>)
    requires idToKey != []
    ensures
      var last := |idToKey| - 1;
      |LiveIds(idToKey)| == |LiveIds(idToKey[..last])| + if idToKey[last].Some? then 1 else 0
  {
    var last := |idToKey| - 1;
    assert LiveIds(idToKey) == LiveIds(idToKey[..last]) + if idToKey[last].Some? then {last} else {};
  }

  lemma KeysMatchRest(keyToId: map<nat, nat>, idToKey: seq<Option<nat>>)
    requires KeysMatch(keyToId, idToKey) && idToKey != []
    ensures
      var last := |idToKey| - 1;
      if idToKey[last].Some?
      then idToKey[last].value in keyToId && KeysMatch(keyToId - {idToKey[last].value}, idToKey[..last])
      else KeysMatch(keyToId, idToKey[..last])
  {
  }

  /** There are as many live ids as live keys. */
  lemma {:induction false} LiveCount(keyToId: map<nat, nat>, idToKey: seq<Option<nat>>)
    requires KeysMatch(keyToId, idToKey)
    ensures |LiveIds(idToKey)| == |keyToId|
    decreases |idToKey|
  {
    if idToKey == [] {
      assert keyToId.Keys == {};
    } else {
      var last := |idToKey| - 1;
      LiveIdsSplit(idToKey);
      KeysMatchRest(keyToId, idToKey);
      if idToKey[last].Some? {
        RemovedCount(keyToId, {idToKey[last].value});
        LiveCount(keyToId - {idToKey[last].value}, idToKey[..last]);
      } else {
        LiveCount(keyToId, idToKey[..last]);
      }
    }
  }

  lemma AllLiveIn(s: State, bands: nat, band: nat)
    requires Consistent(s, bands) && band < bands
    ensures LiveIn(s.bandHashes, band, s.buckets[band].Keys) == LiveIds(s.idToKey)
  {
    assert TableMatches(s.buckets[band], s.bandHashes, band);
    forall id: nat | id in LiveIds(s.idToKey)
      ensures id in LiveIn(s.bandHashes, band, s.buckets[band].Keys)
    {
      assert Stored(s.bandHashes, band, s.bandHashes[id].value[band], id);
    }
  }

  lemma {:induction false} SumAppend(sizes: seq<nat>, size: nat)
    ensures Sum(sizes + [size]) == Sum(sizes) + size
  {
    assert (sizes + [size])[..|sizes|] == sizes;
  }

  /** Sizes of one table's buckets, in hash-map order. */
  method BucketSizes(table: Table, records: IndexState.Records, band: nat) returns (sizes: seq<nat>)
    requires TableMatches(table, records, band)
    ensures Sum(sizes) == |LiveIn(records, band, table.Keys)|
    ensures forall size :: size in sizes ==> size > 0
  {
    sizes := [];
    var remaining := table.Keys;
    while remaining != {}
      invariant remaining <= table.Keys
      invariant Sum(sizes) == |LiveIn(records, band, table.Keys - remaining)|
      invariant forall size :: size in sizes ==> size > 0
      decreases remaining
    {
      var hash: nat :| hash in remaining;
      LiveInStep(records, band, table.Keys - remaining, hash, table[hash]);
      SumAppend(sizes, |table[hash]|);
      assert table.Keys - remaining + {hash} == table.Keys - (remaining - {hash});
      sizes := sizes + [|table[hash]|];
      remaining := remaining - {hash};
    }
    assert table.Keys - {} == table.Keys;
  }

  /** The buckets of one band are non-empty and together count every live item once. */
  method TableSizes(index: IndexData, band: nat) returns (sizes: seq<nat>)
    requires index.Valid() && band < |index.buckets|
    ensures Sum(sizes) == |index.Contents()|
    ensures forall size :: size in sizes ==> size > 0
  {
    sizes := BucketSizes(index.buckets[band], index.bandHashes, band);
    AllLiveIn(index.Snapshot(), |index.buckets|, band);
    LiveCount(index.keyToId, index.idToKey);
    assert index.Contents().Keys == index.keyToId.Keys;
  }

  lemma {:induction false} SumConcat(left: seq<nat>, right: seq<nat>)
    ensures Sum(left + right) == Sum(left) + Sum(right)
    decreases |right|
  {
    if right == [] {
      assert left + right == left;
    } else {
      var last := |right| - 1;
      SumConcat(left, right[..last]);
      assert (left + right)[..|left + right| - 1] == left + right[..last];
    }
  }

  lemma OneMore(a: nat, b: nat)
    ensures (a + 1) * b == a * b + b
  {
  }

  lemma SquareFits(a: nat, b: nat)
    requires a <= U32_MAX && b <= U32_MAX
    ensures a * b <= U64_MAX
  {
    assert a * b <= a * U32_MAX <= U32_MAX * U32_MAX;
  }

  method AllSizes(index: IndexData) returns (all: seq<nat>)
    requires index.Valid()
    ensures Sum(all) == |index.buckets| * |index.Contents()|
    ensures forall size :: size in all ==> size > 0
  {
    all := [];
    ghost var items := |index.Contents()|;
    var band := 0;
    while band < |index.buckets|
      invariant 0 <= band <= |index.buckets|
      invariant Sum(all) == band * items && forall size :: size in all ==> size > 0
    {
      var sizes := TableSizes(index, band);
      SumConcat(all, sizes);
      OneMore(band, items);
      all := all + sizes;
      band := band + 1;
    }
  }

  lemma ProductFits(s: State, bands: nat)
    requires Consistent(s, bands) && bands <= U32_MAX
    ensures bands * |View(s, bands)| <= U64_MAX
  {
    var items := |View(s, bands)|;
    KeyCount(s.keyToId, s.idToKey);
    assert View(s, bands).Keys == s.keyToId.Keys;
    SquareFits(bands, items);
  }

  /** Every live item is a member of exactly one bucket per band; the 64-bit total never saturates. */
  method IndexMemberships(index: IndexData) returns (memberships: nat)
    requires index.Valid() && |index.buckets| <= U32_MAX
    ensures memberships == |index.buckets| * |index.Contents()|
  {
    var all := AllSizes(index);
    memberships := Memberships(all);
    ProductFits(index.Snapshot(), |index.buckets|);
  }

  // ---- Storage backend ----

  /** Keys paired with the bands in which they hash to one of the given buckets. */
  ghost function Placements(records: BackendState.Records, bands: nat, buckets: set<BucketKey>): set<(nat, nat)> {
    set key, band |
      key in records && 0 <= band < bands && band < |records[key]| && (band, records[key][band]) in buckets
      :: (key, band)
  }

  ghost function PairedWith(keys: set<nat>, band: nat): set<(nat, nat)> {
    set key | key in keys :: (key, band)
  }

  lemma {:induction false} PairedSize(keys: set<nat>, band: nat)
    ensures |PairedWith(keys, band)| == |keys|
  {
    if keys == {} {
      assert PairedWith(keys, band) == {};
    } else {
      var key :| key in keys;
      PairedSize(keys - {key}, band);
      assert PairedWith(keys, band) == PairedWith(keys - {key}, band) + {(key, band)};
    }
  }

  lemma PlacementsStep(records: BackendState.Records, bands: nat, done: set<BucketKey>, bucket: BucketKey,
                       members: set<nat>)
    requires SetMatches(members, records, bucket) && bucket !in done && bucket.0 < bands
    ensures |Placements(records, bands, done + {bucket})| == |Placements(records, bands, done)| + |members|
  {
    PairedSize(members, bucket.0);
    assert forall key :: key in members <==> Holds(records, bucket, key);
    assert Placements(records, bands, done + {bucket}) ==
           Placements(records, bands, done) + PairedWith(members, bucket.0);
  }

  ghost function Grid(keys: set<nat>, bands: nat): set<(nat, nat)> {
    set key, band | key in keys && 0 <= band < bands :: (key, band)
  }

  lemma {:induction false} GridSize(keys: set<nat>, bands: nat)
    ensures |Grid(keys, bands)| == bands * |keys|
    decreases bands
  {
    if bands == 0 {
      assert Grid(keys, bands) == {};
    } else {
      GridSize(keys, bands - 1);
      PairedSize(keys, bands - 1);
      assert Grid(keys, bands) == Grid(keys, bands - 1) + PairedWith(keys, bands - 1);
    }
  }

  lemma AllPlaced(buckets: BucketSets, records: BackendState.Records, bands: nat)
    requires Indexed(buckets, records) && forall key :: key in records ==> |records[key]| == bands
    ensures |Placements(records, bands, buckets.Keys)| == bands * |records|
  {
    GridSize(records.Keys, bands);
    forall key, band | key in records && 0 <= band < bands
      ensures (band, records[key][band]) in buckets
    {
      assert Holds(records, (band, records[key][band]), key);
    }
    forall p: (nat, nat)
      ensures p in Placements(records, bands, buckets.Keys) <==> p in Grid(records.Keys, bands)
    {
      if p in Grid(records.Keys, bands) {
        assert p == (p.0, p.1) && (p.1, records[p.0][p.1]) in buckets.Keys;
      }
    }
    assert Placements(records, bands, buckets.Keys) == Grid(records.Keys, bands);
  }

  /** The same law for the backend: total bucket memberships are bands times live items, if they fit in 64 bits. */
  method BackendMemberships(backend: MemoryBackend) returns (r: Result<nat, BackendError>)
    requires backend.Valid()
    ensures r == if backend.descriptor.None? then Err(NotFound)
                 else if backend.descriptor.value.bands * |backend.records| > U64_MAX then Err(TooManyMemberships)
                 else Ok(backend.descriptor.value.bands * |backend.records|)
    ensures forall bucket :: bucket in backend.buckets ==> backend.buckets[bucket] != {}
  {
    if backend.descriptor.None? {
      return Err(NotFound);
    }
    ghost var bands := backend.descriptor.value.bands;
    AllPlaced(backend.buckets, backend.records, bands);
    var memberships := 0;
    var remaining := backend.buckets.Keys;
    while remaining != {}
      invariant remaining <= backend.buckets.Keys && memberships <= U64_MAX
      invariant memberships == |Placements(backend.records, bands, backend.buckets.Keys - remaining)|
      decreases remaining
    {
      var bucket: BucketKey :| bucket in remaining;
      var members := backend.buckets[bucket];
      ghost var done := backend.buckets.Keys - remaining;
      assert SetMatches(members, backend.records, bucket);
      var key :| key in members;
      assert Holds(backend.records, bucket, key);
      PlacementsStep(backend.records, bands, done, bucket, members);
      assert done + {bucket} == backend.buckets.Keys - (remaining - {bucket});
      if memberships + |members| > U64_MAX {
        PlacementsGrow(backend.records, bands, done + {bucket}, backend.buckets.Keys);
        return Err(TooManyMemberships);
      }
      memberships := memberships + |members|;
      remaining := remaining - {bucket};
    }
    assert backend.buckets.Keys - remaining == backend.buckets.Keys;
    return Ok(memberships);
  }

  lemma PlacementsGrow(records: BackendState.Records, bands: nat, few: set<BucketKey>, many: set<BucketKey>)
    requires few <= many
    ensures |Placements(records, bands, few)| <= |Placements(records, bands, many)|
  {
    var less, more := Placements(records, bands, few), Placements(records, bands, many);
    assert less <= more;
    assert more == less + (more - less);
  }
}
