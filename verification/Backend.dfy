/** The reference storage backend and the LSH index that works through it. */
module Backend {
  import opened Words
  import opened Sorting
  import opened Banding
  import opened IndexSpec
  import opened BackendState

  type StoredItem = (nat, seq<nat>)

  datatype BackendError =
    | NotFound
    | AlreadyExists
    | CorruptData
    | RepeatedKey(key: nat)
    | UnsupportedRetention
    | TooManyMemberships

  datatype BackendIndexError = Lsh(lsh: LshError) | Storage(storage: BackendError)

  /** Every item has one hash per band, and all keys are new and different. */
  ghost predicate Storable(present: set<nat>, bands: nat, items: seq<StoredItem>) {
    && (forall i :: 0 <= i < |items| ==> |items[i].1| == bands && items[i].0 !in present)
    && (forall i, j :: 0 <= i < j < |items| ==> items[i].0 != items[j].0)
  }

  /** The first reason not to store a batch: a wrong number of hashes, or a key already present or repeated. */
  function StoreFaultOf(present: set<nat>, bands: nat, items: seq<StoredItem>): (fault: Option<BackendError>)
    ensures fault.None? <==> Storable(present, bands, items)
    decreases |items|
  {
    if items == [] then None
    else
      var (key, hashes) := items[0];
      StorableTail(present, bands, items);
      if |hashes| != bands then Some(CorruptData)
      else if key in present then Some(RepeatedKey(key))
      else StoreFaultOf(present + {key}, bands, items[1..])
  }

  lemma StorableTail(present: set<nat>, bands: nat, items: seq<StoredItem>)
    requires items != []
    ensures Storable(present, bands, items) <==>
            && |items[0].1| == bands && items[0].0 !in present
            && Storable(present + {items[0].0}, bands, items[1..])
  {
    var tail := items[1..];
    assert forall i :: 1 <= i < |items| ==> items[i] == tail[i - 1];
    if Storable(present + {items[0].0}, bands, tail) && items[0].0 !in present && |items[0].1| == bands {
      forall i, j | 0 <= i < j < |items|
        ensures items[i].0 != items[j].0
      {
        assert items[j] == tail[j - 1];
        if i > 0 {
          assert items[i] == tail[i - 1];
        }
      }
    }
  }

  /** The records after storing a batch, in order. */
  function WithItems(records: Records, items: seq<StoredItem>): Records
    decreases |items|
  {
    if items == [] then records
    else
      var last := |items| - 1;
      WithItems(records, items[..last])[items[last].0 := items[last].1]
  }

  /** The distinct live keys among the given ones. */
  ghost function LiveAmong(keys: seq<nat>, records: Records): set<nat> {
    set key | key in keys && key in records
  }

  lemma LiveAmongStep(keys: seq<nat>, records: Records, i: nat)
    requires i < |keys|
    ensures
      var before, after := LiveAmong(keys[..i], records), LiveAmong(keys[..i + 1], records);
      if keys[i] in records - before
      then |after| == |before| + 1 && records - after == records - before - {keys[i]}
      else after == before
  {
    var before, after := LiveAmong(keys[..i], records), LiveAmong(keys[..i + 1], records);
    assert keys[..i + 1] == keys[..i] + [keys[i]];
    assert after == before + if keys[i] in records then {keys[i]} else {};
  }

  /** The rows so far answer the buckets so far. */
  ghost predicate Answered(rows: seq<seq<nat>>, wanted: seq<BucketKey>, records: map<nat, seq<nat>>) {
    |rows| <= |wanted| && forall i :: 0 <= i < |rows| ==> rows[i] == AscendingList(MembersOf(records, wanted[i]))
  }

  lemma OneMoreAnswer(rows: seq<seq<nat>>, wanted: seq<BucketKey>, records: map<nat, seq<nat>>, row: seq<nat>)
    requires Answered(rows, wanted, records) && |rows| < |wanted|
    requires row == AscendingList(MembersOf(records, wanted[|rows|]))
    ensures Answered(rows + [row], wanted, records)
  {
  }

  class MemoryBackend {
    var descriptor: Option<Config>
    var records: Records
    var buckets: BucketSets

    ghost predicate Valid()
      reads this
    {
      && Indexed(buckets, records)
      && (descriptor.Some? ==> forall key :: key in records ==> |records[key]| == descriptor.value.bands)
      && (descriptor.None? ==> records == map[])
    }

    constructor ()
      ensures Valid() && descriptor == None && records == map[] && buckets == map[]
    {
      descriptor, records, buckets := None, map[], map[];
    }

    /** Memory keeps no lifetimes, so a descriptor that asks for one is refused. */
    method Initialize(config: Config, retention: Option<nat>) returns (r: Result<(), BackendError>)
      requires Valid()
      modifies this
      ensures Valid() && records == old(records)
      ensures r == Err(AlreadyExists) <==> !(old(descriptor).None? && old(records) == map[] && old(buckets) == map[])
      ensures r == Err(UnsupportedRetention) <==> r != Err(AlreadyExists) && retention.Some?
      ensures r.Ok? <==> r != Err(AlreadyExists) && r != Err(UnsupportedRetention)
      ensures descriptor == if r.Ok? then Some(config) else old(descriptor)
    {
      if descriptor.Some? || records != map[] || buckets != map[] {
        return Err(AlreadyExists);
      }
      if retention.Some? {
        return Err(UnsupportedRetention);
      }
      descriptor := Some(config);
      return Ok(());
    }

    method StoreFault(bands: nat, items: seq<StoredItem>) returns (fault: Option<BackendError>)
      ensures fault == StoreFaultOf(records.Keys, bands, items)
    {
      ghost var present := records.Keys;
      var seen: set<nat> := {};
      assert present + seen == present && items[0..] == items;
      var i := 0;
      while i < |items|
        invariant 0 <= i <= |items|
        invariant StoreFaultOf(present, bands, items) == StoreFaultOf(present + seen, bands, items[i..])
      {
        var (key, hashes) := items[i];
        assert items[i..][0] == items[i] && items[i..][1..] == items[i + 1..];
        if |hashes| != bands {
          return Some(CorruptData);
        }
        if key in records || key in seen {
          return Some(RepeatedKey(key));
        }
        assert present + seen + {key} == present + (seen + {key});
        seen := seen + {key};
        i := i + 1;
      }
      return None;
    }

    method Store(key: nat, hashes: seq<nat>)
      requires Valid() && key !in records
      requires descriptor.Some? && |hashes| == descriptor.value.bands
      modifies this`records, this`buckets
      ensures Valid() && records == old(records)[key := hashes]
    {
      ghost var before, stored := buckets, records;
      records := records[key := hashes];
      var band := 0;
      while band < |hashes|
        invariant 0 <= band <= |hashes|
        invariant Joined(before, buckets, key, hashes, band)
        invariant records == stored[key := hashes] && descriptor == old(descriptor)
      {
        JoinStep(before, buckets, key, hashes, band);
        buckets := Join(buckets, (band, hashes[band]), key);
        band := band + 1;
      }
      JoinedIndexed(before, buckets, stored, key, hashes);
    }

    method InsertMany(items: seq<StoredItem>) returns (r: Result<(), BackendError>)
      requires Valid()
      modifies this`records, this`buckets
      ensures Valid()
      ensures r.Ok? <==> descriptor.Some? && Storable(old(records).Keys, descriptor.value.bands, items)
      ensures r.Err? ==> r.error == if descriptor.None? then NotFound
                                    else StoreFaultOf(old(records).Keys, descriptor.value.bands, items).value
      ensures r.Err? ==> records == old(records) && buckets == old(buckets)
      ensures r.Ok? ==> records == WithItems(old(records), items)
    {
      if descriptor.None? {
        return Err(NotFound);
      }
      var fault := StoreFault(descriptor.value.bands, items);
      if fault.Some? {
        return Err(fault.value);
      }
      var i := 0;
      while i < |items|
        invariant 0 <= i <= |items|
        invariant Valid() && descriptor == old(descriptor)
        invariant records == WithItems(old(records), items[..i])
        invariant forall j :: i <= j < |items| ==> items[j].0 !in records
      {
        assert items[..i + 1][..i] == items[..i];
        Store(items[i].0, items[i].1);
        i := i + 1;
      }
      assert items[..|items|] == items;
      return Ok(());
    }

    method QueryBucket(bucket: BucketKey) returns (row: seq<nat>)
      requires Valid()
      ensures row == AscendingList(MembersOf(records, bucket))
    {
      var members := if bucket in buckets then buckets[bucket] else {};
      BucketMembers(buckets, records, bucket);
      row := ListInOrder(members);
    }

    method QueryBuckets(wanted: seq<BucketKey>) returns (rows: seq<seq<nat>>)
      requires Valid()
      ensures |rows| == |wanted|
      ensures forall i :: 0 <= i < |rows| ==> rows[i] == AscendingList(MembersOf(records, wanted[i]))
    {
      rows := [];
      while |rows| < |wanted|
        invariant Answered(rows, wanted, records)
      {
        var row := QueryBucket(wanted[|rows|]);
        OneMoreAnswer(rows, wanted, records, row);
        rows := rows + [row];
      }
    }

    method Delete(key: nat)
      requires Valid() && key in records
      modifies this`records, this`buckets
      ensures Valid() && records == old(records) - {key}
    {
      ghost var before, stored := buckets, records;
      var hashes := records[key];
      records := records - {key};
      var band := 0;
      while band < |hashes|
        invariant 0 <= band <= |hashes|
        invariant Left(before, buckets, key, hashes, band)
        invariant records == stored - {key} && descriptor == old(descriptor)
      {
        QuitStep(before, buckets, key, hashes, band);
        buckets := Quit(buckets, (band, hashes[band]), key);
        band := band + 1;
      }
      LeftIndexed(before, buckets, stored, key);
    }

    /** Returns how many distinct live keys the argument names, each of which is deleted. */
    method DeleteMany(keys: seq<nat>) returns (r: Result<nat, BackendError>)
      requires Valid()
      modifies this`records, this`buckets
      ensures Valid()
      ensures r.Ok? <==> descriptor.Some?
      ensures r.Ok? ==> r.value == |LiveAmong(keys, old(records))|
      ensures records == old(records) - LiveAmong(keys, old(records))
    {
      if descriptor.None? {
        return Err(NotFound);
      }
      var removed := 0;
      var i := 0;
      while i < |keys|
        invariant 0 <= i <= |keys|
        invariant Valid() && descriptor == old(descriptor)
        invariant records == old(records) - LiveAmong(keys[..i], old(records))
        invariant removed == |LiveAmong(keys[..i], old(records))|
      {
        LiveAmongStep(keys, old(records), i);
        if keys[i] in records {
          Delete(keys[i]);
          removed := removed + 1;
        }
        i := i + 1;
      }
      assert keys[..|keys|] == keys;
      return Ok(removed);
    }
  }

  /** The keys whose records hash to a bucket. */
  ghost function MembersOf(records: Records, bucket: BucketKey): set<nat> {
    set key | key in records && Holds(records, bucket, key)
  }

  lemma BucketMembers(buckets: BucketSets, records: Records, bucket: BucketKey)
    requires Indexed(buckets, records)
    ensures MembersOf(records, bucket) == if bucket in buckets then buckets[bucket] else {}
  {
    if bucket in buckets {
      assert SetMatches(buckets[bucket], records, bucket);
    }
  }

  /** What the index stores for a batch of sketches. */
  function StoredItems(config: Config, items: seq<Item>): (stored: seq<StoredItem>)
    requires config.Valid()
    requires forall i :: 0 <= i < |items| ==> Incompatibility(config, items[i].1).None?
    ensures |stored| == |items|
    ensures forall i :: 0 <= i < |items| ==> stored[i] == (items[i].0, BandHashes(config, items[i].1))
  {
    seq(|items|, i requires 0 <= i < |items| => (items[i].0, BandHashes(config, items[i].1)))
  }

  lemma {:induction false} StoredIsAdded(records: Records, config: Config, items: seq<Item>)
    requires config.Valid()
    requires forall i :: 0 <= i < |items| ==> Incompatibility(config, items[i].1).None?
    ensures WithItems(records, StoredItems(config, items)) == Added(records, config, items)
    decreases |items|
  {
    if items != [] {
      var last := |items| - 1;
      StoredIsAdded(records, config, items[..last]);
      assert StoredItems(config, items)[..last] == StoredItems(config, items[..last]);
    }
  }

  /** Splitting the check over two layers rejects exactly the inadmissible batches. */
  lemma StorableIsAdmissible(present: set<nat>, config: Config, items: seq<Item>)
    requires config.Valid() && Admissible({}, config, items)
    ensures Storable(present, config.bands, StoredItems(config, items)) <==> Admissible(present, config, items)
  {
    var stored := StoredItems(config, items);
    assert forall i :: 0 <= i < |items| ==> stored[i].0 == items[i].0 && |stored[i].1| == config.bands;
  }

  /** A batch fault as the backend index reports it. */
  function Reported(fault: LshError): BackendIndexError {
    if fault.DuplicateKey? then Storage(RepeatedKey(fault.key)) else Lsh(fault)
  }

  /** Faults within the batch come first, then keys that are already stored. */
  function BackendRejection(present: set<nat>, config: Config, items: seq<Item>): BackendIndexError
    requires !Admissible(present, config, items)
  {
    if InsertFault({}, config, items).Some? then Reported(InsertFault({}, config, items).value)
    else Reported(InsertFault(present, config, items).value)
  }

  /** A batch without faults of its own fails in the store exactly for the first key already present. */
  lemma {:induction false} FaultsMatch(present: set<nat>, seen: set<nat>, config: Config, items: seq<Item>)
    requires config.Valid() && InsertFault(seen, config, items).None?
    ensures forall i :: 0 <= i < |items| ==> Incompatibility(config, items[i].1).None?
    ensures
      var fault, found := InsertFault(present + seen, config, items),
                          StoreFaultOf(present + seen, config.bands, StoredItems(config, items));
      && (fault.None? <==> found.None?)
      && (fault.Some? ==> Reported(fault.value) == Storage(found.value))
    decreases |items|
  {
    if items != [] {
      var key := items[0].0;
      if key !in present + seen {
        FaultsMatch(present, seen + {key}, config, items[1..]);
        assert present + seen + {key} == present + (seen + {key});
        assert StoredItems(config, items)[1..] == StoredItems(config, items[1..]);
      }
    }
  }

  /** The position of the first key already stored, past the end if there is none. */
  function FirstStored(present: set<nat>, items: seq<Item>): (i: nat)
    ensures i <= |items|
  {
    if items == [] || items[0].0 in present then 0 else 1 + FirstStored(present, items[1..])
  }

  /** The position of the first fault a batch has of its own, past the end if there is none. */
  function FirstFault(seen: set<nat>, config: Config, items: seq<Item>): (i: nat)
    ensures i <= |items|
    decreases |items|
  {
    if items == [] || items[0].0 in seen || Incompatibility(config, items[0].1).Some? then 0
    else 1 + FirstFault(seen + {items[0].0}, config, items[1..])
  }

  /** What the in-memory index reports, by the two positions. */
  lemma {:induction false} FaultByPosition(present: set<nat>, seen: set<nat>, config: Config, items: seq<Item>)
    ensures InsertFault(seen, config, items).Some? <==> FirstFault(seen, config, items) < |items|
    ensures
      var i := FirstStored(present, items);
      InsertFault(present + seen, config, items) ==
      if i < |items| && i <= FirstFault(seen, config, items) then Some(DuplicateKey(items[i].0))
      else InsertFault(seen, config, items)
    decreases |items|
  {
    if items != [] {
      var key := items[0].0;
      FaultByPosition(present, seen + {key}, config, items[1..]);
      assert present + seen + {key} == present + (seen + {key});
    }
  }

  /** A stored key stands at or before the batch's own first fault, which is not a repetition of that key. */
  predicate StoredKeyFirst(present: set<nat>, config: Config, items: seq<Item>) {
    var i, j := FirstStored(present, items), FirstFault({}, config, items);
    && i <= j < |items|
    && InsertFault({}, config, items) != Some(DuplicateKey(items[i].0))
  }

  /** Both indexes name the same fault of a rejected batch, unless a stored key comes first. */
  lemma RejectionsAgree(present: set<nat>, config: Config, items: seq<Item>)
    requires !Admissible(present, config, items)
    ensures BackendRejection(present, config, items) == Reported(Rejection(present, config, items)) <==>
            !StoredKeyFirst(present, config, items)
  {
    FaultByPosition(present, {}, config, items);
    assert present + {} == present;
  }

  /** One such batch: a stored key with a sketch that does not fit. */
  lemma RejectionsDiffer(config: Config, key: nat, sketch: Sketch)
    requires Incompatibility(config, sketch).Some?
    ensures
      var items := [(key, sketch)];
      && !Admissible({key}, config, items) && Rejection({key}, config, items) == DuplicateKey(key)
      && BackendRejection({key}, config, items) == Lsh(Incompatibility(config, sketch).value)
  {
    assert [(key, sketch)][0].0 in {key};
  }

  lemma AdmissibleAnywhere(present: set<nat>, config: Config, items: seq<Item>)
    requires Admissible(present, config, items)
    ensures Admissible({}, config, items)
  {
  }

  /** The buckets at the given positions are the query's own. */
  ghost predicate Resolves(positions: seq<nat>, unique: seq<BucketKey>, hashes: seq<nat>) {
    && |positions| == |hashes|
    && (forall band :: 0 <= band < |hashes| ==>
          positions[band] < |unique| && unique[positions[band]] == (band, hashes[band]))
  }

  ghost predicate Numbered(table: map<BucketKey, nat>, unique: seq<BucketKey>) {
    && (forall bucket :: bucket in table ==> table[bucket] < |unique| && unique[table[bucket]] == bucket)
    && (forall i :: 0 <= i < |unique| ==> unique[i] in table && table[unique[i]] == i)
  }

  lemma ResolvesMore(positions: seq<nat>, unique: seq<BucketKey>, longer: seq<BucketKey>, hashes: seq<nat>)
    requires Resolves(positions, unique, hashes) && unique <= longer
    ensures Resolves(positions, longer, hashes)
  {
  }

  /** The keys found through a query's buckets are its candidates. */
  lemma BucketsFindCandidates(records: Records, hashes: seq<nat>, found: set<nat>)
    requires forall key :: key in found <==>
               exists band :: 0 <= band < |hashes| && key in MembersOf(records, (band, hashes[band]))
    ensures found == Candidates(records, hashes)
  {
    forall key
      ensures key in found <==> key in Candidates(records, hashes)
    {
      if key in found {
        var band :| 0 <= band < |hashes| && key in MembersOf(records, (band, hashes[band]));
        assert records[key][band] == hashes[band];
      }
      if key in Candidates(records, hashes) {
        var band :| 0 <= band < |records[key]| && band < |hashes| && records[key][band] == hashes[band];
        assert key in MembersOf(records, (band, hashes[band]));
      }
    }
  }

  class BackendIndex {
    const config: Config
    const backend: MemoryBackend
    var knownItems: Option<nat>

    ghost predicate Valid()
      reads this, backend
    {
      && config.Valid() && backend.Valid()
      && backend.descriptor == Some(config)
      && (knownItems.Some? ==> knownItems.value == |backend.records|)
    }

    ghost function Contents(): IndexSpec.Contents
      reads this, backend
    {
      backend.records
    }

    /** Create a new index over an empty backend. */
    constructor (config: Config)
      requires config.Valid()
      ensures Valid() && fresh(backend) && this.config == config
      ensures Contents() == map[]
    {
      this.config := config;
      backend := new MemoryBackend();
      knownItems := Some(0);
      new;
      var created := backend.Initialize(config, None);
    }

    /** Hash every sketch of a batch, refusing repeated keys and sketches that do not fit. */
    method Prepare(items: seq<Item>) returns (r: Result<seq<StoredItem>, BackendIndexError>)
      requires config.Valid()
      ensures r.Ok? <==> InsertFault({}, config, items).None?
      ensures r.Err? ==> r.error == Reported(InsertFault({}, config, items).value)
      ensures r.Ok? ==> (forall i :: 0 <= i < |items| ==> Incompatibility(config, items[i].1).None?) &&
                        r.value == StoredItems(config, items)
    {
      var seen: set<nat> := {};
      var stored: seq<StoredItem> := [];
      assert items[0..] == items;
      var i := 0;
      while i < |items|
        invariant 0 <= i <= |items| && |stored| == i
        invariant InsertFault({}, config, items) == InsertFault(seen, config, items[i..])
        invariant forall j :: 0 <= j < i ==> Incompatibility(config, items[j].1).None?
        invariant forall j :: 0 <= j < i ==> stored[j] == (items[j].0, BandHashes(config, items[j].1))
      {
        var (key, sketch) := items[i];
        assert items[i..][0] == items[i] && items[i..][1..] == items[i + 1..];
        if key in seen {
          return Err(Storage(RepeatedKey(key)));
        }
        if Incompatibility(config, sketch).Some? {
          return Err(Lsh(Incompatibility(config, sketch).value));
        }
        seen := seen + {key};
        stored := stored + [(key, BandHashes(config, sketch))];
        i := i + 1;
      }
      return Ok(stored);
    }

    method InsertMany(items: seq<Item>) returns (r: Result<(), BackendIndexError>)
      requires Valid()
      modifies this, backend
      ensures Valid()
      ensures r.Ok? <==> Admissible(old(Contents()).Keys, config, items)
      ensures r.Err? ==> r.error == BackendRejection(old(Contents()).Keys, config, items)
      ensures r.Err? ==> Contents() == old(Contents()) && backend.buckets == old(backend.buckets)
      ensures r.Ok? ==> Contents() == Added(old(Contents()), config, items)
    {
      var prepared := Prepare(items);
      if prepared.Err? {
        NeverAdmissible(Contents().Keys, config, items);
        return Err(prepared.error);
      }
      StorableIsAdmissible(Contents().Keys, config, items);
      StoredIsAdded(Contents(), config, items);
      FaultsMatch(Contents().Keys, {}, config, items);
      assert Contents().Keys + {} == Contents().Keys;
      var inserted := backend.InsertMany(prepared.value);
      if inserted.Err? {
        return Err(Storage(inserted.error));
      }
      AddedCount(old(Contents()), config, items);
      if knownItems.Some? {
        knownItems := Some(knownItems.value + |prepared.value|);
      }
      return Ok(());
    }

    /** Positions of a query's buckets in the de-duplicated read list, growing the list as needed. */
    method ResolveBuckets(hashes: seq<nat>, table0: map<BucketKey, nat>, unique0: seq<BucketKey>)
      returns (positions: seq<nat>, table: map<BucketKey, nat>, unique: seq<BucketKey>)
      requires Numbered(table0, unique0)
      ensures Numbered(table, unique) && unique0 <= unique
      ensures Resolves(positions, unique, hashes)
    {
      positions, table, unique := [], table0, unique0;
      while |positions| < |hashes|
        invariant |positions| <= |hashes|
        invariant Numbered(table, unique) && unique0 <= unique
        invariant Resolves(positions, unique, hashes[..|positions|])
      {
        var bucket: BucketKey := (|positions|, hashes[|positions|]);
        if bucket !in table {
          table := table[bucket := |unique|];
          unique := unique + [bucket];
        }
        positions := positions + [table[bucket]];
      }
      assert hashes[..|hashes|] == hashes;
    }

    /** Union of the rows at the given positions, in ascending order. */
    method MergeRows(positions: seq<nat>, unique: seq<BucketKey>, rows: seq<seq<nat>>, ghost hashes: seq<nat>)
      returns (keys: seq<nat>)
      requires Resolves(positions, unique, hashes) && |rows| == |unique|
      requires forall i :: 0 <= i < |rows| ==> rows[i] == AscendingList(MembersOf(Contents(), unique[i]))
      ensures keys == AscendingList(Candidates(Contents(), hashes))
    {
      var candidates: set<nat> := {};
      var i := 0;
      while i < |positions|
        invariant 0 <= i <= |positions|
        invariant Covers(candidates, Contents(), hashes, i)
      {
        var row := rows[positions[i]];
        CoverStep(candidates, Contents(), hashes, i, row);
        candidates := candidates + set key | key in row;
        i := i + 1;
      }
      BucketsFindCandidates(Contents(), hashes, candidates);
      keys := ListInOrder(candidates);
    }

    method ResolveAll(sketches: seq<Sketch>)
      returns (r: Result<(seq<seq<nat>>, seq<BucketKey>), LshError>)
      requires Valid()
      ensures r.Err? ==> Answers(Contents(), config, sketches) == Err(r.error)
      ensures r.Ok? ==>
                && |r.value.0| == |sketches|
                && (forall q :: 0 <= q < |sketches| ==>
                      Incompatibility(config, sketches[q]).None? &&
                      Resolves(r.value.0[q], r.value.1, BandHashes(config, sketches[q])))
                && Distinct(r.value.1)
    {
      var table: map<BucketKey, nat> := map[];
      var unique: seq<BucketKey> := [];
      var all: seq<seq<nat>> := [];
      while |all| < |sketches|
        invariant |all| <= |sketches|
        invariant Numbered(table, unique)
        invariant forall q :: 0 <= q < |all| ==> Incompatibility(config, sketches[q]).None?
        invariant forall q :: 0 <= q < |all| ==> Resolves(all[q], unique, BandHashes(config, sketches[q]))
      {
        var sketch := sketches[|all|];
        if Incompatibility(config, sketch).Some? {
          AnswersSucceed(Contents(), config, sketches[..|all|]);
          AnswersFail(Contents(), config, sketches, |all|);
          return Err(Incompatibility(config, sketch).value);
        }
        ghost var shorter := unique;
        var positions;
        positions, table, unique := ResolveBuckets(BandHashes(config, sketch), table, unique);
        forall q | 0 <= q < |all|
          ensures Resolves(all[q], unique, BandHashes(config, sketches[q]))
        {
          ResolvesMore(all[q], shorter, unique, BandHashes(config, sketches[q]));
        }
        all := all + [positions];
      }
      return Ok((all, unique));
    }

    /** One de-duplicated backend read answers all queries. */
    method QueryMany(sketches: seq<Sketch>) returns (r: Result<seq<seq<nat>>, LshError>)
      requires Valid()
      ensures r == Answers(Contents(), config, sketches)
    {
      var resolved := ResolveAll(sketches);
      if resolved.Err? {
        return Err(resolved.error);
      }
      var (all, unique) := resolved.value;
      if all == [] {
        return Ok([]);
      }
      var rows := backend.QueryBuckets(unique);
      var output := MergeAll(sketches, all, unique, rows);
      return Ok(output);
    }

    /** Each query's keys from the rows its buckets were read into. */
    method MergeAll(sketches: seq<Sketch>, all: seq<seq<nat>>, unique: seq<BucketKey>, rows: seq<seq<nat>>)
      returns (output: seq<seq<nat>>)
      requires config.Valid() && |all| == |sketches| && |rows| == |unique|
      requires forall i :: 0 <= i < |rows| ==> rows[i] == AscendingList(MembersOf(Contents(), unique[i]))
      requires forall q :: 0 <= q < |sketches| ==> Incompatibility(config, sketches[q]).None?
      requires forall q :: 0 <= q < |sketches| ==> Resolves(all[q], unique, BandHashes(config, sketches[q]))
      ensures Answers(Contents(), config, sketches) == Ok(output)
    {
      output := [];
      while |output| < |all|
        invariant |output| <= |all|
        invariant Answers(Contents(), config, sketches[..|output|]) == Ok(output)
      {
        var q := |output|;
        var keys := MergeRows(all[q], unique, rows, BandHashes(config, sketches[q]));
        AnswersExtend(Contents(), config, sketches, q);
        output := output + [keys];
      }
      assert sketches[..|sketches|] == sketches;
    }

    method Query(sketch: Sketch) returns (r: Result<seq<nat>, LshError>)
      requires Valid()
      ensures r == Answer(Contents(), config, sketch)
      ensures r.Ok? <==> Compatible(config, sketch)
      ensures r.Err? ==>
                r.error == if sketch.seed != config.seed then IncompatibleSeed(config.seed, sketch.seed)
                           else IncompatiblePermutationCount(config.numPerm, |sketch.signature|)
    {
      var results := QueryMany([sketch]);
      assert [sketch][..0] == [];
      if results.Err? {
        return Err(results.error);
      }
      return Ok(results.value[0]);
    }

    method Remove(key: nat) returns (removed: bool)
      requires Valid()
      modifies this, backend
      ensures Valid()
      ensures removed <==> key in old(Contents())
      ensures Contents() == old(Contents()) - {key}
    {
      var deleted := backend.DeleteMany([key]);
      assert LiveAmong([key], old(Contents())) == if key in old(Contents()) then {key} else {};
      removed := deleted.value == 1;
      if removed {
        RemovedCount(old(Contents()), {key});
        if knownItems.Some? {
          knownItems := Some(knownItems.value - 1);
        }
      }
    }

    /** Returns the number of distinct live keys named, all of which are gone afterwards. */
    method RemoveMany(keys: set<nat>) returns (removed: nat)
      requires Valid()
      modifies this, backend
      ensures Valid()
      ensures removed == |keys * old(Contents()).Keys|
      ensures Contents() == old(Contents()) - keys
    {
      var list := ListInOrder(keys);
      var deleted := backend.DeleteMany(list);
      LiveAmongAll(list, keys, old(Contents()));
      removed := deleted.value;
      if knownItems.Some? {
        knownItems := Some(knownItems.value - removed);
      }
    }
  }

  lemma RemovedCount<V>(contents: map<nat, V>, keys: set<nat>)
    requires keys <= contents.Keys
    ensures |contents - keys| == |contents| - |keys|
  {
    assert (contents - keys).Keys == contents.Keys - keys;
    assert contents.Keys == keys + (contents.Keys - keys);
    assert |contents.Keys| == |keys| + |contents.Keys - keys|;
  }

  lemma {:induction false} NeverAdmissible(present: set<nat>, config: Config, items: seq<Item>)
    requires InsertFault({}, config, items).Some?
    ensures !Admissible(present, config, items)
  {
    if Admissible(present, config, items) {
      AdmissibleAnywhere(present, config, items);
    }
  }

  /** The members of the first `n` buckets of a query. */
  ghost predicate Covers(candidates: set<nat>, records: Records, hashes: seq<nat>, n: nat)
    requires n <= |hashes|
  {
    forall key :: key in candidates <==> exists band :: 0 <= band < n && key in MembersOf(records, (band, hashes[band]))
  }

  lemma CoverStep(candidates: set<nat>, records: Records, hashes: seq<nat>, n: nat, row: seq<nat>)
    requires n < |hashes| && Covers(candidates, records, hashes, n)
    requires forall key :: key in row <==> key in MembersOf(records, (n, hashes[n]))
    ensures Covers(candidates + (set key | key in row), records, hashes, n + 1)
  {
  }

  lemma LiveAmongAll(list: seq<nat>, keys: set<nat>, records: Records)
    requires forall key :: key in list <==> key in keys
    ensures LiveAmong(list, records) == keys * records.Keys
    ensures records - LiveAmong(list, records) == records - keys
    ensures |records - keys| == |records| - |LiveAmong(list, records)|
  {
    var live := LiveAmong(list, records);
    assert live == keys * records.Keys;
    assert records - live == records - keys;
    RemovedCount(records, live);
  }
}
