/** The in-memory LSH index: append-only internal ids, per-band bucket tables, batch insertion, removal and queries. */
module LshIndexing {
  import opened Words
  import opened Sorting
  import opened Banding
  import opened IndexState
  import opened IndexSpec

  /** Live items whose stored hashes agree with the given ones in some band. */
  ghost predicate CandidateIds(s: State, hashes: seq<nat>, ids: set<nat>)
    requires |s.idToKey| == |s.bandHashes|
    requires forall id :: 0 <= id < |s.idToKey| && s.idToKey[id].Some? ==> s.bandHashes[id].Some?
  {
    forall id :: id in ids <==>
      0 <= id < |s.idToKey| && s.idToKey[id].Some? && Collide(s.bandHashes[id].value, hashes)
  }

  ghost function KeysOf(keyToId: map<nat, nat>, ids: set<nat>): set<nat> {
    set key | key in keyToId && keyToId[key] in ids
  }

  lemma CandidateKeys(s: State, bands: nat, hashes: seq<nat>, ids: set<nat>)
    requires Consistent(s, bands) && CandidateIds(s, hashes, ids)
    ensures Candidates(View(s, bands), hashes) == KeysOf(s.keyToId, ids)
  {
    forall key | key in s.keyToId
      ensures Collide(View(s, bands)[key], hashes) <==> s.keyToId[key] in ids
    {
      assert s.idToKey[s.keyToId[key]].Some?;
    }
  }

  class IndexData {
    var buckets: seq<Table>
    var keyToId: map<nat, nat>
    var idToKey: seq<Option<nat>>
    var bandHashes: Records

    ghost function Snapshot(): State
      reads this
    {
      State(buckets, keyToId, idToKey, bandHashes)
    }

    ghost predicate Valid()
      reads this
    {
      Consistent(Snapshot(), |buckets|)
    }

    ghost function Contents(): map<nat, seq<nat>>
      requires Valid()
      reads this
    {
      View(Snapshot(), |buckets|)
    }

    constructor (bands: nat)
      ensures Valid() && |buckets| == bands
      ensures Contents() == map[] && idToKey == []
    {
      buckets := seq(bands, i => map[]);
      keyToId := map[];
      idToKey := [];
      bandHashes := [];
    }

    /** The caller has checked that the key is new and that an id is left. */
    method InsertValidated(key: nat, hashes: seq<nat>)
      requires Valid() && key !in keyToId
      requires |hashes| == |buckets| && |idToKey| < U32_MAX
      modifies this
      ensures Valid() && |buckets| == old(|buckets|)
      ensures Contents() == old(Contents())[key := hashes]
      ensures idToKey == old(idToKey) + [Some(key)]
    {
      ghost var before := Snapshot();
      var id := |idToKey|;
      var band := 0;
      while band < |buckets|
        invariant 0 <= band <= |buckets| == |before.buckets|
        invariant Snapshot() == before.(buckets := buckets)
        invariant forall b :: 0 <= b < band ==> buckets[b] == Enter(before.buckets[b], hashes[b], id)
        invariant forall b :: band <= b < |buckets| ==> buckets[b] == before.buckets[b]
      {
        buckets := buckets[band := Enter(buckets[band], hashes[band], id)];
        band := band + 1;
      }
      assert buckets == EnterAll(before.buckets, hashes, id);
      keyToId := keyToId[key := id];
      idToKey := idToKey + [Some(key)];
      bandHashes := bandHashes + [Some(hashes)];
      assert Snapshot() == Inserted(before, key, hashes);
      InsertedMatches(before, |buckets|, key, hashes);
    }

    method Remove(key: nat) returns (removed: bool)
      requires Valid()
      modifies this
      ensures Valid() && |buckets| == old(|buckets|) && |idToKey| == old(|idToKey|)
      ensures removed <==> key in old(Contents())
      ensures Contents() == old(Contents()) - {key}
    {
      if key !in keyToId {
        return false;
      }
      ghost var before := Snapshot();
      var id := keyToId[key];
      var hashes := bandHashes[id].value;
      bandHashes := bandHashes[id := None];
      keyToId := keyToId - {key};
      var band := 0;
      while band < |buckets|
        invariant 0 <= band <= |buckets| == |before.buckets|
        invariant Snapshot() ==
                  State(buckets, before.keyToId - {key}, before.idToKey, before.bandHashes[id := None])
        invariant forall b :: 0 <= b < band ==> buckets[b] == Leave(before.buckets[b], hashes[b], id)
        invariant forall b :: band <= b < |buckets| ==> buckets[b] == before.buckets[b]
      {
        buckets := buckets[band := Leave(buckets[band], hashes[band], id)];
        band := band + 1;
      }
      assert buckets == LeaveAll(before.buckets, hashes, id);
      idToKey := idToKey[id := None];
      assert Snapshot() == Removed(before, key, |buckets|);
      RemovedMatches(before, |buckets|, key);
      removed := true;
    }

    method CollectCandidateIds(hashes: seq<nat>) returns (output: set<nat>)
      requires Valid() && |hashes| == |buckets|
      ensures CandidateIds(Snapshot(), hashes, output)
    {
      output := {};
      var band := 0;
      while band < |buckets|
        invariant 0 <= band <= |buckets|
        invariant forall id :: id in output <==>
                    0 <= id < |idToKey| && idToKey[id].Some? &&
                    exists b :: 0 <= b < band && bandHashes[id].value[b] == hashes[b]
      {
        assert TableMatches(buckets[band], bandHashes, band);
        ghost var before := output;
        if hashes[band] in buckets[band] {
          output := output + set id | id in buckets[band][hashes[band]];
        }
        forall id: nat
          ensures id in output <==> id in before || Stored(bandHashes, band, hashes[band], id)
        {
        }
        band := band + 1;
      }
    }

    /** Candidate ids are visited in an arbitrary order, as a hash set yields them. */
    method KeysForCandidates(candidates: set<nat>) returns (keys: seq<nat>)
      requires Valid()
      ensures keys == AscendingList(KeysOf(keyToId, candidates))
    {
      keys := [];
      var remaining := candidates;
      while remaining != {}
        invariant remaining <= candidates
        invariant Distinct(keys)
        invariant forall key :: key in keys <==> key in keyToId && keyToId[key] in candidates - remaining
        decreases remaining
      {
        var id: nat :| id in remaining;
        if id < |idToKey| && idToKey[id].Some? {
          keys := keys + [idToKey[id].value];
        }
        remaining := remaining - {id};
      }
      SortKeysAscending(keys);
      keys := SortKeys(keys);
      AscendingListIs(keys, KeysOf(keyToId, candidates));
    }
  }

  class LshIndex {
    const config: Config
    const data: IndexData

    ghost predicate Valid()
      reads this, data
    {
      config.Valid() && data.Valid() && |data.buckets| == config.bands
    }

    ghost function Contents(): map<nat, seq<nat>>
      requires Valid()
      reads this, data
    {
      data.Contents()
    }

    /** How many of the 2^32 - 1 internal ids are spent; removal gives none back. */
    function IdsUsed(): nat
      reads data
    {
      |data.idToKey|
    }

    constructor (config: Config)
      requires config.Valid()
      ensures Valid() && fresh(data) && this.config == config
      ensures Contents() == map[] && IdsUsed() == 0
    {
      this.config := config;
      data := new IndexData(config.bands);
    }

    method ValidateBatch(items: seq<Item>) returns (fault: Option<LshError>)
      requires Valid()
      ensures fault == InsertFault(Contents().Keys, config, items)
    {
      ghost var present := Contents().Keys;
      var batchKeys: set<nat> := {};
      assert present + batchKeys == present && items[0..] == items;
      var i := 0;
      while i < |items|
        invariant 0 <= i <= |items|
        invariant present == data.keyToId.Keys
        invariant InsertFault(present, config, items) == InsertFault(present + batchKeys, config, items[i..])
      {
        var (key, sketch) := items[i];
        assert items[i..][0] == items[i] && items[i..][1..] == items[i + 1..];
        if key in data.keyToId || key in batchKeys {
          return Some(DuplicateKey(key));
        }
        if Incompatibility(config, sketch).Some? {
          return Incompatibility(config, sketch);
        }
        assert present + batchKeys + {key} == present + (batchKeys + {key});
        batchKeys := batchKeys + {key};
        i := i + 1;
      }
      return None;
    }

    method InsertMany(items: seq<Item>) returns (r: Result<(), LshError>)
      requires Valid()
      modifies data
      ensures Valid()
      ensures r.Ok? <==>
              Admissible(old(Contents().Keys), config, items) && old(IdsUsed()) + |items| <= U32_MAX
      ensures r.Err? ==> data.Snapshot() == old(data.Snapshot())
      ensures r.Err? ==> r.error == Rejection(old(Contents().Keys), config, items)
      ensures r.Ok? ==> Contents() == Added(old(Contents()), config, items)
      ensures r.Ok? ==> IdsUsed() == old(IdsUsed()) + |items|
    {
      var fault := ValidateBatch(items);
      if fault.Some? {
        return Err(fault.value);
      }
      if |data.idToKey| + |items| > U32_MAX {
        return Err(TooManyItems);
      }
      ghost var before := Contents();
      var i := 0;
      while i < |items|
        invariant 0 <= i <= |items|
        invariant Valid() && IdsUsed() == old(IdsUsed()) + i
        invariant Contents() == Added(before, config, items[..i])
        invariant forall j :: i <= j < |items| ==> items[j].0 !in Contents()
      {
        var (key, sketch) := items[i];
        assert items[..i + 1][..i] == items[..i];
        data.InsertValidated(key, BandHashes(config, sketch));
        i := i + 1;
      }
      assert items[..|items|] == items;
      return Ok(());
    }

    method Insert(key: nat, sketch: Sketch) returns (r: Result<(), LshError>)
      requires Valid()
      modifies data
      ensures Valid()
      ensures r.Ok? <==> key !in old(Contents()) && Compatible(config, sketch) && old(IdsUsed()) < U32_MAX
      ensures r.Err? ==>
                r.error == if key in old(Contents()) then DuplicateKey(key)
                           else if sketch.seed != config.seed then IncompatibleSeed(config.seed, sketch.seed)
                           else if |sketch.signature| != config.numPerm then
                             IncompatiblePermutationCount(config.numPerm, |sketch.signature|)
                           else TooManyItems
      ensures r.Err? ==> data.Snapshot() == old(data.Snapshot())
      ensures r.Ok? ==> Contents() == old(Contents())[key := BandHashes(config, sketch)]
      ensures r.Ok? ==> IdsUsed() == old(IdsUsed()) + 1
    {
      r := InsertMany([(key, sketch)]);
      assert [(key, sketch)][..0] == [];
    }

    method Query(sketch: Sketch) returns (r: Result<seq<nat>, LshError>)
      requires Valid()
      ensures r == Answer(Contents(), config, sketch)
      ensures r.Ok? <==> Compatible(config, sketch)
      ensures r.Err? ==>
                r.error == if sketch.seed != config.seed then IncompatibleSeed(config.seed, sketch.seed)
                           else IncompatiblePermutationCount(config.numPerm, |sketch.signature|)
    {
      if Incompatibility(config, sketch).Some? {
        return Err(Incompatibility(config, sketch).value);
      }
      var hashes := BandHashes(config, sketch);
      var candidates := data.CollectCandidateIds(hashes);
      var keys := data.KeysForCandidates(candidates);
      CandidateKeys(data.Snapshot(), config.bands, hashes, candidates);
      return Ok(keys);
    }

    method QueryMany(sketches: seq<Sketch>) returns (r: Result<seq<seq<nat>>, LshError>)
      requires Valid()
      ensures r == Answers(Contents(), config, sketches)
    {
      var output := [];
      var i := 0;
      while i < |sketches|
        invariant 0 <= i <= |sketches|
        invariant Answers(Contents(), config, sketches[..i]) == Ok(output)
      {
        assert sketches[..i + 1][..i] == sketches[..i];
        var answer := Query(sketches[i]);
        if answer.Err? {
          AnswersFail(Contents(), config, sketches, i);
          return Err(answer.error);
        }
        output := output + [answer.value];
        i := i + 1;
      }
      assert sketches[..|sketches|] == sketches;
      return Ok(output);
    }

    method Remove(key: nat) returns (removed: bool)
      requires Valid()
      modifies data
      ensures Valid() && IdsUsed() == old(IdsUsed())
      ensures removed <==> key in old(Contents())
      ensures Contents() == old(Contents()) - {key}
    {
      removed := data.Remove(key);
    }
  }
}
