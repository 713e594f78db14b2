/** Key sets per bucket and stored hashes per key, as the reference storage backend keeps them. */
module BackendState {
  type BucketKey = (nat, nat)
  type BucketSets = map<BucketKey, set<nat>>
  type Records = map<nat, seq<nat>>

  /** The record of `key` hashes to this bucket. */
  ghost predicate Holds(records: Records, bucket: BucketKey, key: nat) {
    key in records && bucket.0 < |records[key]| && records[key][bucket.0] == bucket.1
  }

  ghost predicate SetMatches(members: set<nat>, records: Records, bucket: BucketKey) {
    && members != {}
    && (forall key :: key in members <==> Holds(records, bucket, key))
  }

  /** Bucket sets and records describe each other; no bucket is empty. */
  ghost predicate Indexed(buckets: BucketSets, records: Records) {
    && (forall bucket :: bucket in buckets ==> SetMatches(buckets[bucket], records, bucket))
    && (forall bucket, key :: Holds(records, bucket, key) ==> bucket in buckets)
  }

  function Join(buckets: BucketSets, bucket: BucketKey, key: nat): BucketSets {
    buckets[bucket := (if bucket in buckets then buckets[bucket] else {}) + {key}]
  }

  /** Drop a key from a bucket, and the bucket with it when it becomes empty. */
  function Quit(buckets: BucketSets, bucket: BucketKey, key: nat): BucketSets {
    if bucket !in buckets then buckets
    else if buckets[bucket] - {key} == {} then buckets - {bucket}
    else buckets[bucket := buckets[bucket] - {key}]
  }

  /** The first `n` band hashes of an item lead to this bucket. */
  predicate Leads(hashes: seq<nat>, n: nat, bucket: BucketKey) {
    bucket.0 < n && bucket.0 < |hashes| && hashes[bucket.0] == bucket.1
  }

  /** `after` is `before` with `key` added to the buckets of its first `n` hashes. */
  ghost predicate Joined(before: BucketSets, after: BucketSets, key: nat, hashes: seq<nat>, n: nat) {
    && (forall bucket :: bucket in after <==> bucket in before || Leads(hashes, n, bucket))
    && (forall bucket :: bucket in after ==>
          after[bucket] == (if bucket in before then before[bucket] else {}) +
                           (if Leads(hashes, n, bucket) then {key} else {}))
  }

  lemma JoinStep(before: BucketSets, after: BucketSets, key: nat, hashes: seq<nat>, n: nat)
    requires Joined(before, after, key, hashes, n) && n < |hashes|
    ensures Joined(before, Join(after, (n, hashes[n]), key), key, hashes, n + 1)
  {
  }

  lemma JoinedIndexed(before: BucketSets, after: BucketSets, records: Records, key: nat, hashes: seq<nat>)
    requires Indexed(before, records) && key !in records
    requires Joined(before, after, key, hashes, |hashes|)
    ensures Indexed(after, records[key := hashes])
  {
    var grown := records[key := hashes];
    forall bucket | bucket in after
      ensures SetMatches(after[bucket], grown, bucket)
    {
      forall k
        ensures k in after[bucket] <==> Holds(grown, bucket, k)
      {
        assert k != key ==> (Holds(grown, bucket, k) <==> Holds(records, bucket, k));
      }
    }
    forall bucket, k | Holds(grown, bucket, k)
      ensures bucket in after
    {
      if k != key {
        assert Holds(records, bucket, k);
      }
    }
  }

  /** `after` is `before` with `key` taken out of the buckets of its first `n` hashes. */
  ghost predicate Left(before: BucketSets, after: BucketSets, key: nat, hashes: seq<nat>, n: nat) {
    forall bucket ::
      var rest := if bucket in before then before[bucket] - (if Leads(hashes, n, bucket) then {key} else {}) else {};
      if rest == {} then bucket !in after else bucket in after && after[bucket] == rest
  }

  lemma QuitStep(before: BucketSets, after: BucketSets, key: nat, hashes: seq<nat>, n: nat)
    requires Left(before, after, key, hashes, n) && n < |hashes|
    requires forall bucket :: bucket in before ==> before[bucket] != {}
    ensures Left(before, Quit(after, (n, hashes[n]), key), key, hashes, n + 1)
  {
  }

  lemma LeftIndexed(before: BucketSets, after: BucketSets, records: Records, key: nat)
    requires Indexed(before, records) && key in records
    requires Left(before, after, key, records[key], |records[key]|)
    ensures Indexed(after, records - {key})
  {
    var fewer := records - {key};
    forall bucket | bucket in after
      ensures SetMatches(after[bucket], fewer, bucket)
    {
      assert bucket in before;
      forall k
        ensures k in after[bucket] <==> Holds(fewer, bucket, k)
      {
        assert Holds(fewer, bucket, k) <==> Holds(records, bucket, k) && k != key;
      }
    }
    forall bucket, k | Holds(fewer, bucket, k)
      ensures bucket in after
    {
      assert Holds(records, bucket, k);
      assert k in before[bucket] && k != key;
    }
  }
}
