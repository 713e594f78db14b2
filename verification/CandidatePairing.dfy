/** The streaming iterator over unique candidate pairs. */
module CandidatePairing {
  import opened Words
  import opened Sorting
  import opened Banding
  import opened IndexState
  import opened LshIndexing
  import opened KeyGraph

  /** Two different ids stand in one bucket. */
  ghost predicate Together(buckets: seq<seq<nat>>, pair: (nat, nat)) {
    exists b :: 0 <= b < |buckets| && pair.0 != pair.1 && pair.0 in buckets[b] && pair.1 in buckets[b]
  }

  /** Position `(b, l, r)` comes before the cursor. */
  predicate Passed(b: nat, l: nat, r: nat, bucketIndex: nat, leftIndex: nat, rightIndex: nat) {
    b < bucketIndex || (b == bucketIndex && (l < leftIndex || (l == leftIndex && r < rightIndex)))
  }

  ghost predicate Complete(seen: set<(nat, nat)>, buckets: seq<seq<nat>>,
                           bucketIndex: nat, leftIndex: nat, rightIndex: nat)
  {
    forall b, l, r {:trigger buckets[b][l], buckets[b][r]} ::
      0 <= b < |buckets| && 0 <= l < r < |buckets[b]| && Passed(b, l, r, bucketIndex, leftIndex, rightIndex) &&
      buckets[b][l] != buckets[b][r] ==>
        OrderedPair(buckets[b][l], buckets[b][r]) in seen
  }

  /** Both ids of a pair are live. */
  predicate LivePair(idToKey: seq<Option<nat>>, pair: (nat, nat)) {
    pair.0 < |idToKey| && idToKey[pair.0].Some? && pair.1 < |idToKey| && idToKey[pair.1].Some?
  }

  function KeyPair(idToKey: seq<Option<nat>>, pair: (nat, nat)): (nat, nat)
    requires LivePair(idToKey, pair)
  {
    OrderedPair(idToKey[pair.0].value, idToKey[pair.1].value)
  }

  /** The key pairs of all live id pairs seen so far. */
  ghost function KeyPairs(idToKey: seq<Option<nat>>, seen: set<(nat, nat)>): set<(nat, nat)> {
    set pair | pair in seen && LivePair(idToKey, pair) :: KeyPair(idToKey, pair)
  }

  /** Different live ids carry different keys. */
  ghost predicate Injective(idToKey: seq<Option<nat>>) {
    forall i, j :: 0 <= i < |idToKey| && 0 <= j < |idToKey| && idToKey[i].Some? && idToKey[i] == idToKey[j] ==> i == j
  }

  lemma NewKeyPair(idToKey: seq<Option<nat>>, seen: set<(nat, nat)>, pair: (nat, nat))
    requires Injective(idToKey) && LivePair(idToKey, pair) && pair !in seen && pair.0 <= pair.1
    requires forall p :: p in seen ==> p.0 <= p.1
    ensures KeyPair(idToKey, pair) !in KeyPairs(idToKey, seen)
    ensures KeyPairs(idToKey, seen + {pair}) == KeyPairs(idToKey, seen) + {KeyPair(idToKey, pair)}
  {
  }

  lemma DeadPair(idToKey: seq<Option<nat>>, seen: set<(nat, nat)>, pair: (nat, nat))
    requires !LivePair(idToKey, pair)
    ensures KeyPairs(idToKey, seen + {pair}) == KeyPairs(idToKey, seen)
  {
  }

  /** Every bucket holds at least two ids, and within a bucket the cursor stands on a pair or just past one. */
  ghost predicate CursorFits(buckets: seq<seq<nat>>, b: nat, l: nat, r: nat) {
    && (forall i :: 0 <= i < |buckets| ==> |buckets[i]| >= 2)
    && (b < |buckets| ==> l < r <= |buckets[b]|)
  }

  /** The key pairs a run yields from a cursor position on, given the id pairs met before. */
  ghost function Ahead(idToKey: seq<Option<nat>>, buckets: seq<seq<nat>>, b: nat, l: nat, r: nat, seen: set<(nat, nat)>)
    : seq<(nat, nat)>
    requires CursorFits(buckets, b, l, r)
    decreases |buckets| - b, if b < |buckets| then |buckets[b]| - l else 0,
              if b < |buckets| then |buckets[b]| - r else 0
  {
    if b >= |buckets| then []
    else
      var ids := buckets[b];
      if l + 1 >= |ids| then Ahead(idToKey, buckets, b + 1, 0, 1, seen)
      else if r >= |ids| then Ahead(idToKey, buckets, b, l + 1, l + 2, seen)
      else
        var pair := OrderedPair(ids[l], ids[r]);
        if ids[l] == ids[r] || pair in seen then Ahead(idToKey, buckets, b, l, r + 1, seen)
        else Met(idToKey, pair) + Ahead(idToKey, buckets, b, l, r + 1, seen + {pair})
  }

  /** The key pair of a live id pair, or nothing. */
  ghost function Met(idToKey: seq<Option<nat>>, pair: (nat, nat)): seq<(nat, nat)> {
    if LivePair(idToKey, pair) then [KeyPair(idToKey, pair)] else []
  }

  class CandidatePairs {
    const idToKey: seq<Option<nat>>
    const buckets: seq<seq<nat>>
    var bucketIndex: nat
    var leftIndex: nat
    var rightIndex: nat
    var seen: set<(nat, nat)>

    ghost predicate Valid()
      reads this
    {
      && Injective(idToKey)
      && (forall b :: 0 <= b < |buckets| ==> |buckets[b]| >= 2)
      && bucketIndex <= |buckets|
      && (bucketIndex < |buckets| ==> leftIndex < rightIndex <= |buckets[bucketIndex]|)
      && (bucketIndex == |buckets| ==> leftIndex == 0 && rightIndex == 1)
      && (forall p :: p in seen ==> p.0 < p.1 && Together(buckets, p))
      && Complete(seen, buckets, bucketIndex, leftIndex, rightIndex)
    }

    ghost function Remaining(): (nat, nat, nat)
      requires Valid()
      reads this
    {
      if bucketIndex == |buckets| then (0, 0, 0)
      else (|buckets| - bucketIndex, |buckets[bucketIndex]| - leftIndex, |buckets[bucketIndex]| - rightIndex)
    }

    /** What the stream has still to yield. */
    ghost function Rest(): seq<(nat, nat)>
      requires Valid()
      reads this
    {
      Ahead(idToKey, buckets, bucketIndex, leftIndex, rightIndex, seen)
    }

    constructor (idToKey: seq<Option<nat>>, buckets: seq<seq<nat>>)
      requires Injective(idToKey) && forall b :: 0 <= b < |buckets| ==> |buckets[b]| >= 2
      ensures Valid() && seen == {} && Rest() == Ahead(idToKey, buckets, 0, 0, 1, {})
      ensures this.idToKey == idToKey && this.buckets == buckets
    {
      this.idToKey := idToKey;
      this.buckets := buckets;
      bucketIndex, leftIndex, rightIndex := 0, 0, 1;
      seen := {};
    }

    /** One move of the cursor; yields an id pair when it meets one for the first time. */
    method Step() returns (found: Option<(nat, nat)>)
      requires Valid() && bucketIndex < |buckets|
      modifies this
      ensures Valid() && Earlier(Remaining(), old(Remaining()))
      ensures found.None? ==> seen == old(seen)
      ensures found.Some? ==> found.value !in old(seen) && seen == old(seen) + {found.value}
      ensures old(Rest()) == if found.Some? then Met(idToKey, found.value) + Rest() else Rest()
    {
      var ids := buckets[bucketIndex];
      if leftIndex + 1 >= |ids| {
        bucketIndex, leftIndex, rightIndex := bucketIndex + 1, 0, 1;
        return None;
      }
      if rightIndex >= |ids| {
        leftIndex, rightIndex := leftIndex + 1, leftIndex + 2;
        return None;
      }
      found := Visit();
    }

    /** The pair under the cursor. */
    method Visit() returns (found: Option<(nat, nat)>)
      requires Valid() && bucketIndex < |buckets| && rightIndex < |buckets[bucketIndex]|
      modifies this
      ensures Valid() && Earlier(Remaining(), old(Remaining()))
      ensures found.None? ==> seen == old(seen)
      ensures found.Some? ==> found.value !in old(seen) && seen == old(seen) + {found.value}
      ensures old(Rest()) == if found.Some? then Met(idToKey, found.value) + Rest() else Rest()
    {
      var ids := buckets[bucketIndex];
      var left, right := ids[leftIndex], ids[rightIndex];
      rightIndex := rightIndex + 1;
      if left == right {
        return None;
      }
      var idPair := OrderedPair(left, right);
      if idPair in seen {
        return None;
      }
      assert Together(buckets, idPair);
      seen := seen + {idPair};
      return Some(idPair);
    }

    /** Advance to the next pair of live keys not met in an earlier bucket. */
    method Next() returns (pair: Option<(nat, nat)>)
      requires Valid()
      modifies this
      ensures Valid()
      ensures pair.None? ==> bucketIndex == |buckets| && KeyPairs(idToKey, seen) == KeyPairs(idToKey, old(seen))
      ensures pair.Some? ==> pair.value !in KeyPairs(idToKey, old(seen))
      ensures pair.Some? ==> KeyPairs(idToKey, seen) == KeyPairs(idToKey, old(seen)) + {pair.value}
      ensures pair.Some? ==> Earlier(Remaining(), old(Remaining()))
      ensures old(Rest()) == if pair.Some? then [pair.value] + Rest() else []
    {
      ghost var yielded := KeyPairs(idToKey, seen);
      while bucketIndex < |buckets|
        invariant Valid() && KeyPairs(idToKey, seen) == yielded && Rest() == old(Rest())
        invariant Remaining() == old(Remaining()) || Earlier(Remaining(), old(Remaining()))
        decreases Remaining().0, Remaining().1, Remaining().2
      {
        ghost var before := seen;
        var idPair := Step();
        if idPair.Some? {
          if LivePair(idToKey, idPair.value) {
            NewKeyPair(idToKey, before, idPair.value);
            return Some(KeyPair(idToKey, idPair.value));
          }
          DeadPair(idToKey, before, idPair.value);
          assert Met(idToKey, idPair.value) + Rest() == Rest();
        }
      }
      return None;
    }
  }

  /** Lexicographic order on cursor distances. */
  ghost predicate Earlier(a: (nat, nat, nat), b: (nat, nat, nat)) {
    a.0 < b.0 || (a.0 == b.0 && (a.1 < b.1 || (a.1 == b.1 && a.2 < b.2)))
  }

  type Entry = (nat, nat, seq<nat>)

  ghost predicate IsBucket(tables: seq<Table>, ids: seq<nat>) {
    exists band, hash :: 0 <= band < |tables| && hash in tables[band] && tables[band][hash] == ids
  }

  /** Exactly the buckets with at least two members. */
  ghost predicate CollisionBuckets(buckets: seq<seq<nat>>, tables: seq<Table>) {
    forall ids :: ids in buckets <==> |ids| >= 2 && IsBucket(tables, ids)
  }

  /** Entries of bands below `band`, and of `band` itself for hashes not in `remaining`. */
  ghost predicate Scanned(entries: seq<Entry>, tables: seq<Table>, band: nat, remaining: set<nat>) {
    forall b: nat, h, ids :: (b, h, ids) in entries <==>
      b < |tables| && h in tables[b] && tables[b][h] == ids && |ids| >= 2 &&
      (b < band || (b == band && h !in remaining))
  }

  function SortEntries(entries: seq<Entry>): seq<Entry> {
    Sort(entries, (x: Entry, y: Entry) => LexLeq([x.0, x.1], [y.0, y.1]))
  }

  function IdLists(entries: seq<Entry>): (lists: seq<seq<nat>>)
    ensures |lists| == |entries| && forall i :: 0 <= i < |entries| ==> lists[i] == entries[i].2
  {
    seq(|entries|, i requires 0 <= i < |entries| => entries[i].2)
  }

  /** One entry comes before another by band, then by hash. */
  predicate Before(x: Entry, y: Entry) {
    x.0 < y.0 || (x.0 == y.0 && x.1 < y.1)
  }

  ghost predicate InKeyOrder(entries: seq<Entry>) {
    forall i, j :: 0 <= i < j < |entries| ==> Before(entries[i], entries[j])
  }

  /** All collision buckets of all tables, strictly ascending by band and hash. */
  ghost predicate Canonical(entries: seq<Entry>, tables: seq<Table>) {
    Scanned(entries, tables, |tables|, {}) && InKeyOrder(entries)
  }

  lemma EmptyTogether(left: seq<Entry>, right: seq<Entry>)
    requires forall e :: e in left <==> e in right
    ensures left == [] <==> right == []
  {
    if left != [] {
      assert left[0] in left;
    }
    if right != [] {
      assert right[0] in right;
    }
  }

  lemma {:induction false} KeyOrderUnique(left: seq<Entry>, right: seq<Entry>)
    requires InKeyOrder(left) && InKeyOrder(right) && forall e :: e in left <==> e in right
    ensures left == right
  {
    EmptyTogether(left, right);
    if left != [] {
      assert right[0] in left && left[0] in right;
      assert left[0] == right[0];
      forall e
        ensures e in left[1..] <==> e in right[1..]
      {
        assert e in left <==> e == left[0] || e in left[1..];
        assert e in right <==> e == right[0] || e in right[1..];
      }
      KeyOrderUnique(left[1..], right[1..]);
      assert left == [left[0]] + left[1..] && right == [right[0]] + right[1..];
    }
  }

  /** Whatever order the hash maps yield their buckets in, there is one canonical list. */
  lemma CanonicalUnique(left: seq<Entry>, right: seq<Entry>, tables: seq<Table>)
    requires Canonical(left, tables) && Canonical(right, tables)
    ensures left == right
  {
    forall e
      ensures e in left <==> e in right
    {
      assert (e.0, e.1, e.2) == e;
    }
    KeyOrderUnique(left, right);
  }

  lemma EntryPreorder()
    ensures TotalPreorder((x: Entry, y: Entry) => LexLeq([x.0, x.1], [y.0, y.1]))
  {
    forall x: Entry, y: Entry
      ensures LexLeq([x.0, x.1], [y.0, y.1]) || LexLeq([y.0, y.1], [x.0, x.1])
    {
      LexTotal([x.0, x.1], [y.0, y.1]);
    }
    forall x: Entry, y: Entry, z: Entry | LexLeq([x.0, x.1], [y.0, y.1]) && LexLeq([y.0, y.1], [z.0, z.1])
      ensures LexLeq([x.0, x.1], [z.0, z.1])
    {
      LexTransitive([x.0, x.1], [y.0, y.1], [z.0, z.1]);
    }
  }

  lemma LexBefore(x: Entry, y: Entry)
    requires LexLeq([x.0, x.1], [y.0, y.1])
    ensures Before(x, y) || (x.0 == y.0 && x.1 == y.1)
  {
    assert [x.0, x.1][1..] == [x.1] && [y.0, y.1][1..] == [y.1];
    assert LexLeq([x.0, x.1], [y.0, y.1]) == (x.0 < y.0 || (x.0 == y.0 && LexLeq([x.1], [y.1])));
  }

  lemma SortedEntries(entries: seq<Entry>, tables: seq<Table>)
    requires Scanned(entries, tables, |tables|, {}) && Distinct(entries)
    ensures Canonical(SortEntries(entries), tables)
  {
    var leq := (x: Entry, y: Entry) => LexLeq([x.0, x.1], [y.0, y.1]);
    var sorted := SortEntries(entries);
    EntryPreorder();
    SortOrders(entries, leq);
    SortPermutes(entries, leq);
    SameElements(sorted, entries);
    PermutationKeepsDistinct(entries, sorted);
    forall i, j | 0 <= i < j < |sorted|
      ensures Before(sorted[i], sorted[j])
    {
      assert leq(sorted[i], sorted[j]);
      LexBefore(sorted[i], sorted[j]);
      assert (sorted[i].0, sorted[i].1, sorted[i].2) in entries && (sorted[j].0, sorted[j].1, sorted[j].2) in entries;
    }
  }

  lemma CanonicalCollides(entries: seq<Entry>, tables: seq<Table>)
    requires Scanned(entries, tables, |tables|, {})
    ensures CollisionBuckets(IdLists(entries), tables)
  {
    forall ids | ids in IdLists(entries)
      ensures |ids| >= 2 && IsBucket(tables, ids)
    {
      var i :| 0 <= i < |entries| && entries[i].2 == ids;
      assert (entries[i].0, entries[i].1, entries[i].2) in entries;
    }
    forall ids | |ids| >= 2 && IsBucket(tables, ids)
      ensures ids in IdLists(entries)
    {
      var band, hash :| 0 <= band < |tables| && hash in tables[band] && tables[band][hash] == ids;
      assert (band, hash, ids) in entries;
      var i :| 0 <= i < |entries| && entries[i] == (band, hash, ids);
      assert IdLists(entries)[i] == ids;
    }
  }

  /** One table's collision buckets in hash-map order. */
  method ScanTable(entries: seq<Entry>, tables: seq<Table>, band: nat) returns (more: seq<Entry>)
    requires band < |tables| && Scanned(entries, tables, band, tables[band].Keys) && Distinct(entries)
    ensures Scanned(more, tables, band, {}) && Distinct(more)
  {
    more := entries;
    var table := tables[band];
    var remaining := table.Keys;
    while remaining != {}
      invariant remaining <= table.Keys
      invariant Scanned(more, tables, band, remaining) && Distinct(more)
      decreases remaining
    {
      var hash: nat :| hash in remaining;
      if |table[hash]| >= 2 {
        assert (band, hash, table[hash]) !in more;
        more := more + [(band, hash, table[hash])];
      }
      remaining := remaining - {hash};
    }
  }

  /** Buckets are gathered table by table in hash-map order, then sorted by band and hash. */
  method OrderedBuckets(tables: seq<Table>) returns (buckets: seq<seq<nat>>, ghost canonical: seq<Entry>)
    ensures Canonical(canonical, tables) && buckets == IdLists(canonical)
    ensures CollisionBuckets(buckets, tables)
  {
    var entries: seq<Entry> := [];
    var band := 0;
    while band < |tables|
      invariant 0 <= band <= |tables|
      invariant Scanned(entries, tables, band, if band < |tables| then tables[band].Keys else {}) && Distinct(entries)
    {
      entries := ScanTable(entries, tables, band);
      band := band + 1;
    }
    SortedEntries(entries, tables);
    canonical := SortEntries(entries);
    buckets := IdLists(SortEntries(entries));
    CanonicalCollides(canonical, tables);
  }

  /** Ids that share a collision bucket are live and their keys collide, and the other way round. */
  lemma TogetherCollide(s: State, bands: nat, buckets: seq<seq<nat>>, i: nat, j: nat)
    requires Consistent(s, bands) && CollisionBuckets(buckets, s.buckets) && i != j
    ensures Together(buckets, (i, j)) <==>
            LivePair(s.idToKey, (i, j)) && Collide(s.bandHashes[i].value, s.bandHashes[j].value)
  {
    if Together(buckets, (i, j)) {
      var b :| 0 <= b < |buckets| && i in buckets[b] && j in buckets[b];
      assert buckets[b] in buckets;
      var band, hash :| 0 <= band < |s.buckets| && hash in s.buckets[band] && s.buckets[band][hash] == buckets[b];
      assert TableMatches(s.buckets[band], s.bandHashes, band);
      assert Stored(s.bandHashes, band, hash, i) && Stored(s.bandHashes, band, hash, j);
      assert s.bandHashes[i].value[band] == s.bandHashes[j].value[band];
    }
    if LivePair(s.idToKey, (i, j)) && Collide(s.bandHashes[i].value, s.bandHashes[j].value) {
      var band :| 0 <= band < bands && s.bandHashes[i].value[band] == s.bandHashes[j].value[band];
      var hash := s.bandHashes[i].value[band];
      assert TableMatches(s.buckets[band], s.bandHashes, band);
      assert Stored(s.bandHashes, band, hash, i) && Stored(s.bandHashes, band, hash, j);
      var ids := s.buckets[band][hash];
      assert i in ids && j in ids;
      assert |ids| >= 2;
      assert IsBucket(s.buckets, ids);
      var b :| 0 <= b < |buckets| && buckets[b] == ids;
    }
  }

  /** After the last bucket the pairs seen are all pairs that stand together. */
  lemma SeenAll(seen: set<(nat, nat)>, buckets: seq<seq<nat>>, i: nat, j: nat)
    requires Complete(seen, buckets, |buckets|, 0, 1) && Together(buckets, (i, j))
    ensures OrderedPair(i, j) in seen
  {
    var b :| 0 <= b < |buckets| && i in buckets[b] && j in buckets[b];
    var l :| 0 <= l < |buckets[b]| && buckets[b][l] == i;
    var r :| 0 <= r < |buckets[b]| && buckets[b][r] == j;
    if l < r {
      assert OrderedPair(buckets[b][l], buckets[b][r]) in seen;
    } else {
      assert OrderedPair(buckets[b][r], buckets[b][l]) in seen;
    }
  }

  lemma SeenIsEdge(s: State, bands: nat, buckets: seq<seq<nat>>, p: (nat, nat))
    requires Consistent(s, bands) && CollisionBuckets(buckets, s.buckets)
    requires p.0 < p.1 && Together(buckets, p)
    ensures LivePair(s.idToKey, p) && KeyPair(s.idToKey, p) in KeyEdges(View(s, bands), AnyPair)
  {
    TogetherCollide(s, bands, buckets, p.0, p.1);
    CollideSymmetric(s.bandHashes[p.0].value, s.bandHashes[p.1].value);
    assert View(s, bands)[s.idToKey[p.0].value] == s.bandHashes[p.0].value;
    assert View(s, bands)[s.idToKey[p.1].value] == s.bandHashes[p.1].value;
  }

  lemma EdgeIsSeen(s: State, bands: nat, buckets: seq<seq<nat>>, seen: set<(nat, nat)>, e: (nat, nat))
    requires Consistent(s, bands) && CollisionBuckets(buckets, s.buckets)
    requires Complete(seen, buckets, |buckets|, 0, 1) && e in KeyEdges(View(s, bands), AnyPair)
    ensures e in KeyPairs(s.idToKey, seen)
  {
    var i, j := s.keyToId[e.0], s.keyToId[e.1];
    TogetherCollide(s, bands, buckets, i, j);
    SeenAll(seen, buckets, i, j);
    assert KeyPair(s.idToKey, OrderedPair(i, j)) == e;
  }

  lemma SeenEdges(s: State, bands: nat, buckets: seq<seq<nat>>, seen: set<(nat, nat)>)
    requires Consistent(s, bands) && CollisionBuckets(buckets, s.buckets)
    requires forall p :: p in seen ==> p.0 < p.1 && Together(buckets, p)
    requires Complete(seen, buckets, |buckets|, 0, 1)
    ensures KeyPairs(s.idToKey, seen) == KeyEdges(View(s, bands), AnyPair)
  {
    var edges := KeyEdges(View(s, bands), AnyPair);
    forall p | p in seen && LivePair(s.idToKey, p)
      ensures KeyPair(s.idToKey, p) in edges
    {
      SeenIsEdge(s, bands, buckets, p);
    }
    forall e | e in edges
      ensures e in KeyPairs(s.idToKey, seen)
    {
      EdgeIsSeen(s, bands, buckets, seen, e);
    }
  }

  lemma CollideSymmetric(left: seq<nat>, right: seq<nat>)
    requires Collide(left, right)
    ensures Collide(right, left)
  {
    var band :| 0 <= band < |left| && band < |right| && left[band] == right[band];
    assert right[band] == left[band];
  }

  method Drain(stream: CandidatePairs) returns (pairs: seq<(nat, nat)>)
    requires stream.Valid() && stream.seen == {}
    modifies stream
    ensures stream.Valid() && stream.bucketIndex == |stream.buckets|
    ensures Distinct(pairs) && pairs == old(stream.Rest())
    ensures forall p :: p in pairs <==> p in KeyPairs(stream.idToKey, stream.seen)
  {
    pairs := [];
    var more := true;
    assert [] + stream.Rest() == stream.Rest();
    while more
      invariant stream.Valid()
      invariant Distinct(pairs)
      invariant old(stream.Rest()) == if more then pairs + stream.Rest() else pairs
      invariant forall p :: p in pairs <==> p in KeyPairs(stream.idToKey, stream.seen)
      invariant !more ==> stream.bucketIndex == |stream.buckets|
      decreases more, stream.Remaining().0, stream.Remaining().1, stream.Remaining().2
    {
      var next := stream.Next();
      if next.None? {
        more := false;
        assert pairs + [] == pairs;
      } else {
        assert pairs + ([next.value] + stream.Rest()) == pairs + [next.value] + stream.Rest();
        pairs := pairs + [next.value];
      }
    }
  }

  /** The list a full run yields: the cursor's walk over the canonical buckets. */
  ghost predicate CandidateList(pairs: seq<(nat, nat)>, s: State) {
    exists entries ::
      Canonical(entries, s.buckets) && CursorFits(IdLists(entries), 0, 0, 1) &&
      pairs == Ahead(s.idToKey, IdLists(entries), 0, 0, 1, {})
  }

  /** Any two full runs on one index yield the same pairs in the same order. */
  lemma CandidateListUnique(left: seq<(nat, nat)>, right: seq<(nat, nat)>, s: State)
    requires CandidateList(left, s) && CandidateList(right, s)
    ensures left == right
  {
    var a :| && Canonical(a, s.buckets) && CursorFits(IdLists(a), 0, 0, 1)
             && left == Ahead(s.idToKey, IdLists(a), 0, 0, 1, {});
    var b :| && Canonical(b, s.buckets) && CursorFits(IdLists(b), 0, 0, 1)
             && right == Ahead(s.idToKey, IdLists(b), 0, 0, 1, {});
    CanonicalUnique(a, b, s.buckets);
  }

  /**
   * Over its full run the iterator yields each colliding pair of live keys once, smaller key first, and nothing else,
   * in an order that depends on the index alone.
   */
  method AllCandidatePairs(index: IndexData) returns (pairs: seq<(nat, nat)>)
    requires index.Valid()
    ensures Distinct(pairs) && CandidateList(pairs, index.Snapshot())
    ensures forall p :: p in pairs <==> p in KeyEdges(index.Contents(), AnyPair)
  {
    var buckets, canonical := OrderedBuckets(index.buckets);
    forall b | 0 <= b < |buckets|
      ensures |buckets[b]| >= 2
    {
      assert buckets[b] in buckets;
    }
    var stream := new CandidatePairs(index.idToKey, buckets);
    pairs := Drain(stream);
    SeenEdges(index.Snapshot(), |index.buckets|, buckets, stream.seen);
  }
}
