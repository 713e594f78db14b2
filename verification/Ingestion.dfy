/** The deduplication engine: one batch goes into the index and its optional mirror store, or into neither. */
module Ingestion {
  import opened Words
  import opened Banding
  import opened IndexSpec
  import opened IndexState
  import opened LshIndexing

  /** The copied feature bytes of one record, as hashes. */
  type Row = seq<nat>

  /** Sketch construction from a feature row; every sketch has the index's seed and width. */
  type Builder = Row -> Sketch

  datatype IngestError = Features | KeyRange | Sketching | Index(error: LshError) | Mirror | Cancelled

  /** What happens to one batch outside the engine: whether its sketches can be built and whether its mirror works. */
  datatype Outside = Outside(sketches: bool, mirrors: bool)

  ghost predicate Builds(config: Config, build: Builder) {
    forall row :: Incompatibility(config, build(row)).None?
  }

  /** Consecutive keys from `start` on, with the sketches of the rows. */
  function Batch(start: nat, rows: seq<Row>, build: Builder): (items: seq<Item>)
    ensures |items| == |rows|
    ensures forall i :: 0 <= i < |rows| ==> items[i] == (start + i, build(rows[i]))
  {
    seq(|rows|, i requires 0 <= i < |rows| => (start + i, build(rows[i])))
  }

  /** The index contents when record `i` has key `i` and the sketch of row `i`. */
  ghost function Indexed(config: Config, build: Builder, rows: seq<Row>): Contents
    requires config.Valid() && Builds(config, build)
  {
    map i: nat | i < |rows| :: BandHashes(config, build(rows[i]))
  }

  /** The mirror entries for the same rows. */
  ghost function Mirrored(build: Builder, rows: seq<Row>): map<nat, Sketch> {
    map i: nat | i < |rows| :: build(rows[i])
  }

  lemma IndexedAppend(config: Config, build: Builder, rows: seq<Row>, row: Row)
    requires config.Valid() && Builds(config, build)
    ensures Indexed(config, build, rows + [row]) ==
            Indexed(config, build, rows)[|rows| := BandHashes(config, build(row))]
  {
  }

  lemma {:induction false} BatchIndexed(config: Config, build: Builder, rows: seq<Row>, more: seq<Row>)
    requires config.Valid() && Builds(config, build)
    ensures Added(Indexed(config, build, rows), config, Batch(|rows|, more, build)) ==
            Indexed(config, build, rows + more)
    decreases |more|
  {
    if more == [] {
      assert rows + more == rows;
    } else {
      var last := |more| - 1;
      BatchIndexed(config, build, rows, more[..last]);
      assert Batch(|rows|, more, build)[..last] == Batch(|rows|, more[..last], build);
      IndexedAppend(config, build, rows + more[..last], more[last]);
      assert rows + more[..last] + [more[last]] == rows + more;
    }
  }

  /** Keys `start`, `start + 1`, ... are all beyond what the rows so far use. */
  lemma BatchAdmissible(config: Config, build: Builder, rows: seq<Row>, more: seq<Row>)
    requires config.Valid() && Builds(config, build)
    ensures Admissible(Indexed(config, build, rows).Keys, config, Batch(|rows|, more, build))
  {
  }

  function AddedEntries(entries: map<nat, Sketch>, items: seq<Item>): map<nat, Sketch> {
    if items == [] then entries
    else AddedEntries(entries, items[..|items| - 1])[items[|items| - 1].0 := items[|items| - 1].1]
  }

  lemma {:induction false} BatchMirrored(build: Builder, rows: seq<Row>, more: seq<Row>)
    ensures AddedEntries(Mirrored(build, rows), Batch(|rows|, more, build)) == Mirrored(build, rows + more)
    decreases |more|
  {
    if more == [] {
      assert rows + more == rows;
    } else {
      var last := |more| - 1;
      BatchMirrored(build, rows, more[..last]);
      assert Batch(|rows|, more, build)[..last] == Batch(|rows|, more[..last], build);
      assert forall i :: 0 <= i < |rows| + last ==> (rows + more)[i] == (rows + more[..last])[i];
    }
  }

  /** Taking the keys of an accepted batch out again gives the contents before it. */
  lemma {:induction false} Compensation(contents: Contents, config: Config, items: seq<Item>)
    requires config.Valid() && Admissible(contents.Keys, config, items)
    ensures Added(contents, config, items) - BatchKeys(items) == contents
  {
    AddedKeys(contents, config, items);
    assert contents.Keys !! BatchKeys(items);
    forall key | key in contents
      ensures Added(contents, config, items)[key] == contents[key]
    {
      AddedElsewhere(contents, config, items, key);
    }
  }

  /** A store whose batches are atomic and may fail for reasons of its own. */
  class MirrorStore {
    var entries: map<nat, Sketch>

    constructor ()
      ensures entries == map[]
    {
      entries := map[];
    }

    /** Make what has been stored durable, if the store works; the entries stay as they are. */
    method Sync(works: bool) returns (ok: bool)
      ensures ok == works
    {
      ok := works;
    }

    method InsertMany(items: seq<Item>, works: bool) returns (ok: bool)
      modifies this
      ensures ok == works
      ensures entries == if ok then AddedEntries(old(entries), items) else old(entries)
    {
      if works {
        entries := AddedEntries(entries, items);
      }
      return works;
    }
  }

  class DedupeEngine {
    const index: LshIndex
    const store: MirrorStore?
    const build: Builder

    ghost predicate Valid()
      reads this, index, index.data
    {
      index.Valid() && Builds(index.config, build)
    }

    ghost function Footprint(): set<object>
      reads this, index
    {
      {index.data} + if store == null then {} else {store}
    }

    constructor (config: Config, build: Builder, mirrored: bool)
      requires config.Valid() && Builds(config, build)
      ensures Valid() && this.build == build && index.config == config && index.Contents() == map[]
      ensures index.IdsUsed() == 0
      ensures fresh(index) && fresh(index.data) && (store != null ==> fresh(store) && store.entries == map[])
      ensures mirrored <==> store != null
    {
      index := new LshIndex(config);
      if mirrored {
        store := new MirrorStore();
      } else {
        store := null;
      }
      this.build := build;
    }

    /** Take the keys of a batch out of the index again. */
    method RemoveAll(items: seq<Item>)
      requires Valid()
      modifies index.data
      ensures Valid() && index.IdsUsed() == old(index.IdsUsed())
      ensures index.Contents() == old(index.Contents()) - BatchKeys(items)
    {
      var i := 0;
      while i < |items|
        invariant 0 <= i <= |items| && Valid() && index.IdsUsed() == old(index.IdsUsed())
        invariant index.Contents() == old(index.Contents()) - BatchKeys(items[..i])
      {
        BatchKeysSplit(items[..i + 1]);
        assert items[..i + 1][..i] == items[..i];
        var _ := index.Remove(items[i].0);
        i := i + 1;
      }
      assert items[..i] == items;
    }

    /** Insert into the index, then into the mirror; a failing mirror takes the batch out of the index again. */
    method Store(items: seq<Item>, mirrors: bool) returns (r: Result<(), IngestError>)
      requires Valid() && forall i :: 0 <= i < |items| ==> Incompatibility(index.config, items[i].1).None?
      modifies Footprint()
      ensures Valid()
      ensures r.Ok? <==>
              && Admissible(old(index.Contents().Keys), index.config, items)
              && old(index.IdsUsed()) + |items| <= U32_MAX
              && (store != null ==> mirrors)
      ensures r.Err? ==> index.Contents() == old(index.Contents())
      ensures r.Err? && store != null ==> store.entries == old(store.entries)
      ensures r.Ok? ==> index.Contents() == Added(old(index.Contents()), index.config, items)
      ensures r.Ok? && store != null ==> store.entries == AddedEntries(old(store.entries), items)
      ensures r.Err? ==>
                r.error == if Admissible(old(index.Contents().Keys), index.config, items) &&
                              old(index.IdsUsed()) + |items| <= U32_MAX
                           then Mirror else Index(Rejection(old(index.Contents().Keys), index.config, items))
      ensures index.IdsUsed() == old(index.IdsUsed()) + if r.Ok? || r.error.Mirror? then |items| else 0
    {
      ghost var before := index.Contents();
      var inserted := index.InsertMany(items);
      if inserted.Err? {
        return Err(Index(inserted.error));
      }
      if store != null {
        var mirrored := store.InsertMany(items, mirrors);
        if !mirrored {
          RemoveAll(items);
          Compensation(before, index.config, items);
          return Err(Mirror);
        }
      }
      return Ok(());
    }

    /** Whether a batch under free keys goes in: there are ids for it, and nothing outside fails. */
    ghost predicate Takes(used: nat, size: nat, outside: Outside)
      reads this
    {
      size == 0 || (outside.sketches && used + size <= U32_MAX && (store != null ==> outside.mirrors))
    }

    /** One batch of copied rows under consecutive keys. */
    method AddMany(startKey: nat, rows: seq<Row>, outside: Outside) returns (r: Result<(), IngestError>)
      requires Valid()
      modifies Footprint()
      ensures Valid()
      ensures r.Ok? <==>
              || rows == []
              || (&& startKey + (|rows| - 1) <= U64_MAX
                  && Admissible(old(index.Contents().Keys), index.config, Batch(startKey, rows, build))
                  && Takes(old(index.IdsUsed()), |rows|, outside))
      ensures r.Err? ==> index.Contents() == old(index.Contents())
      ensures r.Err? && store != null ==> store.entries == old(store.entries)
      ensures r.Ok? ==> index.Contents() == Added(old(index.Contents()), index.config, Batch(startKey, rows, build))
      ensures r.Ok? && store != null ==> store.entries == AddedEntries(old(store.entries), Batch(startKey, rows, build))
      ensures r.Err? ==>
                r.error == if startKey + (|rows| - 1) > U64_MAX then KeyRange
                           else if !outside.sketches then Sketching
                           else if Admissible(old(index.Contents().Keys), index.config, Batch(startKey, rows, build)) &&
                                   old(index.IdsUsed()) + |rows| <= U32_MAX
                           then Mirror
                           else Index(Rejection(old(index.Contents().Keys), index.config, Batch(startKey, rows, build)))
      ensures index.IdsUsed() == old(index.IdsUsed()) + if r.Ok? || r.error.Mirror? then |rows| else 0
    {
      if rows == [] {
        return Ok(());
      }
      if startKey + (|rows| - 1) > U64_MAX {
        return Err(KeyRange);
      }
      if !outside.sketches {
        return Err(Sketching);
      }
      r := Store(Batch(startKey, rows, build), outside.mirrors);
    }

    /** Key `i` has the data of row `i`, in the index and in the mirror, and there are no other keys. */
    ghost predicate Holds(rows: seq<Row>)
      reads this, index, index.data, store
    {
      && Valid() && index.Contents() == Indexed(index.config, build, rows)
      && (store != null ==> store.entries == Mirrored(build, rows))
    }

    /** There are no more records than spent ids, because every live key has an id of its own. */
    lemma RecordsWithinIds(rows: seq<Row>)
      requires Holds(rows)
      ensures |rows| <= index.IdsUsed()
    {
      KeyCount(index.data.keyToId, index.data.idToKey);
      IndexedSize(index.config, build, rows);
      assert index.Contents().Keys == index.data.keyToId.Keys;
      assert |index.data.keyToId.Keys| == |index.data.keyToId|;
    }

    /** A batch under the next free keys goes in if and only if there are ids for it and nothing outside fails. */
    method AddNext(startKey: nat, more: seq<Row>, outside: Outside, ghost rows: seq<Row>)
      returns (r: Result<(), IngestError>)
      requires Holds(rows) && startKey == |rows|
      modifies Footprint()
      ensures Holds(if r.Ok? then rows + more else rows)
      ensures r.Ok? <==> Takes(old(index.IdsUsed()), |more|, outside)
      ensures r.Err? ==> !r.error.Features? && !r.error.Cancelled?
      ensures r.Err? && r.error.Sketching? ==> !outside.sketches
      ensures r.Err? && r.error.Mirror? ==> store != null && !outside.mirrors
      ensures r.Err? && (r.error.Index? || r.error.KeyRange?) ==> old(index.IdsUsed()) + |more| > U32_MAX
      ensures index.IdsUsed() == old(index.IdsUsed()) + if r.Ok? || r.error.Mirror? then |more| else 0
    {
      RecordsWithinIds(rows);
      BatchAdmissible(index.config, build, rows, more);
      r := AddMany(startKey, more, outside);
      BatchIndexed(index.config, build, rows, more);
      BatchMirrored(build, rows, more);
    }
  }

  lemma {:induction false} IndexedSize(config: Config, build: Builder, rows: seq<Row>)
    requires config.Valid() && Builds(config, build)
    ensures |Indexed(config, build, rows).Keys| == |rows|
    decreases |rows|
  {
    if rows == [] {
      assert Indexed(config, build, rows).Keys == {};
    } else {
      var last := |rows| - 1;
      IndexedSize(config, build, rows[..last]);
      IndexedAppend(config, build, rows[..last], rows[last]);
      assert rows[..last] + [rows[last]] == rows;
      assert Indexed(config, build, rows).Keys == Indexed(config, build, rows[..last]).Keys + {last};
    }
  }
}
