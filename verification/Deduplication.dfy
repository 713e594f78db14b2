/** Incremental deduplication: records, index and mirror stay aligned, and a result splits the records in two. */
module Deduplication {
  import opened Words
  import opened Sorting
  import opened Banding
  import opened LshIndexing
  import opened Connectivity
  import opened Components
  import opened KeyGraph
  import opened Grouping
  import opened Ingestion

  // ---- Groups and the keep/drop split ----

  datatype Group<T> = Group(representative: T, members: seq<T>, representativeIndex: nat, memberIndices: seq<nat>)

  ghost function IndexLists<T>(groups: seq<Group<T>>): (lists: seq<seq<nat>>)
    ensures |lists| == |groups| && forall i :: 0 <= i < |groups| ==> lists[i] == groups[i].memberIndices
  {
    seq(|groups|, i requires 0 <= i < |groups| => groups[i].memberIndices)
  }

  /** Groups over the classes of a partition, each with a representative from among its members. */
  ghost predicate Represented<T>(groups: seq<Group<T>>, classes: Classes) {
    && ClassList(IndexLists(groups), classes, 2)
    && (forall i :: 0 <= i < |groups| ==> groups[i].representativeIndex in groups[i].memberIndices)
  }

  /** The members of one group that are not its representative. */
  function Others<T>(group: Group<T>): set<nat> {
    (set i | i in group.memberIndices) - {group.representativeIndex}
  }

  function Dropped<T>(groups: seq<Group<T>>): set<nat> {
    if groups == [] then {} else Dropped(groups[..|groups| - 1]) + Others(groups[|groups| - 1])
  }

  /** Group sizes less one, summed. */
  function Excess<T>(groups: seq<Group<T>>): int {
    if groups == [] then 0 else Excess(groups[..|groups| - 1]) + |groups[|groups| - 1].memberIndices| - 1
  }

  lemma {:induction false} DroppedFrom<T>(groups: seq<Group<T>>, i: nat)
    ensures i in Dropped(groups) <==> exists k :: 0 <= k < |groups| && i in Others(groups[k])
    decreases |groups|
  {
    if groups != [] {
      var last := |groups| - 1;
      DroppedFrom(groups[..last], i);
      assert forall k :: 0 <= k < last ==> groups[..last][k] == groups[k];
    }
  }

  lemma SharedHead(left: seq<nat>, right: seq<nat>, classes: Classes, i: nat)
    requires Partition(classes) && IsClass(left, classes, 2) && IsClass(right, classes, 2)
    requires i in left && i in right
    ensures left[0] == right[0]
  {
    assert classes[left[0]] == classes[i] == classes[right[0]];
    assert left[0] in right;
    SameClass(left, right, classes, 2);
  }

  /** Two groups that share a member are the same group. */
  lemma SharedMember<T>(groups: seq<Group<T>>, classes: Classes, j: nat, k: nat, i: nat)
    requires Partition(classes) && Represented(groups, classes)
    requires j < |groups| && k < |groups| && i in groups[j].memberIndices && i in groups[k].memberIndices
    ensures j == k
  {
    var lists := IndexLists(groups);
    SharedHead(lists[j], lists[k], classes, i);
  }

  lemma OthersCount<T>(group: Group<T>)
    requires Ascending(group.memberIndices) && group.representativeIndex in group.memberIndices
    ensures |Others(group)| == |group.memberIndices| - 1
  {
    AscendingSize(group.memberIndices, set i | i in group.memberIndices);
  }

  /** Every group drops all but one of its members. */
  lemma {:induction false} DroppedCount<T>(groups: seq<Group<T>>, classes: Classes, n: nat)
    requires Partition(classes) && Represented(groups, classes) && n <= |groups|
    ensures |Dropped(groups[..n])| == Excess(groups[..n])
    decreases n
  {
    if n > 0 {
      var group, before := groups[n - 1], groups[..n - 1];
      DroppedCount(groups, classes, n - 1);
      assert groups[..n][..n - 1] == before;
      assert IsClass(IndexLists(groups)[n - 1], classes, 2);
      OthersCount(group);
      forall i | i in Others(group)
        ensures i !in Dropped(before)
      {
        DroppedFrom(before, i);
        if k :| 0 <= k < |before| && i in Others(before[k]) {
          SharedMember(groups, classes, k, n - 1, i);
        }
      }
      assert Dropped(before) !! Others(group);
    }
  }

  /** A dropped index lies in one group only, and that group's representative is kept. */
  lemma DroppedOnce<T>(groups: seq<Group<T>>, classes: Classes, i: nat) returns (k: nat)
    requires Partition(classes) && Represented(groups, classes) && i in Dropped(groups)
    ensures k < |groups| && i in groups[k].memberIndices && groups[k].representativeIndex !in Dropped(groups)
    ensures forall j :: 0 <= j < |groups| && i in groups[j].memberIndices ==> j == k
  {
    DroppedFrom(groups, i);
    k :| 0 <= k < |groups| && i in Others(groups[k]);
    forall j | 0 <= j < |groups| && i in groups[j].memberIndices
      ensures j == k
    {
      SharedMember(groups, classes, j, k, i);
    }
    var head := groups[k].representativeIndex;
    DroppedFrom(groups, head);
    if j :| 0 <= j < |groups| && head in Others(groups[j]) {
      SharedMember(groups, classes, j, k, head);
    }
  }

  // ---- The index of records ----

  datatype DedupeError = InvalidRepresentative | SyncFailed

  datatype DeduplicationResult<T> = DeduplicationResult(
    groups: seq<Group<T>>, kept: seq<T>, dropped: seq<T>, keptIndices: seq<nat>, droppedIndices: seq<nat>)

  predicate InRange(indices: seq<nat>, limit: nat) {
    forall k :: 0 <= k < |indices| ==> indices[k] < limit
  }

  function Pick<T>(records: seq<T>, indices: seq<nat>): (picked: seq<T>)
    requires InRange(indices, |records|)
    ensures |picked| == |indices| && forall i :: 0 <= i < |indices| ==> picked[i] == records[indices[i]]
  {
    seq(|indices|, i requires 0 <= i < |indices| => records[indices[i]])
  }

  /** The group of these members: by default the first represents it, otherwise the first one the selector returned. */
  ghost predicate Converts<T>(group: Group<T>, records: seq<T>, indices: seq<nat>, selector: Option<seq<T> -> T>) {
    && indices != [] && InRange(indices, |records|)
    && group.memberIndices == indices && group.members == Pick(records, indices)
    && (exists k :: 0 <= k < |indices| && Represents(group, k, selector))
  }

  ghost predicate Represents<T>(group: Group<T>, k: nat, selector: Option<seq<T> -> T>) {
    && k < |group.memberIndices| && k < |group.members|
    && group.representativeIndex == group.memberIndices[k] && group.representative == group.members[k]
    && (selector.None? ==> k == 0)
    && (selector.Some? ==> group.representative == selector.value(group.members) &&
                           forall j :: 0 <= j < k ==> group.members[j] != group.representative)
  }

  /** The selector returns something that is not in the group. */
  ghost predicate Misselects<T>(records: seq<T>, indices: seq<nat>, selector: Option<seq<T> -> T>)
    requires InRange(indices, |records|)
  {
    selector.Some? && selector.value(Pick(records, indices)) !in Pick(records, indices)
  }

  method ConvertGroup<T(==)>(records: seq<T>, indices: seq<nat>, selector: Option<seq<T> -> T>)
    returns (r: Result<Group<T>, DedupeError>)
    requires indices != [] && InRange(indices, |records|)
    ensures r.Err? <==> Misselects(records, indices, selector)
    ensures r.Err? ==> r.error == InvalidRepresentative
    ensures r.Ok? ==> Converts(r.value, records, indices, selector)
  {
    var members := Pick(records, indices);
    if selector.None? {
      r := Ok(Group(members[0], members, indices[0], indices));
      assert Represents(r.value, 0, selector);
      return;
    }
    var selected := selector.value(members);
    var k := 0;
    while k < |members|
      invariant 0 <= k <= |members| && forall j :: 0 <= j < k ==> members[j] != selected
    {
      if selected == members[k] {
        r := Ok(Group(members[k], members, indices[k], indices));
        assert Represents(r.value, k, selector);
        return;
      }
      k := k + 1;
    }
    return Err(InvalidRepresentative);
  }

  /** All groups, or the first selection that is not a member. */
  method ConvertGroups<T(==)>(records: seq<T>, raw: seq<DuplicateGroup>, selector: Option<seq<T> -> T>)
    returns (r: Result<seq<Group<T>>, DedupeError>)
    requires forall k :: 0 <= k < |raw| ==> raw[k].members != [] && InRange(raw[k].members, |records|)
    ensures r.Err? <==> exists k :: 0 <= k < |raw| && Misselects(records, raw[k].members, selector)
    ensures r.Err? ==> r.error == InvalidRepresentative
    ensures r.Ok? ==> |r.value| == |raw|
    ensures r.Ok? ==> forall k :: 0 <= k < |raw| ==> Converts(r.value[k], records, raw[k].members, selector)
  {
    var groups: seq<Group<T>> := [];
    while |groups| < |raw|
      invariant |groups| <= |raw|
      invariant forall k :: 0 <= k < |groups| ==> Converts(groups[k], records, raw[k].members, selector)
      invariant forall k :: 0 <= k < |groups| ==> !Misselects(records, raw[k].members, selector)
    {
      var group := ConvertGroup(records, raw[|groups|].members, selector);
      if group.Err? {
        return Err(group.error);
      }
      groups := groups + [group.value];
    }
    return Ok(groups);
  }

  /** Conversion keeps the classes and gives each a representative. */
  method ConvertClasses<T(==)>(records: seq<T>, raw: seq<DuplicateGroup>, selector: Option<seq<T> -> T>,
                               ghost classes: Classes)
    returns (r: Result<seq<Group<T>>, DedupeError>)
    requires DefaultGroups(raw, classes, 2) && Partition(classes)
    requires forall k :: 0 <= k < |raw| ==> raw[k].members != [] && InRange(raw[k].members, |records|)
    ensures r.Ok? ==> Represented(r.value, classes)
    ensures r.Ok? ==> forall k :: 0 <= k < |r.value| ==>
            Converts(r.value[k], records, r.value[k].memberIndices, selector)
    ensures r.Err? <==> Misselected(classes, records, selector)
    ensures r.Err? ==> r.error == InvalidRepresentative
  {
    r := ConvertGroups(records, raw, selector);
    if Misselected(classes, records, selector) {
      MisselectionListed(records, raw, classes, selector);
    }
    if r.Ok? {
      ConvertedRepresent(r.value, records, raw, classes, selector);
    } else {
      MisselectionFound(records, raw, classes, selector);
    }
  }

  function Verify<T>(records: seq<T>, exact: Option<(T, T) -> bool>): Verifier {
    if exact.None? then AnyPair
    else (a: nat, b: nat) => a < |records| && b < |records| && exact.value(records[a], records[b])
  }

  /** The indices below `n` that are not dropped. */
  function Remaining(n: nat, dropped: set<nat>): seq<nat> {
    if n == 0 then []
    else if n - 1 in dropped then Remaining(n - 1, dropped)
    else Remaining(n - 1, dropped) + [n - 1]
  }

  lemma {:induction false} RemainingIs(n: nat, dropped: set<nat>)
    ensures Ascending(Remaining(n, dropped))
    ensures forall i: nat :: i in Remaining(n, dropped) <==> i < n && i !in dropped
    decreases n
  {
    if n > 0 {
      RemainingIs(n - 1, dropped);
      var before, all := Remaining(n - 1, dropped), Remaining(n, dropped);
      if n - 1 !in dropped {
        assert forall k :: 0 <= k < |before| ==> all[k] == before[k] && before[k] in before;
        forall i: nat
          ensures i in all <==> i < n && i !in dropped
        {
          assert i in all <==> i in before || i == n - 1;
        }
      }
    }
  }

  /**
   * The keep/drop split: both lists ascend, together they are all indices, dropped ones are the non-representatives of
   * the groups, and their number is the sum of group sizes less one.
   */
  ghost predicate Splits<T>(result: DeduplicationResult<T>, records: seq<T>) {
    && InRange(result.keptIndices, |records|) && InRange(result.droppedIndices, |records|)
    && result.kept == Pick(records, result.keptIndices) && result.dropped == Pick(records, result.droppedIndices)
    && Ascending(result.keptIndices) && Ascending(result.droppedIndices)
    && (forall i: nat :: i in result.droppedIndices <==> i in Dropped(result.groups))
    && (forall i: nat :: i in result.keptIndices <==> i < |records| && i !in Dropped(result.groups))
    && |result.droppedIndices| == Excess(result.groups)
    && |result.keptIndices| + |result.droppedIndices| == |records|
  }

  lemma {:induction false} RemainingCount(n: nat, dropped: set<nat>)
    requires forall i :: i in dropped ==> i < n
    ensures |Remaining(n, dropped)| + |dropped| == n
    decreases n
  {
    if n > 0 {
      if n - 1 in dropped {
        RemainingCount(n - 1, dropped - {n - 1});
        RemainingSame(n - 1, dropped, dropped - {n - 1});
      } else {
        RemainingCount(n - 1, dropped);
      }
    } else {
      assert dropped == {};
    }
  }

  lemma {:induction false} RemainingSame(n: nat, left: set<nat>, right: set<nat>)
    requires forall i: nat :: i < n ==> (i in left <==> i in right)
    ensures Remaining(n, left) == Remaining(n, right)
    decreases n
  {
    if n > 0 {
      RemainingSame(n - 1, left, right);
    }
  }

  /** The computed lists make a split of the records. */
  lemma {:induction false} SplitHolds<T>(groups: seq<Group<T>>, records: seq<T>, result: DeduplicationResult<T>)
    requires (forall i :: i in Dropped(groups) ==> i < |records|) && |Dropped(groups)| == Excess(groups)
    requires result.groups == groups
    requires result.keptIndices == Remaining(|records|, Dropped(groups))
    requires result.droppedIndices == AscendingList(Dropped(groups))
    requires InRange(result.keptIndices, |records|) && InRange(result.droppedIndices, |records|)
    requires result.kept == Pick(records, result.keptIndices) && result.dropped == Pick(records, result.droppedIndices)
    ensures Splits(result, records)
  {
    RemainingIs(|records|, Dropped(groups));
    RemainingCount(|records|, Dropped(groups));
  }

  lemma {:induction false} DroppedBelow<T>(groups: seq<Group<T>>, classes: Classes, limit: nat, i: nat)
    requires Partition(classes) && Represented(groups, classes) && forall x :: x in classes ==> x < limit
    requires i in Dropped(groups)
    ensures i < limit
  {
    var k := DroppedOnce(groups, classes, i);
    MemberIsNode(IndexLists(groups)[k], classes, i);
  }

  lemma MemberIsNode(list: seq<nat>, classes: Classes, i: nat)
    requires Partition(classes) && IsClass(list, classes, 2) && i in list
    ensures i in classes
  {
  }

  lemma {:induction false} ListsInRange(dropped: set<nat>, limit: nat)
    requires forall i :: i in dropped ==> i < limit
    ensures InRange(AscendingList(dropped), limit) && InRange(Remaining(limit, dropped), limit)
  {
    RemainingIs(limit, dropped);
    var kept, list := Remaining(limit, dropped), AscendingList(dropped);
    assert forall k :: 0 <= k < |kept| ==> kept[k] in kept;
    assert forall k :: 0 <= k < |list| ==> list[k] in list;
  }

  lemma {:induction false} DroppedInRange<T>(groups: seq<Group<T>>, classes: Classes, limit: nat)
    requires Partition(classes) && Represented(groups, classes) && forall x :: x in classes ==> x < limit
    ensures forall i :: i in Dropped(groups) ==> i < limit
    ensures InRange(AscendingList(Dropped(groups)), limit) && InRange(Remaining(limit, Dropped(groups)), limit)
    ensures |Dropped(groups)| == Excess(groups)
  {
    DroppedCount(groups, classes, |groups|);
    assert groups[..|groups|] == groups;
    forall i | i in Dropped(groups)
      ensures i < limit
    {
      DroppedBelow(groups, classes, limit, i);
    }
    ListsInRange(Dropped(groups), limit);
  }

  function Firsts<T>(items: seq<(T, Row)>): (records: seq<T>)
    ensures |records| == |items| && forall i :: 0 <= i < |items| ==> records[i] == items[i].0
  {
    seq(|items|, i requires 0 <= i < |items| => items[i].0)
  }

  function Seconds<T>(items: seq<(T, Row)>): (rows: seq<Row>)
    ensures |rows| == |items| && forall i :: 0 <= i < |items| ==> rows[i] == items[i].1
  {
    seq(|items|, i requires 0 <= i < |items| => items[i].1)
  }

  class DedupeIndex<T(==)> {
    const engine: DedupeEngine
    const batchSize: nat
    const exact: Option<(T, T) -> bool>
    const representative: Option<seq<T> -> T>
    var records: seq<T>
    /** The features each record came with. */
    ghost var rows: seq<Row>

    /** Record, index entry and mirror entry number `i` belong together, and there are no others. */
    ghost predicate Valid()
      reads this, engine, engine.index, engine.index.data, engine.store
    {
      engine.Holds(rows) && 0 < batchSize && |rows| == |records|
    }

    constructor (config: Config, build: Builder, mirrored: bool, batchSize: nat, exact: Option<(T, T) -> bool>,
                 representative: Option<seq<T> -> T>)
      requires config.Valid() && Builds(config, build) && 0 < batchSize
      ensures Valid() && records == [] && rows == [] && engine.index.IdsUsed() == 0
      ensures this.batchSize == batchSize && this.exact == exact && this.representative == representative
      ensures engine.index.config == config && engine.build == build && (mirrored <==> engine.store != null)
    {
      engine := new DedupeEngine(config, build, mirrored);
      this.batchSize, this.exact, this.representative := batchSize, exact, representative;
      records, rows := [], [];
    }

    /** Live keys and mirror keys are exactly the record numbers. */
    lemma Aligned()
      requires Valid()
      ensures forall key: nat :: key in engine.index.Contents() <==> key < |records|
      ensures engine.store != null ==> forall key: nat :: key in engine.store.entries <==> key < |records|
    {
    }

    /** Hand one batch of rows to the engine and keep its records only if it was stored. */
    method Commit(batch: seq<(T, Row)>, outside: Outside) returns (r: Result<(), IngestError>)
      requires Valid()
      modifies this, engine.Footprint()
      ensures Valid()
      ensures r.Ok? <==> engine.Takes(old(engine.index.IdsUsed()), |batch|, outside)
      ensures r.Ok? ==> records == old(records) + Firsts(batch) && rows == old(rows) + Seconds(batch)
      ensures r.Ok? ==> engine.index.IdsUsed() == old(engine.index.IdsUsed()) + |batch|
      ensures r.Err? ==> records == old(records) && rows == old(rows)
      ensures r.Err? ==> Explains(r.error, outside, engine.store != null, old(engine.index.IdsUsed()) + |batch|)
    {
      r := engine.AddNext(|records|, Seconds(batch), outside, rows);
      if r.Ok? {
        records, rows := records + Firsts(batch), rows + Seconds(batch);
      }
    }

    /** One record with its features, which may fail to arrive; the key is the record's position. */
    method AddFeatures(record: T, row: Row, arrives: bool, outside: Outside) returns (r: Result<nat, IngestError>)
      requires Valid()
      modifies this, engine.Footprint()
      ensures Valid()
      ensures r.Ok? <==> arrives && engine.Takes(old(engine.index.IdsUsed()), 1, outside)
      ensures r.Ok? ==> r.value == |old(records)| && records == old(records) + [record] && rows == old(rows) + [row]
      ensures r.Err? ==> records == old(records) && rows == old(rows)
    {
      if !arrives {
        return Err(IngestError.Features);
      }
      var key := |records|;
      var stored := Commit([(record, row)], outside);
      assert Firsts([(record, row)]) == [record] && Seconds([(record, row)]) == [row];
      return if stored.Ok? then Ok(key) else Err(stored.error);
    }

    /** The next batch of the source, unless the source or a feature row raises on the way. */
    method CollectRows(items: seq<(T, Row)>, start: nat, hazards: Hazards)
      returns (r: Result<seq<(T, Row)>, IngestError>)
      requires start <= |items|
      ensures r.Ok? <==> Arrives(hazards, start, batchSize, |items|)
      ensures r.Err? ==> r.error.Features?
      ensures r.Ok? ==> r.value == items[start..BatchEnd(start, batchSize, |items|)]
    {
      var batch: seq<(T, Row)> := [];
      while |batch| < batchSize
        invariant start + |batch| <= |items| && |batch| <= batchSize && batch == items[start..start + |batch|]
        invariant forall i: nat :: start <= i < start + |batch| ==> hazards.arrives(i)
      {
        if !hazards.arrives(start + |batch|) {
          return Err(IngestError.Features);
        }
        if start + |batch| == |items| {
          break;
        }
        batch := batch + [items[start + |batch|]];
      }
      return Ok(batch);
    }

    /** The first `taken` items have been added to what was there before, in whole batches. */
    ghost predicate TookItems(before: seq<T>, beforeRows: seq<Row>, items: seq<(T, Row)>, taken: nat)
      reads this
    {
      Took(records, rows, before, beforeRows, items, taken, batchSize)
    }

    /** Collect and commit the batch at `added`; the result is how far the source has been taken. */
    method AddBatch(items: seq<(T, Row)>, added: nat, hazards: Hazards, ghost before: seq<T>,
                    ghost beforeRows: seq<Row>)
      returns (r: Result<nat, IngestError>)
      requires Valid() && TookItems(before, beforeRows, items, added)
      modifies this, engine.Footprint()
      ensures Valid() && TookItems(before, beforeRows, items, if r.Ok? then r.value else added)
      ensures r.Ok? ==> r.value == BatchEnd(added, batchSize, |items|)
      ensures r.Ok? ==> engine.index.IdsUsed() == old(engine.index.IdsUsed()) + r.value - added
      ensures
        var size := BatchEnd(added, batchSize, |items|) - added;
        && (r.Ok? <==> && Arrives(hazards, added, batchSize, |items|)
                       && engine.Takes(old(engine.index.IdsUsed()), size, hazards.At(added)))
        && (r.Err? ==> StoppedBy(r.error, hazards, added, |items|, engine.store != null, false,
                                 old(engine.index.IdsUsed()) + size))
    {
      var batch := CollectRows(items, added, hazards);
      if batch.Err? {
        return Err(batch.error);
      }
      if batch.value == [] {
        return Ok(added);
      }
      var stored := Commit(batch.value, hazards.At(added));
      if stored.Err? {
        return Err(stored.error);
      }
      TookStep(old(records), old(rows), before, beforeRows, items, added, batchSize);
      return Ok(added + |batch.value|);
    }

    /**
     * Whole batches are committed in source order until the source ends or something fails; a batch that fails leaves
     * no trace, and earlier batches stay. All items are taken if and only if nothing outside fails and there are ids
     * for them. `watched` says that there is a progress callback, `sized` that the source knows its length.
     */
    method AddManyFeatures(items: seq<(T, Row)>, watched: bool, sized: bool, hazards: Hazards)
      returns (r: Result<nat, IngestError>, ghost taken: nat)
      requires Valid()
      modifies this, engine.Footprint()
      ensures Valid() && TookItems(old(records), old(rows), items, taken)
      ensures r.Ok? <==>
              && Unharmed(hazards, |items|, batchSize, engine.store != null, watched, sized)
              && (items == [] || old(engine.index.IdsUsed()) + |items| <= U32_MAX)
      ensures r.Ok? ==> taken == |items| && r.value == |items|
      ensures r.Err? ==> StoppedBy(r.error, hazards, taken, |items|, engine.store != null, watched,
                                   old(engine.index.IdsUsed()) + |items|)
    {
      var added: nat := 0;
      taken := 0;
      ghost var limit, mirrored, used := |items|, engine.store != null, engine.index.IdsUsed();
      assert items[..0] == [] && records + [] == records && rows + [] == rows;
      while true
        invariant Valid() && taken == added && TookItems(old(records), old(rows), items, added)
        invariant engine.index.IdsUsed() == used + added && (added == 0 || used + added <= U32_MAX)
        invariant UnharmedBelow(hazards, added, limit, batchSize, mirrored, watched)
        decreases |items| - added
      {
        var reached := AddBatch(items, added, hazards, old(records), old(rows));
        if reached.Err? {
          StopsHere(hazards, added, limit, batchSize, mirrored, watched, sized, used);
          StopStands(reached.error, hazards, added, limit, mirrored, watched,
                     used + BatchEnd(added, batchSize, limit), used + limit);
          return Err(reached.error), taken;
        }
        if reached.value == added {
          AllUnharmed(hazards, limit, batchSize, mirrored, watched, sized);
          if watched && (!sized || added == 0) && hazards.cancelsAtEnd {
            return Err(Cancelled), taken;
          }
          return Ok(added), taken;
        }
        taken := reached.value;
        if watched && hazards.cancels(reached.value) {
          CancelSpoils(hazards, added, limit, batchSize, mirrored, sized);
          return Err(Cancelled), taken;
        }
        UnharmedStep(hazards, added, limit, batchSize, mirrored, watched);
        added := reached.value;
      }
    }

    /** The pairs that grouping accepts: all candidates, or those the exact check confirms. */
    function Accepts(): Verifier
      reads this
    {
      Verify(records, exact)
    }

    /** Every record with the records it is a duplicate of, directly or through others. */
    ghost function Duplicates(): Classes
      requires Valid()
      reads this, engine, engine.index, engine.index.data, engine.store
    {
      ComponentsOf(Below(|records|), RecordEdges(engine.index.config, engine.build, rows, records, exact))
    }

    /** The components of the key graph of the index are the classes of duplicates. */
    lemma GraphIsOfRecords()
      requires Valid()
      ensures KeyComponents(engine.index.Contents(), Accepts()) == Duplicates() && Partition(Duplicates())
      ensures forall x :: x in Duplicates() ==> x < |records|
    {
      EdgesAreDuplicates(engine.index.config, engine.build, rows, records, exact);
      ComponentsPartition(Below(|records|), RecordEdges(engine.index.config, engine.build, rows, records, exact));
    }

    method RawGroups() returns (raw: seq<DuplicateGroup>)
      requires Valid()
      ensures DefaultGroups(raw, Duplicates(), 2)
      ensures Partition(Duplicates())
      ensures forall k :: 0 <= k < |raw| ==> raw[k].members != [] && InRange(raw[k].members, |records|)
    {
      if exact.None? {
        raw := DuplicateGroups(engine.index.data);
      } else {
        raw := DuplicateGroupsWith(engine.index.data, 2, Verify(records, exact));
      }
      GraphIsOfRecords();
      RawInRange(raw, Duplicates(), |records|);
    }

    method Groups() returns (r: Result<seq<Group<T>>, DedupeError>)
      requires Valid()
      ensures r.Ok? ==> Represented(r.value, Duplicates())
      ensures r.Ok? ==> forall k :: 0 <= k < |r.value| ==>
                Converts(r.value[k], records, r.value[k].memberIndices, representative)
      ensures r.Err? <==> Misselected(Duplicates(), records, representative)
      ensures r.Err? ==> r.error == InvalidRepresentative
    {
      var raw := RawGroups();
      r := ConvertClasses(records, raw, representative, Duplicates());
    }

    /** Groups with the keep/drop split of all records they imply; a mirror has to sync before they are given out. */
    method Result(syncs: bool) returns (r: Result<DeduplicationResult<T>, DedupeError>)
      requires Valid()
      ensures r.Ok? <==> !Misselected(Duplicates(), records, representative) && (engine.store != null ==> syncs)
      ensures r.Ok? ==> Represented(r.value.groups, Duplicates())
      ensures r.Ok? ==> forall k :: 0 <= k < |r.value.groups| ==>
                Converts(r.value.groups[k], records, r.value.groups[k].memberIndices, representative)
      ensures r.Ok? ==> Splits(r.value, records)
      ensures r.Err? ==> (r.error == InvalidRepresentative <==> Misselected(Duplicates(), records, representative))
    {
      var groups := Groups();
      if groups.Err? {
        return Err(groups.error);
      }
      GraphIsOfRecords();
      var dropped := Dropped(groups.value);
      DroppedInRange(groups.value, Duplicates(), |records|);
      var kept := Remaining(|records|, dropped);
      var list := ListInOrder(dropped);
      var result := DeduplicationResult(groups.value, Pick(records, kept), Pick(records, list), kept, list);
      SplitHolds(groups.value, records, result);
      if engine.store != null {
        var synced := engine.store.Sync(syncs);
        if !synced {
          return Err(SyncFailed);
        }
      }
      return Ok(result);
    }
  }

  /** Two records share a bucket in some band, and the exact check, if there is one, confirms them. */
  ghost predicate Duplicate<T>(config: Config, build: Builder, rows: seq<Row>, records: seq<T>,
                               exact: Option<(T, T) -> bool>, a: nat, b: nat)
    requires config.Valid() && Builds(config, build) && |rows| == |records| && a < |records| && b < |records|
  {
    && Collide(BandHashes(config, build(rows[a])), BandHashes(config, build(rows[b])))
    && (exact.None? || exact.value(records[a], records[b]))
  }

  ghost function RecordEdges<T>(config: Config, build: Builder, rows: seq<Row>, records: seq<T>,
                                exact: Option<(T, T) -> bool>): Edges
    requires config.Valid() && Builds(config, build) && |rows| == |records|
  {
    set a: nat, b: nat | a < b < |records| && Duplicate(config, build, rows, records, exact, a, b) :: (a, b)
  }

  /** The key graph of the indexed records, with the exact check as its verifier, joins just the duplicates. */
  lemma {:induction false} EdgesAreDuplicates<T>(config: Config, build: Builder, rows: seq<Row>, records: seq<T>,
                                                 exact: Option<(T, T) -> bool>)
    requires config.Valid() && Builds(config, build) && |rows| == |records|
    ensures Indexed(config, build, rows).Keys == Below(|records|)
    ensures KeyEdges(Indexed(config, build, rows), Verify(records, exact)) ==
            RecordEdges(config, build, rows, records, exact)
  {
    var edges, pairs := KeyEdges(Indexed(config, build, rows), Verify(records, exact)),
                        RecordEdges(config, build, rows, records, exact);
    forall e | e in edges
      ensures e in pairs
    {
      EdgeIsDuplicate(config, build, rows, records, exact, e.0, e.1);
    }
    forall e | e in pairs
      ensures e in edges
    {
      EdgeIsDuplicate(config, build, rows, records, exact, e.0, e.1);
    }
  }

  lemma EdgeIsDuplicate<T>(config: Config, build: Builder, rows: seq<Row>, records: seq<T>,
                           exact: Option<(T, T) -> bool>, a: nat, b: nat)
    requires config.Valid() && Builds(config, build) && |rows| == |records|
    ensures (a, b) in KeyEdges(Indexed(config, build, rows), Verify(records, exact)) <==>
            a < b < |records| && Duplicate(config, build, rows, records, exact, a, b)
  {
  }

  lemma RawInRange(raw: seq<DuplicateGroup>, classes: Classes, limit: nat)
    requires Partition(classes) && DefaultGroups(raw, classes, 2) && forall x :: x in classes ==> x < limit
    ensures forall k :: 0 <= k < |raw| ==> raw[k].members != [] && InRange(raw[k].members, limit)
  {
    forall k, i | 0 <= k < |raw| && 0 <= i < |raw[k].members|
      ensures raw[k].members[i] < limit
    {
      MemberIsNode(MembersOf(raw)[k], classes, raw[k].members[i]);
    }
  }

  /** A group for which the selector returns something else than a member. */
  ghost predicate MisselectedClass<T>(list: seq<nat>, classes: Classes, records: seq<T>,
                                      selector: Option<seq<T> -> T>)
  {
    IsClass(list, classes, 2) && InRange(list, |records|) && Misselects(records, list, selector)
  }

  ghost predicate Misselected<T>(classes: Classes, records: seq<T>, selector: Option<seq<T> -> T>) {
    exists list :: MisselectedClass(list, classes, records, selector)
  }

  lemma MisselectionFound<T>(records: seq<T>, raw: seq<DuplicateGroup>, classes: Classes, selector: Option<seq<T> -> T>)
    requires DefaultGroups(raw, classes, 2)
    requires forall k :: 0 <= k < |raw| ==> InRange(raw[k].members, |records|)
    requires exists k :: 0 <= k < |raw| && Misselects(records, raw[k].members, selector)
    ensures Misselected(classes, records, selector)
  {
    var k :| 0 <= k < |raw| && Misselects(records, raw[k].members, selector);
    assert MisselectedClass(MembersOf(raw)[k], classes, records, selector);
  }

  /** A group with a wrong selection is among the groups converted. */
  lemma MisselectionListed<T>(records: seq<T>, raw: seq<DuplicateGroup>, classes: Classes,
                              selector: Option<seq<T> -> T>)
    requires Partition(classes) && DefaultGroups(raw, classes, 2)
    requires forall k :: 0 <= k < |raw| ==> InRange(raw[k].members, |records|)
    requires Misselected(classes, records, selector)
    ensures exists k :: 0 <= k < |raw| && Misselects(records, raw[k].members, selector)
  {
    var list :| MisselectedClass(list, classes, records, selector);
    AscendingSize(list, classes[list[0]]);
    assert Listed(MembersOf(raw), list[0]);
    var k :| 0 <= k < |raw| && list[0] in MembersOf(raw)[k];
    SameClass(list, MembersOf(raw)[k], classes, 2);
    assert Misselects(records, raw[k].members, selector);
  }

  lemma ConvertedRepresent<T>(groups: seq<Group<T>>, records: seq<T>, raw: seq<DuplicateGroup>, classes: Classes,
                              selector: Option<seq<T> -> T>)
    requires DefaultGroups(raw, classes, 2) && |groups| == |raw|
    requires forall k :: 0 <= k < |raw| ==> Converts(groups[k], records, raw[k].members, selector)
    ensures Represented(groups, classes)
  {
    assert IndexLists(groups) == MembersOf(raw);
  }

  predicate WholeBatches(taken: nat, size: nat)
    requires 0 < size
  {
    taken == 0 || (size <= taken && WholeBatches(taken - size, size))
  }

  ghost predicate Took<T>(records: seq<T>, rows: seq<Row>, before: seq<T>, beforeRows: seq<Row>, items: seq<(T, Row)>,
                          taken: nat, size: nat)
  {
    && taken <= |items| && 0 < size && (WholeBatches(taken, size) || taken == |items|)
    && records == before + Firsts(items[..taken]) && rows == beforeRows + Seconds(items[..taken])
  }

  /** An error of the engine for one batch, with what must be the case for it. */
  ghost predicate Explains(error: IngestError, outside: Outside, mirrored: bool, needed: nat) {
    match error
    case Sketching => !outside.sketches
    case Mirror => mirrored && !outside.mirrors
    case Index(_) => needed > U32_MAX
    case KeyRange => needed > U32_MAX
    case _ => false
  }

  // ---- What may go wrong outside ----

  /**
   * What happens outside while a source is taken in. Items arrive or raise by position, the position behind the last
   * being the end of the source; a batch is sketched and mirrored by the position of its first item; and the progress
   * callback may raise by the count it is told, and once more at the end.
   */
  datatype Hazards = Hazards(arrives: nat -> bool, sketches: nat -> bool, mirrors: nat -> bool, cancels: nat -> bool,
                             cancelsAtEnd: bool)
  {
    function At(start: nat): Outside {
      Outside(sketches(start), mirrors(start))
    }
  }

  /** Nothing raises while the batch at `start` is collected, at the end of the source included. */
  ghost predicate Arrives(hazards: Hazards, start: nat, size: nat, limit: nat) {
    forall i: nat :: start <= i < start + size && i <= limit ==> hazards.arrives(i)
  }

  /** The batch at `start` is sketched and mirrored, and the callback lets it pass. */
  ghost predicate BatchUnharmed(hazards: Hazards, start: nat, size: nat, limit: nat, mirrored: bool, watched: bool) {
    && hazards.sketches(start) && (mirrored ==> hazards.mirrors(start))
    && (watched ==> !hazards.cancels(BatchEnd(start, size, limit)))
  }

  /** Nothing outside stops a source of `limit` items that goes in by batches of `size`. */
  ghost predicate Unharmed(hazards: Hazards, limit: nat, size: nat, mirrored: bool, watched: bool, sized: bool)
    requires 0 < size
  {
    && (forall i: nat :: i <= limit ==> hazards.arrives(i))
    && (forall b: nat :: b < limit && WholeBatches(b, size) ==>
          BatchUnharmed(hazards, b, size, limit, mirrored, watched))
    && (watched && (!sized || limit == 0) ==> !hazards.cancelsAtEnd)
  }

  ghost predicate UnharmedBelow(hazards: Hazards, added: nat, limit: nat, size: nat, mirrored: bool, watched: bool)
    requires 0 < size
  {
    && (forall i: nat :: i < added ==> hazards.arrives(i))
    && (forall b: nat :: b < added && WholeBatches(b, size) ==>
          BatchUnharmed(hazards, b, size, limit, mirrored, watched))
  }

  /** The outside event, or the want of ids, behind an error after `taken` items. */
  ghost predicate StoppedBy(error: IngestError, hazards: Hazards, taken: nat, limit: nat, mirrored: bool, watched: bool,
                            needed: nat)
  {
    match error
    case Features => exists i: nat :: taken <= i <= limit && !hazards.arrives(i)
    case Sketching => taken < limit && !hazards.sketches(taken)
    case Mirror => taken < limit && mirrored && !hazards.mirrors(taken)
    case Index(_) => needed > U32_MAX
    case KeyRange => needed > U32_MAX
    case Cancelled => watched && (hazards.cancels(taken) || (taken == limit && hazards.cancelsAtEnd))
  }

  lemma StopStands(error: IngestError, hazards: Hazards, taken: nat, limit: nat, mirrored: bool, watched: bool,
                   needed: nat, more: nat)
    requires StoppedBy(error, hazards, taken, limit, mirrored, false, needed) && needed <= more
    ensures StoppedBy(error, hazards, taken, limit, mirrored, watched, more)
  {
  }

  /** Batch starts lie whole batches apart. */
  lemma {:induction false} StartsApart(a: nat, b: nat, size: nat)
    requires 0 < size && WholeBatches(a, size) && WholeBatches(b, size) && a < b
    ensures a + size <= b
    decreases a
  {
    if a > 0 {
      StartsApart(a - size, b - size, size);
    }
  }

  lemma {:induction false} UnharmedStep(hazards: Hazards, added: nat, limit: nat, size: nat, mirrored: bool,
                                        watched: bool)
    requires 0 < size && added < limit && WholeBatches(added, size)
    requires UnharmedBelow(hazards, added, limit, size, mirrored, watched) && Arrives(hazards, added, size, limit)
    requires BatchUnharmed(hazards, added, size, limit, mirrored, watched)
    ensures UnharmedBelow(hazards, BatchEnd(added, size, limit), limit, size, mirrored, watched)
  {
    forall b: nat | added < b < BatchEnd(added, size, limit)
      ensures !WholeBatches(b, size)
    {
      if WholeBatches(b, size) {
        StartsApart(added, b, size);
      }
    }
  }

  /** A batch that cannot be collected, sketched, stored or mirrored spoils the whole source. */
  lemma {:induction false} StopsHere(hazards: Hazards, added: nat, limit: nat, size: nat, mirrored: bool,
                                     watched: bool, sized: bool, used: nat)
    requires 0 < size && added <= limit && (WholeBatches(added, size) || added == limit)
    requires
      var end := BatchEnd(added, size, limit);
      || !Arrives(hazards, added, size, limit)
      || (end > added &&
          !(hazards.sketches(added) && used + end <= U32_MAX && (mirrored ==> hazards.mirrors(added))))
    ensures !(Unharmed(hazards, limit, size, mirrored, watched, sized) && (limit == 0 || used + limit <= U32_MAX))
  {
    if Unharmed(hazards, limit, size, mirrored, watched, sized) && added < limit {
      assert BatchUnharmed(hazards, added, size, limit, mirrored, watched);
    }
  }

  /** A callback that raises after the batch at `added` spoils it too. */
  lemma {:induction false} CancelSpoils(hazards: Hazards, added: nat, limit: nat, size: nat, mirrored: bool,
                                        sized: bool)
    requires 0 < size && added < limit && WholeBatches(added, size) && hazards.cancels(BatchEnd(added, size, limit))
    ensures !Unharmed(hazards, limit, size, mirrored, true, sized)
  {
    assert !BatchUnharmed(hazards, added, size, limit, mirrored, true);
  }

  lemma AllUnharmed(hazards: Hazards, limit: nat, size: nat, mirrored: bool, watched: bool, sized: bool)
    requires 0 < size && UnharmedBelow(hazards, limit, limit, size, mirrored, watched)
    requires Arrives(hazards, limit, size, limit)
    ensures Unharmed(hazards, limit, size, mirrored, watched, sized) <==>
            (watched && (!sized || limit == 0) ==> !hazards.cancelsAtEnd)
  {
  }

  function BatchEnd(start: nat, size: nat, limit: nat): nat {
    if start + size < limit then start + size else limit
  }

  lemma TookStep<T>(records: seq<T>, rows: seq<Row>, before: seq<T>, beforeRows: seq<Row>, items: seq<(T, Row)>,
                    added: nat, size: nat)
    requires Took(records, rows, before, beforeRows, items, added, size) && added < |items|
    ensures
      var batch := items[added..BatchEnd(added, size, |items|)];
      Took(records + Firsts(batch), rows + Seconds(batch), before, beforeRows, items, added + |batch|, size)
  {
    var batch := items[added..BatchEnd(added, size, |items|)];
    SplitColumns(items[..added], batch);
    assert items[..added] + batch == items[..added + |batch|];
    Reassociate(before, Firsts(items[..added]), Firsts(batch));
    Reassociate(beforeRows, Seconds(items[..added]), Seconds(batch));
  }

  lemma SplitColumns<T>(left: seq<(T, Row)>, right: seq<(T, Row)>)
    ensures Firsts(left + right) == Firsts(left) + Firsts(right)
    ensures Seconds(left + right) == Seconds(left) + Seconds(right)
  {
  }
}
