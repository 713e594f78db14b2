/** What any LSH index does, stated on the abstract map from live keys to their band hashes. */
module IndexSpec {
  import opened Words
  import opened Sorting
  import opened Banding

  type Item = (nat, Sketch)
  type Contents = map<nat, seq<nat>>

  /** The first reason to reject a batch: a key already present or repeated, or an incompatible sketch. */
  function InsertFault(present: set<nat>, config: Config, items: seq<Item>): (fault: Option<LshError>)
    ensures fault.None? ==> Admissible(present, config, items)
    ensures fault.Some? ==> !Admissible(present, config, items)
    decreases |items|
  {
    if items == [] then None
    else
      var (key, sketch) := items[0];
      if key in present then Some(DuplicateKey(key))
      else if Incompatibility(config, sketch).Some? then
        assert items[0] in items;
        Incompatibility(config, sketch)
      else
        var rest := InsertFault(present + {key}, config, items[1..]);
        AdmissibleTail(present, config, items);
        rest
  }

  /** What is wrong with one item, given the keys that are taken. */
  ghost function ItemFault(taken: set<nat>, config: Config, item: Item): LshError
    requires item.0 in taken || !Compatible(config, item.1)
  {
    if item.0 in taken then DuplicateKey(item.0)
    else if item.1.seed != config.seed then IncompatibleSeed(config.seed, item.1.seed)
    else IncompatiblePermutationCount(config.numPerm, |item.1.signature|)
  }

  /** A fault belongs to the first item that cannot join the items before it. */
  lemma {:induction false} FaultIsFirst(present: set<nat>, config: Config, items: seq<Item>) returns (i: nat)
    requires !Admissible(present, config, items)
    ensures i < |items| && Admissible(present, config, items[..i])
    ensures items[i].0 in present + BatchKeys(items[..i]) || !Compatible(config, items[i].1)
    ensures InsertFault(present, config, items) ==
            Some(ItemFault(present + BatchKeys(items[..i]), config, items[i]))
    decreases |items|
  {
    AdmissibleTail(present, config, items);
    if items[0].0 in present || !Compatible(config, items[0].1) {
      i := 0;
      NothingInFront(present, items);
    } else {
      var k := FaultIsFirst(present + {items[0].0}, config, items[1..]);
      i := k + 1;
      OneMoreInFront(present, config, items, k);
      assert items[i] == items[1..][k];
    }
  }

  lemma NothingInFront(present: set<nat>, items: seq<Item>)
    ensures items[..0] == [] && present + BatchKeys(items[..0]) == present
  {
  }

  lemma {:induction false} OneMoreInFront(present: set<nat>, config: Config, items: seq<Item>, k: nat)
    requires k < |items| - 1 && items[0].0 !in present && Compatible(config, items[0].1)
    requires Admissible(present + {items[0].0}, config, items[1..][..k])
    ensures Admissible(present, config, items[..k + 1])
    ensures present + {items[0].0} + BatchKeys(items[1..][..k]) == present + BatchKeys(items[..k + 1])
  {
    var front, tail := items[..k + 1], items[1..][..k];
    PrefixTail(items, k);
    assert front == [items[0]] + front[1..];
    AdmissibleTail(present, config, front);
  }

  lemma PrefixTail(items: seq<Item>, k: nat)
    requires k < |items|
    ensures items[..k + 1][1..] == items[1..][..k]
  {
    var left, right := items[..k + 1][1..], items[1..][..k];
    assert |left| == |right| == k && forall i :: 0 <= i < k ==> left[i] == items[i + 1] == right[i];
  }

  /** The error a rejected batch reports; a batch without a fault can only be too large. */
  function Rejection(present: set<nat>, config: Config, items: seq<Item>): LshError {
    var fault := InsertFault(present, config, items);
    if fault.Some? then fault.value else TooManyItems
  }

  /** All keys are new and different, and every sketch fits. */
  ghost predicate Admissible(present: set<nat>, config: Config, items: seq<Item>) {
    && (forall i :: 0 <= i < |items| ==>
          items[i].0 !in present && Compatible(config, items[i].1))
    && (forall i, j :: 0 <= i < j < |items| ==> items[i].0 != items[j].0)
  }

  lemma AdmissibleTail(present: set<nat>, config: Config, items: seq<Item>)
    requires items != []
    ensures Admissible(present, config, items) <==>
            && items[0].0 !in present && Compatible(config, items[0].1)
            && Admissible(present + {items[0].0}, config, items[1..])
  {
    var tail := items[1..];
    if Admissible(present + {items[0].0}, config, tail) && items[0].0 !in present {
      forall i, j | 0 <= i < j < |items|
        ensures items[i].0 != items[j].0
      {
        assert items[j] == tail[j - 1];
        if i > 0 {
          assert items[i] == tail[i - 1];
        }
      }
      forall i | 1 <= i < |items|
        ensures items[i].0 !in present && Compatible(config, items[i].1)
      {
        assert items[i] == tail[i - 1];
      }
    }
  }

  /** The contents after inserting a whole batch, in order. */
  function Added(contents: Contents, config: Config, items: seq<Item>): Contents
    requires config.Valid()
    requires forall i :: 0 <= i < |items| ==> Incompatibility(config, items[i].1).None?
    decreases |items|
  {
    if items == [] then contents
    else
      var last := |items| - 1;
      Added(contents, config, items[..last])[items[last].0 := BandHashes(config, items[last].1)]
  }

  /** The live keys whose stored hashes agree with the query's in at least one band. */
  ghost function Candidates(contents: Contents, hashes: seq<nat>): set<nat> {
    set key | key in contents && Collide(contents[key], hashes)
  }

  ghost function Answer(contents: Contents, config: Config, sketch: Sketch): Result<seq<nat>, LshError>
    requires config.Valid()
  {
    if Incompatibility(config, sketch).Some? then Err(Incompatibility(config, sketch).value)
    else Ok(AscendingList(Candidates(contents, BandHashes(config, sketch))))
  }

  /** A stored sketch is found if and only if one of its bands has the same hash as that band of the query. */
  lemma FoundByBand(contents: Contents, config: Config, key: nat, stored: Sketch, query: Sketch)
    requires config.Valid() && BothFit(config, stored, query) && key in contents
    requires contents[key] == BandHashes(config, stored)
    ensures Answer(contents, config, query).Ok?
    ensures key in Answer(contents, config, query).value <==>
            exists b: nat :: b < config.bands &&
              config.hashBand(BandOf(config, stored, b)) == config.hashBand(BandOf(config, query, b))
  {
    CollideByBand(config, stored, query);
  }

  /** All answers in order, or the first incompatibility. */
  ghost function Answers(contents: Contents, config: Config, sketches: seq<Sketch>): Result<seq<seq<nat>>, LshError>
    requires config.Valid()
    decreases |sketches|
  {
    if sketches == [] then Ok([])
    else
      var last := |sketches| - 1;
      var earlier :- Answers(contents, config, sketches[..last]);
      var answer :- Answer(contents, config, sketches[last]);
      Ok(earlier + [answer])
  }

  lemma {:induction false} AnswersExtend(contents: Contents, config: Config, sketches: seq<Sketch>, q: nat)
    requires config.Valid() && q < |sketches| && Answers(contents, config, sketches[..q]).Ok?
    requires Incompatibility(config, sketches[q]).None?
    ensures Answers(contents, config, sketches[..q + 1]) ==
            Ok(Answers(contents, config, sketches[..q]).value + [Answer(contents, config, sketches[q]).value])
  {
    assert sketches[..q + 1][..q] == sketches[..q];
  }

  /** The first failing query decides the whole batch. */
  lemma {:induction false} AnswersFail(contents: Contents, config: Config, sketches: seq<Sketch>, first: nat)
    requires config.Valid() && first < |sketches|
    requires Answers(contents, config, sketches[..first]).Ok?
    requires Answer(contents, config, sketches[first]).Err?
    ensures Answers(contents, config, sketches) == Err(Answer(contents, config, sketches[first]).error)
    decreases |sketches|
  {
    var last := |sketches| - 1;
    if first == last {
      assert sketches[..first] == sketches[..last];
    } else {
      assert sketches[..last][..first] == sketches[..first];
      AnswersFail(contents, config, sketches[..last], first);
    }
  }

  ghost function BatchKeys(items: seq<Item>): set<nat> {
    set item | item in items :: item.0
  }

  lemma BatchKeysSplit(items: seq<Item>)
    requires items != []
    ensures BatchKeys(items) == BatchKeys(items[..|items| - 1]) + {items[|items| - 1].0}
  {
    var last := |items| - 1;
    assert items == items[..last] + [items[last]];
  }

  lemma {:induction false} AddedKeys(contents: Contents, config: Config, items: seq<Item>)
    requires config.Valid()
    requires forall i :: 0 <= i < |items| ==> Incompatibility(config, items[i].1).None?
    ensures Added(contents, config, items).Keys == contents.Keys + BatchKeys(items)
    decreases |items|
  {
    if items != [] {
      AddedKeys(contents, config, items[..|items| - 1]);
      BatchKeysSplit(items);
    }
  }

  /** Keys outside a batch keep their band hashes. */
  lemma {:induction false} AddedElsewhere(contents: Contents, config: Config, items: seq<Item>, key: nat)
    requires config.Valid()
    requires forall i :: 0 <= i < |items| ==> Incompatibility(config, items[i].1).None?
    requires key in contents && key !in BatchKeys(items)
    ensures key in Added(contents, config, items) && Added(contents, config, items)[key] == contents[key]
    decreases |items|
  {
    if items != [] {
      BatchKeysSplit(items);
      AddedElsewhere(contents, config, items[..|items| - 1], key);
    }
  }

  /** Every item of an admissible batch is found under its key with the band hashes of its sketch. */
  lemma {:induction false} AddedItem(contents: Contents, config: Config, items: seq<Item>, i: nat)
    requires config.Valid() && Admissible(contents.Keys, config, items) && i < |items|
    ensures
      var after := Added(contents, config, items);
      items[i].0 in after && after[items[i].0] == BandHashes(config, items[i].1)
    decreases |items|
  {
    var last := |items| - 1;
    if i < last {
      AddedItem(contents, config, items[..last], i);
    }
  }

  lemma {:induction false} BatchSize(items: seq<Item>)
    requires forall i, j :: 0 <= i < j < |items| ==> items[i].0 != items[j].0
    ensures |BatchKeys(items)| == |items|
    decreases |items|
  {
    if items != [] {
      var last := |items| - 1;
      BatchSize(items[..last]);
      BatchKeysSplit(items);
      assert items[last].0 !in BatchKeys(items[..last]);
    }
  }

  /** An admissible batch adds one entry per item. */
  lemma {:induction false} AddedCount(contents: Contents, config: Config, items: seq<Item>)
    requires config.Valid() && Admissible(contents.Keys, config, items)
    ensures |Added(contents, config, items)| == |contents| + |items|
  {
    AddedKeys(contents, config, items);
    BatchSize(items);
    assert contents.Keys !! BatchKeys(items);
    assert |contents.Keys + BatchKeys(items)| == |contents.Keys| + |BatchKeys(items)|;
    assert |Added(contents, config, items)| == |Added(contents, config, items).Keys|;
  }

  lemma {:induction false} AnswersSucceed(contents: Contents, config: Config, sketches: seq<Sketch>)
    requires config.Valid()
    requires forall q :: 0 <= q < |sketches| ==> Incompatibility(config, sketches[q]).None?
    ensures Answers(contents, config, sketches).Ok?
    decreases |sketches|
  {
    if sketches != [] {
      AnswersSucceed(contents, config, sketches[..|sketches| - 1]);
    }
  }
}
