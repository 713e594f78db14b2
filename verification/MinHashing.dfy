/**
 * MinHash signatures as a function of the set of input hashes, and what it
 * means for two of them to agree in a slot.
 */
module MinHashing {
  import opened Words
  import opened Bits
  import opened Permutations

  type Signature = seq<nat>

  function Min(a: nat, b: nat): nat {
    if b < a then b else a
  }

  /** The smallest permuted value over a set of input hashes, or the largest word for none. */
  ghost predicate IsSlot(value: nat, f: Family, i: nat, hashes: set<nat>)
    requires f.Valid() && i < f.Slots()
  {
    && value <= f.width.Max()
    && (forall h :: h in hashes ==> value <= Permute(f, i, h))
    && (value == f.width.Max() || exists h :: h in hashes && value == Permute(f, i, h))
  }

  /** The signature is that of this set of input hashes. */
  ghost predicate Represents(signature: Signature, f: Family, hashes: set<nat>)
    requires f.Valid()
  {
    |signature| == f.Slots() && forall i :: 0 <= i < |signature| ==> IsSlot(signature[i], f, i, hashes)
  }

  /** A set of input hashes has only one signature. */
  lemma SignatureUnique(left: Signature, right: Signature, f: Family, hashes: set<nat>)
    requires f.Valid() && Represents(left, f, hashes) && Represents(right, f, hashes)
    ensures left == right
  {
    forall i | 0 <= i < |left|
      ensures left[i] == right[i]
    {
      assert IsSlot(left[i], f, i, hashes) && IsSlot(right[i], f, i, hashes);
    }
  }

  function Empty(f: Family): (signature: Signature)
    ensures |signature| == f.Slots()
    ensures f.Valid() ==> Represents(signature, f, {})
  {
    seq(f.Slots(), i => f.width.Max())
  }

  /** One more input hash. */
  function Updated(f: Family, signature: Signature, hash: nat): (after: Signature)
    requires |f.multipliers| == |f.offsets| == |signature|
    ensures |after| == |signature|
    ensures forall i :: 0 <= i < |signature| ==> after[i] == Min(signature[i], Permute(f, i, hash))
  {
    seq(|signature|, i requires 0 <= i < |signature| => Min(signature[i], Permute(f, i, hash)))
  }

  /** Input hashes in order. */
  function UpdatedAll(f: Family, signature: Signature, hashes: seq<nat>): (after: Signature)
    requires |f.multipliers| == |f.offsets| == |signature|
    ensures |after| == |signature|
    decreases |hashes|
  {
    if hashes == [] then signature
    else
      var last := |hashes| - 1;
      Updated(f, UpdatedAll(f, signature, hashes[..last]), hashes[last])
  }

  /** Slot by slot the smaller value. */
  function Merged(left: Signature, right: Signature): (both: Signature)
    requires |left| == |right|
    ensures |both| == |left|
    ensures forall i :: 0 <= i < |left| ==> both[i] == Min(left[i], right[i])
  {
    seq(|left|, i requires 0 <= i < |left| => Min(left[i], right[i]))
  }

  ghost function Elements(hashes: seq<nat>): set<nat> {
    set h | h in hashes
  }

  lemma UpdateRepresents(f: Family, signature: Signature, hashes: set<nat>, hash: nat)
    requires f.Valid() && Represents(signature, f, hashes)
    ensures Represents(Updated(f, signature, hash), f, hashes + {hash})
  {
    var after := Updated(f, signature, hash);
    forall i | 0 <= i < |after|
      ensures IsSlot(after[i], f, i, hashes + {hash})
    {
      assert IsSlot(signature[i], f, i, hashes);
      assert hash in hashes + {hash};
    }
  }

  /** Any order and any repetition of updates gives the signature of the set of hashes. */
  lemma {:induction false} UpdatesRepresent(f: Family, hashes: seq<nat>)
    requires f.Valid()
    ensures Represents(UpdatedAll(f, Empty(f), hashes), f, Elements(hashes))
    decreases |hashes|
  {
    if hashes == [] {
      assert Elements(hashes) == {};
    } else {
      var last := |hashes| - 1;
      UpdatesRepresent(f, hashes[..last]);
      UpdateRepresents(f, UpdatedAll(f, Empty(f), hashes[..last]), Elements(hashes[..last]), hashes[last]);
      assert Elements(hashes) == Elements(hashes[..last]) + {hashes[last]};
    }
  }

  lemma {:induction false} OrderAndRepetition(f: Family, left: seq<nat>, right: seq<nat>)
    requires f.Valid() && Elements(left) == Elements(right)
    ensures UpdatedAll(f, Empty(f), left) == UpdatedAll(f, Empty(f), right)
  {
    UpdatesRepresent(f, left);
    UpdatesRepresent(f, right);
    SignatureUnique(UpdatedAll(f, Empty(f), left), UpdatedAll(f, Empty(f), right), f, Elements(left));
  }

  lemma MergeRepresents(f: Family, left: Signature, right: Signature, a: set<nat>, b: set<nat>)
    requires f.Valid() && Represents(left, f, a) && Represents(right, f, b)
    ensures Represents(Merged(left, right), f, a + b)
  {
    var both := Merged(left, right);
    forall i | 0 <= i < |both|
      ensures IsSlot(both[i], f, i, a + b)
    {
      assert IsSlot(left[i], f, i, a) && IsSlot(right[i], f, i, b);
      forall h | h in a + b
        ensures both[i] <= Permute(f, i, h)
      {
      }
      if both[i] != f.width.Max() {
        if both[i] == left[i] {
          var h :| h in a && left[i] == Permute(f, i, h);
          assert h in a + b;
        } else {
          var h :| h in b && right[i] == Permute(f, i, h);
          assert h in a + b;
        }
      }
    }
  }

  /** Merging two sketches gives the sketch of everything either has seen. */
  lemma {:induction false} MergeIsUnion(f: Family, left: seq<nat>, right: seq<nat>)
    requires f.Valid()
    ensures Merged(UpdatedAll(f, Empty(f), left), UpdatedAll(f, Empty(f), right)) ==
            UpdatedAll(f, Empty(f), left + right)
  {
    UpdatesRepresent(f, left);
    UpdatesRepresent(f, right);
    UpdatesRepresent(f, left + right);
    assert Elements(left + right) == Elements(left) + Elements(right);
    MergeRepresents(f, UpdatedAll(f, Empty(f), left), UpdatedAll(f, Empty(f), right), Elements(left), Elements(right));
    SignatureUnique(Merged(UpdatedAll(f, Empty(f), left), UpdatedAll(f, Empty(f), right)),
                    UpdatedAll(f, Empty(f), left + right), f, Elements(left + right));
  }

  // ---- The MinHash theorem ----

  /** Input hashes that fit the family's word. */
  ghost predicate FitWord(f: Family, hashes: set<nat>) {
    forall h :: h in hashes ==> h <= f.width.Max()
  }

  /** `m` reaches the smallest permuted value among `hashes`. */
  ghost predicate Minimises(f: Family, i: nat, hashes: set<nat>, m: nat)
    requires f.Valid() && i < f.Slots()
  {
    m in hashes && forall h :: h in hashes ==> Permute(f, i, m) <= Permute(f, i, h)
  }

  lemma MinimiserUnique(f: Family, i: nat, hashes: set<nat>, m: nat, n: nat)
    requires f.Valid() && i < f.Slots() && FitWord(f, hashes)
    requires Minimises(f, i, hashes, m) && Minimises(f, i, hashes, n)
    ensures m == n
  {
    PermuteInjective(f, i, m, n);
  }

  /** In the signature of a non-empty set every slot is reached by some member. */
  lemma SlotReached(f: Family, i: nat, hashes: set<nat>, value: nat) returns (m: nat)
    requires f.Valid() && i < f.Slots() && hashes != {} && IsSlot(value, f, i, hashes)
    ensures Minimises(f, i, hashes, m) && value == Permute(f, i, m)
  {
    var h :| h in hashes;
    assert value <= Permute(f, i, h) <= f.width.Max();
    m :| m in hashes && value == Permute(f, i, m);
  }

  /**
   * Two signatures agree in a slot if and only if the one hash of the union
   * that minimises the slot's permutation lies in the intersection.
   */
  lemma SlotsMatch(f: Family, i: nat, a: set<nat>, b: set<nat>, left: Signature, right: Signature) returns (m: nat)
    requires f.Valid() && i < f.Slots() && a != {} && b != {} && FitWord(f, a) && FitWord(f, b)
    requires Represents(left, f, a) && Represents(right, f, b)
    ensures Minimises(f, i, a + b, m)
    ensures forall n :: Minimises(f, i, a + b, n) ==> n == m
    ensures left[i] == right[i] <==> m in a && m in b
  {
    var p := SlotReached(f, i, a, left[i]);
    var q := SlotReached(f, i, b, right[i]);
    m := if Permute(f, i, q) < Permute(f, i, p) then q else p;
    forall n | Minimises(f, i, a + b, n)
      ensures n == m
    {
      MinimiserUnique(f, i, a + b, n, m);
    }
    if left[i] == right[i] {
      PermuteInjective(f, i, p, q);
    }
  }

  // ---- Empty signatures ----

  /** An empty-looking signature: every member, if there is any, is sent to the largest word by every slot. */
  lemma LooksEmpty(f: Family, hashes: set<nat>, signature: Signature)
    requires f.Valid() && Represents(signature, f, hashes)
    ensures signature == Empty(f) <==>
            forall h, i :: h in hashes && 0 <= i < f.Slots() ==> Permute(f, i, h) == f.width.Max()
  {
    assert forall i :: 0 <= i < f.Slots() ==> IsSlot(signature[i], f, i, hashes);
    if forall h, i :: h in hashes && 0 <= i < f.Slots() ==> Permute(f, i, h) == f.width.Max() {
      assert forall i :: 0 <= i < f.Slots() ==> signature[i] == Empty(f)[i];
    } else {
      var h, i :| h in hashes && 0 <= i < f.Slots() && Permute(f, i, h) != f.width.Max();
      assert signature[i] <= Permute(f, i, h) < Empty(f)[i];
    }
  }

  /** So two different hashes never leave a signature looking empty. */
  lemma LooksEmptyOnlyForOne(f: Family, hashes: set<nat>, g: nat, h: nat)
    requires f.Valid() && f.Slots() > 0 && FitWord(f, hashes) && Represents(Empty(f), f, hashes)
    requires g in hashes && h in hashes
    ensures g == h
  {
    LooksEmpty(f, hashes, Empty(f));
    assert Permute(f, 0, g) == f.width.Max() && Permute(f, 0, h) == f.width.Max();
    PermuteInjective(f, 0, g, h);
  }

  /** Every one-slot sketch has an input that leaves it looking empty. */
  lemma SomeHashLooksEmpty(f: Family) returns (h: nat)
    requires f.Valid() && f.Slots() == 1
    ensures h <= f.width.Max() && Updated(f, Empty(f), h) == Empty(f)
  {
    h := PermuteOnto(f, 0, f.width.Max());
  }

  // ---- Counting agreements ----

  /** The slots in which two signatures agree. */
  ghost function Agreements(left: Signature, right: Signature): set<nat>
    requires |left| == |right|
  {
    set i: nat | i < |left| && left[i] == right[i]
  }

  /** The slots whose minimising hash of the union lies in the intersection. */
  ghost function SharedMinima(f: Family, a: set<nat>, b: set<nat>): set<nat>
    requires f.Valid()
  {
    set i: nat | i < f.Slots() && SharedMinimum(f, i, a, b)
  }

  ghost predicate SharedMinimum(f: Family, i: nat, a: set<nat>, b: set<nat>)
    requires f.Valid() && i < f.Slots()
  {
    exists m :: Minimises(f, i, a + b, m) && m in a && m in b
  }

  /** The Jaccard estimate counts exactly the slots that sample the intersection. */
  lemma EstimateCounts(f: Family, a: set<nat>, b: set<nat>, left: Signature, right: Signature)
    requires f.Valid() && a != {} && b != {} && FitWord(f, a) && FitWord(f, b)
    requires Represents(left, f, a) && Represents(right, f, b)
    ensures Agreements(left, right) == SharedMinima(f, a, b)
  {
    forall i: nat | i < f.Slots()
      ensures i in Agreements(left, right) <==> i in SharedMinima(f, a, b)
    {
      var m := SlotsMatch(f, i, a, b, left, right);
    }
  }

  datatype MinHashError =
    | InvalidPermutationCount(requested: nat)
    | IncompatibleSeed(leftSeed: nat, rightSeed: nat)
    | IncompatiblePermutationCount(leftCount: nat, rightCount: nat)
    | BatchPoolUnavailable

  class MinHash {
    const width: Width
    const seed: nat
    const family: Family
    var hashvalues: Signature

    /** One permutation per slot. */
    ghost predicate Shaped()
      reads this
    {
      family.width == width && |family.multipliers| == |family.offsets| == |hashvalues|
    }

    ghost predicate Valid()
      reads this
    {
      Shaped() && family == FamilyOf(width, |hashvalues|, seed) && 0 < |hashvalues| <= U32_MAX
    }

    constructor (width: Width, numPerm: nat, seed: nat)
      requires 0 < numPerm <= U32_MAX
      ensures Valid() && this.width == width && this.seed == seed
      ensures hashvalues == Empty(FamilyOf(width, numPerm, seed))
    {
      this.width, this.seed := width, seed;
      family := FamilyOf(width, numPerm, seed);
      hashvalues := Empty(FamilyOf(width, numPerm, seed));
    }

    /** Rebuild a sketch from its signature; the seed brings the permutations back. */
    constructor FromSignature(width: Width, signature: Signature, seed: nat)
      requires 0 < |signature| <= U32_MAX
      ensures Valid() && this.width == width && this.seed == seed && hashvalues == signature
    {
      this.width, this.seed := width, seed;
      family := FamilyOf(width, |signature|, seed);
      hashvalues := signature;
    }

    constructor CloneOf(other: MinHash)
      requires other.Shaped()
      ensures Shaped() && width == other.width && seed == other.seed && family == other.family
      ensures hashvalues == other.hashvalues
    {
      width, seed, family, hashvalues := other.width, other.seed, other.family, other.hashvalues;
    }

    method UpdateHashed(hash: nat)
      requires Shaped()
      modifies this
      ensures Shaped() && (old(Valid()) ==> Valid())
      ensures hashvalues == Updated(family, old(hashvalues), hash)
    {
      var mixed := Fmix(width, hash);
      var bits := width.Bits();
      ghost var before := hashvalues;
      var i := 0;
      while i < |hashvalues|
        invariant 0 <= i <= |hashvalues| == |before|
        invariant forall j :: 0 <= j < i ==> hashvalues[j] == Min(before[j], Permute(family, j, hash))
        invariant forall j :: i <= j < |before| ==> hashvalues[j] == before[j]
      {
        var permuted := Affine(family.multipliers[i], family.offsets[i], bits, mixed);
        assert permuted == Permute(family, i, hash);
        if permuted < hashvalues[i] {
          hashvalues := hashvalues[i := permuted];
        }
        i := i + 1;
      }
      assert hashvalues == Updated(family, before, hash);
    }

    method UpdateMany(hashes: seq<nat>)
      requires Shaped()
      modifies this
      ensures Shaped() && (old(Valid()) ==> Valid())
      ensures hashvalues == UpdatedAll(family, old(hashvalues), hashes)
    {
      var i := 0;
      while i < |hashes|
        invariant 0 <= i <= |hashes| && Shaped() && |hashvalues| == |old(hashvalues)|
        invariant hashvalues == UpdatedAll(family, old(hashvalues), hashes[..i])
      {
        assert hashes[..i + 1][..i] == hashes[..i];
        UpdateHashed(hashes[i]);
        i := i + 1;
      }
      assert hashes[..|hashes|] == hashes;
    }

    method EnsureCompatible(other: MinHash) returns (fault: Option<MinHashError>)
      requires Valid() && other.Valid()
      ensures fault.None? <==> seed == other.seed && |hashvalues| == |other.hashvalues|
    {
      if seed != other.seed {
        return Some(IncompatibleSeed(seed, other.seed));
      }
      if |hashvalues| != |other.hashvalues| {
        return Some(IncompatiblePermutationCount(|hashvalues|, |other.hashvalues|));
      }
      return None;
    }

    method Merge(other: MinHash) returns (r: Result<(), MinHashError>)
      requires Valid() && other.Valid() && other.width == width
      modifies this
      ensures Valid()
      ensures r.Ok? <==> seed == other.seed && |old(hashvalues)| == |old(other.hashvalues)|
      ensures r.Err? ==> hashvalues == old(hashvalues)
      ensures r.Ok? ==> hashvalues == Merged(old(hashvalues), old(other.hashvalues))
    {
      var fault := EnsureCompatible(other);
      if fault.Some? {
        return Err(fault.value);
      }
      ghost var before := hashvalues;
      var incoming := other.hashvalues;
      var i := 0;
      while i < |hashvalues|
        invariant 0 <= i <= |hashvalues| == |before|
        invariant forall j :: 0 <= j < i ==> hashvalues[j] == Min(before[j], incoming[j])
        invariant forall j :: i <= j < |before| ==> hashvalues[j] == before[j]
      {
        hashvalues := hashvalues[i := Min(hashvalues[i], incoming[i])];
        i := i + 1;
      }
      assert hashvalues == Merged(before, incoming);
      return Ok(());
    }

    method IsEmpty() returns (empty: bool)
      requires Valid()
      ensures empty <==> hashvalues == Empty(family)
    {
      empty := AllAre(hashvalues, width.Max());
      FilledIsEmpty(hashvalues, family);
    }

    method Clear()
      requires Valid()
      modifies this
      ensures Valid() && hashvalues == Empty(family)
    {
      hashvalues := Empty(family);
    }

    /** The share of slots in which the two signatures agree. */
    method Jaccard(other: MinHash) returns (r: Result<real, MinHashError>)
      requires Valid() && other.Valid() && other.width == width
      ensures r.Ok? <==> seed == other.seed && |hashvalues| == |other.hashvalues|
      ensures r.Ok? ==> r.value == |Agreements(hashvalues, other.hashvalues)| as real / |hashvalues| as real
    {
      var fault := EnsureCompatible(other);
      if fault.Some? {
        return Err(fault.value);
      }
      var matches := CountAgreements(hashvalues, other.hashvalues);
      return Ok(matches as real / |hashvalues| as real);
    }
  }

  method AllAre(values: Signature, word: nat) returns (all: bool)
    ensures all <==> forall j :: 0 <= j < |values| ==> values[j] == word
  {
    var i := 0;
    while i < |values|
      invariant 0 <= i <= |values|
      invariant forall j :: 0 <= j < i ==> values[j] == word
    {
      if values[i] != word {
        return false;
      }
      i := i + 1;
    }
    return true;
  }

  lemma FilledIsEmpty(signature: Signature, f: Family)
    requires |signature| == f.Slots()
    ensures signature == Empty(f) <==> forall j :: 0 <= j < |signature| ==> signature[j] == f.width.Max()
  {
    if forall j :: 0 <= j < |signature| ==> signature[j] == f.width.Max() {
      assert signature == Empty(f);
    }
  }

  method CountAgreements(left: Signature, right: Signature) returns (matches: nat)
    requires |left| == |right|
    ensures matches == |Agreements(left, right)|
  {
    matches := 0;
    var i := 0;
    while i < |left|
      invariant 0 <= i <= |left|
      invariant matches == |Agreements(left[..i], right[..i])|
    {
      AgreementsStep(left, right, i);
      if left[i] == right[i] {
        matches := matches + 1;
      }
      i := i + 1;
    }
    assert left[..i] == left && right[..i] == right;
  }

  lemma AgreementsStep(left: Signature, right: Signature, i: nat)
    requires |left| == |right| && i < |left|
    ensures |Agreements(left[..i + 1], right[..i + 1])| ==
            |Agreements(left[..i], right[..i])| + if left[i] == right[i] then 1 else 0
  {
    assert Agreements(left[..i + 1], right[..i + 1]) ==
           Agreements(left[..i], right[..i]) + if left[i] == right[i] then {i} else {};
  }

  predicate ValidCount(numPerm: nat) {
    0 < numPerm <= U32_MAX
  }

  lemma {:induction false} ShiftedZero(n: nat)
    ensures ShiftRight(0, n) == 0
    decreases n
  {
    if n > 0 {
      ShiftedZero(n - 1);
    }
  }

  lemma ZeroMixes(m: Mixer, bits: nat)
    ensures Mix(m, bits, 0) == 0
  {
    ShiftedZero(m.shift1);
    ShiftedZero(m.shift2);
    ShiftedZero(m.shift3);
    SmallRemainder(0, Pow2(bits));
  }

  lemma {:induction false} AffineOfZero(odd: nat, offset: nat, bits: nat)
    requires offset < Pow2(bits)
    ensures Affine(odd, offset, bits, 0) == offset
  {
    SmallRemainder(offset, Pow2(bits));
  }

  lemma PermutedZero(f: Family, i: nat)
    requires f.Valid() && i < f.Slots() && f.offsets[i] <= f.width.Max()
    ensures Permute(f, i, 0) == f.offsets[i]
  {
    ZeroMixes(if f.width.Narrow? then FMIX32 else FMIX64, f.width.Bits());
    AffineOfZero(f.multipliers[i], f.offsets[i], f.width.Bits());
  }

  lemma {:induction false} OneUpdate(f: Family, hash: nat, i: nat)
    requires f.Valid() && i < f.Slots()
    ensures UpdatedAll(f, Empty(f), [hash])[i] == Permute(f, i, hash)
  {
    var none: seq<nat> := [];
    assert [hash][..0] == none;
    assert UpdatedAll(f, Empty(f), none) == Empty(f);
  }

  /** The input hash zero shows the offset of a slot. */
  lemma {:induction false} ZeroShowsOffset(f: Family, i: nat)
    requires f.Valid() && i < f.Slots() && f.offsets[i] <= f.width.Max()
    ensures UpdatedAll(f, Empty(f), [0])[i] == f.offsets[i]
  {
    OneUpdate(f, 0, i);
    PermutedZero(f, i);
  }

  /** Wide sketches with different seeds are told apart in every slot by one and the same input. */
  lemma SeedsSeparate(slots: nat, s: u64, t: u64, i: nat)
    requires i < slots && s != t
    ensures UpdatedAll(FamilyOf(Wide, slots, s), Empty(FamilyOf(Wide, slots, s)), [0])[i] !=
            UpdatedAll(FamilyOf(Wide, slots, t), Empty(FamilyOf(Wide, slots, t)), [0])[i]
  {
    OffsetsFit(Wide, slots, s, i);
    OffsetsFit(Wide, slots, t, i);
    ZeroShowsOffset(FamilyOf(Wide, slots, s), i);
    ZeroShowsOffset(FamilyOf(Wide, slots, t), i);
    SeedsSeparateOffsets(slots, s, t, i);
  }

  method NewSketch(width: Width, numPerm: nat, seed: nat) returns (r: Result<MinHash, MinHashError>)
    ensures r.Ok? <==> ValidCount(numPerm)
    ensures r.Err? ==> r.error == InvalidPermutationCount(numPerm)
    ensures r.Ok? ==> fresh(r.value) && r.value.Valid() && r.value.width == width && r.value.seed == seed
    ensures r.Ok? ==> r.value.hashvalues == Empty(FamilyOf(width, numPerm, seed))
  {
    if !ValidCount(numPerm) {
      return Err(InvalidPermutationCount(numPerm));
    }
    var sketch := new MinHash(width, numPerm, seed);
    return Ok(sketch);
  }

  /** A sketch reloaded from its signature and seed goes on exactly as the original would. */
  method ReloadAndContinue(original: MinHash, hashes: seq<nat>) returns (reloaded: MinHash)
    requires original.Valid()
    modifies original
    ensures reloaded.Valid() && original.Valid()
    ensures reloaded.family == original.family && reloaded.seed == original.seed
    ensures reloaded.hashvalues == original.hashvalues == UpdatedAll(original.family, old(original.hashvalues), hashes)
  {
    reloaded := new MinHash.FromSignature(original.width, original.hashvalues, original.seed);
    reloaded.UpdateMany(hashes);
    original.UpdateMany(hashes);
  }

  // ---- Batches ----

  const PARALLEL_BATCH_MIN_ROWS: nat := 256
  const AUTO_BATCH_MAX_THREADS: nat := 8

  datatype BatchThreads = Auto | Sequential | AtMost(threads: nat)

  /** The worker count for a batch, given how many CPUs the process may use. */
  function EffectiveThreads(policy: BatchThreads, rows: nat, available: nat): (threads: nat)
    ensures threads >= 1 && (threads > 1 ==> rows >= PARALLEL_BATCH_MIN_ROWS)
  {
    if rows < PARALLEL_BATCH_MIN_ROWS || policy.Sequential? then 1
    else
      var requested := if policy.Auto? then Min(available, AUTO_BATCH_MAX_THREADS) else policy.threads;
      var bounded := Min(Min(requested, available), rows);
      if bounded < 1 then 1 else bounded
  }

  function ChunkSize(rows: nat, threads: nat): (size: nat)
    requires rows >= 1 && threads >= 1
    ensures size >= 1
  {
    (rows + threads - 1) / threads
  }

  lemma RowsConcat(f: Family, left: seq<seq<nat>>, right: seq<seq<nat>>)
    requires |f.multipliers| == |f.offsets|
    ensures RowSignatures(f, left + right) == RowSignatures(f, left) + RowSignatures(f, right)
  {
  }

  function RowSignatures(f: Family, rows: seq<seq<nat>>): (signatures: seq<Signature>)
    requires |f.multipliers| == |f.offsets|
    ensures |signatures| == |rows|
    ensures forall i :: 0 <= i < |rows| ==> signatures[i] == UpdatedAll(f, Empty(f), rows[i])
  {
    seq(|rows|, i requires 0 <= i < |rows| => UpdatedAll(f, Empty(f), rows[i]))
  }

  lemma {:induction false} RowsAppend(f: Family, rows: seq<seq<nat>>, k: nat)
    requires |f.multipliers| == |f.offsets| && k < |rows|
    ensures RowSignatures(f, rows[..k + 1]) == RowSignatures(f, rows[..k]) + [UpdatedAll(f, Empty(f), rows[k])]
  {
  }

  /** Each row updates its own clone of the empty template. */
  method BuildRows(template: MinHash, rows: seq<seq<nat>>) returns (signatures: seq<Signature>)
    requires template.Shaped() && template.hashvalues == Empty(template.family)
    ensures signatures == RowSignatures(template.family, rows)
  {
    signatures := [];
    while |signatures| < |rows|
      invariant |signatures| <= |rows|
      invariant signatures == RowSignatures(template.family, rows[..|signatures|])
    {
      var sketch := new MinHash.CloneOf(template);
      sketch.UpdateMany(rows[|signatures|]);
      RowsAppend(template.family, rows, |signatures|);
      signatures := signatures + [sketch.hashvalues];
    }
    assert rows[..|rows|] == rows;
  }

  /** Consecutive chunks built on their own and joined in order. */
  method BuildChunks(template: MinHash, rows: seq<seq<nat>>, chunkSize: nat) returns (signatures: seq<Signature>)
    requires template.Shaped() && template.hashvalues == Empty(template.family) && chunkSize >= 1
    ensures signatures == RowSignatures(template.family, rows)
  {
    signatures := [];
    while |signatures| < |rows|
      invariant |signatures| <= |rows|
      invariant signatures == RowSignatures(template.family, rows[..|signatures|])
    {
      var done := |signatures|;
      var end := Min(done + chunkSize, |rows|);
      var chunk := BuildRows(template, rows[done..end]);
      RowsConcat(template.family, rows[..done], rows[done..end]);
      assert rows[..done] + rows[done..end] == rows[..end];
      signatures := signatures + chunk;
    }
    assert rows[..|rows|] == rows;
  }

  /**
   * Whatever the thread policy, the batch equals row-by-row construction; only a parallel batch needs the
   * worker pool.
   */
  method FromBatch(width: Width, rows: seq<seq<nat>>, numPerm: nat, seed: nat, policy: BatchThreads, available: nat,
                   poolStarts: bool)
    returns (r: Result<seq<Signature>, MinHashError>)
    ensures r.Ok? <==> ValidCount(numPerm) && (EffectiveThreads(policy, |rows|, available) == 1 || poolStarts)
    ensures r.Err? ==> r.error == if ValidCount(numPerm) then BatchPoolUnavailable else InvalidPermutationCount(numPerm)
    ensures r.Ok? ==> r.value == RowSignatures(FamilyOf(width, numPerm, seed), rows)
  {
    if !ValidCount(numPerm) {
      return Err(InvalidPermutationCount(numPerm));
    }
    var template := new MinHash(width, numPerm, seed);
    var threads := EffectiveThreads(policy, |rows|, available);
    var signatures;
    if threads == 1 {
      signatures := BuildRows(template, rows);
    } else {
      if !poolStarts {
        return Err(BatchPoolUnavailable);
      }
      signatures := BuildChunks(template, rows, ChunkSize(|rows|, threads));
    }
    return Ok(signatures);
  }
}
