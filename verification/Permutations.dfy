/**
 * The two affine permutation families: inputs are mixed by the MurmurHash3
 * finalizer, then mapped by `a * h + b` modulo the word size with odd `a`.
 * Every such map is injective.
 */
module Permutations {
  import opened Words
  import opened Bits

  datatype Width = Narrow | Wide {
    function Bits(): nat {
      if Narrow? then 32 else 64
    }

    /** The largest word, which is also the value of a slot nothing has reached. */
    function Max(): nat {
      Pow2(Bits()) - 1
    }
  }

  /** Shift, multiplier, shift, multiplier, shift. */
  datatype Mixer = Mixer(shift1: nat, factor1: nat, shift2: nat, factor2: nat, shift3: nat)

  const FMIX32 := Mixer(16, 0x85EB_CA6B, 13, 0xC2B2_AE35, 16)
  const FMIX64 := Mixer(33, 0xFF51_AFD7_ED55_8CCD, 33, 0xC4CE_B9FE_1A85_EC53, 33)

  function Mix(m: Mixer, bits: nat, value: nat): nat {
    var v1 := Affine(m.factor1, 0, bits, XorShift(value, m.shift1));
    var v2 := Affine(m.factor2, 0, bits, XorShift(v1, m.shift2));
    XorShift(v2, m.shift3)
  }

  ghost predicate Reversible(m: Mixer) {
    m.shift1 > 0 && m.shift2 > 0 && m.shift3 > 0 && m.factor1 % 2 == 1 && m.factor2 % 2 == 1
  }

  lemma {:induction false} MixInjective(m: Mixer, bits: nat, g: nat, h: nat)
    requires Reversible(m) && g < Pow2(bits) && h < Pow2(bits)
    requires Mix(m, bits, g) == Mix(m, bits, h)
    ensures g == h
  {
    var g1, h1 := XorShift(g, m.shift1), XorShift(h, m.shift1);
    var g2, h2 := Affine(m.factor1, 0, bits, g1), Affine(m.factor1, 0, bits, h1);
    var g3, h3 := XorShift(g2, m.shift2), XorShift(h2, m.shift2);
    var g4, h4 := Affine(m.factor2, 0, bits, g3), Affine(m.factor2, 0, bits, h3);
    XorShiftInjective(g4, h4, m.shift3);
    XorShiftBound(g2, m.shift2, bits);
    XorShiftBound(h2, m.shift2, bits);
    AffineInjective(m.factor2, 0, bits, g3, h3);
    XorShiftInjective(g2, h2, m.shift2);
    XorShiftBound(g, m.shift1, bits);
    XorShiftBound(h, m.shift1, bits);
    AffineInjective(m.factor1, 0, bits, g1, h1);
    XorShiftInjective(g, h, m.shift1);
  }

  lemma {:induction false} MixBound(m: Mixer, bits: nat, value: nat)
    ensures Mix(m, bits, value) < Pow2(bits)
  {
    var v1 := Affine(m.factor1, 0, bits, XorShift(value, m.shift1));
    var v2 := Affine(m.factor2, 0, bits, XorShift(v1, m.shift2));
    XorShiftBound(v2, m.shift3, bits);
  }

  /** The finalizer of a width: `fmix32` or `fmix64`. */
  function Fmix(width: Width, value: nat): nat {
    Mix(if width.Narrow? then FMIX32 else FMIX64, width.Bits(), value)
  }

  /** One multiplier and one offset per slot of a signature. */
  datatype Family = Family(width: Width, multipliers: seq<nat>, offsets: seq<nat>) {
    ghost predicate Valid() {
      |multipliers| == |offsets| && forall i :: 0 <= i < |multipliers| ==> multipliers[i] % 2 == 1
    }

    function Slots(): nat {
      |multipliers|
    }
  }

  /** Where slot `i` sends an input hash. */
  function Permute(f: Family, i: nat, hash: nat): (word: nat)
    requires i < |f.multipliers| == |f.offsets|
    ensures word <= f.width.Max()
  {
    Affine(f.multipliers[i], f.offsets[i], f.width.Bits(), Fmix(f.width, hash))
  }

  /** Two permuted values differ by the slot's multiplier times the difference of the mixed inputs, but for wrapping. */
  lemma PermuteIsAffine(f: Family, i: nat, g: nat, h: nat, x: nat, y: nat) returns (wraps: int)
    requires f.Valid() && i < f.Slots() && x == Fmix(f.width, g) && y == Fmix(f.width, h)
    ensures Permute(f, i, g) - Permute(f, i, h) == f.multipliers[i] * (x - y) + wraps * Pow2(f.width.Bits())
  {
    wraps := AffineDifference(f.multipliers[i], f.offsets[i], f.width.Bits(), x, y);
  }

  lemma {:induction false} AffineDifference(odd: nat, offset: nat, bits: nat, x: nat, y: nat) returns (wraps: int)
    ensures Affine(odd, offset, bits, x) - Affine(odd, offset, bits, y) == odd * (x - y) + wraps * Pow2(bits)
  {
    var a, b, m := odd * x + offset, odd * y + offset, Pow2(bits);
    wraps := b / m - a / m;
    Distribute(odd, x, y, offset);
    assert a == (a / m) * m + a % m;
    assert b == (b / m) * m + b % m;
    Distribute(m, b / m, a / m, 0);
  }

  /** Different input hashes never share a permuted value. */
  lemma PermuteInjective(f: Family, i: nat, g: nat, h: nat)
    requires f.Valid() && i < f.Slots() && g <= f.width.Max() && h <= f.width.Max()
    requires Permute(f, i, g) == Permute(f, i, h)
    ensures g == h
  {
    var mixer, bits := if f.width.Narrow? then FMIX32 else FMIX64, f.width.Bits();
    MixBound(mixer, bits, g);
    MixBound(mixer, bits, h);
    AffineInjective(f.multipliers[i], f.offsets[i], bits, Fmix(f.width, g), Fmix(f.width, h));
    MixInjective(mixer, bits, g, h);
  }

  /** Where a function sends the numbers below `n`. */
  ghost function Image(g: nat -> nat, n: nat): set<nat> {
    if n == 0 then {} else Image(g, n - 1) + {g(n - 1)}
  }

  lemma {:induction false} ImageFrom(g: nat -> nat, n: nat, y: nat) returns (x: nat)
    requires y in Image(g, n)
    ensures x < n && g(x) == y
  {
    if y == g(n - 1) {
      x := n - 1;
    } else {
      x := ImageFrom(g, n - 1, y);
    }
  }

  ghost predicate InjectiveBelow(g: nat -> nat, n: nat) {
    forall x: nat, y: nat :: x < n && y < n && g(x) == g(y) ==> x == y
  }

  lemma {:induction false} ImageSize(g: nat -> nat, n: nat)
    requires InjectiveBelow(g, n)
    ensures |Image(g, n)| == n
  {
    if n > 0 {
      ImageSize(g, n - 1);
      if g(n - 1) in Image(g, n - 1) {
        var x := ImageFrom(g, n - 1, g(n - 1));
      }
    }
  }

  lemma {:induction false} ImageStays(g: nat -> nat, n: nat, limit: nat)
    requires forall x: nat :: x < n ==> g(x) < limit
    ensures Image(g, n) <= Below(limit)
  {
    if n > 0 {
      ImageStays(g, n - 1, limit);
    }
  }

  lemma SubsetSize(small: set<nat>, large: set<nat>)
    requires small <= large
    ensures |small| <= |large|
  {
    assert large == small + (large - small);
  }

  /** An injective function from the numbers below `n` to themselves reaches each of them. */
  lemma InjectiveOnto(g: nat -> nat, n: nat, word: nat) returns (x: nat)
    requires InjectiveBelow(g, n) && (forall x: nat :: x < n ==> g(x) < n) && word < n
    ensures x < n && g(x) == word
  {
    ImageSize(g, n);
    ImageStays(g, n, n);
    if word !in Image(g, n) {
      SubsetSize(Image(g, n), Below(n) - {word});
    }
    x := ImageFrom(g, n, word);
  }

  /** Every word is the permuted value of some hash. */
  lemma PermuteOnto(f: Family, i: nat, word: nat) returns (h: nat)
    requires f.Valid() && i < f.Slots() && word <= f.width.Max()
    ensures h <= f.width.Max() && Permute(f, i, h) == word
  {
    var g: nat -> nat := v => Permute(f, i, v);
    var n := f.width.Max() + 1;
    forall x: nat, y: nat | x < n && y < n && g(x) == g(y)
      ensures x == y
    {
      PermuteInjective(f, i, x, y);
    }
    h := InjectiveOnto(g, n, word);
  }

  // ---- Construction from a seed ----

  const GOLDEN_GAMMA: nat := 0x9E37_79B9_7F4A_7C15
  const SPLITMIX := Mixer(30, 0xBF58_476D_1CE4_E5B9, 27, 0x94D0_49BB_1331_11EB, 31)

  /** A generator of words: its state advances by a constant, wrapping, and each state is mixed. */
  datatype Generator = Generator(mix: nat -> nat, gamma: nat, bits: nat) {
    function Next(state: nat): nat {
      (state + gamma) % Pow2(bits)
    }

    /** The next `count` words. */
    function Run(state: nat, count: nat): (words: seq<nat>)
      ensures |words| == count
      decreases count
    {
      if count == 0 then [] else [mix(Next(state))] + Run(Next(state), count - 1)
    }

    /** Steps are odd, and mixing loses nothing and stays within the word width. */
    ghost predicate Reversible() {
      && gamma % 2 == 1
      && (forall g: nat, h: nat :: g < Pow2(bits) && h < Pow2(bits) && mix(g) == mix(h) ==> g == h)
      && (forall g: nat :: g < Pow2(bits) ==> mix(g) < Pow2(bits))
    }
  }

  /** The closed form: word `k` depends on the seed and on `k` alone. */
  lemma {:induction false} WordAt(g: Generator, gamma: nat, bits: nat, state: nat, count: nat, k: nat)
    requires k < count && g.gamma == gamma && g.bits == bits
    ensures g.Run(state, count)[k] == g.mix((state + (k + 1) * gamma) % Pow2(bits))
    decreases k
  {
    if k > 0 {
      WordAt(g, gamma, bits, g.Next(state), count - 1, k - 1);
      Advance(state, k, gamma, Pow2(bits));
    }
  }

  lemma {:induction false} WordFits(g: Generator, seed: nat, count: nat, k: nat)
    requires g.Reversible() && k < count
    ensures g.Run(seed, count)[k] < Pow2(g.bits)
  {
    WordAt(g, g.gamma, g.bits, seed, count, k);
  }

  lemma {:induction false} StatesMixApart(g: Generator, bits: nat, x: nat, y: nat)
    requires g.Reversible() && g.bits == bits && x % Pow2(bits) != y % Pow2(bits)
    ensures g.mix(x % Pow2(bits)) != g.mix(y % Pow2(bits))
  {
  }

  /** Different seeds yield different words at every place. */
  lemma {:induction false} SeedsApart(g: Generator, s: nat, t: nat, count: nat, k: nat)
    requires g.Reversible() && k < count && s < Pow2(g.bits) && t < Pow2(g.bits) && s != t
    ensures g.Run(s, count)[k] != g.Run(t, count)[k]
  {
    var gamma, bits := g.gamma, g.bits;
    WordAt(g, gamma, bits, s, count, k);
    WordAt(g, gamma, bits, t, count, k);
    ShiftsApart((k + 1) * gamma, bits, s, t);
    StatesMixApart(g, bits, s + (k + 1) * gamma, t + (k + 1) * gamma);
  }

  /** No word comes twice within a whole period less one, because the step is odd. */
  lemma {:induction false} PlacesApart(g: Generator, seed: nat, count: nat, j: nat, k: nat)
    requires g.Reversible() && j < k < count < Pow2(g.bits)
    ensures g.Run(seed, count)[j] != g.Run(seed, count)[k]
  {
    var gamma, bits := g.gamma, g.bits;
    WordAt(g, gamma, bits, seed, count, j);
    WordAt(g, gamma, bits, seed, count, k);
    StepsApart(gamma, seed, bits, j + 1, k + 1);
    StatesMixApart(g, bits, seed + (j + 1) * gamma, seed + (k + 1) * gamma);
  }

  lemma {:induction false} StepsApart(gamma: nat, seed: nat, bits: nat, j: nat, k: nat)
    requires gamma % 2 == 1 && j < k < Pow2(bits)
    ensures (seed + j * gamma) % Pow2(bits) != (seed + k * gamma) % Pow2(bits)
  {
    if (seed + j * gamma) % Pow2(bits) == (seed + k * gamma) % Pow2(bits) {
      AffineInjective(gamma, seed, bits, j, k);
    }
  }

  lemma {:induction false} ShiftsApart(shift: nat, bits: nat, s: nat, t: nat)
    requires s < Pow2(bits) && t < Pow2(bits) && s != t
    ensures (s + shift) % Pow2(bits) != (t + shift) % Pow2(bits)
  {
    if (s + shift) % Pow2(bits) == (t + shift) % Pow2(bits) {
      AffineInjective(1, shift, bits, s, t);
    }
  }

  lemma Mixed(word: nat)
    ensures SplitMix().mix(word) == Mix(SPLITMIX, 64, word)
  {
  }

  /** SplitMix64. */
  function SplitMix(): Generator {
    Generator(word => Mix(SPLITMIX, 64, word), GOLDEN_GAMMA, 64)
  }

  lemma SplitMixReversible()
    ensures SplitMix().Reversible()
  {
    forall g: nat, h: nat | g < Pow2(64) && h < Pow2(64) && SplitMix().mix(g) == SplitMix().mix(h)
      ensures g == h
    {
      MixInjective(SPLITMIX, 64, g, h);
    }
    forall g: nat | g < Pow2(64)
      ensures SplitMix().mix(g) < Pow2(64)
    {
      MixBound(SPLITMIX, 64, g);
    }
  }

  /** The next `count` words of the SplitMix64 generator. */
  function Draws(state: nat, count: nat): (words: seq<nat>)
    ensures |words| == count
  {
    SplitMix().Run(state, count)
  }

  lemma WrapSum(a: int, b: int, m: int)
    requires m > 0
    ensures (a % m + b) % m == (a + b) % m
  {
    var q := a / m;
    assert a == q * m + a % m;
    WrapMultiple(a % m + b, q, m);
  }

  lemma {:induction false} WrapMultiple(a: int, q: int, m: int)
    requires m > 0
    ensures (a + q * m) % m == a % m
  {
    var s := a / m;
    assert a == s * m + a % m;
    assert a + q * m == (s + q) * m + a % m;
    RemainderOf(s + q, a % m, m);
  }

  lemma RemainderOf(q: int, r: int, m: int)
    requires 0 <= r < m
    ensures (q * m + r) % m == r
  {
    var x := q * m + r;
    assert x == (x / m) * m + x % m;
    Distribute(m, q, x / m, 0);
    SmallMultiple(x % m - r, q - x / m, m);
  }

  lemma Advance(state: int, k: int, gamma: int, m: int)
    requires m > 0
    ensures ((state + gamma) % m + k * gamma) % m == (state + (k + 1) * gamma) % m
  {
    WrapSum(state + gamma, k * gamma, m);
    assert state + gamma + k * gamma == state + (k + 1) * gamma;
  }

  lemma DrawIs(seed: nat, count: nat, k: nat)
    requires k < count
    ensures Draws(seed, count)[k] == SplitMix().mix((seed + (k + 1) * GOLDEN_GAMMA) % Pow2(64))
  {
    WordAt(SplitMix(), GOLDEN_GAMMA, 64, seed, count, k);
  }

  /** Draw `k` is the mixed state after `k + 1` steps. */
  lemma DrawsAt(seed: nat, count: nat, k: nat)
    requires k < count
    ensures Draws(seed, count)[k] == Mix(SPLITMIX, 64, (seed + (k + 1) * GOLDEN_GAMMA) % Pow2(64))
  {
    DrawIs(seed, count, k);
    Mixed((seed + (k + 1) * GOLDEN_GAMMA) % Pow2(64));
  }

  /** Bitwise or with one. */
  function SetLowBit(word: nat): (odd: nat)
    ensures odd % 2 == 1
  {
    if word % 2 == 0 then word + 1 else word
  }

  /** The first half of the words, made odd, multiply and the second half are added, all cut to the word width. */
  function FamilyFrom(width: Width, limit: nat, slots: nat, words: seq<nat>): (f: Family)
    requires |words| == 2 * slots && 0 < limit
    ensures f.Valid() && f.Slots() == slots && f.width == width
  {
    Family(width,
           seq(slots, i requires 0 <= i < slots => SetLowBit(words[i] % limit)),
           seq(slots, i requires 0 <= i < slots => words[slots + i] % limit))
  }

  /** All multipliers are drawn before any offset. */
  function FamilyOf(width: Width, slots: nat, seed: nat): (f: Family)
    ensures f.Valid() && f.Slots() == slots && f.width == width
  {
    FamilyFrom(width, Pow2(width.Bits()), slots, Draws(seed, 2 * slots))
  }

  lemma FamilyFromAt(width: Width, limit: nat, slots: nat, words: seq<nat>, i: nat)
    requires |words| == 2 * slots && 0 < limit && i < slots
    ensures FamilyFrom(width, limit, slots, words).multipliers[i] == SetLowBit(words[i] % limit)
    ensures FamilyFrom(width, limit, slots, words).offsets[i] == words[slots + i] % limit
  {
  }

  /** Slot `i` multiplies by draw `i`, made odd, and adds draw `slots + i`, both cut to the word width. */
  lemma FamilyAt(width: Width, slots: nat, seed: nat, i: nat)
    requires i < slots
    ensures
      var f, words, limit := FamilyOf(width, slots, seed), Draws(seed, 2 * slots), Pow2(width.Bits());
      f.multipliers[i] == SetLowBit(words[i] % limit) && f.offsets[i] == words[slots + i] % limit
  {
    FamilyFromAt(width, Pow2(width.Bits()), slots, Draws(seed, 2 * slots), i);
  }

  lemma OffsetsFit(width: Width, slots: nat, seed: nat, i: nat)
    requires i < slots
    ensures FamilyOf(width, slots, seed).offsets[i] <= width.Max()
  {
    FamilyAt(width, slots, seed, i);
  }

  lemma {:induction false} WideOffset(g: Generator, slots: nat, seed: nat, i: nat)
    requires g.Reversible() && i < slots
    ensures FamilyFrom(Wide, Pow2(g.bits), slots, g.Run(seed, 2 * slots)).offsets[i] ==
            g.Run(seed, 2 * slots)[slots + i]
  {
    WordFits(g, seed, 2 * slots, slots + i);
    FamilyFromAt(Wide, Pow2(g.bits), slots, g.Run(seed, 2 * slots), i);
    SmallRemainder(g.Run(seed, 2 * slots)[slots + i], Pow2(g.bits));
  }

  lemma SmallRemainder(r: nat, m: nat)
    requires r < m
    ensures r % m == r
  {
  }

  lemma {:induction false} OffsetsOfSeeds(g: Generator, slots: nat, s: nat, t: nat, i: nat)
    requires g.Reversible() && i < slots && s < Pow2(g.bits) && t < Pow2(g.bits) && s != t
    ensures FamilyFrom(Wide, Pow2(g.bits), slots, g.Run(s, 2 * slots)).offsets[i] !=
            FamilyFrom(Wide, Pow2(g.bits), slots, g.Run(t, 2 * slots)).offsets[i]
  {
    WideOffset(g, slots, s, i);
    WideOffset(g, slots, t, i);
    SeedsApart(g, s, t, 2 * slots, slots + i);
  }

  lemma {:induction false} OffsetsOfPlaces(g: Generator, slots: nat, seed: nat, i: nat, j: nat)
    requires g.Reversible() && i < j < slots && 2 * slots < Pow2(g.bits)
    ensures
      var offsets := FamilyFrom(Wide, Pow2(g.bits), slots, g.Run(seed, 2 * slots)).offsets;
      offsets[i] != offsets[j]
  {
    WideOffset(g, slots, seed, i);
    WideOffset(g, slots, seed, j);
    PlacesApart(g, seed, 2 * slots, slots + i, slots + j);
  }

  /** Wide families of different seeds have different offsets in every slot. */
  lemma SeedsSeparateOffsets(slots: nat, s: u64, t: u64, i: nat)
    requires i < slots && s != t
    ensures FamilyOf(Wide, slots, s).offsets[i] != FamilyOf(Wide, slots, t).offsets[i]
  {
    Pow2Widths();
    SplitMixReversible();
    OffsetsOfSeeds(SplitMix(), slots, s, t, i);
  }

  /** The offsets of one wide family are pairwise different. */
  lemma OffsetsDistinct(slots: nat, seed: nat, i: nat, j: nat)
    requires i < j < slots <= U32_MAX
    ensures FamilyOf(Wide, slots, seed).offsets[i] != FamilyOf(Wide, slots, seed).offsets[j]
  {
    Pow2Widths();
    SplitMixReversible();
    OffsetsOfPlaces(SplitMix(), slots, seed, i, j);
  }
}
