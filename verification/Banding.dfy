/** Sketches as the indexes see them: a seed and a signature cut into bands, each hashed to one bucket hash. */
module Banding {
  import opened Words
  import opened Bits
  import opened Permutations

  datatype Sketch = Sketch(seed: u64, signature: seq<u64>)

  /**
   * Index parameters. `hashBand` maps one band of signature values to its bucket
   * hash: `FnvBand` for both widths; what depends on that choice says so.
   */
  datatype Config = Config(seed: u64, numPerm: nat, bands: nat, rows: nat, hashBand: seq<u64> -> nat) {
    predicate Valid() {
      0 < bands && 0 < rows && bands * rows <= numPerm <= U32_MAX
    }
  }

  datatype LshError =
    | IncompatibleSeed(expected: u64, actual: u64)
    | IncompatiblePermutationCount(wanted: nat, found: nat)
    | DuplicateKey(key: nat)
    | TooManyItems

  /** The sketch has the seed and the number of values that the index was made for. */
  ghost predicate Compatible(config: Config, sketch: Sketch) {
    sketch.seed == config.seed && |sketch.signature| == config.numPerm
  }

  /** The first reason a sketch does not fit an index, if there is one. */
  function Incompatibility(config: Config, sketch: Sketch): Option<LshError> {
    if sketch.seed != config.seed then
      Some(IncompatibleSeed(config.seed, sketch.seed))
    else if |sketch.signature| != config.numPerm then
      Some(IncompatiblePermutationCount(config.numPerm, |sketch.signature|))
    else
      None
  }

  const FNV_OFFSET_BASIS: nat := 0xCBF2_9CE4_8422_2325
  const FNV_PRIME: nat := 0x0000_0100_0000_01B3

  /** Whole values are folded in, one exclusive or and one wrapping multiplication each. */
  function FnvFold(hash: nat, values: seq<u64>): nat
    decreases |values|
  {
    if values == [] then hash else FnvFold(Affine(FNV_PRIME, 0, 64, Xor(hash, values[0])), values[1..])
  }

  /** The fold, then the band length, then the 64-bit finalizer. */
  function FnvBand(values: seq<u64>): nat {
    Fmix(Wide, Xor(FnvFold(FNV_OFFSET_BASIS, values), |values|))
  }

  lemma {:induction false} FnvStep(left: nat, right: nat, value: u64)
    requires left <= U64_MAX && right <= U64_MAX
    requires Affine(FNV_PRIME, 0, 64, Xor(left, value)) == Affine(FNV_PRIME, 0, 64, Xor(right, value))
    ensures left == right
  {
    Pow2Widths();
    XorBound(left, value, 64);
    XorBound(right, value, 64);
    AffineInjective(FNV_PRIME, 0, 64, Xor(left, value), Xor(right, value));
    XorCancels(left, right, value);
  }

  lemma {:induction false} FnvWord(hash: nat, value: nat)
    ensures Affine(FNV_PRIME, 0, 64, Xor(hash, value)) <= U64_MAX
  {
    Pow2Widths();
  }

  lemma {:induction false} FoldInjective(left: nat, right: nat, values: seq<u64>)
    requires left <= U64_MAX && right <= U64_MAX && FnvFold(left, values) == FnvFold(right, values)
    ensures left == right
    decreases |values|
  {
    if values != [] {
      FnvWord(left, values[0]);
      FnvWord(right, values[0]);
      FoldInjective(Affine(FNV_PRIME, 0, 64, Xor(left, values[0])), Affine(FNV_PRIME, 0, 64, Xor(right, values[0])),
                    values[1..]);
      FnvStep(left, right, values[0]);
    }
  }

  lemma {:induction false} FoldWord(hash: nat, values: seq<u64>)
    requires hash <= U64_MAX
    ensures FnvFold(hash, values) <= U64_MAX
    decreases |values|
  {
    if values != [] {
      FnvWord(hash, values[0]);
      FoldWord(Affine(FNV_PRIME, 0, 64, Xor(hash, values[0])), values[1..]);
    }
  }

  lemma {:induction false} FoldApart(hash: nat, left: seq<u64>, right: seq<u64>, k: nat)
    requires hash <= U64_MAX && |left| == |right| && k < |left| && FnvFold(hash, left) == FnvFold(hash, right)
    requires forall i :: 0 <= i < |left| && i != k ==> left[i] == right[i]
    ensures left[k] == right[k]
    decreases k
  {
    FnvWord(hash, left[0]);
    FnvWord(hash, right[0]);
    var next := Affine(FNV_PRIME, 0, 64, Xor(hash, left[0]));
    if k > 0 {
      FoldApart(next, left[1..], right[1..], k - 1);
    } else {
      assert left[1..] == right[1..];
      FoldInjective(next, Affine(FNV_PRIME, 0, 64, Xor(hash, right[0])), left[1..]);
      FirstApart(hash, left[0], right[0]);
    }
  }

  lemma {:induction false} FirstApart(hash: nat, left: u64, right: u64)
    requires hash <= U64_MAX
    requires Affine(FNV_PRIME, 0, 64, Xor(hash, left)) == Affine(FNV_PRIME, 0, 64, Xor(hash, right))
    ensures left == right
  {
    XorSymmetric(hash, left);
    XorSymmetric(hash, right);
    FnvStep(left, right, hash);
  }

  lemma {:induction false} FoldOfZeros(values: seq<u64>)
    requires forall i :: 0 <= i < |values| ==> values[i] == 0
    ensures FnvFold(0, values) == 0
    decreases |values|
  {
    if values != [] {
      XorSelf(values[0]);
      SmallRemainder(0, Pow2(64));
      FoldOfZeros(values[1..]);
    }
  }

  lemma {:induction false} FoldCancels(hash: nat, values: seq<u64>)
    requires values != [] && values[0] == hash && forall i :: 1 <= i < |values| ==> values[i] == 0
    ensures FnvFold(hash, values) == 0
  {
    XorSelf(hash);
    SmallRemainder(0, Pow2(64));
    FoldOfZeros(values[1..]);
  }

  /** A first value equal to the offset basis cancels it before the first product: only the length is left to mix. */
  lemma {:induction false} BasisCancels(values: seq<u64>)
    requires values != [] && values[0] == FNV_OFFSET_BASIS && forall i :: 1 <= i < |values| ==> values[i] == 0
    ensures FnvBand(values) == Fmix(Wide, |values|)
  {
    FoldCancels(values[0], values);
    XorZero(|values|);
  }

  /** Bands that differ in exactly one value never share a bucket hash. */
  lemma {:induction false} OneValueApart(left: seq<u64>, right: seq<u64>, k: nat)
    requires |left| == |right| <= U32_MAX && k < |left| && left[k] != right[k]
    requires forall i :: 0 <= i < |left| && i != k ==> left[i] == right[i]
    ensures FnvBand(left) != FnvBand(right)
  {
    if FnvBand(left) == FnvBand(right) {
      var a, b := FnvFold(FNV_OFFSET_BASIS, left), FnvFold(FNV_OFFSET_BASIS, right);
      FoldWord(FNV_OFFSET_BASIS, left);
      FoldWord(FNV_OFFSET_BASIS, right);
      Pow2Widths();
      XorBound(a, |left|, 64);
      XorBound(b, |left|, 64);
      MixInjective(FMIX64, 64, Xor(a, |left|), Xor(b, |left|));
      XorCancels(a, b, |left|);
      FoldApart(FNV_OFFSET_BASIS, left, right, k);
    }
  }

  /** Hash consecutive bands of `rows` values each. */
  function HashBands(signature: seq<u64>, bands: nat, rows: nat, hashBand: seq<u64> -> nat): (hashes: seq<nat>)
    requires 0 < rows && bands * rows <= |signature|
    ensures |hashes| == bands
    decreases bands
  {
    if bands == 0 then []
    else
      assert (bands - 1) * rows == bands * rows - rows;
      [hashBand(signature[..rows])] + HashBands(signature[rows..], bands - 1, rows, hashBand)
  }

  lemma {:induction false} HashBandsFrom(signature: seq<u64>, bands: nat, rows: nat, hashBand: seq<u64> -> nat, b: nat,
                                         start: nat)
    requires 0 < rows && bands * rows <= |signature| && b < bands
    requires start == b * rows && start + rows <= |signature|
    ensures HashBands(signature, bands, rows, hashBand)[b] == hashBand(signature[start..start + rows])
    decreases b
  {
    if b > 0 {
      var rest := signature[rows..];
      OneFewer(bands, rows);
      OneFewer(b, rows);
      HashBandsFrom(rest, bands - 1, rows, hashBand, b - 1, start - rows);
      assert rest[start - rows..start] == signature[start..start + rows];
    } else {
      assert signature[0..rows] == signature[..rows];
    }
  }

  lemma OneFewer(n: nat, rows: nat)
    requires n > 0
    ensures (n - 1) * rows == n * rows - rows && n * rows >= rows
  {
    assert (n - 1) * rows >= 0;
  }

  /** Band `b` starts `b` whole bands into the signature, and its hash is that of all its values and of no others. */
  lemma {:induction false} HashBandsAt(signature: seq<u64>, bands: nat, rows: nat, hashBand: seq<u64> -> nat, b: nat)
    requires 0 < rows && bands * rows <= |signature| && b < bands
    ensures 0 <= b * rows <= (b + 1) * rows <= |signature|
    ensures HashBands(signature, bands, rows, hashBand)[b] == hashBand(signature[b * rows..(b + 1) * rows])
  {
    BandInside(bands, rows, b);
    OneFewer(b + 1, rows);
    HashBandsFrom(signature, bands, rows, hashBand, b, b * rows);
  }

  lemma BandInside(bands: nat, rows: nat, b: nat)
    requires b < bands
    ensures 0 <= b * rows <= (b + 1) * rows <= bands * rows
  {
    var after := bands - b - 1;
    assert bands == b + 1 + after;
    assert bands * rows == (b + 1) * rows + after * rows;
  }

  function BandHashes(config: Config, sketch: Sketch): (hashes: seq<nat>)
    requires config.Valid() && Incompatibility(config, sketch).None?
    ensures |hashes| == config.bands
  {
    HashBands(sketch.signature, config.bands, config.rows, config.hashBand)
  }

  /** Two items are LSH candidates when their hashes agree in at least one band. */
  ghost predicate Collide(left: seq<nat>, right: seq<nat>) {
    exists band :: 0 <= band < |left| && band < |right| && left[band] == right[band]
  }

  // ---- What makes two sketches candidates ----

  /** The values of one band: rows `b * rows` up to `(b + 1) * rows` of the signature. */
  ghost function BandOf(config: Config, sketch: Sketch, b: nat): (values: seq<u64>)
    requires config.Valid() && |sketch.signature| == config.numPerm && b < config.bands
    ensures |values| == config.rows
    ensures forall i :: 0 <= i < config.rows ==>
              0 <= b * config.rows + i < |sketch.signature| && values[i] == sketch.signature[b * config.rows + i]
  {
    BandInside(config.bands, config.rows, b);
    assert (b + 1) * config.rows == b * config.rows + config.rows;
    sketch.signature[b * config.rows..(b + 1) * config.rows]
  }

  ghost predicate BothFit(config: Config, left: Sketch, right: Sketch) {
    Compatible(config, left) && Compatible(config, right)
  }

  lemma BandHashAt(config: Config, sketch: Sketch, b: nat)
    requires config.Valid() && Compatible(config, sketch) && b < config.bands
    ensures BandHashes(config, sketch)[b] == config.hashBand(BandOf(config, sketch, b))
  {
    HashBandsAt(sketch.signature, config.bands, config.rows, config.hashBand, b);
  }

  /** Two sketches are candidates if and only if some band of one has the same hash as that band of the other. */
  lemma CollideByBand(config: Config, left: Sketch, right: Sketch)
    requires config.Valid() && BothFit(config, left, right)
    ensures Collide(BandHashes(config, left), BandHashes(config, right)) <==>
            exists b: nat :: b < config.bands &&
              config.hashBand(BandOf(config, left, b)) == config.hashBand(BandOf(config, right, b))
  {
    forall b: nat | b < config.bands
      ensures BandHashes(config, left)[b] == config.hashBand(BandOf(config, left, b))
      ensures BandHashes(config, right)[b] == config.hashBand(BandOf(config, right, b))
    {
      BandHashAt(config, left, b);
      BandHashAt(config, right, b);
    }
    var l, r := BandHashes(config, left), BandHashes(config, right);
    if b: nat :| b < config.bands &&
                 config.hashBand(BandOf(config, left, b)) == config.hashBand(BandOf(config, right, b)) {
      assert l[b] == r[b];
    }
  }

  /** Two sketches that agree on all rows of one band are candidates, whatever the band hash. */
  lemma AgreeingBandCollides(config: Config, left: Sketch, right: Sketch, b: nat)
    requires config.Valid() && BothFit(config, left, right) && b < config.bands
    requires forall row :: b * config.rows <= row < (b + 1) * config.rows && row < config.numPerm ==>
               left.signature[row] == right.signature[row]
    ensures Collide(BandHashes(config, left), BandHashes(config, right))
  {
    BandInside(config.bands, config.rows, b);
    SlicesAgree(left.signature, right.signature, b * config.rows, (b + 1) * config.rows);
    SameBandCollides(config, left, right, b);
  }

  lemma SlicesAgree(left: seq<u64>, right: seq<u64>, start: nat, end: nat)
    requires start <= end <= |left| == |right| && forall row :: start <= row < end ==> left[row] == right[row]
    ensures left[start..end] == right[start..end]
  {
  }

  lemma SameBandCollides(config: Config, left: Sketch, right: Sketch, b: nat)
    requires config.Valid() && BothFit(config, left, right) && b < config.bands
    requires BandOf(config, left, b) == BandOf(config, right, b)
    ensures Collide(BandHashes(config, left), BandHashes(config, right))
  {
    BandHashAt(config, left, b);
    BandHashAt(config, right, b);
  }

  /** Two bands differ in exactly one of their values. */
  ghost predicate OneApart(left: seq<u64>, right: seq<u64>) {
    exists k: nat :: OnlyApartAt(left, right, k)
  }

  ghost predicate OnlyApartAt(left: seq<u64>, right: seq<u64>, k: nat) {
    && k < |left| == |right|
    && (forall i :: 0 <= i < |left| ==> (left[i] == right[i] <==> i != k))
  }

  lemma OneApartMisses(left: seq<u64>, right: seq<u64>)
    requires OneApart(left, right) && |left| <= U32_MAX
    ensures FnvBand(left) != FnvBand(right)
  {
    var k: nat :| OnlyApartAt(left, right, k);
    OneValueApart(left, right, k);
  }

  lemma RowsFit(config: Config)
    requires config.Valid()
    ensures config.rows <= U32_MAX
  {
    BandInside(config.bands, config.rows, 0);
  }

  /** With the band hash of the indexes, two sketches that differ in one value of every band are no candidates. */
  lemma OneApartNeverCollides(config: Config, left: Sketch, right: Sketch)
    requires config.Valid() && BothFit(config, left, right)
    requires forall values :: config.hashBand(values) == FnvBand(values)
    requires forall b: nat :: b < config.bands ==> OneApart(BandOf(config, left, b), BandOf(config, right, b))
    ensures !Collide(BandHashes(config, left), BandHashes(config, right))
  {
    RowsFit(config);
    forall b: nat | b < config.bands
      ensures BandHashes(config, left)[b] != BandHashes(config, right)[b]
    {
      BandHashAt(config, left, b);
      BandHashAt(config, right, b);
      OneApartMisses(BandOf(config, left, b), BandOf(config, right, b));
    }
  }
}
