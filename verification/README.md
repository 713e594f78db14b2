# Pari, verified

A Dafny model of Pari, a MinHash/LSH deduplication engine, with proofs about its five cores.

- **Grouping** (`Connectivity`, `Components`, `Forest`, `UnionFinding`, `KeyGraph`, `Grouping`, `PairGrouping`,
  `CandidatePairing`, `PathHalving`, `Routes`): union-find by rank with path compression, driven by bucket collisions,
  by bucket anchors or by a pair stream. Hash-map iteration order is an arbitrary choice in every loop. All routes give
  exactly the connected components, in the same order.
- **Index and storage twin** (`Banding`, `IndexState`, `IndexSpec`, `LshIndexing`, `BackendState`, `Backend`, `Twins`,
  `Statistics`): two implementations refine one map from keys to band hashes and reply alike over whole runs.
- **File format** (`Bytes`, `Container`, `LazyLayout`, `BucketSegments`, `BucketCodec`, `BucketStream`, `Pages`, `PageStores`,
  `WireFormat`, `PageFormat`): codecs with inverses in both directions, agreeing readers, agreeing writers, the paged
  bucket file, and where every number stands in the bytes.
- **MinHash** (`Bits`, `Permutations`, `MinHashing`): slot functions are permutations of the words, signatures depend only
  on the set of hashes, and slots agree exactly when the minimiser of the union is shared.
- **Publication and ingestion** (`FileSystems`, `IndexOutput`, `Staging`, `Ingestion`, `Deduplication`):
  all-or-nothing publishing under failures at every step and interference by other processes, and the alignment of
  records, index and mirror.

`dafny verify dfyconfig.toml` checks the whole project.

## Conventions

- Keys, hashes and ids are natural numbers. Bounds are written out where the code depends on them: the 2^32 - 1
  internal ids, the `u8` rank, field widths of the file format, 64-bit totals, wrapping multiplication.
- `Result` stands for errors and exceptions. `if *` and `:= *` stand for file-system calls that may fail and for choices
  of other processes; a ghost log keeps the paths of failing calls. What may go wrong outside ingestion (sources,
  sketching, mirror, progress callbacks) is a parameter.
- A checksum is a fold over bytes, passed as a parameter; `Bytes.CRC32` is the instance from section 8 of RFC 1952.
  No result uses its error detection.
- Inductive lemmas recurse explicitly; automatic induction is switched off wherever it would apply.
- Records of a dedupe index stand for the record objects themselves, so equality of records is identity of objects.
- The file-system model assumes that nobody else uses the reserved (nonce) names, that other processes do not move or
  link this run's files onto output names (they may move, link, replace and remove anything else, and replace or remove
  outputs), that inode numbers are not reused while a run lasts, that a failing call has no effect, and that nothing
  happens between an identity check and the unlink that follows it.

## Where code and documentation differ

- `is_empty` is documented as "no values have been added" (crates/pari-core/src/minhash.rs:249-253). It holds exactly
  when every added hash permutes to the maximum word in every slot (`LooksEmpty`), which one hash can do
  (`SomeHashLooksEmpty`, `LooksEmptyOnlyForOne`).
- Re-encoding a decoded file gives the same bytes if and only if it held no unknown optional section, which decoding
  drops (`EncodeDecode`); `SkippedSectionLost` is a file where it does not.
- The two indexes part exactly when more than 2^32 - 1 insertions have been accepted (`RunTwins`), because neither
  removal nor a failed mirror write gives internal ids back; `TwinsPart` is such a run over one key.
- The two indexes reject the same batches otherwise, but name different faults when a key already stored stands at or
  before the batch's own first fault and that fault is not a repetition of the key (`RejectionsAgree`);
  `RejectionsDiffer` is such a batch.
- The eager and lazy readers accept the same intact files but may name different faults of a refused one. They differ
  exactly where two faults meet in one header or in one frame, or where the lazy reader passes a damaged section and
  does not stop at an unknown section damaged in the same way (`FaultsAgree`); `HeaderFaultsDiffer`,
  `FrameFaultsDiffer`, `DamageHidesFault` and `DamageHidesDamage` are inputs of each kind.
- A successful `StagedOutputs` exit removes the staged names but not their `.tmp` companions
  (python/pari/_outputs.py:60-61). No reserved name that is no staged name is created or removed (`Completed`), so
  nothing of the run is left if and only if the workflow left no companion (`NothingLeft`); `CompanionStays` leaves one.

## Model

| member | source | states |
|---|---|---|
| `Forest.RankBound` | crates/pari-index/src/grouping.rs:455-511 | In every reachable union-find state a rank is below 64: `2^rank` is at most the size of the root's class, so the saturating `u8` never saturates |
| `Forest.RootsAreTheLabels` | crates/pari-index/src/grouping.rs:478-491 | Any labelling that is constant along parent links and fixes roots is the root function; this is what makes the label argument exact |
| `Forest.Compress` | crates/pari-index/src/grouping.rs:484-490 | Pointing a node at its root keeps ranks increasing along parents, the size bound, and every node's root |
| `Forest.LinkSound` | crates/pari-index/src/grouping.rs:497-510 | Hanging one root below another of no smaller rank keeps the invariants and moves exactly one class's label |
| `Forest.Append` | crates/pari-index/src/grouping.rs:473-476 | A new node is a class of its own and disturbs no other |
| `UnionFinding.UnionFind.constructor` | crates/pari-index/src/grouping.rs:462-467 | A fresh structure has only singleton classes |
| `UnionFinding.UnionFind.Push` | crates/pari-index/src/grouping.rs:473-476 | One more singleton class; the others keep their labels |
| `UnionFinding.UnionFind.Find` | crates/pari-index/src/grouping.rs:478-491 | Both loops terminate, the result is the node's root, and no class changes |
| `UnionFinding.UnionFind.Connected` | crates/pari-index/src/grouping.rs:493-495 | True exactly when both nodes have one class; no class changes |
| `UnionFinding.UnionFind.Union` | crates/pari-index/src/grouping.rs:497-511 | Merges exactly the two classes: two nodes share a class afterwards iff they did before or each was in one of the two |
| `UnionFinding.UnionFind.Attach` | crates/pari-index/src/grouping.rs:506-509 | Link and rank increment without saturation keep the invariants |
| `Components.ClassListUnique` | crates/pari-index/src/grouping.rs:419-445 | A partition has one sorted list of sorted classes per minimum size, so any two routes that produce one agree element by element |
| `Components.LabelsSeparate` | crates/pari-index/src/grouping.rs:269-283 | Labels that agree along every edge and only where edges connect have the connected components as their classes |
| `Components.SortedClasses` | crates/pari-index/src/grouping.rs:419-445 | Classes gathered in any hash-map order become the one canonical list by sorting |
| `KeyGraph.LabelsAreComponents` | crates/pari-index/src/grouping.rs:301-334 | When every bucket is done and no label joins unconnected ids, labels read through live keys are exactly the components of the verified collision graph |
| `KeyGraph.EdgeShared` | crates/pari-index/src/grouping.rs:301-334 | Skipping pairs that are already connected loses no edge |
| `KeyGraph.BucketEdges` | crates/pari-index/src/grouping.rs:306-331 | Every accepted pair of live ids in one bucket is an edge of the key graph, so nothing is added |
| `Grouping.UnionPair` | crates/pari-index/src/grouping.rs:309-329 | One pair: joined if live and accepted, untouched if already connected, dead or refused; no unconnected ids ever share a label |
| `Grouping.UnionBucket` | crates/pari-index/src/grouping.rs:306-331 | After the nested loops every accepted pair of the bucket shares a label |
| `Grouping.UnionBucketByAnchor` | crates/pari-index/src/grouping.rs:336-355 | Joining all live members to the first live one gives the same classes as joining all pairs |
| `Grouping.UnionTable` | crates/pari-index/src/grouping.rs:305-333 | One band's buckets in any iteration order |
| `Grouping.UnionIndexBuckets` | crates/pari-index/src/grouping.rs:301-334 | All bands: all accepted pairs joined, nothing else |
| `Grouping.CollectComponents` | crates/pari-index/src/grouping.rs:419-445 | All classes of at least the minimum size, each sorted, sorted by content, whatever order the hash map yields them in |
| `Grouping.CollectDefaultGroups` | crates/pari-index/src/grouping.rs:362-385 | The same list with the smallest key as representative |
| `Grouping.DuplicateGroupsWith` | crates/pari-index/src/grouping.rs:215-234 | For every reachable index, verifier and bucket order: exactly the components, of at least the minimum size, of live keys joined by accepted bucket-sharing pairs |
| `Grouping.DuplicateGroups` | crates/pari-index/src/grouping.rs:193-205 | The anchor route returns exactly the components of size two or more of the whole collision graph |
| `PairGrouping.InternKey` | crates/pari-index/src/grouping.rs:285-299 | Keys get consecutive nodes once; existing classes stay |
| `PairGrouping.UnionStream` | crates/pari-index/src/grouping.rs:269-283 | After the stream both ends of every pair share a class, and classes only join connected keys |
| `PairGrouping.GroupPairs` | crates/pari-index/src/grouping.rs:145-151 | Exactly the components of the given pairs over the keys they mention |
| `CandidatePairing.OrderedBuckets` | crates/pari-index/src/grouping.rs:75-97 | The collision buckets of all tables, none lost, strictly ascending by band and hash |
| `CandidatePairing.CanonicalUnique` | crates/pari-index/src/grouping.rs:75-97 | There is only one such list, whatever order the hash maps yield their buckets in |
| `CandidatePairing.CandidatePairs.Step` | crates/pari-index/src/grouping.rs:103-137 | Every cursor move decreases the lexicographic measure on bucket, left and right position, and remembers only new pairs |
| `CandidatePairing.CandidatePairs.Next` | crates/pari-index/src/grouping.rs:100-137 | Yields a key pair never yielded before, the next of the fixed list still ahead, or ends with nothing left |
| `CandidatePairing.SeenEdges` | crates/pari-index/src/grouping.rs:100-137 | The pairs seen by a full run are exactly the edges of the collision graph |
| `CandidatePairing.AllCandidatePairs` | crates/pari-index/src/grouping.rs:178-185 | A full run yields each normalised pair of distinct live keys that share a bucket exactly once, and nothing else, as one fixed list of the index |
| `CandidatePairing.CandidateListUnique` | crates/pari-index/src/grouping.rs:178-185 | Any two full runs on one index yield the same pairs in the same order |
| `PathHalving.HalvingForest.Find` | benchmarks/public_corpora.py:243-248 | Path halving ends at the root and changes no root |
| `PathHalving.HalvingForest.Link` | benchmarks/public_corpora.py:250-252 | The larger root goes below the smaller one: its class takes the smaller root, every other class keeps its own |
| `PathHalving.PairComponents` | benchmarks/public_corpora.py:240-256 | The reference components: all classes of two or more, sorted |
| `Routes.IgnoreUntouched` | crates/pari-index/src/grouping.rs:145-151 | Keys that no pair mentions never appear in a component of two or more |
| `Routes.GroupFourWays` | crates/pari-index/src/grouping.rs:145-234 | On every index the anchor route, the verified route that accepts all, the pair stream and the path-halving reference give the same lists in the same order, minimum key first, and these are the components of the collision graph |
| `IndexState.InsertedMatches` | crates/pari-index/src/lib.rs:435-444 | Inserting keeps the four structures consistent and adds one entry to the abstract map |
| `IndexState.RemovedMatches` | crates/pari-index/src/lib.rs:357-387 | Removing keeps them consistent and takes out exactly one entry; emptied buckets disappear |
| `LshIndexing.IndexData.InsertValidated` | crates/pari-index/src/lib.rs:435-444 | Refines adding a key with its band hashes, with the next internal id |
| `LshIndexing.IndexData.Remove` | crates/pari-index/src/lib.rs:357-387 | Refines removing the key; true iff it was live; ids are not given back |
| `LshIndexing.IndexData.CollectCandidateIds` | crates/pari-index/src/lib.rs:446-452 | Exactly the live ids that agree with the query in some band |
| `LshIndexing.IndexData.KeysForCandidates` | crates/pari-index/src/lib.rs:454-465 | The live keys of those ids in strictly ascending order |
| `Banding.OneValueApart` | crates/pari-index/src/lib.rs:799-825 | Bands that differ in exactly one value never share a bucket hash, in either width |
| `Banding.BasisCancels` | crates/pari-index/src/lib.rs:799-825 | Each value is folded in before its product and the length last: a first value equal to the offset basis, followed by zeros, leaves only the length to the finalizer |
| `Banding.HashBandsAt` | crates/pari-index/src/lib.rs:693-702 | Hash `b` is that of the values `b * rows` up to `(b + 1) * rows` of the signature, all of them and no others |
| `Banding.CollideByBand` | crates/pari-index/src/lib.rs:577-588 | Two fitting sketches are candidates iff some band of one hashes like the same band of the other |
| `Banding.AgreeingBandCollides` | crates/pari-index/src/lib.rs:693-702 | Sketches that agree on all rows of one band are candidates, whatever the band hash |
| `Banding.OneApartNeverCollides` | crates/pari-index/src/lib.rs:693-825 | With the FNV band hash, sketches that differ in exactly one value of every band are never candidates |
| `IndexSpec.FoundByBand` | crates/pari-index/src/lib.rs:577-588 | A query returns a stored key iff one band of its sketch hashes like that band of the query |
| `LshIndexing.LshIndex.InsertMany` | crates/pari-index/src/lib.rs:556-574 | All or nothing: accepted iff all keys are new and distinct, all sketches fit and ids remain; a rejected batch changes no structure and reports the first fault |
| `LshIndexing.LshIndex.Insert` | crates/pari-index/src/lib.rs:548-574 | One item: accepted iff its key is new, its seed and length are those of the index and an id is left, with the exact error otherwise; after a removal the same key is simply live again with its new hashes |
| `LshIndexing.LshIndex.Query` | crates/pari-index/src/lib.rs:577-588 | The strictly ascending list of exactly the live keys whose stored hashes agree in at least one band; fails iff seed or length differ, the seed first |
| `LshIndexing.LshIndex.QueryMany` | crates/pari-index/src/lib.rs:591-617 | All answers in order, or the first incompatibility |
| `LshIndexing.LshIndex.Remove` | crates/pari-index/src/lib.rs:620-622 | Refines map removal |
| `IndexSpec.InsertFault` | crates/pari-index/src/lib.rs:561-571 | A fault is reported exactly for inadmissible batches |
| `IndexSpec.FaultIsFirst` | crates/pari-index/src/lib.rs:561-571 | The fault is that of the first item that cannot join the items before it: a taken key, another seed, another length, in this order |
| `IndexSpec.AddedItem` | crates/pari-index/src/lib.rs:556-574 | After an accepted batch every item is found under its key with the band hashes of its own sketch |
| `IndexSpec.AnswersFail` | crates/pari-index/src/lib.rs:591-617 | The first failing query decides a batch |
| `IndexSpec.AddedCount` | crates/pari-index/src/lib.rs:556-574 | An admissible batch adds exactly one live item per entry |
| `Backend.MemoryBackend.Initialize` | crates/pari-backend/src/lib.rs:729-740 | Accepts only an empty, unconfigured backend and no retention, naming which, and changes no records |
| `Backend.MemoryBackend.InsertMany` | crates/pari-backend/src/lib.rs:753-782 | All or nothing, reporting the first fault; buckets and records keep describing each other |
| `Backend.MemoryBackend.QueryBuckets` | crates/pari-backend/src/lib.rs:784-793 | For each bucket the ascending list of exactly the keys whose record hashes to it |
| `Backend.MemoryBackend.DeleteMany` | crates/pari-backend/src/lib.rs:795-820 | Returns the number of distinct live keys in its argument and removes exactly those |
| `Backend.BackendIndex.InsertMany` | crates/pari-backend/src/lib.rs:468-487 | Accepts what the in-memory index accepts apart from its id limit; a rejection changes nothing and names faults within the batch first, then the first key already stored; the known item count stays exact |
| `Backend.BackendIndex.ResolveBuckets` | crates/pari-backend/src/lib.rs:504-521 | De-duplicated bucket reads still resolve every band of every query |
| `Backend.BackendIndex.QueryMany` | crates/pari-backend/src/lib.rs:495-560 | The same answers as querying one by one, although each bucket is read once |
| `Backend.BackendIndex.Query` | crates/pari-backend/src/lib.rs:489-493 | The ascending candidates of one sketch, with the same two errors as the in-memory index |
| `Backend.BackendIndex.Remove` | crates/pari-backend/src/lib.rs:562-571 | Refines map removal |
| `Backend.BackendIndex.RemoveMany` | crates/pari-backend/src/lib.rs:573-585 | Removes exactly the live keys among its argument and returns how many |
| `Backend.StorableIsAdmissible` | crates/pari-backend/src/lib.rs:753-782 | The backend's own duplicate and width checks agree with the index-level rule |
| `Backend.FaultsMatch` | crates/pari-backend/src/lib.rs:753-782 | A batch without faults of its own fails in the store exactly for the first key already present |
| `Backend.RejectionsAgree` | crates/pari-backend/src/lib.rs:468-487 | Exactly when both indexes name the same fault of a rejected batch, by the positions of the first stored key and of the batch's own first fault |
| `Backend.RejectionsDiffer` | crates/pari-backend/src/lib.rs:468-487 | A stored key with a sketch that does not fit: the in-memory index names the key, the backend index the sketch |
| `Twins.CallIndex` | crates/pari-index/src/lib.rs:548-623 | The in-memory index replies and changes like an unbounded one exactly when an admissible batch fits the remaining ids |
| `Twins.CallBackend` | crates/pari-backend/src/lib.rs:468-585 | The backend index always replies and changes like an unbounded one |
| `Twins.RunTwins` | crates/pari-backend/src/lib.rs:397-585 | Over every run the backend replies and ends like an unbounded index, and the in-memory index gives the same replies if and only if no more than 2^32 - 1 insertions are accepted |
| `Twins.TwinsPart` | crates/pari-index/src/lib.rs:422-433 | One key inserted and removed 2^32 - 1 times leaves an unbounded index empty and ready to accept, and one more insertion exceeds the bound of `RunTwins` |
| `Statistics.Memberships` | crates/pari-index/src/lib.rs:98-119 | The running 64-bit total is the sum, clamped |
| `Statistics.TableSizes` | crates/pari-index/src/lib.rs:405-420 | In each band the buckets are non-empty and count every live item exactly once |
| `Statistics.IndexMemberships` | crates/pari-index/src/lib.rs:405-420 | Total memberships are bands times live items and never saturate |
| `Statistics.BackendMemberships` | crates/pari-backend/src/lib.rs:833-852 | The same law for the backend, whose bucket sets are never empty; an error exactly without a descriptor or beyond 64 bits |
| `Bits.XorShiftInjective` | crates/pari-core/src/minhash.rs:597-611 | A right shift folded in by exclusive or can be undone |
| `Bits.OddCancels` | crates/pari-core/src/minhash.rs:285-298 | An odd factor can be cancelled modulo a power of two |
| `Bits.AffineInjective` | crates/pari-core/src/minhash.rs:285-298 | `a*x+b` modulo `2^bits` is injective for odd `a` |
| `Bits.XorBit` | crates/pari-core/src/minhash.rs:597-611 | Bit `k` of an exclusive or is set iff the words differ in it |
| `Permutations.MixInjective` | crates/pari-core/src/minhash.rs:597-611 | The MurmurHash3 finalizers are injective on words |
| `Permutations.PermuteInjective` | crates/pari-core/src/minhash.rs:285-298 | Different hashes never share a permuted value, in either width |
| `Permutations.PermuteOnto` | crates/pari-core/src/minhash.rs:285-298 | Every word is the permuted value of some hash: slots really permute |
| `Permutations.PermuteIsAffine` | crates/pari-core/src/minhash.rs:285-298 | Permuted values differ by the slot's multiplier times the difference of the mixed inputs, modulo the word |
| `Permutations.DrawsAt` | crates/pari-core/src/minhash.rs:573-589 | Word `k` of the generator is the mix of `seed + (k + 1) * gamma` modulo 2^64 |
| `Permutations.FamilyAt` | crates/pari-core/src/minhash.rs:124-133 | Slot `i` multiplies by draw `i` with its low bit set and adds draw `num_perm + i`, both cut to the width |
| `Permutations.SeedsSeparateOffsets` | crates/pari-core/src/minhash.rs:124-133 | Different 64-bit seeds give the wide family different offsets in every slot |
| `Permutations.OffsetsDistinct` | crates/pari-core/src/minhash.rs:124-133 | The offsets of one wide family are pairwise different, because the generator's step is odd |
| `Permutations.FamilyOf` | crates/pari-core/src/minhash.rs:120-140 | A seed gives one odd multiplier and one offset per slot, of the asked width |
| `MinHashing.UpdatesRepresent` | crates/pari-core/src/minhash.rs:218-226 | Any order and repetition of updates gives the slot-wise minimum over the set of hashes |
| `MinHashing.OrderAndRepetition` | crates/pari-core/src/minhash.rs:213-226 | Update lists with equal sets give equal signatures |
| `MinHashing.MergeIsUnion` | crates/pari-core/src/minhash.rs:236-242 | Merging two sketches equals sketching both inputs |
| `MinHashing.SlotsMatch` | crates/pari-core/src/minhash.rs:561-571 | Slot `i` of two sketches agrees iff the unique minimiser of permutation `i` over the union lies in both sets |
| `MinHashing.EstimateCounts` | crates/pari-core/src/minhash.rs:561-571 | The slots counted by the Jaccard estimate are exactly those whose minimiser is shared |
| `MinHashing.LooksEmpty` | crates/pari-core/src/minhash.rs:249-253 | `is_empty` holds iff every added hash permutes to the maximum in every slot |
| `MinHashing.SomeHashLooksEmpty` | crates/pari-core/src/minhash.rs:249-253 | Every one-slot sketch has an input after which it still looks empty, so `is_empty` does not mean that nothing was added |
| `MinHashing.LooksEmptyOnlyForOne` | crates/pari-core/src/minhash.rs:249-253 | At most one hash can hide this way |
| `MinHashing.MinHash.UpdateHashed` | crates/pari-core/src/minhash.rs:285-298 | The loop computes the slot-wise minimum |
| `MinHashing.MinHash.UpdateMany` | crates/pari-core/src/minhash.rs:218-226 | Refines the fold of single updates |
| `MinHashing.MinHash.Merge` | crates/pari-core/src/minhash.rs:236-242 | Merges exactly for equal seed and width, otherwise changes nothing |
| `MinHashing.MinHash.Clear` | crates/pari-core/src/minhash.rs:245-247 | Back to the empty signature of the same permutations |
| `MinHashing.MinHash.IsEmpty` | crates/pari-core/src/minhash.rs:249-253 | True iff the signature is the empty one |
| `MinHashing.MinHash.Jaccard` | crates/pari-core/src/minhash.rs:229-233 | The exact share of agreeing slots, or an incompatibility |
| `MinHashing.NewSketch` | crates/pari-core/src/minhash.rs:120-140 | Refuses zero and oversized permutation counts; otherwise an empty sketch of the seed's family |
| `MinHashing.SeedsSeparate` | crates/pari-core/src/minhash.rs:120-140 | One and the same input makes wide sketches of different seeds differ in every slot |
| `MinHashing.ReloadAndContinue` | crates/pari-core/src/minhash.rs:205-209 | Continuing after `from_signature` equals continuing the original |
| `MinHashing.BuildChunks` | crates/pari-core/src/minhash.rs:166-196 | Chunks built apart and joined in order equal row-by-row construction, for every chunk size |
| `MinHashing.FromBatch` | crates/pari-core/src/minhash.rs:166-196 | The same for every thread policy and processor count; fails exactly for a bad permutation count or a parallel batch without its pool |
| `Bytes.SplitJoin` | crates/pari-format/src/format.rs:510-529 | Fixed little-endian layouts decode to what was encoded |
| `Bytes.JoinSplit` | crates/pari-format/src/format.rs:531-560 | Decoded fields encode back to the same bytes |
| `Bytes.FieldAt` | crates/pari-format/src/format.rs:617-640 | Each field is read at the offset where its predecessors end |
| `Bytes.LeAt` | crates/pari-format/src/format.rs:510-529 | Byte `k` of a written number is its `k`-th digit to the base 256, lowest first |
| `Bytes.Checksum.FeedConcat` | crates/pari-format/src/layout.rs:334-354 | Feeding a checksum in chunks equals feeding the whole |
| `Container.HeaderRoundTrip` | crates/pari-format/src/format.rs:510-597 | Every valid header decodes to its metadata and section count |
| `Container.HeaderCanonical` | crates/pari-format/src/format.rs:531-597 | An accepted header is the encoding of what it decodes to |
| `Container.DecodeEncode` | crates/pari-format/src/format.rs:275-363 | Every valid file decodes from its encoding to itself |
| `Container.EncodeDecode` | crates/pari-format/src/format.rs:298-363 | Accepted bytes re-encode to themselves iff they hold no unknown optional section |
| `Container.SkippedSectionLost` | crates/pari-format/src/format.rs:348-354 | A file with an unknown optional section reads as an empty file and is written differently |
| `Container.PrefixFree` | crates/pari-format/src/format.rs:298-363 | No accepted byte string is a strict prefix of another |
| `Container.ReadFrames` | crates/pari-format/src/format.rs:309-355 | The cursor loop is the recursive parse of the frames |
| `Container.DecodeFile` | crates/pari-format/src/format.rs:298-363 | The eager reader refines the decoder, errors included |
| `Container.EncodeFile` | crates/pari-format/src/format.rs:275-295 | The writer refines the encoder and refuses oversized sections |
| `Container.FaultIffInvalid` | crates/pari-format/src/format.rs:475-508 | Metadata is refused iff a count is zero, the threshold is not in (0, 1], the bands exceed the permutations, or a feature is set |
| `WireFormat.HeaderStandsIff` | crates/pari-format/src/format.rs:510-529 | The first 72 bytes are an encoded header iff magic, version, codes, counts, seed, threshold, features and checksum stand little-endian at their literal offsets (bands at 24, rows at 28, sections at 32, seed at 40) |
| `WireFormat.HeaderReadIff` | crates/pari-format/src/format.rs:531-597 | A header is read as given metadata and count iff they are valid and stand at those offsets |
| `WireFormat.FrameStandsIff` | crates/pari-format/src/format.rs:599-615 | Bytes start with an encoded frame iff kind, flags, length and checksum stand at 0, 2, 4 and 12 and the payload at 16 |
| `WireFormat.FrameReadIff` | crates/pari-format/src/format.rs:309-355 | A frame is read iff it is acceptable and stands so, and reading goes on right behind it |
| `WireFormat.FileHeaderPlaced` | crates/pari-format/src/format.rs:275-295 | The header of an encoded file stands at its front with the number of its sections |
| `WireFormat.SectionPlaced` | crates/pari-format/src/format.rs:275-295 | Every section of an encoded file stands right behind the one before it, under the code of its kind |
| `LazyLayout.HeadersAgree` | crates/pari-format/src/layout.rs:356-425 | The lazy header check accepts the same headers, and gives the same result, error included, except for unsupported features together with another metadata fault |
| `LazyLayout.HeaderFaultsDiffer` | crates/pari-format/src/layout.rs:356-425 | A header without permutations and with an unknown feature, on which the two errors differ |
| `LazyLayout.FramesAgree` | crates/pari-format/src/layout.rs:150-222 | One frame: the eager reader accepts it iff the lazy one does and its payload is intact |
| `LazyLayout.FrameFaultsAgree` | crates/pari-format/src/layout.rs:150-222 | When both refuse a frame they name the same fault, values included, except a required unknown section with a wrong checksum |
| `LazyLayout.FrameFaultsDiffer` | crates/pari-format/src/layout.rs:190-214 | Such a frame, and the two errors |
| `LazyLayout.ReadersAgree` | crates/pari-format/src/layout.rs:139-228 | The eager reader accepts a file iff the lazy reader does and every section is intact, with equal metadata and payloads |
| `LazyLayout.FaultsAgree` | crates/pari-format/src/layout.rs:139-228 | Exactly when the two readers give the same reason, values included, for refusing a file; a file only the eager reader refuses is refused for its first damaged section |
| `LazyLayout.DamageHidesFault` | crates/pari-format/src/layout.rs:139-228 | A damaged section before a trailing byte: the eager reader names the damage, the lazy one the byte |
| `LazyLayout.DamageHidesDamage` | crates/pari-format/src/layout.rs:139-228 | A damaged section before a damaged unknown one: each reader names its own, the same fault exactly when the two are damaged alike |
| `LazyLayout.VerifySkippedPayload` | crates/pari-format/src/layout.rs:334-354 | Buffered checksum verification equals the whole-payload checksum |
| `LazyLayout.ReadFrom` | crates/pari-format/src/layout.rs:139-228 | The seeking loop refines the lazy scan |
| `LazyLayout.ReadSection` | crates/pari-format/src/layout.rs:257-277 | Returns the payload if it is intact, otherwise the stored and the computed checksum |
| `LazyLayout.ReadSectionRange` | crates/pari-format/src/layout.rs:280-318 | Succeeds iff in bounds, and then is the matching slice of the payload |
| `BucketSegments.SegmentRoundTrip` | crates/pari-format/src/buckets.rs:184-353 | Decoding an encoded segment and reading its members gives the original sorted records exactly when the band count fits 32 bits and covers every record, with the error otherwise |
| `BucketSegments.SegmentCanonical` | crates/pari-format/src/buckets.rs:261-353 | An accepted segment whose members all verify re-encodes to the same bytes |
| `BucketSegments.SegmentTiles` | crates/pari-format/src/buckets.rs:403-475 | Decoded member ranges tile the payload after the directory: no gap, overlap or rest |
| `BucketSegments.LessIsNumeric` | crates/pari-format/src/buckets.rs:357-366 | Bucket keys are ordered as 96-bit numbers with the band on top |
| `WireFormat.SegmentStandsIff` | crates/pari-format/src/buckets.rs:235-252 | The first 40 bytes are an encoded segment header iff its numbers stand at their literal offsets |
| `WireFormat.EntryStandsIff` | crates/pari-format/src/buckets.rs:220-225 | Directory entries: band at 0, zero at 4, hash at 8, member offset at 16, count at 24, checksum at 28 |
| `WireFormat.RecordPlaced` | crates/pari-format/src/buckets.rs:184-258 | Record `i` of an encoded segment has its entry at `40 + 32 * i` and its members, eight bytes each, behind those of the records before it |
| `WireFormat.SegmentHeaderPlaced` | crates/pari-format/src/buckets.rs:235-252 | The header of an encoded segment stands at its front with count, length and checksum of its directory |
| `BucketCodec.EncodeBucketSegment` | crates/pari-format/src/buckets.rs:184-258 | The two-buffer loop under a running offset refines the encoder |
| `BucketCodec.DecodeDirectoryEntries` | crates/pari-format/src/buckets.rs:403-475 | The entry loop refines the recursive directory parse |
| `BucketCodec.DecodeBucketSegment` | crates/pari-format/src/buckets.rs:261-327 | Through bounded range reads, accepts exactly the segments the decoder accepts |
| `BucketCodec.ReadBucketMembers` | crates/pari-format/src/buckets.rs:330-353 | Members are returned iff in bounds with a matching checksum |
| `BucketCodec.ValidateGlobalBucketOrder` | crates/pari-format/src/buckets.rs:357-366 | Checking neighbours suffices for a strict order over all pairs |
| `BucketStream.StreamedSegmentBytes` | crates/pari-format/src/bucket_stream.rs:68-157 | A checked member stream makes the very bytes the in-memory encoder makes of its records |
| `BucketStream.CopyMembers` | crates/pari-format/src/bucket_stream.rs:126-147 | Copying in 64 KiB buffers moves exactly the declared bytes and feeds both checksums with them |
| `BucketStream.PlanDirectory` | crates/pari-format/src/bucket_stream.rs:74-102 | The running-offset directory, or overflow |
| `BucketStream.WriteBucketSegment` | crates/pari-format/src/bucket_stream.rs:68-157 | Succeeds iff the declarations are sorted and fit, the output holds and the stream delivers; then the appended bytes are those of the in-memory encoder, exactly the declared bytes were consumed, and length and checksum describe them |
| `Pages.PagesHoldAll` | benchmarks/criterion/src/bin/storage_layout.rs:582-612 | Pages keep every record, in order |
| `Pages.PagesWithinTarget` | benchmarks/criterion/src/bin/storage_layout.rs:582-612 | Only a page with a single record exceeds the target size |
| `Pages.PagesAreFull` | benchmarks/criterion/src/bin/storage_layout.rs:588-602 | A page is closed only when the next record did not fit |
| `Pages.ScanFinds` | benchmarks/criterion/src/bin/storage_layout.rs:744-781 | Scanning with early exit finds exactly the target's members |
| `Pages.DescriptorsRoundTrip` | benchmarks/criterion/src/bin/storage_layout.rs:633-726 | Every well-placed directory parses to itself |
| `Pages.PagesWellPlaced` | benchmarks/criterion/src/bin/storage_layout.rs:544-558 | Descriptors of built pages ascend, do not overlap and end at the file's end |
| `Pages.FindMembersIsLookup` | benchmarks/criterion/src/bin/storage_layout.rs:729-781 | Locating a page by key range and scanning it equals a lookup in the bucket map |
| `PageFormat.PageRecordPlaced` | benchmarks/criterion/src/bin/storage_layout.rs:614-631 | Every record of a page stands right behind the one before it: band at 0, hash at 4, count at 12, members from 16 |
| `PageFormat.PageHeaderIff` | benchmarks/criterion/src/bin/storage_layout.rs:561-563 | A page file header is its magic, version 1 at 8 and the page count at 12 |
| `PageFormat.DescriptorIff` | benchmarks/criterion/src/bin/storage_layout.rs:633-642 | A page descriptor: first key at 0, last key at 12, offset at 24, length at 32, zero at 36 |
| `PageFormat.PagePlaced` | benchmarks/criterion/src/bin/storage_layout.rs:535-573 | Page `i` has its descriptor at `16 + 40 * i` and its bytes where the descriptor says, behind the pages before it |
| `PageFormat.PageHeaderPlaced` | benchmarks/criterion/src/bin/storage_layout.rs:561-563 | The header of a page file stands at its front with the number of its pages |
| `PageStores.ParsedWellPlaced` | benchmarks/criterion/src/bin/storage_layout.rs:662-727 | Whatever directory is accepted, its page and key ranges ascend without overlap and end at the file's end |
| `PageStores.BuiltOpens` | benchmarks/criterion/src/bin/storage_layout.rs:535-726 | Every built file opens with the directory of its pages |
| `PageStores.BuiltAnswers` | benchmarks/criterion/src/bin/storage_layout.rs:535-781 | For every key, present or absent, an opened file yields what the map holds under it |
| `PageStores.QueryIsUnion` | benchmarks/criterion/src/bin/storage_layout.rs:120-131 | A query on a built file finds exactly the union of the map's entries for the queried keys |
| `PageStores.FindPageExact` | benchmarks/criterion/src/bin/storage_layout.rs:729-735 | With well-placed pages the located page is the one whose range contains the key |
| `PageStores.OpenedFindsPage` | benchmarks/criterion/src/bin/storage_layout.rs:644-735 | The same in every file that opens |
| `PageStores.PartitionPoint` | benchmarks/criterion/src/bin/storage_layout.rs:729-735 | The binary search splits the pages into those that end below the key and the others |
| `PageStores.LocatePage` | benchmarks/criterion/src/bin/storage_layout.rs:729-735 | It finds the page a walk from the front would find |
| `PageStores.EncodePages` | benchmarks/criterion/src/bin/storage_layout.rs:582-612 | The packing loop refines the page division |
| `PageStores.BuildPageFile` | benchmarks/criterion/src/bin/storage_layout.rs:535-573 | Refines the file layout, failing exactly for lengths that do not fit |
| `PageStores.ParsePageDirectory` | benchmarks/criterion/src/bin/storage_layout.rs:662-727 | The directory loop refines the recursive parse |
| `PageStores.OpenPageFile` | benchmarks/criterion/src/bin/storage_layout.rs:644-660 | Opens exactly the files whose directory parses |
| `PageStores.CollectBucket` | benchmarks/criterion/src/bin/storage_layout.rs:744-781 | The cursor loop refines the scan |
| `PageStores.PageStore.Query` | benchmarks/criterion/src/bin/storage_layout.rs:120-131 | The sorted, repetition-free members found for the queried buckets |
| `PageStores.BuildAndQuery` | benchmarks/criterion/src/bin/storage_layout.rs:120-131 | Build, open and query: the sorted union of the map's entries |
| `FileSystems.FileSystem.Interfere` | python/pari/_outputs.py:43-92 | Other processes may change any public name at any time, also move, link and remove what was published, but neither touch reserved names nor put this run's files under output names |
| `IndexOutput.Begin` | crates/pari-cli/src/main.rs:312-340 | Refuses an existing output |
| `IndexOutput.IndexOutputTransaction.Publish` | crates/pari-cli/src/main.rs:350-399 | All or nothing: success leaves the final name on the staged file and no staged names; a failure without recovery error leaves neither; without faults it fails only for a missing stage or a taken final name; other processes' files stay as they left them |
| `IndexOutput.IndexOutputTransaction.RecoverAfterPublication` | crates/pari-cli/src/main.rs:401-422 | Undoes the link and the staging; a recovery failure is reported iff a call failed meanwhile, and only names with such a call remain |
| `IndexOutput.IndexOutputTransaction.RollbackFinal` | crates/pari-cli/src/main.rs:424-435 | Removes the final name only if it still names the published file; fails iff a call on it fails |
| `IndexOutput.IndexOutputTransaction.RemoveStagedFiles` | crates/pari-cli/src/main.rs:448-462 | Tries both names; succeeds iff neither call fails, and only a name whose call failed remains |
| `IndexOutput.IndexOutputTransaction.Abort` | crates/pari-cli/src/main.rs:437-446 | Nothing of the run remains, or the cleanup failure is reported and only names with a failing call remain |
| `IndexOutput.RunIndex` | crates/pari-cli/src/main.rs:792-799 | The same over a whole run with interference throughout, for every set of files the build leaves and whether or not it raises; a build that staged its file, without raise, fault or interference, is published; after a recovery failure only names with a failing call remain |
| `Staging.StageNameInjective` | python/pari/_outputs.py:20-28 | Distinct outputs are staged under distinct names |
| `Staging.StagesDistinct` | python/pari/_outputs.py:20-33 | Hence outputs that pass the distinctness check are staged apart |
| `Staging.StagedOutputs.Enter` | python/pari/_outputs.py:30-41 | Refuses repeated and existing outputs, may fail to make directories, and creates no file |
| `Staging.StagedOutputs.LinkAll` | python/pari/_outputs.py:55-59 | Links each stage under its final name and records it; stops at the first refusal with everything linked so far recorded |
| `Staging.StagedOutputs.UnlinkStages` | python/pari/_outputs.py:60-61 | Removes exactly the staged names while published names stand |
| `Staging.StagedOutputs.RollbackAll` | python/pari/_outputs.py:80-87 | Each recorded name is removed if it still names the recorded inode; a failure does not stop the others, and only a name whose call failed remains |
| `Staging.StagedOutputs.Cleanup` | python/pari/_outputs.py:67-92 | Staged names, companions and published names are all tried; a cleanup failure is reported iff a call failed, and only names with a failing call remain |
| `Staging.StagedOutputs.Publish` | python/pari/_outputs.py:50-65 | All outputs published and unstaged and no other name of the run touched, or none published; without a fault it fails only for a missing or irregular stage or a taken, repeated or interfered-with final name |
| `Staging.StagedOutputs.Leave` | python/pari/_outputs.py:43-65 | A failed workflow only cleans up; after a cleanup failure only names with a failing call remain |
| `Staging.StagedOutputs.NothingLeft` | python/pari/_outputs.py:60-61 | After success nothing of the run is left if and only if the workflow left no companion |
| `Staging.CompanionStays` | python/pari/_outputs.py:60-65 | A run that stages an output and its companion publishes the one and leaves the other |
| `Staging.RunStaged` | python/pari/_outputs.py:16-99 | Whole runs for every set of files the workflow leaves, with any call failing and other processes at work: all or nothing, no foreign file is overwritten or removed, and a workflow that staged everything, without raise, fault or interference, is published |
| `Ingestion.Compensation` | crates/pari-py/src/lib.rs:1428-1438 | Taking an accepted batch's keys out again restores the index contents |
| `Ingestion.BatchIndexed` | crates/pari-py/src/lib.rs:1418-1427 | A batch under the next keys extends the aligned contents |
| `Ingestion.DedupeEngine.Store` | crates/pari-py/src/lib.rs:1418-1441 | Index and mirror take the batch iff it is admissible, ids remain and the mirror works; otherwise neither keeps it, with the exact error; a failed mirror write burns the batch's internal ids |
| `Ingestion.DedupeEngine.AddMany` | crates/pari-py/src/lib.rs:1392-1442 | The same with empty batches, key overflow and sketches that cannot be built, in the order the code meets them |
| `Ingestion.DedupeEngine.AddNext` | crates/pari-py/src/lib.rs:1392-1442 | Keeps key `i` with row `i` in index and mirror; succeeds iff the batch is empty, or ids remain and neither sketching nor mirror fails |
| `Deduplication.DedupeIndex.Aligned` | python/pari/dedupe.py:213-285 | In every reachable state the engine's live keys and the mirror's keys are exactly the record numbers |
| `Deduplication.DedupeIndex.Commit` | python/pari/dedupe.py:256-277 | Records are extended iff the batch was stored, which it is iff ids remain and nothing outside fails |
| `Deduplication.DedupeIndex.AddFeatures` | python/pari/dedupe.py:213-220 | Succeeds iff the features arrive, an id remains and nothing outside fails; the returned key is the record's position; failure changes nothing |
| `Deduplication.DedupeIndex.AddManyFeatures` | python/pari/dedupe.py:235-285 | Whole batches in source order; all items are taken iff every item and the end of the source arrive, every batch is sketched and mirrored, no progress callback raises and ids remain; otherwise committed batches stay, the failing one leaves no trace, and the error names what failed there |
| `Deduplication.EdgesAreDuplicates` | python/pari/dedupe.py:395-404 | The key graph of the index joins two records iff they share a bucket in some band and the exact check, if given, accepts them |
| `Deduplication.DedupeIndex.Groups` | python/pari/dedupe.py:328-335 | Groups are the components of just those pairs of records, each represented by its first member or by the first one that the selector returned; an error exactly when the selector leaves some group |
| `Deduplication.ConvertGroup` | python/pari/dedupe.py:406-429 | The first member that is the selected object represents the group; an error exactly when there is none |
| `Deduplication.DroppedOnce` | python/pari/dedupe.py:337-358 | Each dropped index lies in one group only, whose representative is kept |
| `Deduplication.DroppedCount` | python/pari/dedupe.py:337-358 | The number of dropped indices is the sum of group sizes less one |
| `Deduplication.DedupeIndex.Result` | python/pari/dedupe.py:337-358 | The same groups and representatives; kept and dropped lists ascend and split all record indices, dropped ones being exactly the non-representatives; fails exactly for a selector that leaves a group, or for a mirror that does not sync |

## Left out

- Floating-point tuning and planning: the properties depend on rounding of powers.
- Redis backend, persistent and lazy index stores and the external builder: their behaviour lies in scripts and sources
  outside this model; the mirror is an abstract atomic map.
- SHA-1, the quality of SplitMix64 and the accuracy of Jaccard estimates: hashes are arbitrary words, and only set-level
  and injectivity facts are stated.
- Key codecs, JSON, UTF-8, error texts, capabilities, getters, query metrics and progress rates: they would only add
  easy members.
- Custom representatives of the native grouping (`collect_selected_groups`, `group_pairs_with_representative`): the
  Python-level selection is modelled instead.
- Percentiles of bucket sizes: a sort and an index.
- Threads and locks: batch construction is modelled through its chunks, the engine as one caller at a time.
- Mutation of a backend behind its index (`backend_mut`), and saturation of its known item count.
- Re-entrant calls from a feature iterator, and closing a dedupe index.
- Asynchronous interrupts between a successful link and its entry in the published list (python/pari/_outputs.py:58-59): failures are those of file-system calls.
- Symbolic links, directories, permissions and durability in the file system beyond a sync that may fail.
- Defensive branches that the invariants rule out (missing ids while removing, absent page keys while packing) are
  absent or unreachable in the model.
- Container.EncodeFile: builds the header by concatenation instead of filling an array in place, and takes the section count limit from construction of the file.
- MinHashing.MinHash.Jaccard: computes with exact reals instead of rounded floating point.
- FileSystems.FileSystem.Interfere: other processes are assumed not to give this run's files an output name; apart from the reserved names this is their only restriction.
- PageStores.BuildAndQuery: requires the entries in ascending key order, which is how the ordered map hands them out.
