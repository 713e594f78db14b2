/**
 * The byte formats at their literal offsets: what stands where in a container file, a bucket segment and a page
 * file, stated without the field layouts that the codecs are built from.
 */
module WireFormat {
  import opened Words
  import opened Bytes
  import opened Container
  import opened BucketSegments
  import opened Pages

  /** A number within the first `n` bytes does not depend on the others. */
  lemma PrefixStands(bytes: seq<byte>, n: nat)
    requires n <= |bytes|
    ensures forall offset: nat, width: nat, value: nat ::
              offset + width <= n ==>
                (LittleEndianAt(bytes[..n], offset, width, value) <==> LittleEndianAt(bytes, offset, width, value))
  {
  }

  /** A number after the first `n` bytes stands `n` bytes earlier without them. */
  lemma SuffixStands(bytes: seq<byte>, n: nat, offset: nat, width: nat, value: nat)
    requires n <= |bytes|
    ensures LittleEndianAt(bytes[n..], offset, width, value) <==> LittleEndianAt(bytes, n + offset, width, value)
  {
    DigitsAre(bytes[n..], offset, width, value);
    DigitsAre(bytes, n + offset, width, value);
    if n + offset + width <= |bytes| {
      SliceOfSuffix(bytes, n, offset, width);
    }
  }

  /** Joined fields, and they alone, stand at their offsets. */
  lemma {:induction false} JoinIff(bytes: seq<byte>, layout: Layout, offsets: seq<nat>, values: seq<nat>)
    requires Offsets(layout, offsets) && |offsets| == |values| && Fits(layout, 0, values)
    requires |bytes| == Total(layout, 0, |values|)
    ensures bytes == Join(layout, values) <==> Placed(bytes, layout, offsets, values)
  {
    JoinPlaced(layout, offsets, values);
    if Placed(bytes, layout, offsets, values) {
      PlacedIsJoin(bytes, layout, offsets, values);
    }
  }

  ghost predicate MagicStands(bytes: seq<byte>, magic: seq<byte>) {
    |bytes| >= |magic| && bytes[..|magic|] == magic
  }

  // ---- Container header ----

  function SchemeCode(scheme: Scheme): nat {
    match scheme case PariAffine32V1 => 1 case PariAffine64V1 => 2
  }

  function SchemeBits(scheme: Scheme): nat {
    match scheme case PariAffine32V1 => 32 case PariAffine64V1 => 64
  }

  function CodecCode(codec: Codec): nat {
    match codec case RawBytes => 1 case Utf8 => 2 case U64 => 3 case I64 => 4 case Json => 5
  }

  /** The first 64 bytes: "PARIIDX" and a zero, version 1, size 72, algorithm 1, then the metadata and the count. */
  ghost predicate BodyStands(bytes: seq<byte>, m: Metadata, count: u32) {
    && MagicStands(bytes, [0x50, 0x41, 0x52, 0x49, 0x49, 0x44, 0x58, 0x00])
    && LittleEndianAt(bytes, 8, 2, 1) && LittleEndianAt(bytes, 10, 2, 72) && LittleEndianAt(bytes, 12, 2, 1)
    && LittleEndianAt(bytes, 14, 2, SchemeCode(m.scheme)) && LittleEndianAt(bytes, 16, 2, SchemeBits(m.scheme))
    && LittleEndianAt(bytes, 18, 2, CodecCode(m.codec))
    && LittleEndianAt(bytes, 20, 4, m.numPerm) && LittleEndianAt(bytes, 24, 4, m.bands)
    && LittleEndianAt(bytes, 28, 4, m.rows) && LittleEndianAt(bytes, 32, 4, count) && LittleEndianAt(bytes, 36, 4, 0)
    && LittleEndianAt(bytes, 40, 8, m.seed) && LittleEndianAt(bytes, 48, 8, m.threshold)
    && LittleEndianAt(bytes, 56, 8, m.features)
  }

  /** The body, its checksum at 64 and four zero bytes. */
  ghost predicate HeaderStands(crc: Checksum, bytes: seq<byte>, m: Metadata, count: u32) {
    && |bytes| >= 72 && BodyStands(bytes, m, count)
    && LittleEndianAt(bytes, 64, 4, crc.Of(bytes[..64])) && LittleEndianAt(bytes, 68, 4, 0)
  }

  const BODY_OFFSETS: seq<nat> := [0, 8, 10, 12, 14, 16, 18, 20, 24, 28, 32, 36, 40, 48, 56]

  lemma BodyOffsets()
    ensures Offsets(BodyWidth, BODY_OFFSETS) && Offsets(SealWidth, [0, 4])
  {
  }

  lemma MagicIs(bytes: seq<byte>)
    ensures LittleEndianAt(bytes, 0, 8, MAGIC) <==>
            MagicStands(bytes, [0x50, 0x41, 0x52, 0x49, 0x49, 0x44, 0x58, 0x00])
  {
    DigitsAre(bytes, 0, 8, MAGIC);
    assert Le(MAGIC, 8) == [0x50, 0x41, 0x52, 0x49, 0x49, 0x44, 0x58, 0x00];
  }

  lemma BodyIsPlaced(body: seq<byte>, m: Metadata, count: u32)
    ensures Placed(body, BodyWidth, BODY_OFFSETS, BodyFields(m, count)) <==> BodyStands(body, m, count)
  {
    MagicIs(body);
    var v, at := BodyFields(m, count), BODY_OFFSETS;
    if Placed(body, BodyWidth, at, v) {
      assert LittleEndianAt(body, at[0], BodyWidth(0), v[0]) && LittleEndianAt(body, at[1], BodyWidth(1), v[1]);
      assert LittleEndianAt(body, at[2], BodyWidth(2), v[2]) && LittleEndianAt(body, at[3], BodyWidth(3), v[3]);
      assert LittleEndianAt(body, at[4], BodyWidth(4), v[4]) && LittleEndianAt(body, at[5], BodyWidth(5), v[5]);
      assert LittleEndianAt(body, at[6], BodyWidth(6), v[6]) && LittleEndianAt(body, at[7], BodyWidth(7), v[7]);
      assert LittleEndianAt(body, at[8], BodyWidth(8), v[8]) && LittleEndianAt(body, at[9], BodyWidth(9), v[9]);
      assert LittleEndianAt(body, at[10], BodyWidth(10), v[10]) && LittleEndianAt(body, at[11], BodyWidth(11), v[11]);
      assert LittleEndianAt(body, at[12], BodyWidth(12), v[12]) && LittleEndianAt(body, at[13], BodyWidth(13), v[13]);
      assert LittleEndianAt(body, at[14], BodyWidth(14), v[14]);
    }
  }

  lemma BodyIff(body: seq<byte>, m: Metadata, count: u32)
    requires |body| == BODY_SIZE
    ensures body == Join(BodyWidth, BodyFields(m, count)) <==> BodyStands(body, m, count)
  {
    LayoutSizes();
    BodyOffsets();
    HeaderFits(m, count, 0);
    JoinIff(body, BodyWidth, BODY_OFFSETS, BodyFields(m, count));
    BodyIsPlaced(body, m, count);
  }

  lemma SealIff(seal: seq<byte>, checksum: u32)
    requires |seal| == 8
    ensures seal == Join(SealWidth, [checksum, 0]) <==>
            LittleEndianAt(seal, 0, 4, checksum) && LittleEndianAt(seal, 4, 4, 0)
  {
    var v := [checksum, 0];
    LayoutSizes();
    BodyOffsets();
    Limits();
    JoinIff(seal, SealWidth, [0, 4], v);
    if Placed(seal, SealWidth, [0, 4], v) {
      assert LittleEndianAt(seal, [0, 4][0], SealWidth(0), v[0]) && LittleEndianAt(seal, [0, 4][1], SealWidth(1), v[1]);
    }
  }

  /** Where the checksum of `n` bytes and four zero bytes follow them. */
  lemma SealBehind(bytes: seq<byte>, n: nat, checksum: u32)
    requires |bytes| >= n + 8
    ensures bytes[n..n + 8] == Join(SealWidth, [checksum, 0]) <==>
            LittleEndianAt(bytes, n, 4, checksum) && LittleEndianAt(bytes, n + 4, 4, 0)
  {
    var front := bytes[..n + 8];
    assert front[n..] == bytes[n..n + 8];
    SealIff(front[n..], checksum);
    SuffixStands(front, n, 0, 4, checksum);
    SuffixStands(front, n, 4, 4, 0);
    PrefixStands(bytes, n + 8);
  }

  lemma SplitAt(bytes: seq<byte>, left: seq<byte>, right: seq<byte>)
    requires |bytes| >= |left| + |right|
    ensures bytes[..|left| + |right|] == left + right <==>
            bytes[..|left|] == left && bytes[|left|..|left| + |right|] == right
  {
    var whole := bytes[..|left| + |right|];
    assert whole == whole[..|left|] + whole[|left|..];
  }

  /** Bytes in front of their seal. */
  lemma SealedIff(crc: Checksum, bytes: seq<byte>, body: seq<byte>)
    requires |bytes| >= |body| + 8 && |Join(SealWidth, [crc.Of(body), 0])| == 8
    ensures bytes[..|body| + 8] == body + Join(SealWidth, [crc.Of(body), 0]) <==>
            && bytes[..|body|] == body && LittleEndianAt(bytes, |body|, 4, crc.Of(bytes[..|body|]))
            && LittleEndianAt(bytes, |body| + 4, 4, 0)
  {
    SplitAt(bytes, body, Join(SealWidth, [crc.Of(body), 0]));
    SealBehind(bytes, |body|, crc.Of(bytes[..|body|]));
  }

  lemma BodyFront(bytes: seq<byte>, m: Metadata, count: u32)
    requires |bytes| >= 64
    ensures BodyStands(bytes[..64], m, count) <==> BodyStands(bytes, m, count)
  {
    PrefixStands(bytes, 64);
    assert bytes[..64][..8] == bytes[..8];
  }

  /** The first 72 bytes are an encoded header if and only if all its numbers stand at their offsets. */
  lemma HeaderStandsIff(crc: Checksum, bytes: seq<byte>, m: Metadata, count: u32)
    requires |bytes| >= HEADER_SIZE
    ensures bytes[..72] == EncodeHeader(crc, m, count) <==> HeaderStands(crc, bytes, m, count)
  {
    var body := Join(BodyWidth, BodyFields(m, count));
    LayoutSizes();
    SealedIff(crc, bytes, body);
    BodyIff(bytes[..64], m, count);
    BodyFront(bytes, m, count);
  }

  lemma HeaderReadFrom(crc: Checksum, bytes: seq<byte>, m: Metadata, count: u32)
    ensures DecodeHeader(crc, bytes) == Ok((m, count)) <==>
            ValidMetadata(m) && |bytes| >= HEADER_SIZE && bytes[..72] == EncodeHeader(crc, m, count)
  {
    if DecodeHeader(crc, bytes) == Ok((m, count)) {
      HeaderCanonical(crc, bytes);
    }
    if ValidMetadata(m) && |bytes| >= HEADER_SIZE && bytes[..72] == EncodeHeader(crc, m, count) {
      assert bytes == bytes[..72] + bytes[72..];
      HeaderRoundTrip(crc, m, count, bytes[72..]);
    }
  }

  /** A header is read as this metadata and count exactly if they are valid and stand there. */
  lemma HeaderReadIff(crc: Checksum, bytes: seq<byte>, m: Metadata, count: u32)
    ensures DecodeHeader(crc, bytes) == Ok((m, count)) <==> ValidMetadata(m) && HeaderStands(crc, bytes, m, count)
  {
    HeaderReadFrom(crc, bytes, m, count);
    if |bytes| >= HEADER_SIZE {
      HeaderStandsIff(crc, bytes, m, count);
    }
  }

  // ---- Section frames ----

  function KindCode(kind: SectionKind): nat {
    match kind case Keys => 1 case BandHashes => 2 case Buckets => 3 case Tombstones => 4
  }

  /** A frame: kind, flags, length and checksum in 16 bytes, and then the payload. */
  ghost predicate FrameStands(crc: Checksum, bytes: seq<byte>, kind: nat, required: bool, payload: seq<byte>) {
    && |bytes| >= 16 + |payload|
    && LittleEndianAt(bytes, 0, 2, kind) && LittleEndianAt(bytes, 2, 2, if required then 1 else 0)
    && LittleEndianAt(bytes, 4, 8, |payload|) && LittleEndianAt(bytes, 12, 4, crc.Of(payload))
    && bytes[16..16 + |payload|] == payload
  }

  lemma FrameIsPlaced(head: seq<byte>, crc: Checksum, frame: Frame)
    ensures Placed(head, FrameWidth, [0, 2, 4, 12], FrameFields(crc, frame)) <==>
            && LittleEndianAt(head, 0, 2, frame.kind) && LittleEndianAt(head, 2, 2, if frame.required then 1 else 0)
            && LittleEndianAt(head, 4, 8, |frame.payload|) && LittleEndianAt(head, 12, 4, crc.Of(frame.payload))
  {
    var v, at := FrameFields(crc, frame), [0, 2, 4, 12];
    if Placed(head, FrameWidth, at, v) {
      assert LittleEndianAt(head, at[0], FrameWidth(0), v[0]) && LittleEndianAt(head, at[1], FrameWidth(1), v[1]);
      assert LittleEndianAt(head, at[2], FrameWidth(2), v[2]) && LittleEndianAt(head, at[3], FrameWidth(3), v[3]);
    }
  }

  lemma FrameHeadIff(crc: Checksum, bytes: seq<byte>, frame: Frame)
    requires frame.Valid() && |bytes| >= 16
    ensures bytes[..16] == Join(FrameWidth, FrameFields(crc, frame)) <==>
            && LittleEndianAt(bytes, 0, 2, frame.kind) && LittleEndianAt(bytes, 2, 2, if frame.required then 1 else 0)
            && LittleEndianAt(bytes, 4, 8, |frame.payload|) && LittleEndianAt(bytes, 12, 4, crc.Of(frame.payload))
  {
    FrameSize();
    Limits();
    var at: seq<nat> := [0, 2, 4, 12];
    assert Offsets(FrameWidth, at);
    JoinIff(bytes[..16], FrameWidth, at, FrameFields(crc, frame));
    FrameIsPlaced(bytes[..16], crc, frame);
    PrefixStands(bytes, 16);
  }

  /** Bytes start with an encoded frame if and only if its numbers and its payload stand at their offsets. */
  lemma FrameStandsIff(crc: Checksum, bytes: seq<byte>, frame: Frame)
    requires frame.Valid() && |bytes| >= 16 + |frame.payload|
    ensures bytes[..16 + |frame.payload|] == EncodeFrame(crc, frame) <==>
            FrameStands(crc, bytes, frame.kind, frame.required, frame.payload)
  {
    FrameSize();
    SplitAt(bytes, Join(FrameWidth, FrameFields(crc, frame)), frame.payload);
    FrameHeadIff(crc, bytes, frame);
  }

  /** A frame is read exactly if it is acceptable and stands at the front; reading goes on right behind it. */
  lemma FrameReadIff(crc: Checksum, bytes: seq<byte>, frame: Frame, rest: seq<byte>)
    ensures ParseFrame(crc, bytes) == Ok((frame, rest)) <==>
            && frame.Valid() && frame.Acceptable() && FrameStands(crc, bytes, frame.kind, frame.required, frame.payload)
            && rest == bytes[16 + |frame.payload|..]
  {
    var size := 16 + |frame.payload|;
    if ParseFrame(crc, bytes) == Ok((frame, rest)) {
      FrameCanonical(crc, bytes);
      assert bytes[..size] == EncodeFrame(crc, frame) && bytes[size..] == rest;
      FrameStandsIff(crc, bytes, frame);
    }
    if frame.Valid() && frame.Acceptable() && size <= |bytes| {
      FrameStandsIff(crc, bytes, frame);
      assert bytes == bytes[..size] + bytes[size..];
      if bytes[..size] == EncodeFrame(crc, frame) {
        FrameRoundTrip(crc, frame, bytes[size..]);
      }
    }
  }

  // ---- Container files ----

  /** Where section `k` of a file starts: behind the header and the earlier sections. */
  function SectionStart(sections: seq<Section>, k: nat): (start: nat)
    requires k <= |sections|
  {
    if k == 0 then 72 else SectionStart(sections, k - 1) + 16 + |sections[k - 1].payload|
  }

  ghost predicate SectionStands(crc: Checksum, bytes: seq<byte>, start: nat, section: Section) {
    start <= |bytes| && FrameStands(crc, bytes[start..], KindCode(section.kind), section.required, section.payload)
  }

  lemma {:induction false} FramesFrom(crc: Checksum, bytes: seq<byte>, sections: seq<Section>, k: nat)
    requires |bytes| >= 72 && bytes[72..] == EncodeFrames(crc, FramesOf(sections)) && k <= |sections|
    ensures SectionStart(sections, k) <= |bytes|
    ensures bytes[SectionStart(sections, k)..] == EncodeFrames(crc, FramesOf(sections)[k..])
    decreases k
  {
    if k > 0 {
      FramesFrom(crc, bytes, sections, k - 1);
      FramesStep(crc, bytes, SectionStart(sections, k - 1), FramesOf(sections), k - 1);
    }
  }

  lemma {:induction false} FramesStep(crc: Checksum, bytes: seq<byte>, start: nat, frames: seq<Frame>, k: nat)
    requires k < |frames| && start <= |bytes| && bytes[start..] == EncodeFrames(crc, frames[k..])
    ensures
      var next := start + 16 + |frames[k].payload|;
      && next <= |bytes| && bytes[start..next] == EncodeFrame(crc, frames[k])
      && bytes[next..] == EncodeFrames(crc, frames[k + 1..])
  {
    assert frames[k..][1..] == frames[k + 1..] && frames[k..][0] == frames[k];
    SuffixSplit(bytes, start, EncodeFrame(crc, frames[k]), EncodeFrames(crc, frames[k + 1..]));
  }

  /** Every section of an encoded file stands right behind the one before it, under the code of its kind. */
  lemma {:induction false} SectionPlaced(crc: Checksum, file: IndexFile, k: nat)
    requires |file.sections| <= MAX_SECTION_COUNT && k < |file.sections|
    requires |file.sections[k].payload| <= MAX_SECTION_BYTES
    ensures SectionStands(crc, Encode(crc, file), SectionStart(file.sections, k), file.sections[k])
  {
    var bytes, frames := Encode(crc, file), FramesOf(file.sections);
    assert bytes[72..] == EncodeFrames(crc, frames);
    FramesFrom(crc, bytes, file.sections, k);
    var start := SectionStart(file.sections, k);
    FramesStep(crc, bytes, start, frames, k);
    assert bytes[start..][..16 + |frames[k].payload|] == bytes[start..start + 16 + |frames[k].payload|];
    FrameStandsIff(crc, bytes[start..], frames[k]);
  }

  /** The header of an encoded file stands at its front. */
  lemma FileHeaderPlaced(crc: Checksum, file: IndexFile)
    requires |file.sections| <= MAX_SECTION_COUNT
    ensures HeaderStands(crc, Encode(crc, file), file.metadata, |file.sections|)
  {
    var bytes := Encode(crc, file);
    assert bytes[..72] == EncodeHeader(crc, file.metadata, |file.sections|);
    HeaderStandsIff(crc, bytes, file.metadata, |file.sections|);
  }

  // ---- Bucket segments ----

  /** "PARIBKT" and a zero, version 1, size 40, record count, directory length and checksum. */
  ghost predicate SegmentBodyStands(crc: Checksum, bytes: seq<byte>, count: nat, directory: seq<byte>) {
    && MagicStands(bytes, [0x50, 0x41, 0x52, 0x49, 0x42, 0x4B, 0x54, 0x00])
    && LittleEndianAt(bytes, 8, 2, 1) && LittleEndianAt(bytes, 10, 2, 40)
    && LittleEndianAt(bytes, 12, 8, count) && LittleEndianAt(bytes, 20, 8, |directory|)
    && LittleEndianAt(bytes, 28, 4, crc.Of(directory))
  }

  /** The body, its checksum at 32 and four zero bytes. */
  ghost predicate SegmentStands(crc: Checksum, bytes: seq<byte>, count: nat, directory: seq<byte>) {
    && |bytes| >= 40 && SegmentBodyStands(crc, bytes, count, directory)
    && LittleEndianAt(bytes, 32, 4, crc.Of(bytes[..32])) && LittleEndianAt(bytes, 36, 4, 0)
  }

  lemma SegmentMagicIs(bytes: seq<byte>)
    ensures LittleEndianAt(bytes, 0, 8, SEGMENT_MAGIC) <==>
            MagicStands(bytes, [0x50, 0x41, 0x52, 0x49, 0x42, 0x4B, 0x54, 0x00])
  {
    DigitsAre(bytes, 0, 8, SEGMENT_MAGIC);
    assert Le(SEGMENT_MAGIC, 8) == [0x50, 0x41, 0x52, 0x49, 0x42, 0x4B, 0x54, 0x00];
  }

  lemma SegmentIsPlaced(body: seq<byte>, crc: Checksum, count: nat, directory: seq<byte>)
    ensures Placed(body, SegmentWidth, [0, 8, 10, 12, 20, 28], SegmentFields(crc, count, directory)) <==>
            SegmentBodyStands(crc, body, count, directory)
  {
    SegmentMagicIs(body);
    var v, at := SegmentFields(crc, count, directory), [0, 8, 10, 12, 20, 28];
    if Placed(body, SegmentWidth, at, v) {
      assert LittleEndianAt(body, at[0], SegmentWidth(0), v[0]) && LittleEndianAt(body, at[1], SegmentWidth(1), v[1]);
      assert LittleEndianAt(body, at[2], SegmentWidth(2), v[2]) && LittleEndianAt(body, at[3], SegmentWidth(3), v[3]);
      assert LittleEndianAt(body, at[4], SegmentWidth(4), v[4]) && LittleEndianAt(body, at[5], SegmentWidth(5), v[5]);
    }
  }

  lemma SegmentBodyIff(body: seq<byte>, crc: Checksum, count: nat, directory: seq<byte>)
    requires |body| == 32 && count <= U64_MAX && |directory| <= U64_MAX
    ensures body == Join(SegmentWidth, SegmentFields(crc, count, directory)) <==>
            SegmentBodyStands(crc, body, count, directory)
  {
    var at: seq<nat> := [0, 8, 10, 12, 20, 28];
    SegmentSizes();
    Limits();
    assert Offsets(SegmentWidth, at);
    JoinIff(body, SegmentWidth, at, SegmentFields(crc, count, directory));
    SegmentIsPlaced(body, crc, count, directory);
  }

  lemma SegmentBodyFront(bytes: seq<byte>, crc: Checksum, count: nat, directory: seq<byte>)
    requires |bytes| >= 32
    ensures SegmentBodyStands(crc, bytes[..32], count, directory) <==> SegmentBodyStands(crc, bytes, count, directory)
  {
    PrefixStands(bytes, 32);
    assert bytes[..32][..8] == bytes[..8];
  }

  /** A segment starts with an encoded header if and only if the header's numbers stand at their offsets. */
  lemma SegmentStandsIff(crc: Checksum, bytes: seq<byte>, count: nat, directory: seq<byte>)
    requires |bytes| >= SEGMENT_HEADER_BYTES && count <= U64_MAX && |directory| <= U64_MAX
    ensures bytes[..40] == SegmentHeader(crc, count, directory) <==> SegmentStands(crc, bytes, count, directory)
  {
    var body := Join(SegmentWidth, SegmentFields(crc, count, directory));
    SegmentSizes();
    SealedIff(crc, bytes, body);
    SegmentBodyIff(bytes[..32], crc, count, directory);
    SegmentBodyFront(bytes, crc, count, directory);
  }

  /** Band, zero, hash, member offset, member count and member checksum of one directory entry. */
  ghost predicate EntryStands(bytes: seq<byte>, location: Location) {
    && LittleEndianAt(bytes, 0, 4, location.key.band) && LittleEndianAt(bytes, 4, 4, 0)
    && LittleEndianAt(bytes, 8, 8, location.key.hash) && LittleEndianAt(bytes, 16, 8, location.offset)
    && LittleEndianAt(bytes, 24, 4, location.count) && LittleEndianAt(bytes, 28, 4, location.checksum)
  }

  lemma EntryIsPlaced(bytes: seq<byte>, location: Location)
    ensures Placed(bytes, EntryWidth, [0, 4, 8, 16, 24, 28], EntryFields(location)) <==> EntryStands(bytes, location)
  {
    var v, at := EntryFields(location), [0, 4, 8, 16, 24, 28];
    if Placed(bytes, EntryWidth, at, v) {
      assert LittleEndianAt(bytes, at[0], EntryWidth(0), v[0]) && LittleEndianAt(bytes, at[1], EntryWidth(1), v[1]);
      assert LittleEndianAt(bytes, at[2], EntryWidth(2), v[2]) && LittleEndianAt(bytes, at[3], EntryWidth(3), v[3]);
      assert LittleEndianAt(bytes, at[4], EntryWidth(4), v[4]) && LittleEndianAt(bytes, at[5], EntryWidth(5), v[5]);
    }
  }

  /** The 32 bytes of a directory entry are those whose numbers stand at their offsets. */
  lemma EntryStandsIff(bytes: seq<byte>, location: Location)
    requires |bytes| == ENTRY_BYTES
    requires location.offset <= U64_MAX && location.count <= U32_MAX && location.checksum <= U32_MAX
    ensures bytes == EncodeEntry(location) <==> EntryStands(bytes, location)
  {
    var at: seq<nat> := [0, 4, 8, 16, 24, 28];
    EntrySize();
    Limits();
    assert Offsets(EntryWidth, at);
    JoinIff(bytes, EntryWidth, at, EntryFields(location));
    EntryIsPlaced(bytes, location);
  }

  lemma {:induction false} EntryPlaced(locations: seq<Location>, i: nat)
    requires i < |locations|
    ensures 32 * i + 32 <= |EncodeEntries(locations)|
    ensures EncodeEntries(locations)[32 * i..32 * i + 32] == EncodeEntry(locations[i])
    decreases i
  {
    var bytes := EncodeEntries(locations);
    if i > 0 {
      EntryPlaced(locations[1..], i - 1);
      assert bytes[32..] == EncodeEntries(locations[1..]);
      SliceOfSuffix(bytes, 32, 32 * (i - 1), 32);
    }
  }

  /** Members follow one another, eight bytes each. */
  lemma {:induction false} MemberPlaced(members: seq<u64>, k: nat)
    requires k < |members|
    ensures LittleEndianAt(MemberBytes(members), 8 * k, 8, members[k])
    decreases k
  {
    var bytes := MemberBytes(members);
    if k > 0 {
      MemberPlaced(members[1..], k - 1);
      assert bytes[8..] == MemberBytes(members[1..]);
      SuffixStands(bytes, 8, 8 * (k - 1), 8, members[k]);
    } else {
      DigitsAre(bytes, 0, 8, members[0]);
      assert bytes[0..8] == Le(members[0], 8);
    }
  }

  lemma PlacedInSlice(bytes: seq<byte>, start: nat, end: nat, offset: nat, width: nat, value: nat)
    requires start <= end <= |bytes| && LittleEndianAt(bytes[start..end], offset, width, value)
    ensures LittleEndianAt(bytes, start + offset, width, value)
  {
    DigitsAre(bytes[start..end], offset, width, value);
    DigitsAre(bytes, start + offset, width, value);
    SliceOfSlice(bytes, start, end, offset, width);
  }

  /** Where the members of record `i` start: behind the header, the directory and the members before them. */
  function MembersStart(records: seq<Record>, i: nat): nat
    requires i <= |records|
  {
    if i == 0 then 40 + 32 * |records| else MembersStart(records, i - 1) + 8 * |records[i - 1].members|
  }

  lemma {:induction false} LocationAt(crc: Checksum, records: seq<Record>, start: nat, i: nat)
    requires i < |records|
    ensures LocationsOf(crc, records, start)[i].offset == start + MembersStart(records, i) - MembersStart(records, 0)
    decreases i
  {
    if i > 0 {
      LocationNext(crc, records, start, i - 1);
      LocationAt(crc, records, start, i - 1);
    }
  }

  lemma {:induction false} LocationNext(crc: Checksum, records: seq<Record>, start: nat, i: nat)
    requires i + 1 < |records|
    ensures
      var locations := LocationsOf(crc, records, start);
      locations[i + 1].offset == locations[i].offset + 8 * |records[i].members|
    decreases i
  {
    var rest, next := records[1..], start + 8 * |records[0].members|;
    assert LocationsOf(crc, records, start)[1..] == LocationsOf(crc, rest, next);
    if i > 0 {
      LocationNext(crc, rest, next, i - 1);
    }
  }

  /** Record `i` of an encoded segment: its entry, and each of its members. */
  ghost predicate RecordStands(crc: Checksum, payload: seq<byte>, records: seq<Record>, i: nat)
    requires i < |records|
  {
    var record, start := records[i], MembersStart(records, i);
    && 40 + 32 * i + 32 <= |payload|
    && EntryStands(payload[40 + 32 * i..40 + 32 * i + 32],
                   Location(record.key, start, |record.members|, crc.Of(MemberBytes(record.members))))
    && (forall k :: 0 <= k < |record.members| ==> LittleEndianAt(payload, start + 8 * k, 8, record.members[k]))
  }

  lemma {:induction false} EntryInSegment(crc: Checksum, records: seq<Record>, i: nat)
    requires i < |records|
    ensures
      var payload, locations := SegmentBytes(crc, records), LocationsOf(crc, records, MemberStart(|records|));
      40 + 32 * i + 32 <= |payload| && payload[40 + 32 * i..40 + 32 * i + 32] == EncodeEntry(locations[i])
  {
    var payload, directory := SegmentBytes(crc, records), Directory(crc, records);
    var locations := LocationsOf(crc, records, MemberStart(|records|));
    SegmentShape(crc, records);
    EntryPlaced(locations, i);
    assert payload[40..MemberStart(|records|)] == directory;
    SliceOfSlice(payload, 40, MemberStart(|records|), 32 * i, 32);
  }

  lemma {:induction false} MembersInSegment(crc: Checksum, records: seq<Record>, i: nat, k: nat)
    requires i < |records| && k < |records[i].members|
    ensures LittleEndianAt(SegmentBytes(crc, records), MembersStart(records, i) + 8 * k, 8, records[i].members[k])
  {
    var payload, start := SegmentBytes(crc, records), MemberStart(|records|);
    SegmentShape(crc, records);
    MembersLocated(crc, records, payload, start, i);
    LocationAt(crc, records, start, i);
    var location := LocationsOf(crc, records, start)[i];
    MemberPlaced(records[i].members, k);
    PlacedInSlice(payload, location.offset, location.offset + 8 * location.count, 8 * k, 8, records[i].members[k]);
  }

  lemma {:induction false} LocationFits(crc: Checksum, records: seq<Record>, i: nat)
    requires EncodeSegment(crc, records).Ok? && i < |records|
    ensures
      var record, location := records[i], LocationsOf(crc, records, MemberStart(|records|))[i];
      && location == Location(record.key, MembersStart(records, i), |record.members|,
                              crc.Of(MemberBytes(record.members)))
      && location.offset <= U64_MAX && location.count <= U32_MAX
  {
    var payload, start := SegmentBytes(crc, records), MemberStart(|records|);
    SegmentShape(crc, records);
    MembersLocated(crc, records, payload, start, i);
    LocationAt(crc, records, start, i);
  }

  /** Every record of an encoded segment stands where its place in the order says. */
  lemma {:induction false} RecordPlaced(crc: Checksum, records: seq<Record>, i: nat)
    requires EncodeSegment(crc, records).Ok? && i < |records|
    ensures RecordStands(crc, EncodeSegment(crc, records).value, records, i)
  {
    var location := LocationsOf(crc, records, MemberStart(|records|))[i];
    EntryInSegment(crc, records, i);
    LocationFits(crc, records, i);
    EntryStandsIff(EncodeEntry(location), location);
    forall k | 0 <= k < |records[i].members|
      ensures LittleEndianAt(SegmentBytes(crc, records), MembersStart(records, i) + 8 * k, 8, records[i].members[k])
    {
      MembersInSegment(crc, records, i, k);
    }
  }

  /** The header of an encoded segment stands at its front. */
  lemma {:induction false} SegmentHeaderPlaced(crc: Checksum, records: seq<Record>)
    requires EncodeSegment(crc, records).Ok?
    ensures SegmentStands(crc, EncodeSegment(crc, records).value, |records|, Directory(crc, records))
  {
    var payload := SegmentBytes(crc, records);
    SegmentShape(crc, records);
    assert payload[..40] == SegmentHeader(crc, |records|, Directory(crc, records));
    SegmentStandsIff(crc, payload, |records|, Directory(crc, records));
  }
}
