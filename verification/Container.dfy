/** The versioned index container: a 72-byte checksummed header and framed, checksummed sections. */
module Container {
  import opened Words
  import opened Bytes

  datatype Algorithm = MinHashLsh
  datatype Scheme = PariAffine32V1 | PariAffine64V1
  datatype Codec = RawBytes | Utf8 | U64 | I64 | Json
  datatype SectionKind = Keys | BandHashes | Buckets | Tombstones

  const MAGIC: nat := 0x0058_4449_4952_4150 // "PARIIDX\0" as a little-endian number
  const FORMAT_VERSION: nat := 1
  const HEADER_SIZE: nat := 72
  const SECTION_HEADER_SIZE: nat := 16
  const MAX_SECTION_COUNT: nat := 1024
  const MAX_SECTION_BYTES: nat := 256 * 1024 * 1024
  const MAX_THRESHOLD: nat := 0x3FF0_0000_0000_0000 // bit pattern of 1.0

  /** What a file that ends too early was being read for. */
  datatype Context = FileHeader | SectionHeader | SectionPayload | SectionRange

  datatype MetadataReason = NoPermutations | BadThreshold | BandingOverflow | BadBanding

  datatype FormatError =
    | Truncated(context: Context)
    | InvalidMagic
    | UnsupportedVersion(version: nat)
    | InvalidHeaderSize(size: nat)
    | InvalidReservedBytes
    | HeaderChecksumMismatch(expected: nat, actual: nat)
    | UnsupportedAlgorithm(algorithm: nat)
    | UnsupportedSignatureScheme(scheme: nat)
    | SignatureWidthMismatch(expected: nat, actual: nat)
    | UnsupportedCodec(codec: nat)
    | InvalidMetadata(reason: MetadataReason)
    | UnsupportedFeatures(features: nat)
    | TooManySections(count: nat)
    | SectionTooLarge(length: nat)
    | InvalidSectionFlags(flags: nat)
    | UnknownRequiredSection(kind: nat)
    | SectionChecksumMismatch(expected: nat, actual: nat)
    | TrailingBytes(remaining: nat)

  function SchemeFromRaw(raw: nat): Option<Scheme> {
    if raw == 1 then Some(PariAffine32V1) else if raw == 2 then Some(PariAffine64V1) else None
  }

  function SchemeRaw(scheme: Scheme): nat {
    if scheme.PariAffine32V1? then 1 else 2
  }

  function WidthBits(scheme: Scheme): nat {
    if scheme.PariAffine32V1? then 32 else 64
  }

  function CodecFromRaw(raw: nat): Option<Codec> {
    if raw == 1 then Some(RawBytes) else if raw == 2 then Some(Utf8) else if raw == 3 then Some(U64)
    else if raw == 4 then Some(I64) else if raw == 5 then Some(Json) else None
  }

  function CodecRaw(codec: Codec): nat {
    match codec case RawBytes => 1 case Utf8 => 2 case U64 => 3 case I64 => 4 case Json => 5
  }

  function KindFromRaw(raw: nat): Option<SectionKind> {
    if raw == 1 then Some(Keys) else if raw == 2 then Some(BandHashes)
    else if raw == 3 then Some(Buckets) else if raw == 4 then Some(Tombstones) else None
  }

  function KindRaw(kind: SectionKind): nat {
    match kind case Keys => 1 case BandHashes => 2 case Buckets => 3 case Tombstones => 4
  }

  // ---- Metadata ----

  /** The threshold is kept as the bit pattern of a 64-bit float. */
  datatype Metadata = Metadata(
    algorithm: Algorithm, scheme: Scheme, codec: Codec, numPerm: u32, seed: u64,
    threshold: u64, bands: u32, rows: u32, features: u64)

  /** Positive floats up to 1.0 are exactly the patterns from 1 to that of 1.0, in the same order. */
  predicate ValidThreshold(bits: nat) {
    1 <= bits <= MAX_THRESHOLD
  }

  function MetadataFault(numPerm: nat, threshold: nat, bands: nat, rows: nat, features: nat): Option<FormatError> {
    if numPerm == 0 then Some(InvalidMetadata(NoPermutations))
    else if !ValidThreshold(threshold) then Some(InvalidMetadata(BadThreshold))
    else if bands * rows > U32_MAX then Some(InvalidMetadata(BandingOverflow))
    else if bands == 0 || rows == 0 || bands * rows > numPerm then Some(InvalidMetadata(BadBanding))
    else if features != 0 then Some(UnsupportedFeatures(features))
    else None
  }

  /** There are permutations, the threshold is positive and at most 1.0, the bands fit, and no feature is used. */
  predicate ValidMetadata(m: Metadata) {
    && 0 < m.numPerm && 1 <= m.threshold <= 0x3FF0_0000_0000_0000
    && 0 < m.bands && 0 < m.rows && m.bands * m.rows <= m.numPerm
    && m.features == 0
  }

  /** Metadata is refused exactly if it is not valid. */
  lemma FaultIffInvalid(m: Metadata)
    ensures MetadataFault(m.numPerm, m.threshold, m.bands, m.rows, m.features).None? <==> ValidMetadata(m)
  {
  }

  // ---- Header ----

  /** Magic, version, header size, algorithm, scheme, width, codec, permutations, bands, rows,
      section count, reserved, seed, threshold, features. */
  function BodyWidth(field: nat): nat {
    if field == 0 then 8 else if field < 7 then 2 else if field < 12 then 4 else 8
  }

  /** Checksum of the body, reserved. */
  function SealWidth(field: nat): nat {
    4
  }

  const BODY_FIELDS: nat := 15
  const BODY_SIZE: nat := 64

  lemma LayoutSizes()
    ensures Total(BodyWidth, 0, BODY_FIELDS) == BODY_SIZE && Total(SealWidth, 0, 2) == 8
  {
    TotalSplit(BodyWidth, 0, 1, 15);
    TotalSplit(BodyWidth, 1, 7, 15);
    TotalSplit(BodyWidth, 7, 12, 15);
    UniformTotal(BodyWidth, 0, 1, 8);
    UniformTotal(BodyWidth, 1, 7, 2);
    UniformTotal(BodyWidth, 7, 12, 4);
    UniformTotal(BodyWidth, 12, 15, 8);
    UniformTotal(SealWidth, 0, 2, 4);
  }

  function BodyFields(m: Metadata, count: u32): (fields: seq<nat>)
    ensures |fields| == BODY_FIELDS
  {
    [MAGIC, FORMAT_VERSION, HEADER_SIZE, 1, SchemeRaw(m.scheme), WidthBits(m.scheme), CodecRaw(m.codec),
     m.numPerm, m.bands, m.rows, count, 0, m.seed, m.threshold, m.features]
  }

  function EncodeHeader(crc: Checksum, m: Metadata, count: u32): (header: seq<byte>)
    ensures |header| == HEADER_SIZE
  {
    LayoutSizes();
    var body := Join(BodyWidth, BodyFields(m, count));
    body + Join(SealWidth, [crc.Of(body), 0])
  }

  /** The checks both readers make first, in their order. */
  function IdentityFault(v: seq<nat>, seal: seq<nat>, checksum: nat): Option<FormatError>
    requires |v| == BODY_FIELDS && |seal| == 2
  {
    if v[0] != MAGIC then Some(InvalidMagic)
    else if v[1] != FORMAT_VERSION then Some(UnsupportedVersion(v[1]))
    else if v[2] != HEADER_SIZE then Some(InvalidHeaderSize(v[2]))
    else if v[11] != 0 || seal[1] != 0 then Some(InvalidReservedBytes)
    else if seal[0] != checksum then Some(HeaderChecksumMismatch(seal[0], checksum))
    else if v[3] != 1 then Some(UnsupportedAlgorithm(v[3]))
    else if SchemeFromRaw(v[4]).None? then Some(UnsupportedSignatureScheme(v[4]))
    else if v[5] != WidthBits(SchemeFromRaw(v[4]).value) then
      Some(SignatureWidthMismatch(WidthBits(SchemeFromRaw(v[4]).value), v[5]))
    else if CodecFromRaw(v[6]).None? then Some(UnsupportedCodec(v[6]))
    else None
  }

  function HeaderMetadata(v: seq<nat>): Metadata
    requires |v| == BODY_FIELDS && Fits(BodyWidth, 0, v)
    requires SchemeFromRaw(v[4]).Some? && CodecFromRaw(v[6]).Some?
  {
    Limits();
    Metadata(MinHashLsh, SchemeFromRaw(v[4]).value, CodecFromRaw(v[6]).value, v[7], v[12], v[13], v[8], v[9], v[14])
  }

  function CheckHeader(v: seq<nat>, seal: seq<nat>, checksum: nat): Result<(Metadata, u32), FormatError>
    requires |v| == BODY_FIELDS && |seal| == 2 && Fits(BodyWidth, 0, v) && Fits(SealWidth, 0, seal)
  {
    Limits();
    if IdentityFault(v, seal, checksum).Some? then Err(IdentityFault(v, seal, checksum).value)
    else
      var fault := MetadataFault(v[7], v[13], v[8], v[9], v[14]);
      if fault.Some? then Err(fault.value) else Ok((HeaderMetadata(v), v[10]))
  }

  /** The fields of a header's body and of its seal. */
  function HeaderFields(bytes: seq<byte>): (fields: (seq<nat>, seq<nat>))
    requires |bytes| >= HEADER_SIZE
    ensures |fields.0| == BODY_FIELDS && Fits(BodyWidth, 0, fields.0) && |fields.1| == 2 && Fits(SealWidth, 0, fields.1)
  {
    LayoutSizes();
    (Split(BodyWidth, BODY_FIELDS, bytes[..64]), Split(SealWidth, 2, bytes[64..72]))
  }

  function DecodeHeader(crc: Checksum, bytes: seq<byte>): Result<(Metadata, u32), FormatError> {
    if |bytes| < HEADER_SIZE then Err(Truncated(FileHeader))
    else
      var (v, seal) := HeaderFields(bytes);
      CheckHeader(v, seal, crc.Of(bytes[..64]))
  }

  lemma HeaderFits(m: Metadata, count: u32, checksum: u32)
    ensures Fits(BodyWidth, 0, BodyFields(m, count)) && Fits(SealWidth, 0, [checksum, 0])
  {
    Limits();
  }

  lemma RawsInvert(m: Metadata)
    ensures SchemeFromRaw(SchemeRaw(m.scheme)) == Some(m.scheme) && CodecFromRaw(CodecRaw(m.codec)) == Some(m.codec)
  {
  }

  /** Written headers identify themselves, whatever their metadata. */
  lemma WrittenIdentity(m: Metadata, count: u32, checksum: u32)
    ensures IdentityFault(BodyFields(m, count), [checksum, 0], checksum).None?
  {
    RawsInvert(m);
  }

  lemma WrittenMetadata(m: Metadata, count: u32)
    ensures Fits(BodyWidth, 0, BodyFields(m, count))
    ensures
      var v := BodyFields(m, count);
      SchemeFromRaw(v[4]).Some? && CodecFromRaw(v[6]).Some? && HeaderMetadata(v) == m
  {
    HeaderFits(m, count, 0);
    RawsInvert(m);
    assert m.algorithm == MinHashLsh;
  }

  /** A written header is read as its metadata, or as its first metadata fault. */
  lemma CheckHeaderAccepts(m: Metadata, count: u32, checksum: u32)
    ensures Fits(BodyWidth, 0, BodyFields(m, count)) && Fits(SealWidth, 0, [checksum, 0])
    ensures
      var fault := MetadataFault(m.numPerm, m.threshold, m.bands, m.rows, m.features);
      CheckHeader(BodyFields(m, count), [checksum, 0], checksum) ==
      if fault.Some? then Err(fault.value) else Ok((m, count))
  {
    HeaderFits(m, count, checksum);
    WrittenIdentity(m, count, checksum);
    WrittenMetadata(m, count);
  }

  lemma CheckHeaderDetermines(v: seq<nat>, seal: seq<nat>, checksum: u32)
    requires |v| == BODY_FIELDS && |seal| == 2 && Fits(BodyWidth, 0, v) && Fits(SealWidth, 0, seal)
    requires CheckHeader(v, seal, checksum).Ok?
    ensures
      var (m, count) := CheckHeader(v, seal, checksum).value;
      ValidMetadata(m) && v == BodyFields(m, count) && seal == [checksum, 0]
  {
  }

  lemma HeaderParts(crc: Checksum, m: Metadata, count: u32, rest: seq<byte>)
    ensures
      var bytes, body := EncodeHeader(crc, m, count) + rest, Join(BodyWidth, BodyFields(m, count));
      bytes[..64] == body && HeaderFields(bytes) == (BodyFields(m, count), [crc.Of(body), 0])
  {
    LayoutSizes();
    var body := Join(BodyWidth, BodyFields(m, count));
    var seal := Join(SealWidth, [crc.Of(body), 0]);
    var bytes := EncodeHeader(crc, m, count) + rest;
    assert bytes[..64] == body && bytes[64..72] == seal;
    HeaderFits(m, count, crc.Of(body));
    SplitJoin(BodyWidth, BodyFields(m, count));
    SplitJoin(SealWidth, [crc.Of(body), 0]);
  }

  lemma HeaderRoundTrip(crc: Checksum, m: Metadata, count: u32, rest: seq<byte>)
    requires ValidMetadata(m)
    ensures DecodeHeader(crc, EncodeHeader(crc, m, count) + rest) == Ok((m, count))
  {
    HeaderParts(crc, m, count, rest);
    CheckHeaderAccepts(m, count, crc.Of(Join(BodyWidth, BodyFields(m, count))));
  }

  /** An accepted header is the encoding of what it decodes to. */
  lemma HeaderCanonical(crc: Checksum, bytes: seq<byte>)
    requires DecodeHeader(crc, bytes).Ok?
    ensures
      var (m, count) := DecodeHeader(crc, bytes).value;
      ValidMetadata(m) && |bytes| >= HEADER_SIZE && bytes[..72] == EncodeHeader(crc, m, count)
  {
    LayoutSizes();
    var (v, seal) := HeaderFields(bytes);
    CheckHeaderDetermines(v, seal, crc.Of(bytes[..64]));
    JoinSplit(BodyWidth, BODY_FIELDS, bytes[..64]);
    JoinSplit(SealWidth, 2, bytes[64..72]);
    assert bytes[..72] == bytes[..64] + bytes[64..72];
  }

  // ---- Section frames ----

  /** Kind, flags, payload length, payload checksum. */
  function FrameWidth(field: nat): nat {
    if field < 2 then 2 else if field == 2 then 8 else 4
  }

  lemma FrameSize()
    ensures Total(FrameWidth, 0, 4) == SECTION_HEADER_SIZE
  {
  }

  /** A section as stored, whether or not its kind is understood. */
  datatype Frame = Frame(kind: nat, required: bool, payload: seq<byte>) {
    predicate Valid() {
      kind <= U16_MAX && |payload| <= MAX_SECTION_BYTES
    }

    predicate Known() {
      KindFromRaw(kind).Some?
    }

    /** Readers refuse required sections of unknown kind and skip optional ones. */
    predicate Acceptable() {
      Known() || !required
    }
  }

  function EncodeFrame(crc: Checksum, frame: Frame): (bytes: seq<byte>)
    ensures |bytes| == SECTION_HEADER_SIZE + |frame.payload|
  {
    FrameSize();
    Join(FrameWidth, FrameFields(crc, frame)) + frame.payload
  }

  function FrameFields(crc: Checksum, frame: Frame): (fields: seq<nat>)
    ensures |fields| == 4
  {
    [frame.kind, if frame.required then 1 else 0, |frame.payload|, crc.Of(frame.payload)]
  }

  /** The fields of a frame header, checked in the readers' order. */
  function CheckFrame(v: seq<nat>): Option<FormatError>
    requires |v| == 4
  {
    if v[1] > 1 then Some(InvalidSectionFlags(v[1]))
    else if v[2] > MAX_SECTION_BYTES then Some(SectionTooLarge(v[2]))
    else None
  }

  function FrameHeader(bytes: seq<byte>): (v: seq<nat>)
    requires |bytes| >= SECTION_HEADER_SIZE
    ensures |v| == 4 && Fits(FrameWidth, 0, v)
  {
    FrameSize();
    Split(FrameWidth, 4, bytes[..16])
  }

  /** One frame off the front of the remaining bytes. */
  function ParseFrame(crc: Checksum, bytes: seq<byte>): Result<(Frame, seq<byte>), FormatError> {
    if |bytes| < SECTION_HEADER_SIZE then Err(Truncated(SectionHeader))
    else
      var v := FrameHeader(bytes);
      if CheckFrame(v).Some? then Err(CheckFrame(v).value)
      else if |bytes| < SECTION_HEADER_SIZE + v[2] then Err(Truncated(SectionPayload))
      else
        var frame := Frame(v[0], v[1] == 1, bytes[16..16 + v[2]]);
        if crc.Of(frame.payload) != v[3] then Err(SectionChecksumMismatch(v[3], crc.Of(frame.payload)))
        else if !frame.Acceptable() then Err(UnknownRequiredSection(v[0]))
        else Ok((frame, bytes[16 + v[2]..]))
  }

  lemma FrameRoundTrip(crc: Checksum, frame: Frame, rest: seq<byte>)
    requires frame.Valid() && frame.Acceptable()
    ensures ParseFrame(crc, EncodeFrame(crc, frame) + rest) == Ok((frame, rest))
  {
    FrameSize();
    Limits();
    var fields := FrameFields(crc, frame);
    var bytes := EncodeFrame(crc, frame) + rest;
    assert Fits(FrameWidth, 0, fields);
    SplitJoin(FrameWidth, fields);
    assert bytes[..16] == Join(FrameWidth, fields);
    assert bytes[16..16 + |frame.payload|] == frame.payload;
    assert bytes[16 + |frame.payload|..] == rest;
  }

  lemma FrameCanonical(crc: Checksum, bytes: seq<byte>)
    requires ParseFrame(crc, bytes).Ok?
    ensures
      var (frame, rest) := ParseFrame(crc, bytes).value;
      frame.Valid() && frame.Acceptable() && bytes == EncodeFrame(crc, frame) + rest
  {
    FrameSize();
    Limits();
    var (frame, rest) := ParseFrame(crc, bytes).value;
    var v := FrameHeader(bytes);
    assert v[0] < Limit(FrameWidth(0));
    assert v == FrameFields(crc, frame);
    JoinSplit(FrameWidth, 4, bytes[..16]);
    assert bytes == bytes[..16] + frame.payload + rest;
  }

  function EncodeFrames(crc: Checksum, frames: seq<Frame>): seq<byte> {
    if frames == [] then [] else EncodeFrame(crc, frames[0]) + EncodeFrames(crc, frames[1..])
  }

  /** `count` frames off the front, and what is left. */
  function ParseFrames(crc: Checksum, bytes: seq<byte>, count: nat): Result<(seq<Frame>, seq<byte>), FormatError> {
    ParseMany(ParserFor(crc), bytes, count)
  }

  /** A way to take one frame off the front of some bytes. */
  type FrameParser = seq<byte> -> Result<(Frame, seq<byte>), FormatError>

  function ParserFor(crc: Checksum): FrameParser {
    (bytes: seq<byte>) => ParseFrame(crc, bytes)
  }

  function ParseMany(parse: FrameParser, bytes: seq<byte>, count: nat): Result<(seq<Frame>, seq<byte>), FormatError>
    decreases count, bytes
  {
    if count == 0 then Ok(([], bytes))
    else
      var (frame, rest) :- parse(bytes);
      var (frames, left) :- ParseMany(parse, rest, count - 1);
      Ok(([frame] + frames, left))
  }

  ghost predicate AllAcceptable(frames: seq<Frame>) {
    forall i :: 0 <= i < |frames| ==> frames[i].Valid() && frames[i].Acceptable()
  }

  lemma {:induction false} FramesRoundTrip(crc: Checksum, frames: seq<Frame>, rest: seq<byte>)
    requires AllAcceptable(frames)
    ensures ParseFrames(crc, EncodeFrames(crc, frames) + rest, |frames|) == Ok((frames, rest))
    decreases |frames|
  {
    if frames == [] {
      assert EncodeFrames(crc, frames) + rest == rest;
    } else {
      var others := EncodeFrames(crc, frames[1..]) + rest;
      assert EncodeFrames(crc, frames) + rest == EncodeFrame(crc, frames[0]) + others;
      FrameRoundTrip(crc, frames[0], others);
      FramesRoundTrip(crc, frames[1..], rest);
      assert [frames[0]] + frames[1..] == frames;
    }
  }

  lemma {:induction false} EncodeCons(crc: Checksum, frame: Frame, frames: seq<Frame>, left: seq<byte>)
    requires frame.Valid() && frame.Acceptable() && AllAcceptable(frames)
    ensures AllAcceptable([frame] + frames)
    ensures EncodeFrames(crc, [frame] + frames) + left == EncodeFrame(crc, frame) + (EncodeFrames(crc, frames) + left)
  {
    assert ([frame] + frames)[1..] == frames;
    var a, b := EncodeFrame(crc, frame), EncodeFrames(crc, frames);
    assert a + b + left == a + (b + left);
  }

  lemma {:induction false} ParseFramesUnrolls(crc: Checksum, bytes: seq<byte>, count: nat)
    requires count > 0 && ParseFrames(crc, bytes, count).Ok?
    ensures ParseFrame(crc, bytes).Ok?
    ensures
      var (frame, rest) := ParseFrame(crc, bytes).value;
      var others := ParseFrames(crc, rest, count - 1);
      others.Ok? && ParseFrames(crc, bytes, count) == Ok(([frame] + others.value.0, others.value.1))
  {
  }

  lemma {:induction false} FramesCanonical(crc: Checksum, bytes: seq<byte>, count: nat)
    requires ParseFrames(crc, bytes, count).Ok?
    ensures
      var (frames, left) := ParseFrames(crc, bytes, count).value;
      |frames| == count && AllAcceptable(frames) && bytes == EncodeFrames(crc, frames) + left
    decreases count
  {
    if count > 0 {
      ParseFramesUnrolls(crc, bytes, count);
      var (frame, rest) := ParseFrame(crc, bytes).value;
      FrameCanonical(crc, bytes);
      FramesCanonical(crc, rest, count - 1);
      var (frames, left) := ParseFrames(crc, rest, count - 1).value;
      EncodeCons(crc, frame, frames, left);
    }
  }

  // ---- Whole files ----

  datatype Section = Section(kind: SectionKind, required: bool, payload: seq<byte>)

  datatype IndexFile = IndexFile(metadata: Metadata, sections: seq<Section>)

  /** What the constructors of metadata, sections and files let through. */
  predicate ValidFile(file: IndexFile) {
    && ValidMetadata(file.metadata)
    && |file.sections| <= MAX_SECTION_COUNT
    && forall i :: 0 <= i < |file.sections| ==> |file.sections[i].payload| <= MAX_SECTION_BYTES
  }

  function FrameOf(section: Section): Frame {
    Frame(KindRaw(section.kind), section.required, section.payload)
  }

  function FramesOf(sections: seq<Section>): (frames: seq<Frame>)
    ensures |frames| == |sections|
    ensures forall i :: 0 <= i < |sections| ==> frames[i] == FrameOf(sections[i])
  {
    seq(|sections|, i requires 0 <= i < |sections| => FrameOf(sections[i]))
  }

  function SectionOf(frame: Frame): Section
    requires frame.Known()
  {
    Section(KindFromRaw(frame.kind).value, frame.required, frame.payload)
  }

  /** The understood sections, in order. */
  function KnownSections(frames: seq<Frame>): seq<Section> {
    if frames == [] then []
    else (if frames[0].Known() then [SectionOf(frames[0])] else []) + KnownSections(frames[1..])
  }

  function Encode(crc: Checksum, file: IndexFile): seq<byte>
    requires |file.sections| <= MAX_SECTION_COUNT
  {
    EncodeHeader(crc, file.metadata, |file.sections|) + EncodeFrames(crc, FramesOf(file.sections))
  }

  /** The frames of a file the eager reader accepts. */
  function ParseFile(crc: Checksum, bytes: seq<byte>): Result<(Metadata, seq<Frame>), FormatError> {
    var (metadata, count) :- DecodeHeader(crc, bytes);
    ParseBody(crc, bytes, metadata, count)
  }

  /** What follows an accepted header: the announced number of frames and nothing else. */
  function ParseBody(crc: Checksum, bytes: seq<byte>, metadata: Metadata, count: u32)
    : Result<(Metadata, seq<Frame>), FormatError>
    requires |bytes| >= HEADER_SIZE
  {
    if count > MAX_SECTION_COUNT then Err(TooManySections(count))
    else
      var (frames, left) :- ParseFrames(crc, bytes[72..], count);
      if left != [] then Err(TrailingBytes(|left|)) else Ok((metadata, frames))
  }

  function Assemble(parsed: Result<(Metadata, seq<Frame>), FormatError>): Result<IndexFile, FormatError> {
    var (metadata, frames) :- parsed;
    Ok(IndexFile(metadata, KnownSections(frames)))
  }

  function Decode(crc: Checksum, bytes: seq<byte>): Result<IndexFile, FormatError> {
    Assemble(ParseFile(crc, bytes))
  }

  lemma {:induction false} KnownSectionsOf(sections: seq<Section>)
    ensures KnownSections(FramesOf(sections)) == sections
  {
    if sections != [] {
      KnownSectionsOf(sections[1..]);
      assert FramesOf(sections)[1..] == FramesOf(sections[1..]);
      assert SectionOf(FrameOf(sections[0])) == sections[0];
      assert [sections[0]] + sections[1..] == sections;
    }
  }

  ghost predicate AllKnown(frames: seq<Frame>) {
    forall i :: 0 <= i < |frames| ==> frames[i].Known()
  }

  lemma AllKnownSplit(frames: seq<Frame>)
    requires frames != []
    ensures AllKnown(frames) <==> frames[0].Known() && AllKnown(frames[1..])
  {
    assert forall i :: 1 <= i < |frames| ==> frames[i] == frames[1..][i - 1];
  }

  lemma {:induction false} KnownKept(frames: seq<Frame>)
    requires AllKnown(frames)
    ensures FramesOf(KnownSections(frames)) == frames
  {
    if frames != [] {
      AllKnownSplit(frames);
      KnownKept(frames[1..]);
      assert FrameOf(SectionOf(frames[0])) == frames[0];
      assert frames == [frames[0]] + frames[1..];
    }
  }

  /** Dropping unknown sections loses a frame exactly when there is one to drop. */
  lemma {:induction false} KnownFewer(frames: seq<Frame>)
    ensures |KnownSections(frames)| <= |frames|
    ensures |KnownSections(frames)| == |frames| <==> AllKnown(frames)
  {
    if frames != [] {
      AllKnownSplit(frames);
      KnownFewer(frames[1..]);
    }
  }

  lemma {:induction false} KnownBounded(frames: seq<Frame>, s: Section)
    requires AllAcceptable(frames) && s in KnownSections(frames)
    ensures |s.payload| <= MAX_SECTION_BYTES
  {
    assert AllAcceptable(frames[1..]) by {
      assert forall i :: 1 <= i < |frames| ==> frames[i] == frames[1..][i - 1];
    }
    if s in KnownSections(frames[1..]) {
      KnownBounded(frames[1..], s);
    }
  }

  lemma {:induction false} KnownFrames(frames: seq<Frame>)
    ensures |KnownSections(frames)| <= |frames|
    ensures AllKnown(frames) ==> FramesOf(KnownSections(frames)) == frames
    ensures !AllKnown(frames) ==> |KnownSections(frames)| < |frames|
    ensures AllAcceptable(frames) ==> forall s :: s in KnownSections(frames) ==> |s.payload| <= MAX_SECTION_BYTES
  {
    KnownFewer(frames);
    if AllKnown(frames) {
      KnownKept(frames);
    }
    if AllAcceptable(frames) {
      forall s | s in KnownSections(frames)
        ensures |s.payload| <= MAX_SECTION_BYTES
      {
        KnownBounded(frames, s);
      }
    }
  }

  /** Accepted bytes are exactly the encodings of a valid header over acceptable frames. */
  lemma {:induction false} ParseFileCanonical(crc: Checksum, bytes: seq<byte>)
    requires ParseFile(crc, bytes).Ok?
    ensures
      var (metadata, frames) := ParseFile(crc, bytes).value;
      && ValidMetadata(metadata) && |frames| <= MAX_SECTION_COUNT && AllAcceptable(frames)
      && bytes == EncodeHeader(crc, metadata, |frames|) + EncodeFrames(crc, frames)
  {
    HeaderCanonical(crc, bytes);
    var (metadata, count) := DecodeHeader(crc, bytes).value;
    FramesCanonical(crc, bytes[72..], count);
    assert bytes == bytes[..72] + bytes[72..];
  }

  lemma {:induction false} ParseFileAccepts(crc: Checksum, metadata: Metadata, frames: seq<Frame>)
    requires ValidMetadata(metadata) && |frames| <= MAX_SECTION_COUNT && AllAcceptable(frames)
    ensures ParseFile(crc, EncodeHeader(crc, metadata, |frames|) + EncodeFrames(crc, frames)) == Ok((metadata, frames))
  {
    var header, body := EncodeHeader(crc, metadata, |frames|), EncodeFrames(crc, frames);
    HeaderRoundTrip(crc, metadata, |frames|, body);
    FramesRoundTrip(crc, frames, []);
    assert (header + body)[72..] == body == body + [];
  }

  /** Writing a valid file and reading it back gives the file. */
  lemma DecodeEncode(crc: Checksum, file: IndexFile)
    requires ValidFile(file)
    ensures Decode(crc, Encode(crc, file)) == Ok(file)
  {
    ParseFileAccepts(crc, file.metadata, FramesOf(file.sections));
    KnownSectionsOf(file.sections);
  }

  /** Reading bytes and writing them again gives the same bytes if and only if no section was skipped. */
  lemma EncodeDecode(crc: Checksum, bytes: seq<byte>)
    requires Decode(crc, bytes).Ok?
    ensures
      var file, frames := Decode(crc, bytes).value, ParseFile(crc, bytes).value.1;
      ValidFile(file) && (Encode(crc, file) == bytes <==> AllKnown(frames))
  {
    var (metadata, frames) := ParseFile(crc, bytes).value;
    var file := Decode(crc, bytes).value;
    ParseFileCanonical(crc, bytes);
    KnownFrames(frames);
    forall i | 0 <= i < |file.sections|
      ensures |file.sections[i].payload| <= MAX_SECTION_BYTES
    {
      assert file.sections[i] in file.sections;
    }
    HeaderRoundTrip(crc, metadata, |frames|, EncodeFrames(crc, frames));
    HeaderRoundTrip(crc, metadata, |file.sections|, EncodeFrames(crc, FramesOf(file.sections)));
  }

  /** An optional section of an unknown kind is read over, so writing what was read gives other bytes. */
  lemma {:induction false} SkippedSectionLost(crc: Checksum, m: Metadata, payload: seq<byte>)
    requires ValidMetadata(m) && |payload| <= MAX_SECTION_BYTES
    ensures
      var bytes := EncodeHeader(crc, m, 1) + EncodeFrames(crc, [Frame(999, false, payload)]);
      Decode(crc, bytes) == Ok(IndexFile(m, [])) && Encode(crc, IndexFile(m, [])) != bytes
  {
    var frames := [Frame(999, false, payload)];
    var bytes := EncodeHeader(crc, m, 1) + EncodeFrames(crc, frames);
    ParseFileAccepts(crc, m, frames);
    assert KnownSections(frames) == [] by {
      assert frames[1..] == [];
    }
    EncodeDecode(crc, bytes);
    assert !frames[0].Known();
  }

  /** Bytes after the last frame do not disturb the frames. */
  lemma {:induction false} FramesIgnoreRest(crc: Checksum, bytes: seq<byte>, count: nat, rest: seq<byte>)
    requires ParseFrames(crc, bytes, count).Ok?
    ensures
      var (frames, left) := ParseFrames(crc, bytes, count).value;
      ParseFrames(crc, bytes + rest, count) == Ok((frames, left + rest))
  {
    FramesCanonical(crc, bytes, count);
    var (frames, left) := ParseFrames(crc, bytes, count).value;
    FramesRoundTrip(crc, frames, left + rest);
    assert bytes + rest == EncodeFrames(crc, frames) + (left + rest);
  }

  lemma HeaderOfPrefix(crc: Checksum, short: seq<byte>, long: seq<byte>)
    requires HEADER_SIZE <= |short| && short <= long
    ensures DecodeHeader(crc, long) == DecodeHeader(crc, short)
  {
    assert long[..64] == short[..64] && long[64..72] == short[64..72];
  }

  lemma {:induction false} BodyPrefixFree(crc: Checksum, short: seq<byte>, long: seq<byte>, metadata: Metadata,
                                          count: u32)
    requires HEADER_SIZE <= |short| && short <= long
    requires ParseBody(crc, short, metadata, count).Ok? && ParseBody(crc, long, metadata, count).Ok?
    ensures short == long
  {
    var rest := long[|short|..];
    assert long[72..] == short[72..] + rest;
    FramesIgnoreRest(crc, short[72..], count, rest);
    assert rest == [];
  }

  /** No accepted file is a strict prefix of another. */
  lemma PrefixFree(crc: Checksum, short: seq<byte>, long: seq<byte>)
    requires Decode(crc, short).Ok? && Decode(crc, long).Ok? && short <= long
    ensures short == long
  {
    HeaderOfPrefix(crc, short, long);
    var (metadata, count) := DecodeHeader(crc, short).value;
    BodyPrefixFree(crc, short, long, metadata, count);
  }

  lemma {:induction false} KnownAppend(frames: seq<Frame>, frame: Frame)
    ensures KnownSections(frames + [frame]) ==
            KnownSections(frames) + if frame.Known() then [SectionOf(frame)] else []
  {
    if frames != [] {
      KnownAppend(frames[1..], frame);
      assert (frames + [frame])[1..] == frames[1..] + [frame];
    }
  }

  /** A parser that consumes exactly the frame it returns. */
  ghost predicate Consumes(parse: FrameParser) {
    forall bytes {:trigger ConsumesFrom(parse, bytes)} :: ConsumesFrom(parse, bytes)
  }

  ghost predicate ConsumesFrom(parse: FrameParser, bytes: seq<byte>) {
    parse(bytes).Ok? ==>
      var size := SECTION_HEADER_SIZE + |parse(bytes).value.0.payload|;
      size <= |bytes| && parse(bytes).value.1 == bytes[size..]
  }

  lemma ParserConsumes(crc: Checksum)
    ensures Consumes(ParserFor(crc))
  {
  }

  /** One more frame extends a parse of `count` frames. */
  lemma {:induction false} ParseExtends(parse: FrameParser, bytes: seq<byte>, count: nat)
    requires ParseMany(parse, bytes, count).Ok?
    ensures
      var (frames, left) := ParseMany(parse, bytes, count).value;
      parse(left).Ok? ==>
        ParseMany(parse, bytes, count + 1) == Ok((frames + [parse(left).value.0], parse(left).value.1))
    decreases count
  {
    if count == 0 {
      var left := bytes;
      if parse(left).Ok? {
        assert ParseMany(parse, parse(left).value.1, 0) == Ok(([], parse(left).value.1));
        assert [parse(left).value.0] + [] == [] + [parse(left).value.0];
      }
    } else {
      var (frame, rest) := parse(bytes).value;
      ParseExtends(parse, rest, count - 1);
      var (frames, left) := ParseMany(parse, rest, count - 1).value;
      if parse(left).Ok? {
        assert [frame] + (frames + [parse(left).value.0]) == [frame] + frames + [parse(left).value.0];
      }
    }
  }

  /** A frame that does not parse fails every longer parse. */
  lemma {:induction false} ParseFails(parse: FrameParser, bytes: seq<byte>, done: nat, count: nat)
    requires done < count && ParseMany(parse, bytes, done).Ok?
    requires parse(ParseMany(parse, bytes, done).value.1).Err?
    ensures ParseMany(parse, bytes, count) == Err(parse(ParseMany(parse, bytes, done).value.1).error)
    decreases done
  {
    if done > 0 {
      ParseFails(parse, parse(bytes).value.1, done - 1, count - 1);
    }
  }

  /** The known sections of a parse, and how far into `length` bytes it got. */
  function Progress(length: int, parsed: Result<(seq<Frame>, seq<byte>), FormatError>)
    : Result<(seq<Section>, int), FormatError>
  {
    if parsed.Err? then Err(parsed.error) else Ok((KnownSections(parsed.value.0), length - |parsed.value.1|))
  }

  /** The cursor loop of the eager reader: known sections, and where the last frame ends. */
  method ReadFrames(parse: FrameParser, bytes: seq<byte>, count: nat)
    returns (r: Result<(seq<Section>, int), FormatError>)
    requires |bytes| >= HEADER_SIZE && Consumes(parse)
    ensures r == Progress(|bytes|, ParseMany(parse, bytes[72..], count))
  {
    var cursor: nat := HEADER_SIZE;
    var sections: seq<Section> := [];
    ghost var frames: seq<Frame> := [];
    var i := 0;
    while i < count
      invariant 0 <= i <= count && cursor <= |bytes|
      invariant sections == KnownSections(frames)
      invariant ParseMany(parse, bytes[72..], i) == Ok((frames, bytes[cursor..]))
    {
      var next := parse(bytes[cursor..]);
      if next.Err? {
        ParseFails(parse, bytes[72..], i, count);
        return Err(next.error);
      }
      var frame := next.value.0;
      assert ConsumesFrom(parse, bytes[cursor..]);
      ParseExtends(parse, bytes[72..], i);
      KnownAppend(frames, frame);
      if frame.Known() {
        sections := sections + [SectionOf(frame)];
      }
      frames := frames + [frame];
      cursor := cursor + SECTION_HEADER_SIZE + |frame.payload|;
      assert bytes[cursor..] == next.value.1;
      i := i + 1;
    }
    assert bytes[cursor..] == ParseMany(parse, bytes[72..], count).value.1;
    return Ok((sections, cursor));
  }

  method DecodeBody(crc: Checksum, bytes: seq<byte>, metadata: Metadata, count: u32)
    returns (r: Result<IndexFile, FormatError>)
    requires |bytes| >= HEADER_SIZE
    ensures r == Assemble(ParseBody(crc, bytes, metadata, count))
  {
    if count > MAX_SECTION_COUNT {
      return Err(TooManySections(count));
    }
    ParserConsumes(crc);
    var read := ReadFrames(ParserFor(crc), bytes, count);
    if read.Err? {
      return Err(read.error);
    }
    var (sections, cursor) := read.value;
    if cursor != |bytes| {
      return Err(TrailingBytes(|bytes| - cursor));
    }
    return Ok(IndexFile(metadata, sections));
  }

  /** The eager reader. */
  method DecodeFile(crc: Checksum, bytes: seq<byte>) returns (r: Result<IndexFile, FormatError>)
    ensures r == Decode(crc, bytes)
  {
    var header := DecodeHeader(crc, bytes);
    if header.Err? {
      return Err(header.error);
    }
    r := DecodeBody(crc, bytes, header.value.0, header.value.1);
  }

  /** The writer: header first, then one frame per section. */
  method EncodeFile(crc: Checksum, file: IndexFile) returns (r: Result<seq<byte>, FormatError>)
    requires |file.sections| <= MAX_SECTION_COUNT
    ensures r.Ok? <==> forall i :: 0 <= i < |file.sections| ==> |file.sections[i].payload| <= MAX_SECTION_BYTES
    ensures r.Ok? ==> r.value == Encode(crc, file)
  {
    var output := EncodeHeader(crc, file.metadata, |file.sections|);
    ghost var frames := FramesOf(file.sections);
    assert frames[0..] == frames;
    var i := 0;
    while i < |file.sections|
      invariant 0 <= i <= |file.sections|
      invariant forall j :: 0 <= j < i ==> |file.sections[j].payload| <= MAX_SECTION_BYTES
      invariant output + EncodeFrames(crc, frames[i..]) == Encode(crc, file)
    {
      var section := file.sections[i];
      if |section.payload| > MAX_SECTION_BYTES {
        return Err(SectionTooLarge(|section.payload|));
      }
      FramesAhead(crc, frames, i, output);
      output := output + EncodeFrame(crc, FrameOf(section));
      i := i + 1;
    }
    assert output + [] == output;
    return Ok(output);
  }

  lemma {:induction false} FramesAhead(crc: Checksum, frames: seq<Frame>, i: nat, output: seq<byte>)
    requires i < |frames|
    ensures output + EncodeFrames(crc, frames[i..]) ==
            output + EncodeFrame(crc, frames[i]) + EncodeFrames(crc, frames[i + 1..])
  {
    assert frames[i..][0] == frames[i] && frames[i..][1..] == frames[i + 1..];
    var first, others := EncodeFrame(crc, frames[i]), EncodeFrames(crc, frames[i + 1..]);
    assert output + (first + others) == output + first + others;
  }
}
