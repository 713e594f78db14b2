/** The lazy container reader: section locations without payloads, bounded range reads, deferred checksums. */
module LazyLayout {
  import opened Words
  import opened Bytes
  import opened Container

  datatype Descriptor = Descriptor(kind: SectionKind, required: bool, offset: nat, length: nat, checksum: nat)

  datatype FileLayout = FileLayout(metadata: Metadata, sections: seq<Descriptor>, fileLength: nat)

  datatype LayoutError =
    | Format(format: FormatError)
    | RangeOutOfBounds(offset: nat, length: nat, sectionLength: nat)
    | LengthOverflow

  /** The bytes a descriptor points at. */
  function Payload(bytes: seq<byte>, d: Descriptor): seq<byte>
    requires d.offset + d.length <= |bytes|
  {
    bytes[d.offset..d.offset + d.length]
  }

  // ---- What the lazy reader computes ----

  /** The same checks as the eager reader's, with unsupported features reported before other metadata faults. */
  function LazyCheckHeader(v: seq<nat>, seal: seq<nat>, checksum: nat): Result<(Metadata, u32), FormatError>
    requires |v| == BODY_FIELDS && |seal| == 2 && Fits(BodyWidth, 0, v) && Fits(SealWidth, 0, seal)
  {
    Limits();
    if IdentityFault(v, seal, checksum).Some? then Err(IdentityFault(v, seal, checksum).value)
    else if v[14] != 0 then Err(UnsupportedFeatures(v[14]))
    else
      var fault := MetadataFault(v[7], v[13], v[8], v[9], v[14]);
      if fault.Some? then Err(fault.value) else Ok((HeaderMetadata(v), v[10]))
  }

  function LazyHeader(crc: Checksum, header: seq<byte>): Result<(Metadata, u32), FormatError>
    requires |header| == HEADER_SIZE
  {
    var (v, seal) := HeaderFields(header);
    LazyCheckHeader(v, seal, crc.Of(header[..64]))
  }

  /** A header with unsupported features and another metadata fault besides. */
  predicate TwoHeaderFaults(crc: Checksum, bytes: seq<byte>)
    requires |bytes| >= HEADER_SIZE
  {
    var (v, seal) := HeaderFields(bytes);
    && IdentityFault(v, seal, crc.Of(bytes[..64])).None? && v[14] != 0
    && MetadataFault(v[7], v[13], v[8], v[9], 0).Some?
  }

  /** The two header decoders give the same result, error included, except where two faults meet. */
  lemma HeadersAgree(crc: Checksum, bytes: seq<byte>)
    requires |bytes| >= HEADER_SIZE
    ensures LazyHeader(crc, bytes[..72]).Ok? <==> DecodeHeader(crc, bytes).Ok?
    ensures LazyHeader(crc, bytes[..72]) == DecodeHeader(crc, bytes) <==> !TwoHeaderFaults(crc, bytes)
  {
    assert bytes[..72][..64] == bytes[..64] && bytes[..72][64..72] == bytes[64..72];
  }

  lemma LazyRoundTrip(crc: Checksum, m: Metadata, count: u32, rest: seq<byte>)
    requires ValidMetadata(m)
    ensures LazyHeader(crc, (EncodeHeader(crc, m, count) + rest)[..72]) == Ok((m, count))
  {
    HeaderRoundTrip(crc, m, count, rest);
    HeadersAgree(crc, EncodeHeader(crc, m, count) + rest);
  }

  /** One such header: no permutations and an unknown feature. */
  lemma HeaderFaultsDiffer(crc: Checksum)
    ensures
      var m := Metadata(MinHashLsh, PariAffine32V1, U64, 0, 0, MAX_THRESHOLD, 1, 1, 1);
      var bytes := EncodeHeader(crc, m, 0);
      && DecodeHeader(crc, bytes) == Err(InvalidMetadata(NoPermutations))
      && LazyHeader(crc, bytes[..72]) == Err(UnsupportedFeatures(1))
  {
    var m := Metadata(MinHashLsh, PariAffine32V1, U64, 0, 0, MAX_THRESHOLD, 1, 1, 1);
    var bytes := EncodeHeader(crc, m, 0);
    var checksum := crc.Of(Join(BodyWidth, BodyFields(m, 0)));
    assert bytes + [] == bytes && bytes[..72] == bytes;
    HeaderParts(crc, m, 0, []);
    CheckHeaderAccepts(m, 0, checksum);
    WrittenIdentity(m, 0, checksum);
  }

  /** What one frame header at `cursor` says, before any payload is read. */
  function ScanFrame(crc: Checksum, bytes: seq<byte>, cursor: nat): Result<(Option<Descriptor>, nat), FormatError>
    requires cursor <= |bytes|
  {
    if cursor + SECTION_HEADER_SIZE > |bytes| then Err(Truncated(SectionHeader))
    else
      var v := FrameHeader(bytes[cursor..cursor + 16]);
      var start := cursor + SECTION_HEADER_SIZE;
      if CheckFrame(v).Some? then Err(CheckFrame(v).value)
      else if start + v[2] > |bytes| then Err(Truncated(SectionPayload))
      else if KindFromRaw(v[0]).Some? then
        Ok((Some(Descriptor(KindFromRaw(v[0]).value, v[1] == 1, start, v[2], v[3])), start + v[2]))
      else if v[1] == 1 then Err(UnknownRequiredSection(v[0]))
      else if crc.Of(bytes[start..start + v[2]]) != v[3] then
        Err(SectionChecksumMismatch(v[3], crc.Of(bytes[start..start + v[2]])))
      else Ok((None, start + v[2]))
  }

  function ScanFrames(crc: Checksum, bytes: seq<byte>, cursor: nat, count: nat)
    : Result<(seq<Descriptor>, nat), FormatError>
    requires cursor <= |bytes|
    decreases count, bytes
  {
    if count == 0 then Ok(([], cursor))
    else
      var (found, next) :- ScanFrame(crc, bytes, cursor);
      var (others, end) :- ScanFrames(crc, bytes, next, count - 1);
      Ok(((if found.Some? then [found.value] else []) + others, end))
  }

  function Scan(crc: Checksum, bytes: seq<byte>): Result<FileLayout, FormatError> {
    if |bytes| < HEADER_SIZE then Err(Truncated(FileHeader))
    else
      ScanBody(crc, bytes, LazyHeader(crc, bytes[..72]))
  }

  function ScanBody(crc: Checksum, bytes: seq<byte>, header: Result<(Metadata, u32), FormatError>)
    : Result<FileLayout, FormatError>
    requires |bytes| >= HEADER_SIZE
  {
    var (metadata, count) :- header;
    if count > MAX_SECTION_COUNT then Err(TooManySections(count))
    else
      var (sections, end) :- ScanFrames(crc, bytes, HEADER_SIZE, count);
      if end < |bytes| then Err(TrailingBytes(|bytes| - end)) else Ok(FileLayout(metadata, sections, |bytes|))
  }

  /** Reading the whole section succeeds. */
  ghost predicate Intact(crc: Checksum, bytes: seq<byte>, d: Descriptor) {
    d.offset + d.length <= |bytes| && crc.Of(Payload(bytes, d)) == d.checksum
  }

  /** The fault of a section whose payload does not match its checksum. */
  function Damage(crc: Checksum, bytes: seq<byte>, d: Descriptor): FormatError {
    SectionChecksumMismatch(d.checksum, if d.offset + d.length <= |bytes| then crc.Of(Payload(bytes, d)) else 0)
  }

  ghost predicate AllIntact(crc: Checksum, bytes: seq<byte>, sections: seq<Descriptor>) {
    forall i :: 0 <= i < |sections| ==> Intact(crc, bytes, sections[i])
  }

  ghost predicate InBounds(bytes: seq<byte>, sections: seq<Descriptor>) {
    forall i :: 0 <= i < |sections| ==>
      sections[i].offset + sections[i].length <= |bytes| && sections[i].length <= MAX_SECTION_BYTES
  }

  function Materialise(bytes: seq<byte>, d: Descriptor): Section
    requires d.offset + d.length <= |bytes|
  {
    Section(d.kind, d.required, Payload(bytes, d))
  }

  /** One step of the eager and of the lazy reader side by side. */
  lemma FramesAgree(crc: Checksum, bytes: seq<byte>, cursor: nat)
    requires cursor <= |bytes|
    ensures
      var eager, scanned := ParseFrame(crc, bytes[cursor..]), ScanFrame(crc, bytes, cursor);
      && (eager.Ok? <==> scanned.Ok? && (scanned.value.0.Some? ==> Intact(crc, bytes, scanned.value.0.value)))
      && (scanned.Ok? ==> cursor <= scanned.value.1 <= |bytes|)
      && (scanned.Ok? && scanned.value.0.Some? ==>
            scanned.value.0.value.offset + scanned.value.0.value.length <= |bytes| &&
            scanned.value.0.value.length <= MAX_SECTION_BYTES)
      && (eager.Ok? ==>
            && eager.value.1 == bytes[scanned.value.1..]
            && (eager.value.0.Known() <==> scanned.value.0.Some?)
            && (eager.value.0.Known() ==> SectionOf(eager.value.0) == Materialise(bytes, scanned.value.0.value)))
  {
    if cursor + SECTION_HEADER_SIZE <= |bytes| {
      var rest := bytes[cursor..];
      assert rest[..16] == bytes[cursor..cursor + 16] == bytes[cursor..cursor + 16][..16];
      var v := FrameHeader(rest);
      assert FrameHeader(bytes[cursor..cursor + 16]) == v;
      if CheckFrame(v).None? && cursor + 16 + v[2] <= |bytes| {
        assert rest[16..16 + v[2]] == bytes[cursor + 16..cursor + 16 + v[2]];
        assert rest[16 + v[2]..] == bytes[cursor + 16 + v[2]..];
      }
    }
  }

  /** A required section of an unknown kind whose payload is also damaged. */
  predicate TwoFrameFaults(crc: Checksum, bytes: seq<byte>, cursor: nat)
    requires cursor <= |bytes|
  {
    && cursor + SECTION_HEADER_SIZE <= |bytes|
    && var v := FrameHeader(bytes[cursor..cursor + 16]);
    && CheckFrame(v).None? && cursor + SECTION_HEADER_SIZE + v[2] <= |bytes|
    && KindFromRaw(v[0]).None? && v[1] == 1
    && crc.Of(bytes[cursor + 16..cursor + 16 + v[2]]) != v[3]
  }

  /** When both readers refuse a frame they name the same fault, except where two faults meet. */
  lemma FrameFaultsAgree(crc: Checksum, bytes: seq<byte>, cursor: nat)
    requires cursor <= |bytes|
    ensures
      var eager, scanned := ParseFrame(crc, bytes[cursor..]), ScanFrame(crc, bytes, cursor);
      && (scanned.Err? ==> eager.Err? && (eager.error == scanned.error <==> !TwoFrameFaults(crc, bytes, cursor)))
      && (scanned.Ok? && eager.Err? ==>
            scanned.value.0.Some? && eager.error == Damage(crc, bytes, scanned.value.0.value))
  {
    if cursor + SECTION_HEADER_SIZE <= |bytes| {
      var rest := bytes[cursor..];
      assert rest[..16] == bytes[cursor..cursor + 16] == bytes[cursor..cursor + 16][..16];
      var v := FrameHeader(rest);
      assert FrameHeader(bytes[cursor..cursor + 16]) == v;
      if CheckFrame(v).None? && cursor + 16 + v[2] <= |bytes| {
        assert rest[16..16 + v[2]] == bytes[cursor + 16..cursor + 16 + v[2]];
      }
    }
  }

  /** The sections a list of locations stands for. */
  function Sections(bytes: seq<byte>, ds: seq<Descriptor>): (sections: seq<Section>)
    requires InBounds(bytes, ds)
    ensures |sections| == |ds|
    ensures forall i :: 0 <= i < |ds| ==> sections[i] == Materialise(bytes, ds[i])
  {
    seq(|ds|, i requires 0 <= i < |ds| => Materialise(bytes, ds[i]))
  }

  /** What the two readers found agrees: one accepts what the other accepts intact, with the same sections. */
  ghost predicate Agree(crc: Checksum, bytes: seq<byte>, eager: Result<(seq<Frame>, seq<byte>), FormatError>,
                        scanned: Result<(seq<Descriptor>, nat), FormatError>)
  {
    && (scanned.Ok? ==> scanned.value.1 <= |bytes| && InBounds(bytes, scanned.value.0))
    && (eager.Ok? <==> scanned.Ok? && AllIntact(crc, bytes, scanned.value.0))
    && (eager.Ok? ==> eager.value.1 == bytes[scanned.value.1..] &&
                      KnownSections(eager.value.0) == Sections(bytes, scanned.value.0))
  }

  lemma {:induction false} ScansAgree(crc: Checksum, bytes: seq<byte>, cursor: nat, count: nat)
    requires cursor <= |bytes|
    ensures Agree(crc, bytes, ParseFrames(crc, bytes[cursor..], count), ScanFrames(crc, bytes, cursor, count))
    decreases count
  {
    if count > 0 {
      FramesAgree(crc, bytes, cursor);
      var eager, scanned := ParseFrame(crc, bytes[cursor..]), ScanFrame(crc, bytes, cursor);
      if scanned.Ok? {
        var (found, next) := scanned.value;
        ScansAgree(crc, bytes, next, count - 1);
        ScanUnrolls(crc, bytes, cursor, count);
        if eager.Ok? {
          AgreeCons(crc, bytes, eager.value.0, found, ParseFrames(crc, bytes[next..], count - 1),
                    ScanFrames(crc, bytes, next, count - 1));
        } else {
          DamageAgrees(crc, bytes, found.value, eager.error, ScanFrames(crc, bytes, next, count - 1));
        }
      }
    }
  }

  function FrameCons(frame: Frame, rest: Result<(seq<Frame>, seq<byte>), FormatError>)
    : Result<(seq<Frame>, seq<byte>), FormatError>
  {
    if rest.Err? then rest else Ok(([frame] + rest.value.0, rest.value.1))
  }

  function FoundCons(found: Option<Descriptor>, rest: Result<(seq<Descriptor>, nat), FormatError>)
    : Result<(seq<Descriptor>, nat), FormatError>
  {
    if rest.Err? then rest else Ok(((if found.Some? then [found.value] else []) + rest.value.0, rest.value.1))
  }

  lemma {:induction false} ScanUnrolls(crc: Checksum, bytes: seq<byte>, cursor: nat, count: nat)
    requires cursor <= |bytes| && count > 0 && ScanFrame(crc, bytes, cursor).Ok?
    requires ScanFrame(crc, bytes, cursor).value.1 <= |bytes|
    ensures
      var (found, next) := ScanFrame(crc, bytes, cursor).value;
      ScanFrames(crc, bytes, cursor, count) == FoundCons(found, ScanFrames(crc, bytes, next, count - 1))
    ensures
      var eager := ParseFrame(crc, bytes[cursor..]);
      ParseFrames(crc, bytes[cursor..], count) ==
      if eager.Err? then Err(eager.error) else FrameCons(eager.value.0, ParseFrames(crc, eager.value.1, count - 1))
  {
  }

  lemma AgreeCons(crc: Checksum, bytes: seq<byte>, frame: Frame, found: Option<Descriptor>,
                  eager: Result<(seq<Frame>, seq<byte>), FormatError>,
                  scanned: Result<(seq<Descriptor>, nat), FormatError>)
    requires Agree(crc, bytes, eager, scanned) && (frame.Known() <==> found.Some?)
    requires found.Some? ==> InBounds(bytes, [found.value]) && Intact(crc, bytes, found.value)
    requires found.Some? ==> SectionOf(frame) == Materialise(bytes, found.value)
    ensures Agree(crc, bytes, FrameCons(frame, eager), FoundCons(found, scanned))
  {
    if scanned.Ok? {
      var head := if found.Some? then [found.value] else [];
      IntactConcat(crc, bytes, head, scanned.value.0);
      if eager.Ok? {
        KnownCons(frame, eager.value.0);
        SectionsConcat(bytes, head, scanned.value.0);
      }
    }
  }

  lemma DamageAgrees(crc: Checksum, bytes: seq<byte>, found: Descriptor, error: FormatError,
                     scanned: Result<(seq<Descriptor>, nat), FormatError>)
    requires InBounds(bytes, [found]) && !Intact(crc, bytes, found)
    requires scanned.Ok? ==> scanned.value.1 <= |bytes| && InBounds(bytes, scanned.value.0)
    ensures Agree(crc, bytes, Err(error), FoundCons(Some(found), scanned))
  {
    if scanned.Ok? {
      IntactConcat(crc, bytes, [found], scanned.value.0);
      assert !Intact(crc, bytes, [found][0]);
    }
  }

  lemma {:induction false} KnownCons(frame: Frame, frames: seq<Frame>)
    ensures KnownSections([frame] + frames) ==
            (if frame.Known() then [SectionOf(frame)] else []) + KnownSections(frames)
  {
    assert ([frame] + frames)[1..] == frames;
  }

  lemma SectionsConcat(bytes: seq<byte>, left: seq<Descriptor>, right: seq<Descriptor>)
    requires InBounds(bytes, left) && InBounds(bytes, right) && InBounds(bytes, left + right)
    ensures Sections(bytes, left + right) == Sections(bytes, left) + Sections(bytes, right)
  {
  }

  lemma IntactConcat(crc: Checksum, bytes: seq<byte>, left: seq<Descriptor>, right: seq<Descriptor>)
    ensures AllIntact(crc, bytes, left + right) <==> AllIntact(crc, bytes, left) && AllIntact(crc, bytes, right)
    ensures InBounds(bytes, left) && InBounds(bytes, right) ==> InBounds(bytes, left + right)
  {
    var both := left + right;
    if AllIntact(crc, bytes, both) {
      assert forall i :: 0 <= i < |left| ==> both[i] == left[i];
      assert forall i :: 0 <= i < |right| ==> both[|left| + i] == right[i];
    }
  }

  /**
   * The eager reader accepts exactly the files the lazy reader accepts with every
   * section intact, and then both report the same metadata and payloads.
   */
  lemma ReadersAgree(crc: Checksum, bytes: seq<byte>)
    ensures Decode(crc, bytes).Ok? <==>
            Scan(crc, bytes).Ok? && AllIntact(crc, bytes, Scan(crc, bytes).value.sections)
    ensures Scan(crc, bytes).Ok? ==>
            InBounds(bytes, Scan(crc, bytes).value.sections) && Scan(crc, bytes).value.fileLength == |bytes|
    ensures Decode(crc, bytes).Ok? ==>
            Decode(crc, bytes).value ==
            IndexFile(Scan(crc, bytes).value.metadata, Sections(bytes, Scan(crc, bytes).value.sections))
  {
    if |bytes| >= HEADER_SIZE {
      HeadersAgree(crc, bytes);
      var header := LazyHeader(crc, bytes[..72]);
      if header.Ok? {
        ScansAgree(crc, bytes, HEADER_SIZE, header.value.1);
      }
    }
  }

  /** Before its own first fault the lazy reader passes a section that is damaged. */
  ghost predicate DamagePassed(crc: Checksum, bytes: seq<byte>, cursor: nat, count: nat)
    requires cursor <= |bytes|
    decreases count
  {
    && count > 0
    && var scanned := ScanFrame(crc, bytes, cursor);
    && scanned.Ok?
    && ((scanned.value.0.Some? && !Intact(crc, bytes, scanned.value.0.value)) ||
        (scanned.value.1 <= |bytes| && DamagePassed(crc, bytes, scanned.value.1, count - 1)))
  }

  /** The fault of the first damaged section that the lazy reader passes. */
  ghost function FirstDamage(crc: Checksum, bytes: seq<byte>, cursor: nat, count: nat): FormatError
    requires cursor <= |bytes| && DamagePassed(crc, bytes, cursor, count)
    decreases count
  {
    var (found, next) := ScanFrame(crc, bytes, cursor).value;
    if found.Some? && !Intact(crc, bytes, found.value) then Damage(crc, bytes, found.value)
    else FirstDamage(crc, bytes, next, count - 1)
  }

  /** An optional section of an unknown kind whose payload is damaged in just this way. */
  predicate UnknownDamaged(crc: Checksum, bytes: seq<byte>, cursor: nat, fault: FormatError)
    requires cursor <= |bytes|
  {
    && cursor + SECTION_HEADER_SIZE <= |bytes|
    && var v := FrameHeader(bytes[cursor..cursor + 16]);
    && CheckFrame(v).None? && cursor + SECTION_HEADER_SIZE + v[2] <= |bytes|
    && KindFromRaw(v[0]).None? && v[1] != 1
    && var actual := crc.Of(bytes[cursor + 16..cursor + 16 + v[2]]);
    && actual != v[3] && fault == SectionChecksumMismatch(v[3], actual)
  }

  /** The frame at which the lazy reader stops is an unknown section damaged in just this way. */
  ghost predicate StopsAtDamage(crc: Checksum, bytes: seq<byte>, cursor: nat, count: nat, fault: FormatError)
    requires cursor <= |bytes|
    decreases count
  {
    && count > 0
    && var scanned := ScanFrame(crc, bytes, cursor);
    if scanned.Err? then UnknownDamaged(crc, bytes, cursor, fault)
    else scanned.value.1 <= |bytes| && StopsAtDamage(crc, bytes, scanned.value.1, count - 1, fault)
  }

  lemma FrameStopsExactly(crc: Checksum, bytes: seq<byte>, cursor: nat, fault: FormatError)
    requires cursor <= |bytes| && fault.SectionChecksumMismatch?
    ensures ScanFrame(crc, bytes, cursor) == Err(fault) <==> UnknownDamaged(crc, bytes, cursor, fault)
  {
  }

  lemma {:induction false} StopsExactly(crc: Checksum, bytes: seq<byte>, cursor: nat, count: nat, fault: FormatError)
    requires cursor <= |bytes| && fault.SectionChecksumMismatch?
    ensures ScanFrames(crc, bytes, cursor, count) == Err(fault) <==> StopsAtDamage(crc, bytes, cursor, count, fault)
    decreases count
  {
    if count > 0 {
      FrameStopsExactly(crc, bytes, cursor, fault);
      FramesAgree(crc, bytes, cursor);
      if ScanFrame(crc, bytes, cursor).Ok? {
        StopsExactly(crc, bytes, ScanFrame(crc, bytes, cursor).value.1, count - 1, fault);
      }
    }
  }

  /** The frame at which the lazy reader stops has two faults. */
  ghost predicate StopsAtTwoFaults(crc: Checksum, bytes: seq<byte>, cursor: nat, count: nat)
    requires cursor <= |bytes|
    decreases count
  {
    && count > 0
    && var scanned := ScanFrame(crc, bytes, cursor);
    if scanned.Err? then TwoFrameFaults(crc, bytes, cursor)
    else scanned.value.1 <= |bytes| && StopsAtTwoFaults(crc, bytes, scanned.value.1, count - 1)
  }

  /** What the eager reader reports about the frames the lazy reader walks. */
  ghost predicate FaultsRelate(crc: Checksum, bytes: seq<byte>, cursor: nat, count: nat)
    requires cursor <= |bytes|
  {
    var eager, scanned := ParseFrames(crc, bytes[cursor..], count), ScanFrames(crc, bytes, cursor, count);
    if DamagePassed(crc, bytes, cursor, count) then
      && FirstDamage(crc, bytes, cursor, count).SectionChecksumMismatch?
      && eager == Err(FirstDamage(crc, bytes, cursor, count))
    else if scanned.Err? then
      eager.Err? && (eager.error == scanned.error <==> !StopsAtTwoFaults(crc, bytes, cursor, count))
    else eager.Ok? && !StopsAtTwoFaults(crc, bytes, cursor, count)
  }

  lemma {:induction false} FrameListFaults(crc: Checksum, bytes: seq<byte>, cursor: nat, count: nat)
    requires cursor <= |bytes|
    ensures FaultsRelate(crc, bytes, cursor, count)
    decreases count
  {
    if count > 0 {
      FramesAgree(crc, bytes, cursor);
      FrameFaultsAgree(crc, bytes, cursor);
      var scanned := ScanFrame(crc, bytes, cursor);
      if scanned.Ok? {
        FrameListFaults(crc, bytes, scanned.value.1, count - 1);
      }
    }
  }

  /**
   * Whether a refused body is refused for the same reason by both readers: with damage passed, the lazy reader must
   * stop at an unknown section damaged in the same way, and without, not at a frame with two faults.
   */
  ghost predicate SameBodyFault(crc: Checksum, bytes: seq<byte>, count: u32)
    requires |bytes| >= HEADER_SIZE
  {
    count > MAX_SECTION_COUNT ||
    if DamagePassed(crc, bytes, HEADER_SIZE, count) then
      StopsAtDamage(crc, bytes, HEADER_SIZE, count, FirstDamage(crc, bytes, HEADER_SIZE, count))
    else !StopsAtTwoFaults(crc, bytes, HEADER_SIZE, count)
  }

  /** Whether a refused file is refused for the same reason by both readers. */
  ghost predicate SameFault(crc: Checksum, bytes: seq<byte>) {
    |bytes| < HEADER_SIZE ||
    var header := LazyHeader(crc, bytes[..72]);
    if header.Err? then !TwoHeaderFaults(crc, bytes) else SameBodyFault(crc, bytes, header.value.1)
  }

  lemma {:induction false} BodyFaultsAgree(crc: Checksum, bytes: seq<byte>, m: Metadata, count: u32)
    requires |bytes| >= HEADER_SIZE
    ensures
      var eager, scanned := Assemble(ParseBody(crc, bytes, m, count)), ScanBody(crc, bytes, Ok((m, count)));
      && (scanned.Err? ==> eager.Err? && (eager.error == scanned.error <==> SameBodyFault(crc, bytes, count)))
      && (scanned.Ok? && eager.Err? ==> DamagePassed(crc, bytes, HEADER_SIZE, count) &&
                                        eager.error == FirstDamage(crc, bytes, HEADER_SIZE, count))
  {
    ScansAgree(crc, bytes, HEADER_SIZE, count);
    FrameListFaults(crc, bytes, HEADER_SIZE, count);
    if DamagePassed(crc, bytes, HEADER_SIZE, count) {
      StopsExactly(crc, bytes, HEADER_SIZE, count, FirstDamage(crc, bytes, HEADER_SIZE, count));
    }
  }

  lemma BodiesDecide(crc: Checksum, bytes: seq<byte>, m: Metadata, count: u32)
    requires |bytes| >= HEADER_SIZE && LazyHeader(crc, bytes[..72]) == Ok((m, count))
    ensures Decode(crc, bytes) == Assemble(ParseBody(crc, bytes, m, count))
    ensures Scan(crc, bytes) == ScanBody(crc, bytes, Ok((m, count)))
  {
    HeadersAgree(crc, bytes);
  }

  /**
   * Both readers report the same fault of a file that both refuse, except where two faults meet in one header or
   * frame, or damage lies before the lazy reader's fault; a file that only the eager reader refuses is damaged.
   */
  lemma {:induction false} FaultsAgree(crc: Checksum, bytes: seq<byte>)
    ensures Scan(crc, bytes).Err? ==>
              Decode(crc, bytes).Err? && (Decode(crc, bytes).error == Scan(crc, bytes).error <==> SameFault(crc, bytes))
    ensures Scan(crc, bytes).Ok? && Decode(crc, bytes).Err? ==>
              && LazyHeader(crc, bytes[..72]).Ok?
              && var count := LazyHeader(crc, bytes[..72]).value.1;
              DamagePassed(crc, bytes, HEADER_SIZE, count) &&
              Decode(crc, bytes).error == FirstDamage(crc, bytes, HEADER_SIZE, count)
  {
    if |bytes| >= HEADER_SIZE {
      var header := LazyHeader(crc, bytes[..72]);
      if header.Ok? {
        BodiesDecide(crc, bytes, header.value.0, header.value.1);
        BodyFaultsAgree(crc, bytes, header.value.0, header.value.1);
      } else {
        HeadersAgree(crc, bytes);
      }
    }
  }

  /** One empty frame of the given kind and checksum. */
  function RawFrame(kind: nat, flags: nat, checksum: nat): (bytes: seq<byte>)
    ensures |bytes| == SECTION_HEADER_SIZE
  {
    FrameSize();
    Join(FrameWidth, [kind, flags, 0, checksum])
  }

  lemma RawFrameRead(kind: nat, flags: nat, checksum: nat, rest: seq<byte>)
    requires kind <= U16_MAX && flags <= U16_MAX && checksum <= U32_MAX
    ensures FrameHeader(RawFrame(kind, flags, checksum) + rest) == [kind, flags, 0, checksum]
  {
    var fields := [kind, flags, 0, checksum];
    FrameSize();
    Limits();
    assert Fits(FrameWidth, 0, fields);
    SplitJoin(FrameWidth, fields);
    assert (RawFrame(kind, flags, checksum) + rest)[..16] == RawFrame(kind, flags, checksum);
  }

  /** One frame with two faults: kind 999, required, with a checksum that is not that of an empty payload. */
  lemma FrameFaultsDiffer(crc: Checksum)
    ensures
      var wrong := if crc.Of([]) == 0 then 1 else 0;
      var bytes := RawFrame(999, 1, wrong);
      && ParseFrame(crc, bytes[0..]) == Err(SectionChecksumMismatch(wrong, crc.Of([])))
      && ScanFrame(crc, bytes, 0) == Err(UnknownRequiredSection(999))
  {
    var wrong := if crc.Of([]) == 0 then 1 else 0;
    var bytes := RawFrame(999, 1, wrong);
    RawFrameRead(999, 1, wrong, []);
    assert bytes + [] == bytes == bytes[0..] == bytes[0..16] && bytes[16..16] == [];
  }

  /** A damaged section after any header, followed by one more byte, in both readers. */
  lemma {:induction false} DamagedFrame(crc: Checksum, head: seq<byte>, wrong: u32)
    requires |head| == HEADER_SIZE && wrong != crc.Of([])
    ensures
      var bytes := head + (RawFrame(1, 0, wrong) + [0]);
      && ParseFrames(crc, bytes[72..], 1) == Err(SectionChecksumMismatch(wrong, crc.Of([])))
      && ScanFrames(crc, bytes, 72, 1) == Ok(([Descriptor(Keys, false, 88, 0, wrong)], 88))
  {
    var frame := RawFrame(1, 0, wrong) + [0];
    var bytes := head + frame;
    RawFrameRead(1, 0, wrong, [0]);
    RawFrameRead(1, 0, wrong, []);
    assert bytes[72..] == frame && bytes[72..88] == RawFrame(1, 0, wrong) + [] && frame[16..16] == [];
    assert ParseFrame(crc, frame) == Err(SectionChecksumMismatch(wrong, crc.Of([])));
    assert ScanFrame(crc, bytes, 72) == Ok((Some(Descriptor(Keys, false, 88, 0, wrong)), 88));
    ScanUnrolls(crc, bytes, 72, 1);
    assert ScanFrames(crc, bytes, 88, 0) == Ok(([], 88));
    assert [Descriptor(Keys, false, 88, 0, wrong)] + [] == [Descriptor(Keys, false, 88, 0, wrong)];
  }

  lemma DamagedBody(crc: Checksum, head: seq<byte>, m: Metadata, wrong: u32)
    requires |head| == HEADER_SIZE && wrong != crc.Of([])
    ensures
      var bytes := head + (RawFrame(1, 0, wrong) + [0]);
      && Assemble(ParseBody(crc, bytes, m, 1)) == Err(SectionChecksumMismatch(wrong, crc.Of([])))
      && ScanBody(crc, bytes, Ok((m, 1))) == Err(TrailingBytes(1))
  {
    DamagedFrame(crc, head, wrong);
  }

  /** A damaged section hides a later fault from the eager reader only: here, a byte after the last section. */
  lemma {:induction false} DamageHidesFault(crc: Checksum, m: Metadata)
    requires ValidMetadata(m)
    ensures
      var wrong := if crc.Of([]) == 0 then 1 else 0;
      var bytes := EncodeHeader(crc, m, 1) + (RawFrame(1, 0, wrong) + [0]);
      Decode(crc, bytes) == Err(SectionChecksumMismatch(wrong, crc.Of([]))) && Scan(crc, bytes) == Err(TrailingBytes(1))
  {
    var wrong := if crc.Of([]) == 0 then 1 else 0;
    var bytes := EncodeHeader(crc, m, 1) + (RawFrame(1, 0, wrong) + [0]);
    LazyRoundTrip(crc, m, 1, RawFrame(1, 0, wrong) + [0]);
    DamagedBody(crc, EncodeHeader(crc, m, 1), m, wrong);
    BodiesDecide(crc, bytes, m, 1);
  }

  /** A damaged section and a damaged section of an unknown kind after any header. */
  lemma {:induction false} TwoDamagedFrames(crc: Checksum, head: seq<byte>, first: u32, second: u32)
    requires |head| == HEADER_SIZE && first != crc.Of([]) && second != crc.Of([])
    ensures
      var bytes := head + (RawFrame(1, 0, first) + RawFrame(999, 0, second));
      && ParseFrames(crc, bytes[72..], 2) == Err(SectionChecksumMismatch(first, crc.Of([])))
      && ScanFrames(crc, bytes, 72, 2) == Err(SectionChecksumMismatch(second, crc.Of([])))
  {
    var frames := RawFrame(1, 0, first) + RawFrame(999, 0, second);
    var bytes := head + frames;
    RawFrameRead(1, 0, first, RawFrame(999, 0, second));
    RawFrameRead(1, 0, first, []);
    RawFrameRead(999, 0, second, []);
    assert bytes[72..] == frames && bytes[72..88] == RawFrame(1, 0, first) + [] && frames[16..16] == [];
    assert bytes[88..104] == RawFrame(999, 0, second) + [] && bytes[104..104] == [];
    assert ParseFrame(crc, frames) == Err(SectionChecksumMismatch(first, crc.Of([])));
    assert ScanFrame(crc, bytes, 72) == Ok((Some(Descriptor(Keys, false, 88, 0, first)), 88));
    assert ScanFrame(crc, bytes, 88) == Err(SectionChecksumMismatch(second, crc.Of([])));
    ScanUnrolls(crc, bytes, 72, 2);
    assert ScanFrames(crc, bytes, 88, 1) == Err(SectionChecksumMismatch(second, crc.Of([])));
  }

  lemma TwoDamagedBodies(crc: Checksum, head: seq<byte>, m: Metadata, first: u32, second: u32)
    requires |head| == HEADER_SIZE && first != crc.Of([]) && second != crc.Of([])
    ensures
      var bytes := head + (RawFrame(1, 0, first) + RawFrame(999, 0, second));
      && Assemble(ParseBody(crc, bytes, m, 2)) == Err(SectionChecksumMismatch(first, crc.Of([])))
      && ScanBody(crc, bytes, Ok((m, 2))) == Err(SectionChecksumMismatch(second, crc.Of([])))
  {
    TwoDamagedFrames(crc, head, first, second);
  }

  /** Both readers report damage, each that of another section: the same fault only if the two are damaged alike. */
  lemma {:induction false} DamageHidesDamage(crc: Checksum, m: Metadata, first: u32, second: u32)
    requires ValidMetadata(m) && first != crc.Of([]) && second != crc.Of([])
    ensures
      var bytes := EncodeHeader(crc, m, 2) + (RawFrame(1, 0, first) + RawFrame(999, 0, second));
      && Decode(crc, bytes) == Err(SectionChecksumMismatch(first, crc.Of([])))
      && Scan(crc, bytes) == Err(SectionChecksumMismatch(second, crc.Of([])))
      && (SameFault(crc, bytes) <==> first == second)
  {
    var frames := RawFrame(1, 0, first) + RawFrame(999, 0, second);
    var bytes := EncodeHeader(crc, m, 2) + frames;
    LazyRoundTrip(crc, m, 2, frames);
    TwoDamagedBodies(crc, EncodeHeader(crc, m, 2), m, first, second);
    BodiesDecide(crc, bytes, m, 2);
    FaultsAgree(crc, bytes);
  }

  // ---- The reader itself ----

  /** A seekable reader over a file that does not change. */
  class Reader {
    const bytes: seq<byte>
    var position: nat

    constructor (bytes: seq<byte>)
      ensures this.bytes == bytes && position == 0
    {
      this.bytes := bytes;
      position := 0;
    }

    method Seek(target: nat)
      modifies this
      ensures position == target
    {
      position := target;
    }

    /** Fill a buffer of the given length, unless the file ends before. */
    method ReadExact(length: nat) returns (r: Option<seq<byte>>)
      modifies this
      ensures r == if old(position) + length <= |bytes|
                   then Some(bytes[old(position)..old(position) + length]) else None
      ensures r.Some? ==> position == old(position) + length
    {
      if position + length > |bytes| {
        return None;
      }
      r := Some(bytes[position..position + length]);
      position := position + length;
    }
  }

  const CHECKSUM_BUFFER_BYTES: nat := 64 * 1024

  /** Stream a payload through the checksum buffer by buffer; the buffer size does not matter. */
  method VerifySkippedPayload(crc: Checksum, reader: Reader, length: nat, expected: nat)
    returns (r: Result<(), FormatError>)
    requires reader.position + length <= |reader.bytes|
    modifies reader
    ensures
      var actual := crc.Of(reader.bytes[old(reader.position)..old(reader.position) + length]);
      r == if actual == expected then Ok(()) else Err(SectionChecksumMismatch(expected, actual))
  {
    var start := reader.position;
    var remaining := length;
    var state := crc.init;
    assert reader.bytes[start..start] == [];
    while remaining > 0
      invariant 0 <= remaining <= length && reader.position == start + (length - remaining)
      invariant state == crc.Feed(crc.init, reader.bytes[start..reader.position])
    {
      var count := if remaining < CHECKSUM_BUFFER_BYTES then remaining else CHECKSUM_BUFFER_BYTES;
      var from := reader.position;
      var buffer := reader.ReadExact(count);
      crc.FeedConcat(crc.init, reader.bytes[start..from], reader.bytes[from..from + count]);
      assert reader.bytes[start..from] + reader.bytes[from..from + count] == reader.bytes[start..from + count];
      state := crc.Feed(state, buffer.value);
      remaining := remaining - count;
    }
    var actual := crc.finish(state);
    return if actual == expected then Ok(()) else Err(SectionChecksumMismatch(expected, actual));
  }

  method ReadFrameHeader(crc: Checksum, reader: Reader, cursor: nat)
    returns (r: Result<(Option<Descriptor>, nat), FormatError>)
    requires cursor <= |reader.bytes|
    modifies reader
    ensures r == ScanFrame(crc, reader.bytes, cursor)
  {
    if cursor + SECTION_HEADER_SIZE > |reader.bytes| {
      return Err(Truncated(SectionHeader));
    }
    reader.Seek(cursor);
    var header := reader.ReadExact(SECTION_HEADER_SIZE);
    var v := FrameHeader(header.value);
    if CheckFrame(v).Some? {
      return Err(CheckFrame(v).value);
    }
    var start := cursor + SECTION_HEADER_SIZE;
    if start + v[2] > |reader.bytes| {
      return Err(Truncated(SectionPayload));
    }
    if KindFromRaw(v[0]).Some? {
      return Ok((Some(Descriptor(KindFromRaw(v[0]).value, v[1] == 1, start, v[2], v[3])), start + v[2]));
    }
    if v[1] == 1 {
      return Err(UnknownRequiredSection(v[0]));
    }
    var verified := VerifySkippedPayload(crc, reader, v[2], v[3]);
    if verified.Err? {
      return Err(verified.error);
    }
    return Ok((None, start + v[2]));
  }

  /** One more frame extends a scan of `count` frames. */
  lemma {:induction false} ScanExtends(crc: Checksum, bytes: seq<byte>, cursor: nat, count: nat)
    requires cursor <= |bytes| && ScanFrames(crc, bytes, cursor, count).Ok?
    ensures
      var (sections, end) := ScanFrames(crc, bytes, cursor, count).value;
      end <= |bytes| && ScanFrames(crc, bytes, cursor, count + 1) == Extended(sections, ScanFrame(crc, bytes, end))
    decreases count
  {
    if count == 0 {
      var scanned := ScanFrame(crc, bytes, cursor);
      if scanned.Ok? {
        FramesAgree(crc, bytes, cursor);
        var head := if scanned.value.0.Some? then [scanned.value.0.value] else [];
        assert ScanFrames(crc, bytes, scanned.value.1, 0) == Ok(([], scanned.value.1));
        assert head + [] == [] + head;
      }
    } else {
      FramesAgree(crc, bytes, cursor);
      var (found, next) := ScanFrame(crc, bytes, cursor).value;
      ScanExtends(crc, bytes, next, count - 1);
      var (sections, end) := ScanFrames(crc, bytes, next, count - 1).value;
      ExtendedAssociates(if found.Some? then [found.value] else [], sections, ScanFrame(crc, bytes, end));
    }
  }

  function Extended(sections: seq<Descriptor>, next: Result<(Option<Descriptor>, nat), FormatError>)
    : Result<(seq<Descriptor>, nat), FormatError>
  {
    if next.Err? then Err(next.error)
    else Ok((sections + (if next.value.0.Some? then [next.value.0.value] else []), next.value.1))
  }

  lemma ExtendedAssociates(head: seq<Descriptor>, sections: seq<Descriptor>,
                           next: Result<(Option<Descriptor>, nat), FormatError>)
    ensures Extended(head + sections, next) ==
            if next.Err? then Err(next.error)
            else Ok((head + Extended(sections, next).value.0, next.value.1))
  {
    if next.Ok? {
      var tail := if next.value.0.Some? then [next.value.0.value] else [];
      assert head + sections + tail == head + (sections + tail);
    }
  }

  lemma {:induction false} ScanFails(crc: Checksum, bytes: seq<byte>, cursor: nat, done: nat, count: nat)
    requires cursor <= |bytes| && done <= count && ScanFrames(crc, bytes, cursor, done).Err?
    ensures ScanFrames(crc, bytes, cursor, count) == Err(ScanFrames(crc, bytes, cursor, done).error)
    decreases done
  {
    if done > 0 && ScanFrame(crc, bytes, cursor).Ok? {
      FramesAgree(crc, bytes, cursor);
      ScanFails(crc, bytes, ScanFrame(crc, bytes, cursor).value.1, done - 1, count - 1);
    }
  }

  method ReadFrameHeaders(crc: Checksum, reader: Reader, count: nat)
    returns (r: Result<(seq<Descriptor>, nat), FormatError>)
    requires |reader.bytes| >= HEADER_SIZE
    modifies reader
    ensures r == ScanFrames(crc, reader.bytes, HEADER_SIZE, count)
  {
    r := Ok(([], HEADER_SIZE));
    var i := 0;
    while i < count
      invariant 0 <= i <= count
      invariant r.Ok? && r == ScanFrames(crc, reader.bytes, HEADER_SIZE, i)
    {
      ScanExtends(crc, reader.bytes, HEADER_SIZE, i);
      var next := ReadFrameHeader(crc, reader, r.value.1);
      r := Extended(r.value.0, next);
      if r.Err? {
        ScanFails(crc, reader.bytes, HEADER_SIZE, i + 1, count);
        return;
      }
      i := i + 1;
    }
  }

  /** The lazy reader. */
  method ReadFrom(crc: Checksum, reader: Reader) returns (r: Result<FileLayout, FormatError>)
    modifies reader
    ensures r == Scan(crc, reader.bytes)
  {
    reader.Seek(0);
    var header := reader.ReadExact(HEADER_SIZE);
    if header.None? {
      return Err(Truncated(FileHeader));
    }
    assert reader.bytes[0..72] == reader.bytes[..72];
    r := ReadBody(crc, reader, LazyHeader(crc, header.value));
  }

  method ReadBody(crc: Checksum, reader: Reader, header: Result<(Metadata, u32), FormatError>)
    returns (r: Result<FileLayout, FormatError>)
    requires |reader.bytes| >= HEADER_SIZE
    modifies reader
    ensures r == ScanBody(crc, reader.bytes, header)
  {
    if header.Err? {
      return Err(header.error);
    }
    var (metadata, count) := header.value;
    if count > MAX_SECTION_COUNT {
      return Err(TooManySections(count));
    }
    var scanned := ReadFrameHeaders(crc, reader, count);
    if scanned.Err? {
      return Err(scanned.error);
    }
    var (sections, end) := scanned.value;
    if end < |reader.bytes| {
      return Err(TrailingBytes(|reader.bytes| - end));
    }
    return Ok(FileLayout(metadata, sections, |reader.bytes|));
  }

  /** A bounded range of one section, without its checksum. */
  method ReadSectionRange(layout: FileLayout, reader: Reader, d: Descriptor, offset: nat, length: nat)
    returns (r: Result<seq<byte>, LayoutError>)
    requires layout.fileLength == |reader.bytes|
    modifies reader
    ensures r.Ok? <==>
            && offset + length <= d.length && offset + length <= U64_MAX
            && d.offset + offset + length <= U64_MAX && d.offset + offset + length <= |reader.bytes|
    ensures r.Ok? && d.offset + d.length <= |reader.bytes| ==>
            r.value == Payload(reader.bytes, d)[offset..offset + length]
  {
    if offset + length > U64_MAX {
      return Err(LengthOverflow);
    }
    if offset + length > d.length {
      return Err(RangeOutOfBounds(offset, length, d.length));
    }
    if d.offset + offset + length > U64_MAX {
      return Err(LengthOverflow);
    }
    if d.offset + offset + length > layout.fileLength {
      return Err(Format(Truncated(SectionRange)));
    }
    reader.Seek(d.offset + offset);
    var read := reader.ReadExact(length);
    if d.offset + d.length <= |reader.bytes| {
      SliceOfSlice(reader.bytes, d.offset, d.offset + d.length, offset, length);
    }
    return Ok(read.value);
  }

  /** A whole section; fails exactly when its payload does not match the stored checksum. */
  method ReadSection(crc: Checksum, layout: FileLayout, reader: Reader, d: Descriptor)
    returns (r: Result<seq<byte>, LayoutError>)
    requires layout.fileLength == |reader.bytes| <= U64_MAX && d.offset + d.length <= |reader.bytes|
    modifies reader
    ensures r == if Intact(crc, reader.bytes, d) then Ok(Payload(reader.bytes, d))
                 else Err(Format(Damage(crc, reader.bytes, d)))
  {
    r := ReadSectionRange(layout, reader, d, 0, d.length);
    assert r.value == Payload(reader.bytes, d);
    if crc.Of(r.value) != d.checksum {
      return Err(Format(SectionChecksumMismatch(d.checksum, crc.Of(r.value))));
    }
  }
}
