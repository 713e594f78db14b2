/** Bucket segments: a checksummed header, a sorted checksummed directory, and the member lists it locates. */
module BucketSegments {
  import opened Words
  import opened Bytes
  import opened Container

  datatype BucketKey = BucketKey(band: u32, hash: u64)

  predicate Less(a: BucketKey, b: BucketKey) {
    a.band < b.band || (a.band == b.band && a.hash < b.hash)
  }

  /** Bucket keys are ordered as the 96-bit numbers with the band on top. */
  lemma LessIsNumeric(a: BucketKey, b: BucketKey)
    ensures Less(a, b) <==>
            a.band * 0x1_0000_0000_0000_0000 + a.hash < b.band * 0x1_0000_0000_0000_0000 + b.hash
  {
  }

  datatype Record = Record(key: BucketKey, members: seq<u64>)

  /** Where one member list lies in the segment, and its checksum. */
  datatype Location = Location(key: BucketKey, offset: nat, count: nat, checksum: nat)

  datatype BucketError = Invalid | DirectoryChecksumMismatch | MemberChecksumMismatch | LengthOverflow

  const SEGMENT_MAGIC: nat := 0x0054_4B42_4952_4150 // "PARIBKT\0" as a little-endian number
  const SEGMENT_VERSION: nat := 1
  const SEGMENT_HEADER_BYTES: nat := 40
  const ENTRY_BYTES: nat := 32

  // ---- Member lists ----

  function MemberBytes(members: seq<u64>): (bytes: seq<byte>)
    ensures |bytes| == 8 * |members|
  {
    if members == [] then [] else Le(members[0], 8) + MemberBytes(members[1..])
  }

  function Members(bytes: seq<byte>): (members: seq<u64>)
    requires |bytes| % 8 == 0
    ensures 8 * |members| == |bytes|
  {
    if bytes == [] then [] else
      Limits();
      [FromLe(bytes[..8])] + Members(bytes[8..])
  }

  lemma {:induction false} MembersInvert(members: seq<u64>)
    ensures Members(MemberBytes(members)) == members
  {
    if members != [] {
      Limits();
      var bytes := MemberBytes(members);
      assert bytes[..8] == Le(members[0], 8) && bytes[8..] == MemberBytes(members[1..]);
      FromLeInverts(members[0], 8);
      MembersInvert(members[1..]);
    }
  }

  lemma {:induction false} MemberBytesInvert(bytes: seq<byte>)
    requires |bytes| % 8 == 0
    ensures MemberBytes(Members(bytes)) == bytes
  {
    if bytes != [] {
      LeInverts(bytes[..8]);
      MemberBytesInvert(bytes[8..]);
      assert bytes == bytes[..8] + bytes[8..];
    }
  }

  // ---- Directory ----

  /** Band, reserved, hash, member offset, member count, member checksum. */
  function EntryWidth(field: nat): nat {
    if 2 <= field < 4 then 8 else 4
  }

  lemma EntrySize()
    ensures Total(EntryWidth, 0, 6) == ENTRY_BYTES
  {
  }

  function EntryFields(location: Location): (fields: seq<nat>)
    ensures |fields| == 6
  {
    [location.key.band, 0, location.key.hash, location.offset, location.count, location.checksum]
  }

  function EncodeEntry(location: Location): (bytes: seq<byte>)
    ensures |bytes| == ENTRY_BYTES
  {
    EntrySize();
    Join(EntryWidth, EntryFields(location))
  }

  function EncodeEntries(locations: seq<Location>): (bytes: seq<byte>)
    ensures |bytes| == ENTRY_BYTES * |locations|
  {
    if locations == [] then [] else EncodeEntry(locations[0]) + EncodeEntries(locations[1..])
  }

  /** The location an entry describes, if its fields are in order. */
  function CheckEntry(v: seq<nat>, expected: nat, previous: Option<BucketKey>, bands: nat, limit: nat)
    : Result<Location, BucketError>
    requires |v| == 6 && Fits(EntryWidth, 0, v)
  {
    Limits();
    var key := BucketKey(v[0], v[2]);
    if v[1] != 0 || key.band >= bands then Err(Invalid)
    else if previous.Some? && !Less(previous.value, key) then Err(Invalid)
    else if v[3] != expected then Err(Invalid)
    else if v[3] + 8 * v[4] > U64_MAX then Err(LengthOverflow)
    else if v[3] + 8 * v[4] > limit then Err(Invalid)
    else Ok(Location(key, v[3], v[4], v[5]))
  }

  function EntryAt(directory: seq<byte>): (v: seq<nat>)
    requires |directory| >= ENTRY_BYTES
    ensures |v| == 6 && Fits(EntryWidth, 0, v)
  {
    EntrySize();
    Split(EntryWidth, 6, directory[..32])
  }

  /** The entries of a directory whose member ranges start at `expected`. */
  function ParseEntries(directory: seq<byte>, expected: nat, previous: Option<BucketKey>, bands: nat, limit: nat)
    : Result<seq<Location>, BucketError>
    decreases |directory|
  {
    if |directory| < ENTRY_BYTES then
      if expected == limit then Ok([]) else Err(Invalid)
    else
      var location :- CheckEntry(EntryAt(directory), expected, previous, bands, limit);
      var others :- ParseEntries(directory[32..], expected + 8 * location.count, Some(location.key), bands, limit);
      Ok([location] + others)
  }

  /** Keys ascend, bands are in range, and the member ranges tile the bytes from `start` to `limit`. */
  ghost predicate InOrder(locations: seq<Location>, start: nat, previous: Option<BucketKey>, bands: nat, limit: nat)
    decreases |locations|
  {
    if locations == [] then start == limit
    else
      var first := locations[0];
      && first.offset == start && first.key.band < bands
      && (previous.Some? ==> Less(previous.value, first.key))
      && start + 8 * first.count <= limit && start + 8 * first.count <= U64_MAX
      && first.offset <= U64_MAX && first.count <= U32_MAX && first.checksum <= U32_MAX
      && InOrder(locations[1..], start + 8 * first.count, Some(first.key), bands, limit)
  }

  lemma EntryRoundTrip(location: Location)
    requires location.offset <= U64_MAX && location.count <= U32_MAX && location.checksum <= U32_MAX
    ensures EntryAt(EncodeEntry(location)) == EntryFields(location)
  {
    EntrySize();
    Limits();
    var fields := EntryFields(location);
    assert Fits(EntryWidth, 0, fields);
    assert EncodeEntry(location)[..32] == EncodeEntry(location);
    SplitJoin(EntryWidth, fields);
  }

  lemma {:induction false} EntriesRoundTrip(locations: seq<Location>, start: nat, previous: Option<BucketKey>,
                                            bands: nat, limit: nat)
    requires InOrder(locations, start, previous, bands, limit)
    ensures ParseEntries(EncodeEntries(locations), start, previous, bands, limit) == Ok(locations)
    decreases |locations|
  {
    if locations != [] {
      var first, directory := locations[0], EncodeEntries(locations);
      EntryRoundTrip(first);
      assert directory[..32] == EncodeEntry(first)[..32] && directory[32..] == EncodeEntries(locations[1..]);
      assert EntryAt(directory) == EntryFields(first);
      EntriesRoundTrip(locations[1..], start + 8 * first.count, Some(first.key), bands, limit);
      assert [first] + locations[1..] == locations;
    }
  }

  lemma {:induction false} EntriesCanonical(directory: seq<byte>, start: nat, previous: Option<BucketKey>,
                                            bands: nat, limit: nat)
    requires |directory| % ENTRY_BYTES == 0
    requires ParseEntries(directory, start, previous, bands, limit).Ok?
    ensures
      var locations := ParseEntries(directory, start, previous, bands, limit).value;
      InOrder(locations, start, previous, bands, limit) && EncodeEntries(locations) == directory
    decreases |directory|
  {
    if directory != [] {
      var v := EntryAt(directory);
      var first := CheckEntry(v, start, previous, bands, limit).value;
      EntrySize();
      Limits();
      assert EntryFields(first) == v;
      JoinSplit(EntryWidth, 6, directory[..32]);
      EntriesCanonical(directory[32..], start + 8 * first.count, Some(first.key), bands, limit);
      var others := ParseEntries(directory[32..], start + 8 * first.count, Some(first.key), bands, limit).value;
      assert ([first] + others)[1..] == others;
      assert directory == directory[..32] + directory[32..];
    }
  }

  // ---- Whole segments ----

  /** Records strictly ascend by key. */
  predicate Sorted(records: seq<Record>) {
    forall i :: 0 <= i < |records| - 1 ==> Less(records[i].key, records[i + 1].key)
  }

  function LocationsOf(crc: Checksum, records: seq<Record>, start: nat): (locations: seq<Location>)
    ensures |locations| == |records|
    decreases |records|
  {
    if records == [] then []
    else
      var first := records[0];
      [Location(first.key, start, |first.members|, crc.Of(MemberBytes(first.members)))] +
      LocationsOf(crc, records[1..], start + 8 * |first.members|)
  }

  function AllMemberBytes(records: seq<Record>): seq<byte> {
    if records == [] then [] else MemberBytes(records[0].members) + AllMemberBytes(records[1..])
  }

  /** Magic, version, header size, record count, directory bytes, directory checksum. */
  function SegmentWidth(field: nat): nat {
    if field == 1 || field == 2 then 2 else if field == 5 then 4 else 8
  }

  lemma SegmentSizes()
    ensures Total(SegmentWidth, 0, 6) == 32 && Total(SealWidth, 0, 2) == 8
  {
  }

  function SegmentFields(crc: Checksum, count: nat, directory: seq<byte>): (fields: seq<nat>)
    ensures |fields| == 6
  {
    [SEGMENT_MAGIC, SEGMENT_VERSION, SEGMENT_HEADER_BYTES, count, |directory|, crc.Of(directory)]
  }

  function SegmentHeader(crc: Checksum, count: nat, directory: seq<byte>): (header: seq<byte>)
    ensures |header| == SEGMENT_HEADER_BYTES
  {
    SegmentSizes();
    var body := Join(SegmentWidth, SegmentFields(crc, count, directory));
    body + Join(SealWidth, [crc.Of(body), 0])
  }

  function MemberStart(count: nat): nat {
    SEGMENT_HEADER_BYTES + ENTRY_BYTES * count
  }

  /** The directory of a segment that holds these records. */
  function Directory(crc: Checksum, records: seq<Record>): (directory: seq<byte>)
    ensures |directory| == ENTRY_BYTES * |records|
  {
    EncodeEntries(LocationsOf(crc, records, MemberStart(|records|)))
  }

  function SegmentBytes(crc: Checksum, records: seq<Record>): seq<byte> {
    SegmentHeader(crc, |records|, Directory(crc, records)) + Directory(crc, records) + AllMemberBytes(records)
  }

  predicate CountsFit(records: seq<Record>) {
    forall i :: 0 <= i < |records| ==> |records[i].members| <= U32_MAX
  }

  /** The writer refuses unsorted records and lengths that do not fit their fields. */
  function EncodeSegment(crc: Checksum, records: seq<Record>): Result<seq<byte>, BucketError> {
    if !Sorted(records) then Err(Invalid)
    else if !CountsFit(records) || MemberStart(|records|) + |AllMemberBytes(records)| > U64_MAX then Err(LengthOverflow)
    else Ok(SegmentBytes(crc, records))
  }

  /** Record count and directory checksum of an acceptable segment header. */
  function CheckSegmentHeader(crc: Checksum, payload: seq<byte>): Result<(nat, nat), BucketError>
    requires |payload| >= SEGMENT_HEADER_BYTES
  {
    SegmentSizes();
    var v, seal := Split(SegmentWidth, 6, payload[..32]), Split(SealWidth, 2, payload[32..40]);
    if v[0] != SEGMENT_MAGIC || v[1] != SEGMENT_VERSION || v[2] != SEGMENT_HEADER_BYTES then Err(Invalid)
    else if seal[1] != 0 then Err(Invalid)
    else if seal[0] != crc.Of(payload[..32]) then Err(DirectoryChecksumMismatch)
    else if v[4] != ENTRY_BYTES * v[3] then Err(Invalid)
    else Ok((v[3], v[5]))
  }

  /** Locations of all member lists, without reading any of them. */
  function DecodeSegment(crc: Checksum, payload: seq<byte>, bands: nat): Result<seq<Location>, BucketError> {
    if |payload| < SEGMENT_HEADER_BYTES then Err(Invalid)
    else
      var (count, checksum) :- CheckSegmentHeader(crc, payload);
      DecodeDirectory(crc, payload, count, checksum, bands)
  }

  function DecodeDirectory(crc: Checksum, payload: seq<byte>, count: nat, checksum: nat, bands: nat)
    : Result<seq<Location>, BucketError>
    requires |payload| >= SEGMENT_HEADER_BYTES
  {
    if MemberStart(count) > |payload| then Err(Invalid)
    else
      var directory := payload[40..MemberStart(count)];
      if crc.Of(directory) != checksum then Err(DirectoryChecksumMismatch)
      else DecodeEntries(directory, MemberStart(count), bands, |payload|)
  }

  /** All entries of a directory, for a band count that fits its field. */
  function DecodeEntries(directory: seq<byte>, start: nat, bands: nat, limit: nat): Result<seq<Location>, BucketError> {
    if bands > U32_MAX then Err(LengthOverflow) else ParseEntries(directory, start, None, bands, limit)
  }

  /** The keys of one member list, if its bytes match their checksum. */
  function ReadMembers(crc: Checksum, payload: seq<byte>, location: Location): Result<seq<u64>, BucketError> {
    if location.offset + 8 * location.count > |payload| then Err(LengthOverflow)
    else
      var bytes := payload[location.offset..location.offset + 8 * location.count];
      if crc.Of(bytes) != location.checksum then Err(MemberChecksumMismatch) else Ok(Members(bytes))
  }

  lemma HeaderAccepts(crc: Checksum, count: nat, directory: seq<byte>, rest: seq<byte>)
    requires |directory| == ENTRY_BYTES * count && |directory| <= U64_MAX
    ensures CheckSegmentHeader(crc, SegmentHeader(crc, count, directory) + rest) == Ok((count, crc.Of(directory)))
  {
    SegmentSizes();
    Limits();
    var fields := SegmentFields(crc, count, directory);
    var body := Join(SegmentWidth, fields);
    var seal := Join(SealWidth, [crc.Of(body), 0]);
    var payload := SegmentHeader(crc, count, directory) + rest;
    assert payload[..32] == body && payload[32..40] == seal;
    assert Fits(SegmentWidth, 0, fields);
    SplitJoin(SegmentWidth, fields);
    SplitJoin(SealWidth, [crc.Of(body), 0]);
  }

  lemma HeaderDetermined(crc: Checksum, payload: seq<byte>, directory: seq<byte>)
    requires |payload| >= SEGMENT_HEADER_BYTES && CheckSegmentHeader(crc, payload).Ok?
    requires
      var (count, checksum) := CheckSegmentHeader(crc, payload).value;
      |directory| == ENTRY_BYTES * count && crc.Of(directory) == checksum
    ensures payload[..40] == SegmentHeader(crc, CheckSegmentHeader(crc, payload).value.0, directory)
  {
    SegmentSizes();
    var v, seal := Split(SegmentWidth, 6, payload[..32]), Split(SealWidth, 2, payload[32..40]);
    assert v == SegmentFields(crc, v[3], directory);
    JoinSplit(SegmentWidth, 6, payload[..32]);
    assert seal == [crc.Of(payload[..32]), 0];
    JoinSplit(SealWidth, 2, payload[32..40]);
    assert payload[..40] == payload[..32] + payload[32..40];
  }

  predicate BandsBelow(records: seq<Record>, bands: nat) {
    forall i :: 0 <= i < |records| ==> records[i].key.band < bands
  }

  lemma {:induction false} LocationsInOrder(crc: Checksum, records: seq<Record>, start: nat,
                                            previous: Option<BucketKey>, bands: nat)
    requires Sorted(records) && CountsFit(records) && BandsBelow(records, bands)
    requires previous.Some? && records != [] ==> Less(previous.value, records[0].key)
    requires start + |AllMemberBytes(records)| <= U64_MAX
    ensures InOrder(LocationsOf(crc, records, start), start, previous, bands, start + |AllMemberBytes(records)|)
    decreases |records|
  {
    if records != [] {
      var first, rest := records[0], records[1..];
      assert forall i :: 0 <= i < |rest| ==> rest[i] == records[i + 1];
      LocationsInOrder(crc, rest, start + 8 * |first.members|, Some(first.key), bands);
      var locations := LocationsOf(crc, records, start);
      assert locations[1..] == LocationsOf(crc, rest, start + 8 * |first.members|);
    }
  }

  /** A location has its record's key and the number and checksum of its members. */
  ghost predicate Announces(crc: Checksum, location: Location, record: Record) {
    && location.key == record.key && location.count == |record.members|
    && location.checksum == crc.Of(MemberBytes(record.members))
  }

  /** A location's range holds the bytes of its record's members. */
  ghost predicate Contains(payload: seq<byte>, location: Location, record: Record) {
    && location.count == |record.members| && location.offset + 8 * location.count <= |payload|
    && payload[location.offset..location.offset + 8 * location.count] == MemberBytes(record.members)
  }

  lemma {:induction false} MembersLocated(crc: Checksum, records: seq<Record>, payload: seq<byte>, start: nat, i: nat)
    requires start <= |payload| && payload[start..] == AllMemberBytes(records) && i < |records|
    ensures Announces(crc, LocationsOf(crc, records, start)[i], records[i])
    ensures Contains(payload, LocationsOf(crc, records, start)[i], records[i])
    decreases |records|
  {
    var bytes, rest := MemberBytes(records[0].members), records[1..];
    SuffixSplit(payload, start, bytes, AllMemberBytes(rest));
    if i > 0 {
      MembersLocated(crc, rest, payload, start + |bytes|, i - 1);
      assert LocationsOf(crc, records, start)[i] == LocationsOf(crc, rest, start + |bytes|)[i - 1];
    }
  }

  lemma LocatedRead(crc: Checksum, payload: seq<byte>, location: Location, record: Record)
    requires Announces(crc, location, record) && Contains(payload, location, record)
    ensures ReadMembers(crc, payload, location) == Ok(record.members)
  {
    MembersInvert(record.members);
  }

  /** The bytes a location names are those of its record's members. */
  lemma {:induction false} MembersFound(crc: Checksum, records: seq<Record>, payload: seq<byte>, start: nat, i: nat)
    requires start <= |payload| && payload[start..] == AllMemberBytes(records) && i < |records|
    ensures ReadMembers(crc, payload, LocationsOf(crc, records, start)[i]) == Ok(records[i].members)
  {
    MembersLocated(crc, records, payload, start, i);
    LocatedRead(crc, payload, LocationsOf(crc, records, start)[i], records[i]);
  }

  lemma ThreeParts(a: seq<byte>, b: seq<byte>, c: seq<byte>)
    ensures
      var whole := a + b + c;
      && whole == a + (b + c) && whole[..|a|] == a
      && whole[|a|..|a| + |b|] == b && whole[|a| + |b|..] == c
  {
  }

  lemma {:induction false} SegmentShape(crc: Checksum, records: seq<Record>)
    ensures
      var payload, start, directory := SegmentBytes(crc, records), MemberStart(|records|), Directory(crc, records);
      && start <= |payload| == start + |AllMemberBytes(records)|
      && payload == SegmentHeader(crc, |records|, directory) + (directory + AllMemberBytes(records))
      && payload[40..start] == directory && payload[start..] == AllMemberBytes(records)
  {
    var directory := Directory(crc, records);
    ThreeParts(SegmentHeader(crc, |records|, directory), directory, AllMemberBytes(records));
  }

  ghost predicate KeysBelow(locations: seq<Location>, bands: nat) {
    forall i :: 0 <= i < |locations| ==> locations[i].key.band < bands
  }

  /** A smaller band count refuses exactly the directories with a band outside it. */
  lemma {:induction false} BandsDecide(directory: seq<byte>, expected: nat, previous: Option<BucketKey>, bands: nat,
                                       wide: nat, limit: nat)
    requires bands <= wide && ParseEntries(directory, expected, previous, wide, limit).Ok?
    ensures
      var locations := ParseEntries(directory, expected, previous, wide, limit).value;
      ParseEntries(directory, expected, previous, bands, limit) ==
      if KeysBelow(locations, bands) then Ok(locations) else Err(Invalid)
    decreases |directory|
  {
    if |directory| >= ENTRY_BYTES {
      var first := CheckEntry(EntryAt(directory), expected, previous, wide, limit).value;
      var next := expected + 8 * first.count;
      BandsDecide(directory[32..], next, Some(first.key), bands, wide, limit);
      BelowCons(first, ParseEntries(directory[32..], next, Some(first.key), wide, limit).value, bands);
    }
  }

  lemma BelowCons(first: Location, others: seq<Location>, bands: nat)
    ensures KeysBelow([first] + others, bands) <==> first.key.band < bands && KeysBelow(others, bands)
  {
    var all := [first] + others;
    assert forall i :: 0 <= i < |others| ==> all[i + 1] == others[i];
    assert all[0] == first;
  }

  lemma {:induction false} DirectoryAccepts(crc: Checksum, payload: seq<byte>, count: nat, bands: nat,
                                            locations: seq<Location>)
    requires SEGMENT_HEADER_BYTES <= MemberStart(count) <= |payload|
    requires payload[40..MemberStart(count)] == EncodeEntries(locations)
    requires InOrder(locations, MemberStart(count), None, U32_MAX + 1, |payload|)
    ensures DecodeDirectory(crc, payload, count, crc.Of(EncodeEntries(locations)), bands) ==
            if bands > U32_MAX then Err(LengthOverflow)
            else if KeysBelow(locations, bands) then Ok(locations) else Err(Invalid)
  {
    var start := MemberStart(count);
    EntriesRoundTrip(locations, start, None, U32_MAX + 1, |payload|);
    if bands <= U32_MAX {
      BandsDecide(EncodeEntries(locations), start, None, bands, U32_MAX + 1, |payload|);
    }
  }

  /** What a reader with the given band count makes of the directory of these records. */
  function ReadBack(crc: Checksum, records: seq<Record>, bands: nat): Result<seq<Location>, BucketError> {
    if bands > U32_MAX then Err(LengthOverflow)
    else if BandsBelow(records, bands) then Ok(LocationsOf(crc, records, MemberStart(|records|)))
    else Err(Invalid)
  }

  lemma {:induction false} LocationBands(crc: Checksum, records: seq<Record>, start: nat, bands: nat)
    ensures KeysBelow(LocationsOf(crc, records, start), bands) <==> BandsBelow(records, bands)
  {
    var locations := LocationsOf(crc, records, start);
    forall i | 0 <= i < |records|
      ensures locations[i].key == records[i].key
    {
      LocationKey(crc, records, start, i);
    }
  }

  /** A written segment has its directory where a reader looks for it, in order for the widest band count. */
  lemma {:induction false} WrittenOrder(crc: Checksum, records: seq<Record>, payload: seq<byte>)
    requires EncodeSegment(crc, records) == Ok(payload)
    ensures
      var start := MemberStart(|records|);
      && SEGMENT_HEADER_BYTES <= start <= |payload| && payload[40..start] == Directory(crc, records)
      && InOrder(LocationsOf(crc, records, start), start, None, U32_MAX + 1, |payload|)
  {
    SegmentShape(crc, records);
    LocationsInOrder(crc, records, MemberStart(|records|), None, U32_MAX + 1);
  }

  /** The directory part of a written segment reads back, unless a band is outside the count or the count too large. */
  lemma {:induction false} WrittenDirectory(crc: Checksum, records: seq<Record>, payload: seq<byte>, bands: nat)
    requires EncodeSegment(crc, records) == Ok(payload)
    ensures |payload| >= SEGMENT_HEADER_BYTES
    ensures DecodeDirectory(crc, payload, |records|, crc.Of(Directory(crc, records)), bands) ==
            ReadBack(crc, records, bands)
  {
    var start := MemberStart(|records|);
    WrittenOrder(crc, records, payload);
    LocationBands(crc, records, start, bands);
    DirectoryAccepts(crc, payload, |records|, bands, LocationsOf(crc, records, start));
  }

  /** The header of a written segment announces its directory. */
  lemma {:induction false} WrittenHeader(crc: Checksum, records: seq<Record>, payload: seq<byte>)
    requires EncodeSegment(crc, records) == Ok(payload)
    ensures |payload| >= SEGMENT_HEADER_BYTES
    ensures CheckSegmentHeader(crc, payload) == Ok((|records|, crc.Of(Directory(crc, records))))
  {
    var directory := Directory(crc, records);
    SegmentShape(crc, records);
    HeaderAccepts(crc, |records|, directory, directory + AllMemberBytes(records));
  }

  lemma {:induction false} DirectoryRoundTrip(crc: Checksum, records: seq<Record>, payload: seq<byte>, bands: nat)
    requires EncodeSegment(crc, records) == Ok(payload)
    ensures DecodeSegment(crc, payload, bands) == ReadBack(crc, records, bands)
  {
    WrittenDirectory(crc, records, payload, bands);
    WrittenHeader(crc, records, payload);
    HeaderLeadsOn(crc, payload, bands, |records|, crc.Of(Directory(crc, records)));
  }

  lemma HeaderLeadsOn(crc: Checksum, payload: seq<byte>, bands: nat, count: nat, checksum: nat)
    requires |payload| >= SEGMENT_HEADER_BYTES && CheckSegmentHeader(crc, payload) == Ok((count, checksum))
    ensures DecodeSegment(crc, payload, bands) == DecodeDirectory(crc, payload, count, checksum, bands)
  {
  }

  /**
   * Reading back what was written: the same keys in the same order, each with its own members, exactly when the band
   * count fits its field and covers every record.
   */
  lemma SegmentRoundTrip(crc: Checksum, records: seq<Record>, bands: nat)
    requires EncodeSegment(crc, records).Ok?
    ensures
      var payload := EncodeSegment(crc, records).value;
      var decoded := DecodeSegment(crc, payload, bands);
      && (decoded.Ok? <==> bands <= U32_MAX && BandsBelow(records, bands))
      && (decoded.Ok? ==> Describes(crc, payload, decoded.value, records))
      && (decoded.Err? ==> decoded.error == if bands > U32_MAX then LengthOverflow else Invalid)
  {
    DirectoryRoundTrip(crc, records, EncodeSegment(crc, records).value, bands);
    MembersRoundTrip(crc, records);
  }

  lemma {:induction false} MembersRoundTrip(crc: Checksum, records: seq<Record>)
    ensures Describes(crc, SegmentBytes(crc, records), LocationsOf(crc, records, MemberStart(|records|)), records)
  {
    SegmentShape(crc, records);
    var payload, start := SegmentBytes(crc, records), MemberStart(|records|);
    forall i | 0 <= i < |records|
      ensures Names(crc, payload, LocationsOf(crc, records, start)[i], records[i])
    {
      MembersFound(crc, records, payload, start, i);
      LocationKey(crc, records, start, i);
    }
  }

  /** The location has the record's key, and reading it gives the record's members. */
  ghost predicate Names(crc: Checksum, payload: seq<byte>, location: Location, record: Record) {
    location.key == record.key && ReadMembers(crc, payload, location) == Ok(record.members)
  }

  ghost predicate Describes(crc: Checksum, payload: seq<byte>, locations: seq<Location>, records: seq<Record>) {
    |locations| == |records| && forall i :: 0 <= i < |records| ==> Names(crc, payload, locations[i], records[i])
  }

  lemma {:induction false} LocationKey(crc: Checksum, records: seq<Record>, start: nat, i: nat)
    requires i < |records|
    ensures LocationsOf(crc, records, start)[i].key == records[i].key
    decreases |records|
  {
    if i > 0 {
      LocationKey(crc, records[1..], start + 8 * |records[0].members|, i - 1);
    }
  }

  lemma DescribesRest(crc: Checksum, payload: seq<byte>, locations: seq<Location>, records: seq<Record>)
    requires Describes(crc, payload, locations, records) && records != []
    ensures Names(crc, payload, locations[0], records[0]) && Describes(crc, payload, locations[1..], records[1..])
  {
    assert forall i :: 1 <= i < |records| ==> Names(crc, payload, locations[i], records[i]);
  }

  lemma {:induction false} RecordsSorted(crc: Checksum, payload: seq<byte>, locations: seq<Location>,
                                         records: seq<Record>, start: nat, previous: Option<BucketKey>, bands: nat)
    requires InOrder(locations, start, previous, bands, |payload|) && Describes(crc, payload, locations, records)
    ensures Sorted(records) && CountsFit(records)
    ensures previous.Some? && records != [] ==> Less(previous.value, records[0].key)
    decreases |records|
  {
    if records != [] {
      DescribesRest(crc, payload, locations, records);
      var first := locations[0];
      FirstLocated(crc, payload, first);
      RecordsSorted(crc, payload, locations[1..], records[1..], start + 8 * first.count, Some(first.key), bands);
      assert forall i :: 1 <= i < |records| ==> records[i] == records[1..][i - 1];
      SortedCons(records);
    }
  }

  lemma {:induction false} InOrderRest(locations: seq<Location>, start: nat, previous: Option<BucketKey>, bands: nat,
                                       limit: nat)
    requires locations != [] && InOrder(locations, start, previous, bands, limit)
    ensures locations[0].offset == start
    ensures InOrder(locations[1..], start + 8 * locations[0].count, Some(locations[0].key), bands, limit)
  {
  }

  lemma DescribedLocated(crc: Checksum, payload: seq<byte>, locations: seq<Location>, records: seq<Record>)
    requires Describes(crc, payload, locations, records)
    ensures AnnouncesAll(crc, locations, records) && ContainsAll(payload, locations, records)
  {
    forall i | 0 <= i < |records|
      ensures Announces(crc, locations[i], records[i]) && Contains(payload, locations[i], records[i])
    {
      assert Names(crc, payload, locations[i], records[i]);
      FirstLocated(crc, payload, locations[i]);
    }
  }

  lemma {:induction false} LocationsCons(crc: Checksum, record: Record, others: seq<Record>, start: nat)
    ensures LocationsOf(crc, [record] + others, start) ==
            [Location(record.key, start, |record.members|, crc.Of(MemberBytes(record.members)))] +
            LocationsOf(crc, others, start + 8 * |record.members|)
  {
    assert ([record] + others)[1..] == others;
  }

  ghost predicate AnnouncesAll(crc: Checksum, locations: seq<Location>, records: seq<Record>) {
    |locations| == |records| && forall i :: 0 <= i < |records| ==> Announces(crc, locations[i], records[i])
  }

  lemma AnnouncesRest(crc: Checksum, locations: seq<Location>, records: seq<Record>)
    requires AnnouncesAll(crc, locations, records) && records != []
    ensures Announces(crc, locations[0], records[0]) && AnnouncesAll(crc, locations[1..], records[1..])
  {
  }

  lemma {:induction false} RecordsLocated(crc: Checksum, locations: seq<Location>, records: seq<Record>, start: nat,
                                          previous: Option<BucketKey>, bands: nat, limit: nat)
    requires InOrder(locations, start, previous, bands, limit) && AnnouncesAll(crc, locations, records)
    ensures LocationsOf(crc, records, start) == locations
    decreases |records|
  {
    if records != [] {
      var first, next := locations[0], start + 8 * locations[0].count;
      InOrderRest(locations, start, previous, bands, limit);
      AnnouncesRest(crc, locations, records);
      RecordsLocated(crc, locations[1..], records[1..], next, Some(first.key), bands, limit);
      LocationsCons(crc, records[0], records[1..], start);
      assert [first] + locations[1..] == locations && [records[0]] + records[1..] == records;
    }
  }

  lemma {:induction false} MembersCons(record: Record, others: seq<Record>)
    ensures AllMemberBytes([record] + others) == MemberBytes(record.members) + AllMemberBytes(others)
  {
    assert ([record] + others)[1..] == others;
  }

  ghost predicate ContainsAll(payload: seq<byte>, locations: seq<Location>, records: seq<Record>) {
    |locations| == |records| && forall i :: 0 <= i < |records| ==> Contains(payload, locations[i], records[i])
  }

  lemma ContainsRest(payload: seq<byte>, locations: seq<Location>, records: seq<Record>)
    requires ContainsAll(payload, locations, records) && records != []
    ensures Contains(payload, locations[0], records[0]) && ContainsAll(payload, locations[1..], records[1..])
  {
  }

  lemma {:induction false} RecordsBytes(payload: seq<byte>, locations: seq<Location>, records: seq<Record>, start: nat,
                                        previous: Option<BucketKey>, bands: nat)
    requires InOrder(locations, start, previous, bands, |payload|) && ContainsAll(payload, locations, records)
    ensures start <= |payload| && AllMemberBytes(records) == payload[start..]
    decreases |records|
  {
    if records != [] {
      var first, next := locations[0], start + 8 * locations[0].count;
      InOrderRest(locations, start, previous, bands, |payload|);
      ContainsRest(payload, locations, records);
      RecordsBytes(payload, locations[1..], records[1..], next, Some(first.key), bands);
      MembersCons(records[0], records[1..]);
      assert [records[0]] + records[1..] == records;
      assert payload[start..] == payload[start..next] + payload[next..];
    }
  }

  lemma FirstLocated(crc: Checksum, payload: seq<byte>, location: Location)
    requires ReadMembers(crc, payload, location).Ok?
    ensures
      var members := ReadMembers(crc, payload, location).value;
      && |members| == location.count
      && MemberBytes(members) == payload[location.offset..location.offset + 8 * location.count]
      && crc.Of(MemberBytes(members)) == location.checksum
  {
    MemberBytesInvert(payload[location.offset..location.offset + 8 * location.count]);
  }

  lemma SortedCons(records: seq<Record>)
    requires records != [] && Sorted(records[1..])
    requires |records| > 1 ==> Less(records[0].key, records[1].key)
    ensures Sorted(records)
  {
    forall i | 0 <= i < |records| - 1
      ensures Less(records[i].key, records[i + 1].key)
    {
      if i > 0 {
        assert records[i] == records[1..][i - 1] && records[i + 1] == records[1..][i];
      }
    }
  }

  lemma {:induction false} DirectoryParsed(crc: Checksum, payload: seq<byte>, count: nat, checksum: nat, bands: nat)
    requires |payload| >= SEGMENT_HEADER_BYTES && DecodeDirectory(crc, payload, count, checksum, bands).Ok?
    ensures
      var locations, start := DecodeDirectory(crc, payload, count, checksum, bands).value, MemberStart(count);
      && |locations| == count && start <= |payload|
      && InOrder(locations, start, None, bands, |payload|)
      && payload[40..start] == EncodeEntries(locations) && crc.Of(payload[40..start]) == checksum
  {
    var start := MemberStart(count);
    EntriesCanonical(payload[40..start], start, None, bands, |payload|);
  }

  lemma {:induction false} DirectoryCanonical(crc: Checksum, payload: seq<byte>, count: nat, checksum: nat, bands: nat,
                                              locations: seq<Location>, records: seq<Record>)
    requires |locations| == count && SEGMENT_HEADER_BYTES <= MemberStart(count) <= |payload|
    requires InOrder(locations, MemberStart(count), None, bands, |payload|)
    requires payload[40..MemberStart(count)] == EncodeEntries(locations)
    requires Describes(crc, payload, locations, records)
    ensures |records| == count && Sorted(records) && CountsFit(records)
    ensures Directory(crc, records) == EncodeEntries(locations)
    ensures payload == payload[..40] + Directory(crc, records) + AllMemberBytes(records)
  {
    var start := MemberStart(count);
    RecordsSorted(crc, payload, locations, records, start, None, bands);
    DescribedLocated(crc, payload, locations, records);
    RecordsLocated(crc, locations, records, start, None, bands, |payload|);
    RecordsBytes(payload, locations, records, start, None, bands);
    assert payload == payload[..40] + payload[40..start] + payload[start..];
  }

  /** A segment has one byte form: writing the records that an accepted segment describes gives the same bytes. */
  lemma SegmentCanonical(crc: Checksum, payload: seq<byte>, bands: nat, records: seq<Record>)
    requires |payload| <= U64_MAX && DecodeSegment(crc, payload, bands).Ok?
    requires Describes(crc, payload, DecodeSegment(crc, payload, bands).value, records)
    ensures EncodeSegment(crc, records) == Ok(payload)
  {
    var (count, checksum) := CheckSegmentHeader(crc, payload).value;
    HeaderLeadsOn(crc, payload, bands, count, checksum);
    DirectoryParsed(crc, payload, count, checksum, bands);
    DirectoryCanonical(crc, payload, count, checksum, bands, DecodeSegment(crc, payload, bands).value, records);
    HeaderDetermined(crc, payload, Directory(crc, records));
  }

  ghost predicate Tiles(locations: seq<Location>, start: nat, limit: nat) {
    && (locations == [] ==> start == limit)
    && (locations != [] ==> locations[0].offset == start)
    && (forall i :: 0 <= i < |locations| ==>
          locations[i].offset + 8 * locations[i].count ==
          if i + 1 < |locations| then locations[i + 1].offset else limit)
  }

  lemma {:induction false} InOrderTiles(locations: seq<Location>, start: nat, previous: Option<BucketKey>,
                                        bands: nat, limit: nat)
    requires InOrder(locations, start, previous, bands, limit)
    ensures Tiles(locations, start, limit)
    decreases |locations|
  {
    if locations != [] {
      var rest := locations[1..];
      InOrderTiles(rest, start + 8 * locations[0].count, Some(locations[0].key), bands, limit);
      assert forall i :: 1 <= i < |locations| ==> locations[i] == rest[i - 1];
    }
  }

  /** Member ranges tile everything after the directory: no gap, no overlap, nothing left over. */
  lemma SegmentTiles(crc: Checksum, payload: seq<byte>, bands: nat)
    requires DecodeSegment(crc, payload, bands).Ok?
    ensures
      var locations := DecodeSegment(crc, payload, bands).value;
      Tiles(locations, MemberStart(|locations|), |payload|)
  {
    var (count, checksum) := CheckSegmentHeader(crc, payload).value;
    HeaderLeadsOn(crc, payload, bands, count, checksum);
    DirectoryParsed(crc, payload, count, checksum, bands);
    InOrderTiles(DecodeSegment(crc, payload, bands).value, MemberStart(count), None, bands, |payload|);
  }
}
