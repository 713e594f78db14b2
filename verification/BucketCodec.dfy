/** The loops of the bucket segment codec, and its reads through a lazily opened container. */
module BucketCodec {
  import opened Words
  import opened Bytes
  import opened Container
  import opened LazyLayout
  import opened BucketSegments

  lemma {:induction false} EntriesSplit(crc: Checksum, records: seq<Record>, i: nat, offset: nat)
    requires i < |records|
    ensures
      var record := records[i];
      var entry := Location(record.key, offset, |record.members|, crc.Of(MemberBytes(record.members)));
      EncodeEntries(LocationsOf(crc, records[i..], offset)) ==
      EncodeEntry(entry) + EncodeEntries(LocationsOf(crc, records[i + 1..], offset + 8 * |record.members|))
  {
    assert records[i..][0] == records[i] && records[i..][1..] == records[i + 1..];
    var locations := LocationsOf(crc, records[i..], offset);
    assert locations[1..] == LocationsOf(crc, records[i + 1..], offset + 8 * |records[i].members|);
  }

  lemma MembersSplit(records: seq<Record>, i: nat)
    requires i < |records|
    ensures AllMemberBytes(records[i..]) == MemberBytes(records[i].members) + AllMemberBytes(records[i + 1..])
  {
    assert records[i..][0] == records[i] && records[i..][1..] == records[i + 1..];
  }

  /** What is written for the first `i` records, followed by what the others need. */
  ghost function Completed(crc: Checksum, records: seq<Record>, i: nat, offset: nat, directory: seq<byte>,
                           members: seq<byte>)
    : (seq<byte>, seq<byte>)
    requires i <= |records|
  {
    (directory + EncodeEntries(LocationsOf(crc, records[i..], offset)), members + AllMemberBytes(records[i..]))
  }

  lemma {:induction false} DirectoryStep(crc: Checksum, records: seq<Record>, i: nat, offset: nat, directory: seq<byte>)
    requires i < |records|
    ensures
      var record := records[i];
      var entry := EncodeEntry(Location(record.key, offset, |record.members|, crc.Of(MemberBytes(record.members))));
      directory + entry + EncodeEntries(LocationsOf(crc, records[i + 1..], offset + 8 * |record.members|)) ==
      directory + EncodeEntries(LocationsOf(crc, records[i..], offset))
  {
    var record := records[i];
    EntriesSplit(crc, records, i, offset);
    Reassociate(directory, EncodeEntry(Location(record.key, offset, |record.members|,
                                                crc.Of(MemberBytes(record.members)))),
                EncodeEntries(LocationsOf(crc, records[i + 1..], offset + 8 * |record.members|)));
  }

  lemma WriteStep(crc: Checksum, records: seq<Record>, i: nat, offset: nat, directory: seq<byte>, members: seq<byte>)
    requires i < |records|
    ensures
      var bytes := MemberBytes(records[i].members);
      var entry := EncodeEntry(Location(records[i].key, offset, |records[i].members|, crc.Of(bytes)));
      Completed(crc, records, i + 1, offset + |bytes|, directory + entry, members + bytes) ==
      Completed(crc, records, i, offset, directory, members)
  {
    DirectoryStep(crc, records, i, offset, directory);
    MembersSplit(records, i);
    Reassociate(members, MemberBytes(records[i].members), AllMemberBytes(records[i + 1..]));
  }

  lemma {:induction false} WriteEnds(crc: Checksum, records: seq<Record>, offset: nat, directory: seq<byte>,
                                     members: seq<byte>)
    ensures Completed(crc, records, 0, MemberStart(|records|), [], []) ==
            (Directory(crc, records), AllMemberBytes(records))
    ensures Completed(crc, records, |records|, offset, directory, members) == (directory, members)
  {
    assert records[0..] == records;
    assert [] + Directory(crc, records) == Directory(crc, records);
    assert [] + AllMemberBytes(records) == AllMemberBytes(records);
    assert directory + [] == directory && members + [] == members;
  }

  /** Directory and member bytes grow side by side under a running member offset. */
  method EncodeBody(crc: Checksum, records: seq<Record>) returns (directory: seq<byte>, members: seq<byte>)
    ensures directory == Directory(crc, records) && members == AllMemberBytes(records)
  {
    directory, members := [], [];
    var offset: nat := MemberStart(|records|);
    ghost var whole := Completed(crc, records, 0, offset, directory, members);
    var i := 0;
    while i < |records|
      invariant 0 <= i <= |records|
      invariant Completed(crc, records, i, offset, directory, members) == whole
    {
      WriteStep(crc, records, i, offset, directory, members);
      var record := records[i];
      var bytes := MemberBytes(record.members);
      members := members + bytes;
      directory := directory + EncodeEntry(Location(record.key, offset, |record.members|, crc.Of(bytes)));
      offset := offset + |bytes|;
      i := i + 1;
    }
    WriteEnds(crc, records, offset, directory, members);
  }

  method EncodeBucketSegment(crc: Checksum, records: seq<Record>) returns (r: Result<seq<byte>, BucketError>)
    ensures r == EncodeSegment(crc, records)
  {
    if !Sorted(records) {
      return Err(Invalid);
    }
    if !CountsFit(records) {
      return Err(BucketError.LengthOverflow);
    }
    var directory, members := EncodeBody(crc, records);
    if MemberStart(|records|) + |members| > U64_MAX {
      return Err(BucketError.LengthOverflow);
    }
    return Ok(SegmentHeader(crc, |records|, directory) + directory + members);
  }

  /** Locations found before a parse that continues. */
  function Preceded(found: seq<Location>, rest: Result<seq<Location>, BucketError>)
    : Result<seq<Location>, BucketError>
  {
    if rest.Err? then rest else Ok(found + rest.value)
  }

  lemma PrecededStep(found: seq<Location>, location: Location, rest: Result<seq<Location>, BucketError>)
    ensures Preceded(found, Preceded([location], rest)) == Preceded(found + [location], rest)
  {
    if rest.Ok? {
      assert found + ([location] + rest.value) == found + [location] + rest.value;
    }
  }

  lemma {:induction false} EntryStep(directory: seq<byte>, expected: nat, previous: Option<BucketKey>, bands: nat,
                                     limit: nat)
    requires |directory| >= ENTRY_BYTES
    ensures
      var checked := CheckEntry(EntryAt(directory), expected, previous, bands, limit);
      ParseEntries(directory, expected, previous, bands, limit) ==
      if checked.Err? then Err(checked.error)
      else Preceded([checked.value],
                    ParseEntries(directory[32..], expected + 8 * checked.value.count, Some(checked.value.key),
                                 bands, limit))
  {
  }

  /** A checked entry joins the locations found, or ends the parse. */
  lemma LoopStep(found: seq<Location>, directory: seq<byte>, expected: nat, previous: Option<BucketKey>, bands: nat,
                 limit: nat)
    requires |directory| >= ENTRY_BYTES
    ensures
      var checked := CheckEntry(EntryAt(directory), expected, previous, bands, limit);
      Preceded(found, ParseEntries(directory, expected, previous, bands, limit)) ==
      if checked.Err? then Err(checked.error)
      else Preceded(found + [checked.value],
                    ParseEntries(directory[32..], expected + 8 * checked.value.count, Some(checked.value.key),
                                 bands, limit))
  {
    EntryStep(directory, expected, previous, bands, limit);
    var checked := CheckEntry(EntryAt(directory), expected, previous, bands, limit);
    if checked.Ok? {
      PrecededStep(found, checked.value,
                   ParseEntries(directory[32..], expected + 8 * checked.value.count, Some(checked.value.key),
                                bands, limit));
    }
  }

  lemma {:induction false} LoopEnds(found: seq<Location>, directory: seq<byte>, expected: nat,
                                    previous: Option<BucketKey>, bands: nat, limit: nat)
    requires |directory| < ENTRY_BYTES
    ensures Preceded(found, ParseEntries(directory, expected, previous, bands, limit)) ==
            if expected == limit then Ok(found) else Err(Invalid)
  {
    assert found + [] == found;
  }

  /** Parse entries under a running offset and previous key. */
  method ParseEntryLoop(directory: seq<byte>, start: nat, bands: nat, limit: nat)
    returns (r: Result<seq<Location>, BucketError>)
    ensures r == ParseEntries(directory, start, None, bands, limit)
  {
    ghost var parsed := ParseEntries(directory, start, None, bands, limit);
    var locations: seq<Location> := [];
    var rest, expected: nat, previous := directory, start, None;
    PrecededNone(parsed);
    while |rest| >= ENTRY_BYTES
      invariant parsed == Preceded(locations, ParseEntries(rest, expected, previous, bands, limit))
      decreases |rest|
    {
      LoopStep(locations, rest, expected, previous, bands, limit);
      var checked := CheckEntry(EntryAt(rest), expected, previous, bands, limit);
      if checked.Err? {
        return Err(checked.error);
      }
      var location := checked.value;
      rest, expected, previous := rest[32..], expected + 8 * location.count, Some(location.key);
      locations := locations + [location];
    }
    LoopEnds(locations, rest, expected, previous, bands, limit);
    return if expected == limit then Ok(locations) else Err(Invalid);
  }

  lemma PrecededNone(parsed: Result<seq<Location>, BucketError>)
    ensures Preceded([], parsed) == parsed
  {
    if parsed.Ok? {
      assert [] + parsed.value == parsed.value;
    }
  }

  method DecodeDirectoryEntries(directory: seq<byte>, start: nat, bands: nat, limit: nat)
    returns (r: Result<seq<Location>, BucketError>)
    ensures r == DecodeEntries(directory, start, bands, limit)
  {
    if bands > U32_MAX {
      return Err(BucketError.LengthOverflow);
    }
    r := ParseEntryLoop(directory, start, bands, limit);
  }

  datatype ReadError = Layout(layout: LayoutError) | Segment(segment: BucketError)

  /** Decode one required Buckets section through bounded range reads, leaving its members unread. */
  method DecodeBucketSegment(crc: Checksum, layout: FileLayout, reader: Reader, d: Descriptor, bands: nat)
    returns (r: Result<seq<Location>, ReadError>)
    requires layout.fileLength == |reader.bytes| <= U64_MAX && d.offset + d.length <= |reader.bytes|
    modifies reader
    ensures r.Ok? <==> d.kind.Buckets? && d.required && DecodeSegment(crc, Payload(reader.bytes, d), bands).Ok?
    ensures r.Ok? ==> r.value == DecodeSegment(crc, Payload(reader.bytes, d), bands).value
  {
    if !d.kind.Buckets? || !d.required || d.length < SEGMENT_HEADER_BYTES {
      return Err(Segment(Invalid));
    }
    ghost var payload := Payload(reader.bytes, d);
    var header := ReadSectionRange(layout, reader, d, 0, SEGMENT_HEADER_BYTES);
    HeaderPrefix(crc, payload);
    assert header.value == payload[..40];
    var checked := CheckSegmentHeader(crc, header.value);
    if checked.Err? {
      return Err(Segment(checked.error));
    }
    var (count, checksum) := checked.value;
    HeaderLeadsOn(crc, payload, bands, count, checksum);
    r := DecodeSegmentDirectory(crc, layout, reader, d, bands, count, checksum);
  }

  method DecodeSegmentDirectory(crc: Checksum, layout: FileLayout, reader: Reader, d: Descriptor, bands: nat,
                                count: nat, checksum: nat)
    returns (r: Result<seq<Location>, ReadError>)
    requires layout.fileLength == |reader.bytes| <= U64_MAX && d.offset + d.length <= |reader.bytes|
    requires d.length >= SEGMENT_HEADER_BYTES
    modifies reader
    ensures
      var decoded := DecodeDirectory(crc, Payload(reader.bytes, d), count, checksum, bands);
      r == if decoded.Err? then Err(Segment(decoded.error)) else Ok(decoded.value)
  {
    if MemberStart(count) > d.length {
      return Err(Segment(Invalid));
    }
    var directory := ReadSectionRange(layout, reader, d, SEGMENT_HEADER_BYTES, ENTRY_BYTES * count);
    if crc.Of(directory.value) != checksum {
      return Err(Segment(DirectoryChecksumMismatch));
    }
    var entries := DecodeDirectoryEntries(directory.value, MemberStart(count), bands, d.length);
    return if entries.Err? then Err(Segment(entries.error)) else Ok(entries.value);
  }

  lemma HeaderPrefix(crc: Checksum, payload: seq<byte>)
    requires |payload| >= SEGMENT_HEADER_BYTES
    ensures CheckSegmentHeader(crc, payload[..40]) == CheckSegmentHeader(crc, payload)
  {
    assert payload[..40][..32] == payload[..32] && payload[..40][32..40] == payload[32..40];
  }

  /** Verify and decode one member list. */
  method ReadBucketMembers(crc: Checksum, layout: FileLayout, reader: Reader, d: Descriptor, location: Location)
    returns (r: Result<seq<u64>, ReadError>)
    requires layout.fileLength == |reader.bytes| <= U64_MAX && d.offset + d.length <= |reader.bytes|
    modifies reader
    ensures r.Ok? <==> ReadMembers(crc, Payload(reader.bytes, d), location).Ok?
    ensures r.Ok? ==> r.value == ReadMembers(crc, Payload(reader.bytes, d), location).value
  {
    var bytes := ReadSectionRange(layout, reader, d, location.offset, 8 * location.count);
    if bytes.Err? {
      return Err(Layout(bytes.error));
    }
    if crc.Of(bytes.value) != location.checksum {
      return Err(Segment(MemberChecksumMismatch));
    }
    return Ok(Members(bytes.value));
  }

  /** Locations gathered from several sections must still ascend strictly. */
  method ValidateGlobalBucketOrder(locations: seq<Location>) returns (r: Result<(), BucketError>)
    ensures r.Ok? <==> forall i, j :: 0 <= i < j < |locations| ==> Less(locations[i].key, locations[j].key)
  {
    var i := 1;
    while i < |locations|
      invariant 1 <= i && (i <= |locations| || locations == [])
      invariant forall p, q :: 0 <= p < q < i && q < |locations| ==> Less(locations[p].key, locations[q].key)
    {
      if !Less(locations[i - 1].key, locations[i].key) {
        return Err(Invalid);
      }
      i := i + 1;
    }
    return Ok(());
  }
}
