/** The streaming bucket segment writer: members are copied buffer by buffer from a sequential reader. */
module BucketStream {
  import opened Words
  import opened Bytes
  import opened LazyLayout
  import opened BucketSegments
  import opened BucketCodec

  /** What the caller declares about one bucket before its members arrive. */
  datatype WriteRecord = WriteRecord(key: BucketKey, count: u32, checksum: u32)

  datatype StreamedSegment = StreamedSegment(bytes: nat, checksum: nat)

  /** The encoded directory and the member bytes it announces. */
  datatype Plan = Plan(directory: seq<byte>, memberBytes: nat)

  datatype StreamError = Unsorted | TooLong | Io | Mismatch

  const COPY_BUFFER_BYTES: nat := 64 * 1024

  predicate SortedWrites(writes: seq<WriteRecord>) {
    forall i :: 0 <= i < |writes| - 1 ==> Less(writes[i].key, writes[i + 1].key)
  }

  /** The directory the declarations describe. */
  function Planned(writes: seq<WriteRecord>, start: nat): (locations: seq<Location>)
    ensures |locations| == |writes|
    decreases |writes|
  {
    if writes == [] then []
    else [Location(writes[0].key, start, writes[0].count, writes[0].checksum)] +
         Planned(writes[1..], start + 8 * writes[0].count)
  }

  /** Member bytes the declarations ask for. */
  function StreamLength(writes: seq<WriteRecord>): nat {
    if writes == [] then 0 else 8 * writes[0].count + StreamLength(writes[1..])
  }

  /** The records a member stream spells out. */
  function Streamed(writes: seq<WriteRecord>, bytes: seq<byte>): (records: seq<Record>)
    requires |bytes| == StreamLength(writes)
    ensures |records| == |writes|
    decreases |writes|
  {
    if writes == [] then []
    else
      var size := 8 * writes[0].count;
      [Record(writes[0].key, Members(bytes[..size]))] + Streamed(writes[1..], bytes[size..])
  }

  /** Every member list matches its declared checksum. */
  ghost predicate Checked(crc: Checksum, writes: seq<WriteRecord>, bytes: seq<byte>)
    requires |bytes| == StreamLength(writes)
    decreases |writes|
  {
    writes == [] ||
    var size := 8 * writes[0].count;
    crc.Of(bytes[..size]) == writes[0].checksum && Checked(crc, writes[1..], bytes[size..])
  }

  lemma {:induction false} StreamedLocations(crc: Checksum, writes: seq<WriteRecord>, bytes: seq<byte>, start: nat)
    requires |bytes| == StreamLength(writes) && Checked(crc, writes, bytes)
    ensures LocationsOf(crc, Streamed(writes, bytes), start) == Planned(writes, start)
    decreases |writes|
  {
    if writes != [] {
      var size := 8 * writes[0].count;
      var record, others := Record(writes[0].key, Members(bytes[..size])), Streamed(writes[1..], bytes[size..]);
      MemberBytesInvert(bytes[..size]);
      StreamedLocations(crc, writes[1..], bytes[size..], start + size);
      LocationsCons(crc, record, others, start);
      StreamedCons(writes, bytes, record, others);
      PlannedCons(writes, start);
    }
  }

  lemma {:induction false} StreamedCons(writes: seq<WriteRecord>, bytes: seq<byte>, record: Record,
                                        others: seq<Record>)
    requires writes != [] && |bytes| == StreamLength(writes)
    requires record == Record(writes[0].key, Members(bytes[..8 * writes[0].count]))
    requires others == Streamed(writes[1..], bytes[8 * writes[0].count..])
    ensures Streamed(writes, bytes) == [record] + others
  {
  }

  lemma {:induction false} PlannedCons(writes: seq<WriteRecord>, start: nat)
    requires writes != []
    ensures Planned(writes, start) == [Location(writes[0].key, start, writes[0].count, writes[0].checksum)] +
                                      Planned(writes[1..], start + 8 * writes[0].count)
  {
  }

  lemma {:induction false} LocationsCons(crc: Checksum, record: Record, others: seq<Record>, start: nat)
    ensures LocationsOf(crc, [record] + others, start) ==
            [Location(record.key, start, |record.members|, crc.Of(MemberBytes(record.members)))] +
            LocationsOf(crc, others, start + 8 * |record.members|)
  {
    assert ([record] + others)[1..] == others;
  }

  lemma {:induction false} StreamedMembers(writes: seq<WriteRecord>, bytes: seq<byte>)
    requires |bytes| == StreamLength(writes)
    ensures AllMemberBytes(Streamed(writes, bytes)) == bytes
    decreases |writes|
  {
    if writes != [] {
      var size := 8 * writes[0].count;
      var head, tail := bytes[..size], bytes[size..];
      MemberBytesInvert(head);
      assert bytes == head + tail;
      StreamedMembers(writes[1..], tail);
      MembersCons(Record(writes[0].key, Members(head)), Streamed(writes[1..], tail));
    }
  }

  lemma {:induction false} StreamedKeys(writes: seq<WriteRecord>, bytes: seq<byte>, i: nat)
    requires |bytes| == StreamLength(writes) && i < |writes|
    ensures Streamed(writes, bytes)[i].key == writes[i].key && |Streamed(writes, bytes)[i].members| == writes[i].count
    decreases |writes|
  {
    if i > 0 {
      StreamedKeys(writes[1..], bytes[8 * writes[0].count..], i - 1);
    }
  }

  /** A verified stream makes the very segment the in-memory encoder would make of its records. */
  lemma {:induction false} StreamedSegmentBytes(crc: Checksum, writes: seq<WriteRecord>, bytes: seq<byte>)
    requires |bytes| == StreamLength(writes) && Checked(crc, writes, bytes) && SortedWrites(writes)
    requires MemberStart(|writes|) + |bytes| <= U64_MAX
    ensures
      var directory := EncodeEntries(Planned(writes, MemberStart(|writes|)));
      EncodeSegment(crc, Streamed(writes, bytes)) ==
      Ok(SegmentHeader(crc, |writes|, directory) + directory + bytes)
  {
    StreamedLocations(crc, writes, bytes, MemberStart(|writes|));
    StreamedMembers(writes, bytes);
    StreamedSorted(writes, bytes);
  }

  lemma {:induction false} StreamedSorted(writes: seq<WriteRecord>, bytes: seq<byte>)
    requires |bytes| == StreamLength(writes) && SortedWrites(writes)
    ensures Sorted(Streamed(writes, bytes)) && CountsFit(Streamed(writes, bytes))
  {
    var records := Streamed(writes, bytes);
    forall i | 0 <= i < |writes|
      ensures records[i].key == writes[i].key && |records[i].members| == writes[i].count
    {
      StreamedKeys(writes, bytes, i);
    }
  }

  /** A sink whose writes may fail at any point, possibly after taking part of the bytes. */
  class Writer {
    var output: seq<byte>
    var broken: bool

    constructor ()
      ensures output == [] && !broken
    {
      output, broken := [], false;
    }

    method WriteAll(bytes: seq<byte>) returns (ok: bool)
      modifies this
      ensures ok == !broken && (ok ==> output == old(output) + bytes)
    {
      if * {
        output, broken := output + bytes, false;
        return true;
      }
      broken := true;
      var part :| 0 <= part <= |bytes|;
      output := output + bytes[..part];
      return false;
    }
  }

  /** Copy one member list in buffers, feeding both checksums. */
  method CopyMembers(crc: Checksum, writer: Writer, members: Reader, record: WriteRecord, outer: u32)
    returns (r: Result<u32, StreamError>)
    requires members.position <= |members.bytes|
    requires !writer.broken
    modifies writer, members
    ensures r.Ok? ==> members.position == old(members.position) + 8 * record.count <= |members.bytes|
    ensures r.Ok? ==>
              var copied := members.bytes[old(members.position)..members.position];
              && writer.output == old(writer.output) + copied
              && r.value == crc.Feed(outer, copied)
              && crc.Of(copied) == record.checksum
    ensures r.Err? ==> r.error.Io? || r.error.Mismatch?
    ensures r.Ok? ==> !writer.broken
    ensures r.Err? && !writer.broken && old(members.position) + 8 * record.count <= |members.bytes| ==>
              crc.Of(members.bytes[old(members.position)..old(members.position) + 8 * record.count]) != record.checksum
  {
    var start := members.position;
    ghost var before := writer.output;
    var remaining: nat := 8 * record.count;
    var bucket, whole := crc.init, outer;
    CopyStart(crc, members.bytes, start, before, outer);
    while remaining > 0
      invariant 0 <= remaining <= 8 * record.count && !writer.broken
      invariant members.position == start + (8 * record.count - remaining) <= |members.bytes|
      invariant Copied(crc, members.bytes, start, members.position, before, outer) == (writer.output, bucket, whole)
    {
      var count := if remaining < COPY_BUFFER_BYTES then remaining else COPY_BUFFER_BYTES;
      ghost var from := members.position;
      var buffer := members.ReadExact(count);
      if buffer.None? {
        return Err(Io);
      }
      var written := writer.WriteAll(buffer.value);
      if !written {
        return Err(Io);
      }
      CopyStep(crc, members.bytes, start, from, from + count, before, outer);
      bucket, whole := crc.Feed(bucket, buffer.value), crc.Feed(whole, buffer.value);
      remaining := remaining - count;
    }
    if crc.finish(bucket) != record.checksum {
      return Err(Mismatch);
    }
    return Ok(whole);
  }

  /** Output and the two checksum states after copying the bytes from `start` to `end`. */
  ghost function Copied(crc: Checksum, bytes: seq<byte>, start: nat, end: nat, before: seq<byte>, outer: u32)
    : (seq<byte>, u32, u32)
    requires start <= end <= |bytes|
  {
    (before + bytes[start..end], crc.Feed(crc.init, bytes[start..end]), crc.Feed(outer, bytes[start..end]))
  }

  lemma CopyStart(crc: Checksum, bytes: seq<byte>, start: nat, before: seq<byte>, outer: u32)
    requires start <= |bytes|
    ensures Copied(crc, bytes, start, start, before, outer) == (before, crc.init, outer)
  {
    assert bytes[start..start] == [] && before + [] == before;
  }

  lemma CopyStep(crc: Checksum, bytes: seq<byte>, start: nat, mid: nat, end: nat, before: seq<byte>, outer: u32)
    requires start <= mid <= end <= |bytes|
    ensures
      var (output, bucket, whole) := Copied(crc, bytes, start, mid, before, outer);
      Copied(crc, bytes, start, end, before, outer) ==
      (output + bytes[mid..end], crc.Feed(bucket, bytes[mid..end]), crc.Feed(whole, bytes[mid..end]))
  {
    var head, tail := bytes[start..mid], bytes[mid..end];
    assert bytes[start..end] == head + tail;
    Reassociate(before, head, tail);
    crc.FeedConcat(crc.init, head, tail);
    crc.FeedConcat(outer, head, tail);
  }

  lemma {:induction false} LengthAppend(writes: seq<WriteRecord>, record: WriteRecord)
    ensures StreamLength(writes + [record]) == StreamLength(writes) + 8 * record.count
    decreases |writes|
  {
    if writes == [] {
      assert [record][1..] == [];
    } else {
      LengthAppend(writes[1..], record);
      assert (writes + [record])[1..] == writes[1..] + [record];
    }
  }

  lemma {:induction false} CheckedAppend(crc: Checksum, writes: seq<WriteRecord>, bytes: seq<byte>,
                                         record: WriteRecord, copied: seq<byte>)
    requires |bytes| == StreamLength(writes) && Checked(crc, writes, bytes)
    requires |copied| == 8 * record.count && crc.Of(copied) == record.checksum
    ensures |bytes + copied| == StreamLength(writes + [record]) && Checked(crc, writes + [record], bytes + copied)
    decreases |writes|
  {
    LengthAppend(writes, record);
    if writes == [] {
      assert bytes + copied == copied && copied[..|copied|] == copied;
      assert [record][1..] == [];
    } else {
      var size := 8 * writes[0].count;
      CheckedAppend(crc, writes[1..], bytes[size..], record, copied);
      assert (writes + [record])[1..] == writes[1..] + [record];
      assert (bytes + copied)[..size] == bytes[..size] && (bytes + copied)[size..] == bytes[size..] + copied;
    }
  }

  /** Checked member bytes follow the segment's head on the output and in the outer checksum. */
  ghost predicate Streaming(crc: Checksum, writes: seq<WriteRecord>, consumed: seq<byte>, base: seq<byte>,
                            head: seq<byte>, output: seq<byte>, outer: u32)
  {
    && |consumed| == StreamLength(writes) && Checked(crc, writes, consumed)
    && output == base + (head + consumed) && outer == crc.Feed(crc.init, head + consumed)
  }

  lemma {:induction false} StreamingStep(crc: Checksum, writes: seq<WriteRecord>, i: nat, consumed: seq<byte>,
                                         base: seq<byte>, head: seq<byte>, output: seq<byte>, outer: u32,
                                         copied: seq<byte>)
    requires i < |writes| && Streaming(crc, writes[..i], consumed, base, head, output, outer)
    requires |copied| == 8 * writes[i].count && crc.Of(copied) == writes[i].checksum
    ensures Streaming(crc, writes[..i + 1], consumed + copied, base, head, output + copied, crc.Feed(outer, copied))
  {
    assert writes[..i + 1] == writes[..i] + [writes[i]];
    CheckedAppend(crc, writes[..i], consumed, writes[i], copied);
    Reassociate(head, consumed, copied);
    Reassociate(base, head + consumed, copied);
    crc.FeedConcat(crc.init, head + consumed, copied);
  }

  /** The stream holds all the declared bytes, with the declared checksums. */
  ghost predicate Deliverable(crc: Checksum, writes: seq<WriteRecord>, bytes: seq<byte>, start: nat) {
    start + StreamLength(writes) <= |bytes| && Checked(crc, writes, bytes[start..start + StreamLength(writes)])
  }

  lemma {:induction false} DeliverableAt(crc: Checksum, writes: seq<WriteRecord>, bytes: seq<byte>, start: nat, i: nat)
    requires i < |writes| && Deliverable(crc, writes, bytes, start)
    ensures
      var from := start + StreamLength(writes[..i]);
      from + 8 * writes[i].count <= |bytes| && crc.Of(bytes[from..from + 8 * writes[i].count]) == writes[i].checksum
    decreases i
  {
    var size, end := 8 * writes[0].count, start + StreamLength(writes);
    assert bytes[start..end][..size] == bytes[start..start + size];
    assert bytes[start..end][size..] == bytes[start + size..end];
    if i > 0 {
      assert writes[..i][0] == writes[0] && writes[..i][1..] == writes[1..][..i - 1];
      DeliverableAt(crc, writes[1..], bytes, start + size, i - 1);
    }
  }

  /** Where copying stands after the first `i` lists, the stream having started at `start`. */
  ghost predicate Copying(crc: Checksum, writer: Writer, members: Reader, writes: seq<WriteRecord>, i: nat, start: nat,
                          base: seq<byte>, head: seq<byte>, outer: u32)
    reads writer, members
  {
    && i <= |writes| && start <= members.position <= |members.bytes| && !writer.broken
    && Streaming(crc, writes[..i], members.bytes[start..members.position], base, head, writer.output, outer)
  }

  /** Copy the next member list; without a broken output, only a stream that does not deliver fails. */
  method CopyNext(crc: Checksum, writer: Writer, members: Reader, writes: seq<WriteRecord>, i: nat, outer: u32,
                  ghost start: nat, ghost base: seq<byte>, ghost head: seq<byte>)
    returns (r: Result<u32, StreamError>)
    requires i < |writes| && Copying(crc, writer, members, writes, i, start, base, head, outer)
    modifies writer, members
    ensures r.Ok? ==> Copying(crc, writer, members, writes, i + 1, start, base, head, r.value)
    ensures r.Err? ==> r.error.Io? || r.error.Mismatch?
    ensures r.Err? && !writer.broken ==> !Deliverable(crc, writes, members.bytes, start)
  {
    ghost var from, output, state := members.position, writer.output, outer;
    r := CopyMembers(crc, writer, members, writes[i], outer);
    if r.Err? {
      if Deliverable(crc, writes, members.bytes, start) {
        DeliverableAt(crc, writes, members.bytes, start, i);
      }
      return;
    }
    ghost var consumed, copied := members.bytes[start..from], members.bytes[from..members.position];
    StreamingStep(crc, writes, i, consumed, base, head, output, state, copied);
    assert consumed + copied == members.bytes[start..members.position];
  }

  /** Copy all member lists in declared order. */
  method CopyAll(crc: Checksum, writer: Writer, members: Reader, writes: seq<WriteRecord>, outer: u32,
                 ghost base: seq<byte>, ghost head: seq<byte>)
    returns (r: Result<u32, StreamError>)
    requires members.position <= |members.bytes|
    requires writer.output == base + head && outer == crc.Feed(crc.init, head) && !writer.broken
    modifies writer, members
    ensures r.Ok? <==> !writer.broken && Deliverable(crc, writes, members.bytes, old(members.position))
    ensures r.Err? ==> r.error.Io? || r.error.Mismatch?
    ensures r.Ok? ==> old(members.position) <= members.position <= |members.bytes|
    ensures r.Ok? ==> Streaming(crc, writes, members.bytes[old(members.position)..members.position], base, head,
                                writer.output, r.value)
  {
    ghost var start := members.position;
    assert members.bytes[start..start] == [] && head + [] == head;
    var whole := outer;
    var i := 0;
    while i < |writes|
      invariant 0 <= i <= |writes| && Copying(crc, writer, members, writes, i, start, base, head, whole)
    {
      var copied := CopyNext(crc, writer, members, writes, i, whole, start, base, head);
      if copied.Err? {
        return copied;
      }
      whole := copied.value;
      i := i + 1;
    }
    assert writes[..i] == writes;
    return Ok(whole);
  }

  /** The directory written for the first `i` records followed by what the others need, and where the members end. */
  ghost function PlanAhead(writes: seq<WriteRecord>, i: nat, offset: nat, directory: seq<byte>): (seq<byte>, nat)
    requires i <= |writes|
  {
    (directory + EncodeEntries(Planned(writes[i..], offset)), offset + StreamLength(writes[i..]))
  }

  lemma PlanStep(writes: seq<WriteRecord>, i: nat, offset: nat, directory: seq<byte>)
    requires i < |writes|
    ensures
      var record := writes[i];
      var entry := EncodeEntry(Location(record.key, offset, record.count, record.checksum));
      PlanAhead(writes, i + 1, offset + 8 * record.count, directory + entry) == PlanAhead(writes, i, offset, directory)
  {
    var record := writes[i];
    assert writes[i..][0] == record && writes[i..][1..] == writes[i + 1..];
    var planned := Planned(writes[i..], offset);
    assert planned[1..] == Planned(writes[i + 1..], offset + 8 * record.count);
    Reassociate(directory, EncodeEntry(planned[0]), EncodeEntries(planned[1..]));
  }

  lemma {:induction false} PlanEnds(writes: seq<WriteRecord>, start: nat, offset: nat, directory: seq<byte>)
    ensures PlanAhead(writes, 0, start, []) == (EncodeEntries(Planned(writes, start)), start + StreamLength(writes))
    ensures PlanAhead(writes, |writes|, offset, directory) == (directory, offset)
  {
    assert writes[0..] == writes;
    assert [] + EncodeEntries(Planned(writes, start)) == EncodeEntries(Planned(writes, start));
    assert directory + [] == directory;
  }

  /** The directory under a running member offset that must fit in 64 bits. */
  method PlanDirectory(writes: seq<WriteRecord>) returns (r: Result<Plan, StreamError>)
    ensures r.Err? <==> MemberStart(|writes|) + StreamLength(writes) > U64_MAX
    ensures r.Err? ==> r.error.TooLong?
    ensures r.Ok? ==> r.value.directory == EncodeEntries(Planned(writes, MemberStart(|writes|)))
    ensures r.Ok? ==> r.value.memberBytes == StreamLength(writes)
  {
    var start := MemberStart(|writes|);
    var offset: nat, total: nat, directory: seq<byte> := start, 0, [];
    PlanEnds(writes, start, offset, directory);
    if offset > U64_MAX {
      return Err(TooLong);
    }
    ghost var whole := PlanAhead(writes, 0, start, []);
    var i := 0;
    while i < |writes|
      invariant 0 <= i <= |writes| && offset == start + total <= U64_MAX
      invariant PlanAhead(writes, i, offset, directory) == whole
    {
      PlanStep(writes, i, offset, directory);
      var record := writes[i];
      directory := directory + EncodeEntry(Location(record.key, offset, record.count, record.checksum));
      offset, total := offset + 8 * record.count, total + 8 * record.count;
      if offset > U64_MAX {
        return Err(TooLong);
      }
      i := i + 1;
    }
    PlanEnds(writes, start, offset, directory);
    return Ok(Plan(directory, total));
  }

  method ValidateWrites(writes: seq<WriteRecord>) returns (sorted: bool)
    ensures sorted <==> SortedWrites(writes)
  {
    var i := 0;
    while i + 1 < |writes|
      invariant 0 <= i && (i < |writes| || i == 0)
      invariant forall k :: 0 <= k < i ==> Less(writes[k].key, writes[k + 1].key)
    {
      if !Less(writes[i].key, writes[i + 1].key) {
        return false;
      }
      i := i + 1;
    }
    return true;
  }

  /** Header and directory on the output, and the outer checksum over both. */
  method WriteHead(crc: Checksum, writer: Writer, header: seq<byte>, directory: seq<byte>)
    returns (r: Result<u32, StreamError>)
    modifies writer
    ensures r.Ok? == !writer.broken
    ensures r.Ok? ==> writer.output == old(writer.output) + (header + directory)
    ensures r.Ok? ==> r.value == crc.Feed(crc.init, header + directory)
    ensures r.Err? ==> r.error.Io?
  {
    var written := writer.WriteAll(header);
    if !written {
      return Err(Io);
    }
    written := writer.WriteAll(directory);
    if !written {
      return Err(Io);
    }
    Reassociate(old(writer.output), header, directory);
    crc.FeedConcat(crc.init, header, directory);
    return Ok(crc.Feed(crc.Feed(crc.init, header), directory));
  }

  /** The output grew by the encoded segment of the streamed records, and the report describes that segment. */
  ghost predicate Emitted(crc: Checksum, writes: seq<WriteRecord>, consumed: seq<byte>, before: seq<byte>,
                          after: seq<byte>, report: StreamedSegment)
  {
    && |consumed| == StreamLength(writes)
    && var encoded := EncodeSegment(crc, Streamed(writes, consumed));
    && encoded.Ok? && after == before + encoded.value
    && report == StreamedSegment(|encoded.value|, crc.Of(encoded.value))
  }

  lemma {:induction false} StreamedWhole(crc: Checksum, writes: seq<WriteRecord>, consumed: seq<byte>,
                                         before: seq<byte>, directory: seq<byte>, after: seq<byte>, outer: u32)
    requires SortedWrites(writes) && MemberStart(|writes|) + StreamLength(writes) <= U64_MAX
    requires directory == EncodeEntries(Planned(writes, MemberStart(|writes|)))
    requires Streaming(crc, writes, consumed, before, SegmentHeader(crc, |writes|, directory) + directory, after, outer)
    ensures Emitted(crc, writes, consumed, before, after,
                    StreamedSegment(MemberStart(|writes|) + StreamLength(writes), crc.finish(outer)))
  {
    StreamedSegmentBytes(crc, writes, consumed);
  }

  /** Header, directory and members of a planned segment, and the checksum of them all. */
  method WritePlanned(crc: Checksum, writer: Writer, writes: seq<WriteRecord>, members: Reader, directory: seq<byte>)
    returns (r: Result<u32, StreamError>)
    requires members.position <= |members.bytes| && !writer.broken
    requires SortedWrites(writes) && MemberStart(|writes|) + StreamLength(writes) <= U64_MAX
    requires directory == EncodeEntries(Planned(writes, MemberStart(|writes|)))
    modifies writer, members
    ensures r.Ok? <==> !writer.broken && Deliverable(crc, writes, members.bytes, old(members.position))
    ensures r.Err? ==> r.error.Io? || r.error.Mismatch?
    ensures r.Ok? ==> members.position == old(members.position) + StreamLength(writes)
    ensures r.Ok? ==>
              Emitted(crc, writes, members.bytes[old(members.position)..members.position], old(writer.output),
                      writer.output, StreamedSegment(MemberStart(|writes|) + StreamLength(writes), r.value))
  {
    var header := SegmentHeader(crc, |writes|, directory);
    var outer := WriteHead(crc, writer, header, directory);
    if outer.Err? {
      return outer;
    }
    var whole := CopyAll(crc, writer, members, writes, outer.value, old(writer.output), header + directory);
    if whole.Err? {
      return whole;
    }
    StreamedWhole(crc, writes, members.bytes[old(members.position)..members.position], old(writer.output), directory,
                  writer.output, whole.value);
    return Ok(crc.finish(whole.value));
  }

  /**
   * A successful streaming write appends to the output exactly what the in-memory encoder makes of the streamed
   * records, takes exactly the declared bytes from the member stream, and reports the length and checksum of the whole.
   * It fails only for a broken output, unsorted or oversized declarations, or a stream that does not deliver them.
   */
  method WriteBucketSegment(crc: Checksum, writer: Writer, writes: seq<WriteRecord>, members: Reader)
    returns (r: Result<StreamedSegment, StreamError>)
    requires members.position <= |members.bytes| && !writer.broken
    modifies writer, members
    ensures r.Ok? <==> && SortedWrites(writes) && MemberStart(|writes|) + StreamLength(writes) <= U64_MAX
                       && !writer.broken && Deliverable(crc, writes, members.bytes, old(members.position))
    ensures r == Err(Unsorted) <==> !SortedWrites(writes)
    ensures r == Err(TooLong) <==> SortedWrites(writes) && MemberStart(|writes|) + StreamLength(writes) > U64_MAX
    ensures r == Err(Unsorted) || r == Err(TooLong) ==> unchanged(writer, members)
    ensures r.Ok? ==> members.position == old(members.position) + StreamLength(writes) <= |members.bytes|
    ensures r.Ok? ==>
              Emitted(crc, writes, members.bytes[old(members.position)..members.position], old(writer.output),
                      writer.output, r.value)
  {
    var sorted := ValidateWrites(writes);
    if !sorted {
      return Err(Unsorted);
    }
    var planned := PlanDirectory(writes);
    if planned.Err? {
      return Err(planned.error);
    }
    var Plan(directory, total) := planned.value;
    var checksum := WritePlanned(crc, writer, writes, members, directory);
    if checksum.Err? {
      return Err(checksum.error);
    }
    return Ok(StreamedSegment(MemberStart(|writes|) + total, checksum.value));
  }
}
