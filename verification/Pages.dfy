/** The paged bucket file: records packed into pages, a page directory with key ranges, and lookups through it. */
module Pages {
  import opened Words
  import opened Bytes
  import opened BucketSegments

  datatype PageDescriptor = PageDescriptor(first: BucketKey, last: BucketKey, offset: nat, length: nat)

  datatype EncodedPage = EncodedPage(first: BucketKey, last: BucketKey, bytes: seq<byte>)

  datatype PageError = TooLarge | InvalidData

  const PAGE_TARGET_BYTES: nat := 32 * 1024
  const PAGE_MAGIC: nat := 0x0031_4750_4952_4150 // "PARIPG1\0" as a little-endian number
  const PAGE_VERSION: nat := 1
  const PAGE_HEADER_BYTES: nat := 16
  const PAGE_DIRECTORY_BYTES: nat := 40
  const RECORD_HEADER_BYTES: nat := 16

  /** The order in which a bucket map hands out its entries. */
  ghost predicate KeysAscend(records: seq<Record>) {
    forall i, j :: 0 <= i < j < |records| ==> Less(records[i].key, records[j].key)
  }

  /** What the bucket map holds under a key; nothing for an absent key. */
  function Lookup(records: seq<Record>, key: BucketKey): seq<u64> {
    if records == [] then []
    else if records[0].key == key then records[0].members
    else Lookup(records[1..], key)
  }

  // ---- Records and pages ----

  /** Band, hash, member count. */
  function RecordWidth(field: nat): nat {
    if field == 1 then 8 else 4
  }

  lemma RecordHeaderSize()
    ensures Total(RecordWidth, 0, 3) == RECORD_HEADER_BYTES
  {
  }

  function RecordSize(record: Record): nat {
    RECORD_HEADER_BYTES + 8 * |record.members|
  }

  function RecordBytes(record: Record): (bytes: seq<byte>)
    ensures |bytes| == RecordSize(record)
  {
    RecordHeaderSize();
    Join(RecordWidth, [record.key.band, record.key.hash, |record.members|]) + MemberBytes(record.members)
  }

  function PageBytes(records: seq<Record>): seq<byte> {
    if records == [] then [] else RecordBytes(records[0]) + PageBytes(records[1..])
  }

  /** The record at the start of a page. */
  function FirstRecord(page: seq<byte>): Result<Record, PageError> {
    if |page| < RECORD_HEADER_BYTES then Err(InvalidData)
    else
      RecordHeaderSize();
      Limits();
      var v := Split(RecordWidth, 3, page[..16]);
      if RECORD_HEADER_BYTES + 8 * v[2] > |page| then Err(InvalidData)
      else Ok(Record(BucketKey(v[0], v[1]), Members(page[16..16 + 8 * v[2]])))
  }

  lemma FirstRecordFits(page: seq<byte>)
    ensures FirstRecord(page).Ok? ==> RecordSize(FirstRecord(page).value) <= |page|
  {
  }

  /** Search a page in key order, stopping at the first record that is not below the target. */
  function ScanPage(page: seq<byte>, target: BucketKey): Result<seq<u64>, PageError>
    decreases |page|
  {
    if page == [] then Ok([])
    else
      var record :- FirstRecord(page);
      FirstRecordFits(page);
      if record.key == target then Ok(record.members)
      else if Less(target, record.key) then Ok([])
      else ScanPage(page[RecordSize(record)..], target)
  }

  lemma FirstRecordOf(record: Record, rest: seq<byte>)
    requires |record.members| <= U32_MAX
    ensures FirstRecord(RecordBytes(record) + rest) == Ok(record)
    ensures (RecordBytes(record) + rest)[RecordSize(record)..] == rest
  {
    RecordHeaderSize();
    Limits();
    var fields := [record.key.band, record.key.hash, |record.members|];
    var page := RecordBytes(record) + rest;
    assert page[..16] == Join(RecordWidth, fields);
    assert page[16..RecordSize(record)] == MemberBytes(record.members);
    assert Fits(RecordWidth, 0, fields);
    SplitJoin(RecordWidth, fields);
    MembersInvert(record.members);
  }

  lemma {:induction false} AbsentBelow(records: seq<Record>, key: BucketKey)
    requires forall i :: 0 <= i < |records| ==> records[i].key != key
    ensures Lookup(records, key) == []
  {
    if records != [] {
      assert forall i :: 0 <= i < |records| - 1 ==> records[1..][i] == records[i + 1];
      AbsentBelow(records[1..], key);
    }
  }

  /** Scanning a page of ascending records finds exactly the target's members; stopping early misses nothing. */
  lemma {:induction false} ScanFinds(records: seq<Record>, target: BucketKey)
    requires KeysAscend(records) && CountsFit(records)
    ensures ScanPage(PageBytes(records), target) == Ok(Lookup(records, target))
  {
    if records != [] {
      FirstRecordOf(records[0], PageBytes(records[1..]));
      if Less(target, records[0].key) {
        AbsentBelow(records, target);
      } else {
        ScanFinds(records[1..], target);
      }
    }
  }

  // ---- Packing records into pages ----

  /** The records of one page. */
  type Group = g: seq<Record> | g != [] witness [Record(BucketKey(0, 0), [])]

  /** The next record would take a page that has begun beyond the target size. */
  predicate Closes(current: seq<Record>, record: Record) {
    current != [] && |PageBytes(current)| + RecordSize(record) > PAGE_TARGET_BYTES
  }

  /** Close the current page when the next record does not fit. */
  function Paginate(current: seq<Record>, rest: seq<Record>): (pages: seq<Group>)
    decreases |rest|
  {
    if rest == [] then if current == [] then [] else [current]
    else if Closes(current, rest[0]) then
      [current] + Paginate([rest[0]], rest[1..])
    else Paginate(current + [rest[0]], rest[1..])
  }

  function Flatten(groups: seq<Group>): seq<Record> {
    if groups == [] then [] else groups[0] + Flatten(groups[1..])
  }

  /** A page is within the target size unless one record alone exceeds it. */
  predicate WithinTarget(group: seq<Record>) {
    |group| == 1 || |PageBytes(group)| <= PAGE_TARGET_BYTES
  }

  lemma {:induction false} PageBytesAppend(records: seq<Record>, record: Record)
    ensures PageBytes(records + [record]) == PageBytes(records) + RecordBytes(record)
    decreases |records|
  {
    if records == [] {
      assert [record][1..] == [] && [] + [record] == [record];
      assert RecordBytes(record) + [] == [] + RecordBytes(record);
    } else {
      PageBytesAppend(records[1..], record);
      assert (records + [record])[1..] == records[1..] + [record];
      assert (records + [record])[0] == records[0];
      var a, b, c := RecordBytes(records[0]), PageBytes(records[1..]), RecordBytes(record);
      assert a + (b + c) == a + b + c;
    }
  }

  lemma {:induction false} FlattenCons(group: Group, others: seq<Group>)
    ensures Flatten([group] + others) == group + Flatten(others)
  {
    assert ([group] + others)[1..] == others;
  }

  lemma Advance(current: seq<Record>, rest: seq<Record>)
    requires rest != []
    ensures [rest[0]] + rest[1..] == rest && current + [rest[0]] + rest[1..] == current + rest
  {
  }

  /** Pages keep all records in their order. */
  lemma {:induction false} PagesHoldAll(current: seq<Record>, rest: seq<Record>)
    ensures Flatten(Paginate(current, rest)) == current + rest
    decreases |rest|
  {
    if rest == [] {
      assert current + [] == current;
      if current != [] {
        FlattenCons(current, []);
        assert [current] + [] == [current];
      }
    } else {
      var record := rest[0];
      Advance(current, rest);
      if Closes(current, record) {
        PagesHoldAll([record], rest[1..]);
        FlattenCons(current, Paginate([record], rest[1..]));
      } else {
        PagesHoldAll(current + [record], rest[1..]);
      }
    }
  }

  /** Only a lone record exceeds the target size. */
  lemma {:induction false} PagesWithinTarget(current: seq<Record>, rest: seq<Record>, i: nat)
    requires current != [] ==> WithinTarget(current)
    requires i < |Paginate(current, rest)|
    ensures WithinTarget(Paginate(current, rest)[i])
    decreases |rest|
  {
    if rest != [] {
      var record := rest[0];
      PageBytesAppend(current, record);
      if Closes(current, record) {
        if i > 0 {
          PagesWithinTarget([record], rest[1..], i - 1);
        }
      } else {
        PagesWithinTarget(current + [record], rest[1..], i);
      }
    }
  }

  lemma {:induction false} PaginateStep(current: seq<Record>, rest: seq<Record>)
    requires rest != []
    ensures Paginate(current, rest) ==
            if Closes(current, rest[0]) then [current] + Paginate([rest[0]], rest[1..])
            else Paginate(current + [rest[0]], rest[1..])
  {
  }

  /** A page is closed only when its successor's first record did not fit. */
  lemma {:induction false} PagesAreFull(current: seq<Record>, rest: seq<Record>, i: nat)
    requires i + 1 < |Paginate(current, rest)|
    ensures Closes(Paginate(current, rest)[i], Paginate(current, rest)[i + 1][0])
    decreases |rest|
  {
    var record := rest[0];
    PaginateStep(current, rest);
    if Closes(current, record) {
      var others := Paginate([record], rest[1..]);
      if i == 0 {
        FirstPageStarts([record], rest[1..]);
      } else {
        PagesAreFull([record], rest[1..], i - 1);
      }
    } else {
      PagesAreFull(current + [record], rest[1..], i);
    }
  }

  lemma {:induction false} FirstPageStarts(current: seq<Record>, rest: seq<Record>)
    requires current != []
    ensures Paginate(current, rest) != [] && current <= Paginate(current, rest)[0]
    decreases |rest|
  {
    if rest != [] {
      FirstPageStarts(current + [rest[0]], rest[1..]);
    }
  }

  // ---- The page file ----

  function EncodedPageOf(group: Group): EncodedPage
  {
    EncodedPage(group[0].key, group[|group| - 1].key, PageBytes(group))
  }

  /** Where each page lies when the first starts at `offset`. */
  function Described(pages: seq<EncodedPage>, offset: nat): (descriptors: seq<PageDescriptor>)
    ensures |descriptors| == |pages|
    decreases |pages|
  {
    if pages == [] then []
    else [PageDescriptor(pages[0].first, pages[0].last, offset, |pages[0].bytes|)] +
         Described(pages[1..], offset + |pages[0].bytes|)
  }

  function PagePayload(pages: seq<EncodedPage>): seq<byte> {
    if pages == [] then [] else pages[0].bytes + PagePayload(pages[1..])
  }

  /** First band and hash, last band and hash, offset, length, reserved. */
  function DescriptorWidth(field: nat): nat {
    if field == 1 || field == 3 || field == 4 then 8 else 4
  }

  lemma DescriptorSize()
    ensures Total(DescriptorWidth, 0, 7) == PAGE_DIRECTORY_BYTES
  {
    assert Total(DescriptorWidth, 4, 7) == 16;
  }

  function DescriptorFields(d: PageDescriptor): (fields: seq<nat>)
    ensures |fields| == 7
  {
    [d.first.band, d.first.hash, d.last.band, d.last.hash, d.offset, d.length, 0]
  }

  function DescriptorBytes(d: PageDescriptor): (bytes: seq<byte>)
    ensures |bytes| == PAGE_DIRECTORY_BYTES
  {
    DescriptorSize();
    Join(DescriptorWidth, DescriptorFields(d))
  }

  function DirectoryBytes(descriptors: seq<PageDescriptor>): (bytes: seq<byte>)
    ensures |bytes| == PAGE_DIRECTORY_BYTES * |descriptors|
  {
    if descriptors == [] then [] else DescriptorBytes(descriptors[0]) + DirectoryBytes(descriptors[1..])
  }

  /** Magic, version, page count. */
  function PageHeaderWidth(field: nat): nat {
    if field == 0 then 8 else 4
  }

  lemma PageHeaderSize()
    ensures Total(PageHeaderWidth, 0, 3) == PAGE_HEADER_BYTES
  {
  }

  function PageHeader(count: nat): (bytes: seq<byte>)
    ensures |bytes| == PAGE_HEADER_BYTES
  {
    PageHeaderSize();
    Join(PageHeaderWidth, [PAGE_MAGIC, PAGE_VERSION, count])
  }

  function PayloadStart(count: nat): nat {
    PAGE_HEADER_BYTES + PAGE_DIRECTORY_BYTES * count
  }

  function FileOf(pages: seq<EncodedPage>): seq<byte> {
    PageHeader(|pages|) + DirectoryBytes(Described(pages, PayloadStart(|pages|))) + PagePayload(pages)
  }

  /** Page count, page lengths and the end of the file must fit their fields. */
  predicate PagesFit(pages: seq<EncodedPage>) {
    && |pages| <= U32_MAX && (forall i :: 0 <= i < |pages| ==> |pages[i].bytes| <= U32_MAX)
    && PayloadStart(|pages|) + |PagePayload(pages)| <= U64_MAX
  }

  /** The encoded pages of a bucket map. */
  function PagesOf(groups: seq<Group>): (pages: seq<EncodedPage>)
    ensures |pages| == |groups|
  {
    if groups == [] then [] else [EncodedPageOf(groups[0])] + PagesOf(groups[1..])
  }

  function BuildFile(records: seq<Record>): Result<seq<byte>, PageError> {
    var pages := PagesOf(Paginate([], records));
    if !CountsFit(records) || !PagesFit(pages) then Err(TooLarge) else Ok(FileOf(pages))
  }

  // ---- Reading the directory ----

  function CheckDescriptor(v: seq<nat>, previousEnd: nat, previousLast: Option<BucketKey>, fileLength: nat)
    : Result<PageDescriptor, PageError>
    requires |v| == 7 && Fits(DescriptorWidth, 0, v)
  {
    Limits();
    var d := PageDescriptor(BucketKey(v[0], v[1]), BucketKey(v[2], v[3]), v[4], v[5]);
    if v[6] != 0 || Less(d.last, d.first) || d.offset < previousEnd then Err(InvalidData)
    else if previousLast.Some? && !Less(previousLast.value, d.first) then Err(InvalidData)
    else if d.offset + d.length > U64_MAX || d.offset + d.length > fileLength then Err(InvalidData)
    else Ok(d)
  }

  function DescriptorAt(directory: seq<byte>): (v: seq<nat>)
    requires |directory| >= PAGE_DIRECTORY_BYTES
    ensures |v| == 7 && Fits(DescriptorWidth, 0, v)
  {
    DescriptorSize();
    Split(DescriptorWidth, 7, directory[..40])
  }

  function ParseDescriptors(directory: seq<byte>, previousEnd: nat, previousLast: Option<BucketKey>, fileLength: nat)
    : Result<seq<PageDescriptor>, PageError>
    decreases |directory|
  {
    if |directory| < PAGE_DIRECTORY_BYTES then
      if previousEnd == fileLength then Ok([]) else Err(InvalidData)
    else
      var d :- CheckDescriptor(DescriptorAt(directory), previousEnd, previousLast, fileLength);
      var others :- ParseDescriptors(directory[40..], d.offset + d.length, Some(d.last), fileLength);
      Ok([d] + others)
  }

  function PageHeaderAt(file: seq<byte>): (v: seq<nat>)
    requires |file| >= PAGE_HEADER_BYTES
    ensures |v| == 3
  {
    PageHeaderSize();
    Split(PageHeaderWidth, 3, file[..16])
  }

  /** Open a page file: its directory, which must account for the file's whole length. */
  function ReadDirectory(file: seq<byte>): Result<seq<PageDescriptor>, PageError> {
    if |file| < PAGE_HEADER_BYTES then Err(InvalidData)
    else
      var v := PageHeaderAt(file);
      if PayloadStart(v[2]) > |file| || v[0] != PAGE_MAGIC || v[1] != PAGE_VERSION then Err(InvalidData)
      else ParseDescriptors(file[16..PayloadStart(v[2])], PayloadStart(v[2]), None, |file|)
  }

  /** A page may follow one that ends at the given offset and key. */
  predicate Placeable(d: PageDescriptor, previousEnd: nat, previousLast: Option<BucketKey>, fileLength: nat) {
    && !Less(d.last, d.first) && previousEnd <= d.offset && d.length <= U32_MAX
    && (previousLast.Some? ==> Less(previousLast.value, d.first))
    && d.offset + d.length <= U64_MAX && d.offset + d.length <= fileLength
  }

  /** Page and key ranges ascend without overlap, and the last page ends the file. */
  ghost predicate WellPlaced(descriptors: seq<PageDescriptor>, previousEnd: nat, previousLast: Option<BucketKey>,
                             fileLength: nat)
    decreases |descriptors|
  {
    if descriptors == [] then previousEnd == fileLength
    else
      var d := descriptors[0];
      && Placeable(d, previousEnd, previousLast, fileLength)
      && WellPlaced(descriptors[1..], d.offset + d.length, Some(d.last), fileLength)
  }

  lemma DescriptorRoundTrip(d: PageDescriptor, rest: seq<byte>)
    requires d.offset <= U64_MAX && d.length <= U32_MAX
    ensures DescriptorAt(DescriptorBytes(d) + rest) == DescriptorFields(d)
    ensures (DescriptorBytes(d) + rest)[40..] == rest
  {
    DescriptorSize();
    Limits();
    assert (DescriptorBytes(d) + rest)[..40] == DescriptorBytes(d);
    assert Fits(DescriptorWidth, 0, DescriptorFields(d));
    SplitJoin(DescriptorWidth, DescriptorFields(d));
  }

  lemma DescriptorAccepted(d: PageDescriptor, previousEnd: nat, previousLast: Option<BucketKey>, fileLength: nat)
    requires Placeable(d, previousEnd, previousLast, fileLength)
    ensures Fits(DescriptorWidth, 0, DescriptorFields(d))
    ensures CheckDescriptor(DescriptorFields(d), previousEnd, previousLast, fileLength) == Ok(d)
  {
    Limits();
  }

  lemma {:induction false} ParseCons(d: PageDescriptor, rest: seq<byte>, previousEnd: nat,
                                     previousLast: Option<BucketKey>, fileLength: nat)
    requires Placeable(d, previousEnd, previousLast, fileLength)
    ensures
      var others := ParseDescriptors(rest, d.offset + d.length, Some(d.last), fileLength);
      ParseDescriptors(DescriptorBytes(d) + rest, previousEnd, previousLast, fileLength) ==
      if others.Err? then others else Ok([d] + others.value)
  {
    DescriptorRoundTrip(d, rest);
    DescriptorAccepted(d, previousEnd, previousLast, fileLength);
  }

  ghost predicate ReadsBack(descriptors: seq<PageDescriptor>, previousEnd: nat, previousLast: Option<BucketKey>,
                            fileLength: nat)
  {
    ParseDescriptors(DirectoryBytes(descriptors), previousEnd, previousLast, fileLength) == Ok(descriptors)
  }

  lemma {:induction false} ReadBackCons(d: PageDescriptor, others: seq<PageDescriptor>, previousEnd: nat,
                                        previousLast: Option<BucketKey>, fileLength: nat)
    requires Placeable(d, previousEnd, previousLast, fileLength)
    requires ReadsBack(others, d.offset + d.length, Some(d.last), fileLength)
    ensures ReadsBack([d] + others, previousEnd, previousLast, fileLength)
  {
    ParseCons(d, DirectoryBytes(others), previousEnd, previousLast, fileLength);
    assert ([d] + others)[1..] == others;
  }

  lemma {:induction false} DescriptorsRoundTrip(descriptors: seq<PageDescriptor>, previousEnd: nat,
                                                previousLast: Option<BucketKey>, fileLength: nat)
    requires WellPlaced(descriptors, previousEnd, previousLast, fileLength)
    ensures ReadsBack(descriptors, previousEnd, previousLast, fileLength)
    decreases |descriptors|
  {
    if descriptors != [] {
      var d := descriptors[0];
      DescriptorsRoundTrip(descriptors[1..], d.offset + d.length, Some(d.last), fileLength);
      ReadBackCons(d, descriptors[1..], previousEnd, previousLast, fileLength);
      assert [d] + descriptors[1..] == descriptors;
    }
  }

  // ---- Lookups ----

  /** The first page that does not end below the key, if it also starts at or below it. */
  function FindPage(descriptors: seq<PageDescriptor>, key: BucketKey): Option<PageDescriptor> {
    if descriptors == [] then None
    else if Less(descriptors[0].last, key) then FindPage(descriptors[1..], key)
    else if Less(key, descriptors[0].first) then None
    else Some(descriptors[0])
  }

  /** The bytes of the located page, none if there is no such page. */
  function LocatedBytes(file: seq<byte>, descriptors: seq<PageDescriptor>, key: BucketKey)
    : Result<seq<byte>, PageError>
  {
    var page := FindPage(descriptors, key);
    if page.None? then Ok([])
    else if page.value.offset + page.value.length > |file| then Err(InvalidData)
    else Ok(file[page.value.offset..page.value.offset + page.value.length])
  }

  /** Members found for one key through the directory. */
  function FindMembers(file: seq<byte>, descriptors: seq<PageDescriptor>, key: BucketKey): Result<seq<u64>, PageError> {
    var page :- LocatedBytes(file, descriptors, key);
    ScanPage(page, key)
  }

  /** The pages of `groups` lie in the file from `offset` to its end. */
  ghost predicate Holds(file: seq<byte>, groups: seq<Group>, offset: nat) {
    && KeysAscend(Flatten(groups)) && CountsFit(Flatten(groups))
    && offset <= |file| && file[offset..] == PagePayload(PagesOf(groups))
  }

  lemma AscendSplit(left: seq<Record>, right: seq<Record>)
    requires KeysAscend(left + right) && CountsFit(left + right)
    ensures KeysAscend(left) && CountsFit(left) && KeysAscend(right) && CountsFit(right)
  {
    var all := left + right;
    assert forall i :: 0 <= i < |left| ==> all[i] == left[i];
    assert forall i :: 0 <= i < |right| ==> all[|left| + i] == right[i];
  }

  lemma {:induction false} PagesCons(groups: seq<Group>)
    requires groups != []
    ensures PagesOf(groups) == [EncodedPageOf(groups[0])] + PagesOf(groups[1..])
    ensures PagePayload(PagesOf(groups)) == PageBytes(groups[0]) + PagePayload(PagesOf(groups[1..]))
  {
    assert PagesOf(groups)[1..] == PagesOf(groups[1..]);
  }

  lemma {:induction false} DescribedCons(page: EncodedPage, others: seq<EncodedPage>, offset: nat)
    ensures Described([page] + others, offset) ==
            [PageDescriptor(page.first, page.last, offset, |page.bytes|)] + Described(others, offset + |page.bytes|)
  {
    assert ([page] + others)[1..] == others;
  }

  lemma HoldsRest(file: seq<byte>, groups: seq<Group>, offset: nat)
    requires groups != [] && Holds(file, groups, offset)
    ensures
      var next := offset + |PageBytes(groups[0])|;
      && KeysAscend(groups[0]) && CountsFit(groups[0])
      && next <= |file| && file[offset..next] == PageBytes(groups[0])
      && Holds(file, groups[1..], next)
  {
    AscendSplit(groups[0], Flatten(groups[1..]));
    PagesCons(groups);
    SuffixSplit(file, offset, PageBytes(groups[0]), PagePayload(PagesOf(groups[1..])));
  }

  lemma {:induction false} LookupSplit(left: seq<Record>, right: seq<Record>, key: BucketKey)
    requires KeysAscend(left + right) && left != []
    ensures Less(left[|left| - 1].key, key) ==> Lookup(left + right, key) == Lookup(right, key)
    ensures !Less(left[|left| - 1].key, key) ==> Lookup(left + right, key) == Lookup(left, key)
    decreases |left|
  {
    var all := left + right;
    assert all[1..] == left[1..] + right && all[0] == left[0];
    if |left| > 1 {
      LookupSplit(left[1..], right, key);
      assert all[|left| - 1] == left[|left| - 1];
    } else {
      assert left[1..] == [] && all[1..] == right;
      if !Less(left[0].key, key) {
        assert forall i :: 0 <= i < |right| ==> right[i] == all[i + 1];
        AbsentBelow(right, key);
      }
    }
  }

  lemma {:induction false} LocatedCons(file: seq<byte>, d: PageDescriptor, others: seq<PageDescriptor>, key: BucketKey)
    requires d.offset + d.length <= |file|
    ensures LocatedBytes(file, [d] + others, key) ==
            if Less(d.last, key) then LocatedBytes(file, others, key)
            else if Less(key, d.first) then Ok([])
            else Ok(file[d.offset..d.offset + d.length])
  {
    assert ([d] + others)[1..] == others;
  }

  lemma {:induction false} LocatedStep(file: seq<byte>, page: EncodedPage, others: seq<EncodedPage>, offset: nat,
                                       key: BucketKey)
    requires offset + |page.bytes| <= |file| && file[offset..offset + |page.bytes|] == page.bytes
    ensures LocatedBytes(file, Described([page] + others, offset), key) ==
            if Less(page.last, key) then LocatedBytes(file, Described(others, offset + |page.bytes|), key)
            else if Less(key, page.first) then Ok([])
            else Ok(page.bytes)
  {
    DescribedCons(page, others, offset);
    LocatedCons(file, PageDescriptor(page.first, page.last, offset, |page.bytes|),
                Described(others, offset + |page.bytes|), key);
  }

  /** The records among which the key must be, if it is anywhere. */
  function Candidate(groups: seq<Group>, key: BucketKey): seq<Record> {
    if groups == [] then []
    else
      var page := EncodedPageOf(groups[0]);
      if Less(page.last, key) then Candidate(groups[1..], key)
      else if Less(key, page.first) then []
      else groups[0]
  }

  /** Locating a page by key range gives the bytes of the records in question. */
  lemma {:induction false} LocatesCandidate(file: seq<byte>, groups: seq<Group>, offset: nat, key: BucketKey)
    requires Holds(file, groups, offset)
    ensures LocatedBytes(file, Described(PagesOf(groups), offset), key) == Ok(PageBytes(Candidate(groups, key)))
    decreases |groups|
  {
    if groups != [] {
      HoldsRest(file, groups, offset);
      LocatesCandidate(file, groups[1..], offset + |PageBytes(groups[0])|, key);
      PagesCons(groups);
      LocatedStep(file, EncodedPageOf(groups[0]), PagesOf(groups[1..]), offset, key);
    }
  }

  /** Those records hold under the key what all records together hold. */
  lemma {:induction false} CandidateHolds(groups: seq<Group>, key: BucketKey)
    requires KeysAscend(Flatten(groups)) && CountsFit(Flatten(groups))
    ensures KeysAscend(Candidate(groups, key)) && CountsFit(Candidate(groups, key))
    ensures Lookup(Candidate(groups, key), key) == Lookup(Flatten(groups), key)
    decreases |groups|
  {
    if groups != [] {
      var first, rest := groups[0], Flatten(groups[1..]);
      AscendSplit(first, rest);
      CandidateHolds(groups[1..], key);
      LookupSplit(first, rest, key);
      if Less(key, first[0].key) {
        AbsentBelow(first, key);
      }
    }
  }

  /** Locating the page by key range and scanning it gives what the bucket map holds under the key. */
  lemma {:induction false} FindMembersIsLookup(file: seq<byte>, groups: seq<Group>, offset: nat, key: BucketKey)
    requires Holds(file, groups, offset)
    ensures FindMembers(file, Described(PagesOf(groups), offset), key) == Ok(Lookup(Flatten(groups), key))
  {
    LocatesCandidate(file, groups, offset, key);
    CandidateHolds(groups, key);
    ScanFinds(Candidate(groups, key), key);
  }

  lemma GroupOrder(group: Group, rest: seq<Record>)
    requires KeysAscend(group + rest)
    ensures !Less(group[|group| - 1].key, group[0].key)
    ensures rest != [] ==> Less(group[|group| - 1].key, rest[0].key)
  {
    var all := group + rest;
    assert all[0] == group[0] && all[|group| - 1] == group[|group| - 1];
    assert rest != [] ==> all[|group|] == rest[0];
  }

  lemma {:induction false} WellPlacedCons(d: PageDescriptor, others: seq<PageDescriptor>, previousEnd: nat,
                                          previousLast: Option<BucketKey>, fileLength: nat)
    requires Placeable(d, previousEnd, previousLast, fileLength)
    requires WellPlaced(others, d.offset + d.length, Some(d.last), fileLength)
    ensures WellPlaced([d] + others, previousEnd, previousLast, fileLength)
  {
    assert ([d] + others)[1..] == others;
  }

  lemma {:induction false} PagesWellPlaced(file: seq<byte>, groups: seq<Group>, offset: nat,
                                           previousLast: Option<BucketKey>)
    requires Holds(file, groups, offset) && |file| <= U64_MAX
    requires forall i :: 0 <= i < |groups| ==> |PageBytes(groups[i])| <= U32_MAX
    requires previousLast.Some? && groups != [] ==> Less(previousLast.value, groups[0][0].key)
    ensures WellPlaced(Described(PagesOf(groups), offset), offset, previousLast, |file|)
    decreases |groups|
  {
    if groups != [] {
      var page, rest := EncodedPageOf(groups[0]), groups[1..];
      var next := offset + |page.bytes|;
      HoldsRest(file, groups, offset);
      GroupOrder(groups[0], Flatten(rest));
      assert rest != [] ==> Flatten(rest)[0] == rest[0][0];
      PagesWellPlaced(file, rest, next, Some(page.last));
      PagesCons(groups);
      DescribedCons(page, PagesOf(rest), offset);
      WellPlacedCons(PageDescriptor(page.first, page.last, offset, |page.bytes|), Described(PagesOf(rest), next),
                     offset, previousLast, |file|);
    }
  }
}
