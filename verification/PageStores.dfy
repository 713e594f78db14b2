/** Building a page file, opening it, and answering bucket queries from it. */
module PageStores {
  import opened Words
  import opened Bytes
  import opened Sorting
  import opened LazyLayout
  import opened BucketSegments
  import opened Pages

  // ---- What a built file answers ----

  lemma PageCountAccepted(count: nat, rest: seq<byte>)
    requires count <= U32_MAX
    ensures PageHeaderAt(PageHeader(count) + rest) == [PAGE_MAGIC, PAGE_VERSION, count]
  {
    PageHeaderSize();
    Limits();
    var fields := [PAGE_MAGIC, PAGE_VERSION, count];
    assert (PageHeader(count) + rest)[..16] == Join(PageHeaderWidth, fields);
    assert Fits(PageHeaderWidth, 0, fields);
    SplitJoin(PageHeaderWidth, fields);
  }

  lemma {:induction false} FileSections(pages: seq<EncodedPage>)
    ensures
      var file, start := FileOf(pages), PayloadStart(|pages|);
      && |file| == start + |PagePayload(pages)| && file[start..] == PagePayload(pages)
      && file[16..start] == DirectoryBytes(Described(pages, start))
      && file == PageHeader(|pages|) + (DirectoryBytes(Described(pages, start)) + PagePayload(pages))
  {
    var start := PayloadStart(|pages|);
    var header, directory := PageHeader(|pages|), DirectoryBytes(Described(pages, start));
    assert header + directory + PagePayload(pages) == header + (directory + PagePayload(pages));
  }

  lemma {:induction false} PageAt(groups: seq<Group>, i: nat)
    requires i < |groups|
    ensures PagesOf(groups)[i] == EncodedPageOf(groups[i])
  {
    if i > 0 {
      PageAt(groups[1..], i - 1);
    }
  }

  /** Every built file opens, with the directory of its pages. */
  lemma {:induction false} BuiltOpens(records: seq<Record>)
    requires KeysAscend(records) && BuildFile(records).Ok?
    ensures
      var groups := Paginate([], records);
      var start := PayloadStart(|groups|);
      && Holds(BuildFile(records).value, groups, start)
      && ReadDirectory(BuildFile(records).value) == Ok(Described(PagesOf(groups), start))
  {
    var groups := Paginate([], records);
    var pages, start := PagesOf(groups), PayloadStart(|groups|);
    var file := BuildFile(records).value;
    FileSections(pages);
    PagesHoldAll([], records);
    assert [] + records == records;
    assert Holds(file, groups, start);
    forall i | 0 <= i < |groups|
      ensures |PageBytes(groups[i])| <= U32_MAX
    {
      PageAt(groups, i);
      assert |pages[i].bytes| <= U32_MAX;
    }
    PagesWellPlaced(file, groups, start, None);
    DescriptorsRoundTrip(Described(pages, start), start, None, |file|);
    PageCountAccepted(|pages|, DirectoryBytes(Described(pages, start)) + PagePayload(pages));
  }

  /** Through an opened file, every key yields what the bucket map holds under it. */
  lemma {:induction false} BuiltAnswers(records: seq<Record>, key: BucketKey)
    requires KeysAscend(records) && BuildFile(records).Ok?
    ensures ReadDirectory(BuildFile(records).value).Ok?
    ensures
      var file := BuildFile(records).value;
      FindMembers(file, ReadDirectory(file).value, key) == Ok(Lookup(records, key))
  {
    BuiltOpens(records);
    var groups := Paginate([], records);
    FindMembersIsLookup(BuildFile(records).value, groups, PayloadStart(|groups|), key);
    PagesHoldAll([], records);
    assert [] + records == records;
  }

  lemma {:induction false} LookupPresent(records: seq<Record>, i: nat)
    requires KeysAscend(records) && i < |records|
    ensures Lookup(records, records[i].key) == records[i].members
  {
    if i > 0 {
      assert Less(records[0].key, records[i].key);
      LookupPresent(records[1..], i - 1);
    }
  }

  /** Everything the bucket map holds under any of the keys. */
  ghost function MembersUnder(records: seq<Record>, keys: seq<BucketKey>): set<nat> {
    set i, j | 0 <= i < |records| && records[i].key in keys && 0 <= j < |records[i].members| :: records[i].members[j]
  }

  /** The members found for the keys in turn; the first failing read fails the query. */
  function QueryPages(file: seq<byte>, descriptors: seq<PageDescriptor>, keys: seq<BucketKey>)
    : Result<set<nat>, PageError>
  {
    if keys == [] then Ok({})
    else
      var found :- FindMembers(file, descriptors, keys[0]);
      var others :- QueryPages(file, descriptors, keys[1..]);
      Ok((set v | v in found :: v as nat) + others)
  }

  lemma {:induction false} LookupMembers(records: seq<Record>, key: BucketKey, v: nat)
    requires KeysAscend(records)
    ensures v in Lookup(records, key) <==>
            exists i :: 0 <= i < |records| && records[i].key == key && v in records[i].members
  {
    if i :| 0 <= i < |records| && records[i].key == key {
      LookupPresent(records, i);
    } else {
      AbsentBelow(records, key);
    }
  }

  lemma {:induction false} UnderFirst(records: seq<Record>, keys: seq<BucketKey>)
    requires KeysAscend(records) && keys != []
    ensures MembersUnder(records, keys) ==
            (set v | v in Lookup(records, keys[0]) :: v as nat) + MembersUnder(records, keys[1..])
  {
    var found := set v | v in Lookup(records, keys[0]) :: v as nat;
    forall v: nat
      ensures v in MembersUnder(records, keys) <==> v in found || v in MembersUnder(records, keys[1..])
    {
      LookupMembers(records, keys[0], v);
      assert forall k :: k in keys <==> k == keys[0] || k in keys[1..];
    }
  }

  /** A query on a built file finds exactly the union of the map's entries for the queried keys. */
  lemma {:induction false} QueryIsUnion(records: seq<Record>, keys: seq<BucketKey>)
    requires KeysAscend(records) && BuildFile(records).Ok?
    ensures ReadDirectory(BuildFile(records).value).Ok?
    ensures
      var file := BuildFile(records).value;
      QueryPages(file, ReadDirectory(file).value, keys) == Ok(MembersUnder(records, keys))
    decreases |keys|
  {
    BuiltOpens(records);
    if keys == [] {
      assert MembersUnder(records, keys) == {};
    } else {
      BuiltAnswers(records, keys[0]);
      QueryIsUnion(records, keys[1..]);
      UnderFirst(records, keys);
    }
  }

  /** Among well-placed pages the located one is that whose key range contains the key. */
  lemma {:induction false} FindPageExact(descriptors: seq<PageDescriptor>, previousEnd: nat,
                                         previousLast: Option<BucketKey>, fileLength: nat, key: BucketKey,
                                         d: PageDescriptor)
    requires WellPlaced(descriptors, previousEnd, previousLast, fileLength)
    ensures FindPage(descriptors, key) == Some(d) <==> d in descriptors && !Less(key, d.first) && !Less(d.last, key)
    ensures previousLast.Some? && d in descriptors ==> Less(previousLast.value, d.first)
    decreases |descriptors|
  {
    if descriptors != [] {
      var first := descriptors[0];
      FindPageExact(descriptors[1..], first.offset + first.length, Some(first.last), fileLength, key, d);
    }
  }

  /** Whatever directory is accepted, its pages are well placed. */
  lemma {:induction false} ParsedWellPlaced(directory: seq<byte>, previousEnd: nat, previousLast: Option<BucketKey>,
                                            fileLength: nat)
    requires ParseDescriptors(directory, previousEnd, previousLast, fileLength).Ok?
    ensures
      var descriptors := ParseDescriptors(directory, previousEnd, previousLast, fileLength).value;
      WellPlaced(descriptors, previousEnd, previousLast, fileLength)
    decreases |directory|
  {
    if |directory| >= PAGE_DIRECTORY_BYTES {
      var d := CheckDescriptor(DescriptorAt(directory), previousEnd, previousLast, fileLength).value;
      Limits();
      ParsedWellPlaced(directory[40..], d.offset + d.length, Some(d.last), fileLength);
      var others := ParseDescriptors(directory[40..], d.offset + d.length, Some(d.last), fileLength).value;
      WellPlacedCons(d, others, previousEnd, previousLast, fileLength);
    }
  }

  /** In every file that opens, the located page is the one whose key range contains the key. */
  lemma {:induction false} OpenedFindsPage(file: seq<byte>, key: BucketKey, d: PageDescriptor)
    requires ReadDirectory(file).Ok?
    ensures
      var descriptors := ReadDirectory(file).value;
      FindPage(descriptors, key) == Some(d) <==> d in descriptors && !Less(key, d.first) && !Less(d.last, key)
  {
    var start := PayloadStart(PageHeaderAt(file)[2]);
    ParsedWellPlaced(file[16..start], start, None, |file|);
    FindPageExact(ReadDirectory(file).value, start, None, |file|, key, d);
  }

  /** Page ranges end in ascending key order. */
  ghost predicate EndsAscend(descriptors: seq<PageDescriptor>) {
    forall i, j :: 0 <= i < j < |descriptors| ==> Less(descriptors[i].last, descriptors[j].last)
  }

  lemma {:induction false} PlacedEndsAscend(descriptors: seq<PageDescriptor>, previousEnd: nat,
                                            previousLast: Option<BucketKey>, fileLength: nat)
    requires WellPlaced(descriptors, previousEnd, previousLast, fileLength)
    ensures EndsAscend(descriptors)
    ensures previousLast.Some? ==> forall i :: 0 <= i < |descriptors| ==> Less(previousLast.value, descriptors[i].last)
    decreases |descriptors|
  {
    if descriptors != [] {
      var first, rest := descriptors[0], descriptors[1..];
      PlacedEndsAscend(rest, first.offset + first.length, Some(first.last), fileLength);
      assert forall i :: 1 <= i < |descriptors| ==> descriptors[i] == rest[i - 1];
    }
  }

  /** Binary search for the first page that does not end below the key. */
  method PartitionPoint(descriptors: seq<PageDescriptor>, key: BucketKey) returns (index: nat)
    requires EndsAscend(descriptors)
    ensures index <= |descriptors|
    ensures forall i :: 0 <= i < index ==> Less(descriptors[i].last, key)
    ensures forall i :: index <= i < |descriptors| ==> !Less(descriptors[i].last, key)
  {
    var high: nat := |descriptors|;
    index := 0;
    while index < high
      invariant index <= high <= |descriptors|
      invariant forall i :: 0 <= i < index ==> Less(descriptors[i].last, key)
      invariant forall i :: high <= i < |descriptors| ==> !Less(descriptors[i].last, key)
    {
      var middle := (index + high) / 2;
      if Less(descriptors[middle].last, key) {
        index := middle + 1;
      } else {
        high := middle;
      }
    }
  }

  lemma {:induction false} FindPageAt(descriptors: seq<PageDescriptor>, key: BucketKey, index: nat)
    requires index <= |descriptors| && forall i :: 0 <= i < index ==> Less(descriptors[i].last, key)
    requires index < |descriptors| ==> !Less(descriptors[index].last, key)
    ensures FindPage(descriptors, key) ==
            if index < |descriptors| && !Less(key, descriptors[index].first) then Some(descriptors[index]) else None
    decreases index
  {
    if index > 0 {
      FindPageAt(descriptors[1..], key, index - 1);
    }
  }

  /** The binary search finds the page a walk from the front would find. */
  method LocatePage(descriptors: seq<PageDescriptor>, key: BucketKey) returns (page: Option<PageDescriptor>)
    requires EndsAscend(descriptors)
    ensures page == FindPage(descriptors, key)
  {
    var index := PartitionPoint(descriptors, key);
    FindPageAt(descriptors, key, index);
    return if index < |descriptors| && !Less(key, descriptors[index].first) then Some(descriptors[index]) else None;
  }

  // ---- The loops ----

  /** Pages done so far followed by those the rest will give. */
  ghost function PagesAhead(pages: seq<EncodedPage>, group: seq<Record>, rest: seq<Record>): seq<EncodedPage> {
    pages + PagesOf(Paginate(group, rest))
  }

  lemma PagesAheadStep(pages: seq<EncodedPage>, group: seq<Record>, rest: seq<Record>)
    requires rest != []
    ensures Closes(group, rest[0]) ==>
              PagesAhead(pages, group, rest) == PagesAhead(pages + [EncodedPageOf(group)], [rest[0]], rest[1..])
    ensures !Closes(group, rest[0]) ==>
              PagesAhead(pages, group, rest) == PagesAhead(pages, group + [rest[0]], rest[1..])
  {
    if Closes(group, rest[0]) {
      var others := Paginate([rest[0]], rest[1..]);
      assert ([group] + others)[1..] == others;
      assert pages + ([EncodedPageOf(group)] + PagesOf(others)) == pages + [EncodedPageOf(group)] + PagesOf(others);
    }
  }

  lemma PagesAheadEnds(pages: seq<EncodedPage>, group: seq<Record>)
    ensures PagesAhead(pages, group, []) == if group == [] then pages else pages + [EncodedPageOf(group)]
  {
    if group != [] {
      assert [group][1..] == [];
      assert PagesOf([group]) == [EncodedPageOf(group)];
    }
  }

  /** The buffer and key range of the page under construction. */
  ghost predicate UnderConstruction(group: seq<Record>, current: seq<byte>, first: Option<BucketKey>,
                                    last: Option<BucketKey>)
  {
    && current == PageBytes(group) && (current == [] <==> group == [])
    && (if group == [] then first.None? else first == Some(group[0].key) && last == Some(group[|group| - 1].key))
  }

  lemma ConstructionStep(group: seq<Record>, current: seq<byte>, first: Option<BucketKey>, last: Option<BucketKey>,
                         record: Record)
    requires UnderConstruction(group, current, first, last)
    ensures UnderConstruction(group + [record], current + RecordBytes(record),
                              if first.None? then Some(record.key) else first, Some(record.key))
  {
    PageBytesAppend(group, record);
  }

  /** Append the next record to the current page's bytes, or close that page first. */
  method EncodePages(records: seq<Record>) returns (r: Result<seq<EncodedPage>, PageError>)
    ensures r == if CountsFit(records) then Ok(PagesOf(Paginate([], records))) else Err(TooLarge)
  {
    var pages: seq<EncodedPage>, current: seq<byte> := [], [];
    var first: Option<BucketKey>, last: Option<BucketKey> := None, None;
    ghost var group: seq<Record>, whole := [], PagesAhead([], [], records);
    assert records[0..] == records;
    var i := 0;
    while i < |records|
      invariant 0 <= i <= |records| && forall k :: 0 <= k < i ==> |records[k].members| <= U32_MAX
      invariant UnderConstruction(group, current, first, last)
      invariant PagesAhead(pages, group, records[i..]) == whole
    {
      var record := records[i];
      if |record.members| > U32_MAX {
        return Err(TooLarge);
      }
      assert records[i..][0] == record && records[i..][1..] == records[i + 1..];
      PagesAheadStep(pages, group, records[i..]);
      var bytes := RecordBytes(record);
      if current != [] && |current| + |bytes| > PAGE_TARGET_BYTES {
        pages := pages + [EncodedPage(first.value, last.value, current)];
        current, first, group := [], None, [];
        assert [] + [record] == [record];
      }
      ConstructionStep(group, current, first, last, record);
      first := if first.None? then Some(record.key) else first;
      last, current, group := Some(record.key), current + bytes, group + [record];
      i := i + 1;
    }
    assert [] + PagesOf(Paginate([], records)) == PagesOf(Paginate([], records));
    PagesAheadEnds(pages, group);
    if current != [] {
      pages := pages + [EncodedPage(first.value, last.value, current)];
    }
    return Ok(pages);
  }

  /** Descriptors placed so far followed by those of the pages ahead, and where the file ends. */
  ghost function Placed(descriptors: seq<PageDescriptor>, pages: seq<EncodedPage>, i: nat, offset: nat)
    : (seq<PageDescriptor>, nat)
    requires i <= |pages|
  {
    (descriptors + Described(pages[i..], offset), offset + |PagePayload(pages[i..])|)
  }

  lemma PlacedStep(descriptors: seq<PageDescriptor>, pages: seq<EncodedPage>, i: nat, offset: nat)
    requires i < |pages|
    ensures
      var page := pages[i];
      var d := PageDescriptor(page.first, page.last, offset, |page.bytes|);
      Placed(descriptors + [d], pages, i + 1, offset + d.length) == Placed(descriptors, pages, i, offset)
  {
    assert pages[i..][0] == pages[i] && pages[i..][1..] == pages[i + 1..];
    var d := PageDescriptor(pages[i].first, pages[i].last, offset, |pages[i].bytes|);
    var others := Described(pages[i + 1..], offset + d.length);
    assert descriptors + ([d] + others) == descriptors + [d] + others;
  }

  lemma {:induction false} PlacedEnds(descriptors: seq<PageDescriptor>, pages: seq<EncodedPage>, start: nat,
                                      offset: nat)
    ensures Placed([], pages, 0, start) == (Described(pages, start), start + |PagePayload(pages)|)
    ensures Placed(descriptors, pages, |pages|, offset) == (descriptors, offset)
  {
    assert pages[0..] == pages && [] + Described(pages, start) == Described(pages, start);
    assert descriptors + [] == descriptors;
  }

  /** Descriptors under a running offset, or a page or file that is too large. */
  method PlacePages(pages: seq<EncodedPage>) returns (r: Result<seq<PageDescriptor>, PageError>)
    ensures r == if PagesFit(pages) then Ok(Described(pages, PayloadStart(|pages|))) else Err(TooLarge)
  {
    if |pages| > U32_MAX {
      return Err(TooLarge);
    }
    var start := PayloadStart(|pages|);
    var descriptors: seq<PageDescriptor>, offset: nat := [], start;
    ghost var whole := Placed([], pages, 0, start);
    PlacedEnds([], pages, start, start);
    var i := 0;
    while i < |pages|
      invariant 0 <= i <= |pages| && offset <= U64_MAX
      invariant forall k :: 0 <= k < i ==> |pages[k].bytes| <= U32_MAX
      invariant Placed(descriptors, pages, i, offset) == whole
    {
      PlacedStep(descriptors, pages, i, offset);
      var page := pages[i];
      if |page.bytes| > U32_MAX {
        return Err(TooLarge);
      }
      descriptors := descriptors + [PageDescriptor(page.first, page.last, offset, |page.bytes|)];
      offset := offset + |page.bytes|;
      if offset > U64_MAX {
        return Err(TooLarge);
      }
      i := i + 1;
    }
    PlacedEnds(descriptors, pages, start, offset);
    return Ok(descriptors);
  }

  lemma DirectoryAhead(descriptors: seq<PageDescriptor>, i: nat)
    requires i < |descriptors|
    ensures DirectoryBytes(descriptors[i..]) == DescriptorBytes(descriptors[i]) + DirectoryBytes(descriptors[i + 1..])
  {
    assert descriptors[i..][0] == descriptors[i] && descriptors[i..][1..] == descriptors[i + 1..];
  }

  lemma PayloadAhead(pages: seq<EncodedPage>, i: nat)
    requires i < |pages|
    ensures PagePayload(pages[i..]) == pages[i].bytes + PagePayload(pages[i + 1..])
  {
    assert pages[i..][0] == pages[i] && pages[i..][1..] == pages[i + 1..];
  }

  method WriteDescriptors(header: seq<byte>, descriptors: seq<PageDescriptor>) returns (file: seq<byte>)
    ensures file == header + DirectoryBytes(descriptors)
  {
    file := header;
    assert descriptors[0..] == descriptors;
    var i := 0;
    while i < |descriptors|
      invariant 0 <= i <= |descriptors|
      invariant file + DirectoryBytes(descriptors[i..]) == header + DirectoryBytes(descriptors)
    {
      DirectoryAhead(descriptors, i);
      var bytes := DescriptorBytes(descriptors[i]);
      assert file + (bytes + DirectoryBytes(descriptors[i + 1..])) ==
             file + bytes + DirectoryBytes(descriptors[i + 1..]);
      file := file + bytes;
      i := i + 1;
    }
    assert file + [] == file;
  }

  method WritePages(head: seq<byte>, pages: seq<EncodedPage>) returns (file: seq<byte>)
    ensures file == head + PagePayload(pages)
  {
    file := head;
    assert pages[0..] == pages;
    var i := 0;
    while i < |pages|
      invariant 0 <= i <= |pages|
      invariant file + PagePayload(pages[i..]) == head + PagePayload(pages)
    {
      PayloadAhead(pages, i);
      var bytes := pages[i].bytes;
      assert file + (bytes + PagePayload(pages[i + 1..])) == file + bytes + PagePayload(pages[i + 1..]);
      file := file + bytes;
      i := i + 1;
    }
    assert file + [] == file;
  }

  method BuildPageFile(records: seq<Record>) returns (r: Result<seq<byte>, PageError>)
    ensures r == BuildFile(records)
  {
    var encoded := EncodePages(records);
    if encoded.Err? {
      return Err(encoded.error);
    }
    var pages := encoded.value;
    var placed := PlacePages(pages);
    if placed.Err? {
      return Err(placed.error);
    }
    var head := WriteDescriptors(PageHeader(|pages|), placed.value);
    var file := WritePages(head, pages);
    return Ok(file);
  }

  /** Descriptors read before a parse that continues. */
  function Following(read: seq<PageDescriptor>, rest: Result<seq<PageDescriptor>, PageError>)
    : Result<seq<PageDescriptor>, PageError>
  {
    if rest.Err? then rest else Ok(read + rest.value)
  }

  lemma FollowingStep(read: seq<PageDescriptor>, d: PageDescriptor, rest: Result<seq<PageDescriptor>, PageError>)
    ensures Following(read, Following([d], rest)) == Following(read + [d], rest)
  {
    if rest.Ok? {
      assert read + ([d] + rest.value) == read + [d] + rest.value;
    }
  }

  lemma {:induction false} DescriptorStep(directory: seq<byte>, previousEnd: nat, previousLast: Option<BucketKey>,
                                          fileLength: nat)
    requires |directory| >= PAGE_DIRECTORY_BYTES
    ensures
      var checked := CheckDescriptor(DescriptorAt(directory), previousEnd, previousLast, fileLength);
      ParseDescriptors(directory, previousEnd, previousLast, fileLength) ==
      if checked.Err? then Err(checked.error)
      else Following([checked.value],
                     ParseDescriptors(directory[40..], checked.value.offset + checked.value.length,
                                      Some(checked.value.last), fileLength))
  {
  }

  lemma DirectoryLoopStep(read: seq<PageDescriptor>, directory: seq<byte>, previousEnd: nat,
                          previousLast: Option<BucketKey>, fileLength: nat)
    requires |directory| >= PAGE_DIRECTORY_BYTES
    ensures
      var checked := CheckDescriptor(DescriptorAt(directory), previousEnd, previousLast, fileLength);
      Following(read, ParseDescriptors(directory, previousEnd, previousLast, fileLength)) ==
      if checked.Err? then Err(checked.error)
      else Following(read + [checked.value],
                     ParseDescriptors(directory[40..], checked.value.offset + checked.value.length,
                                      Some(checked.value.last), fileLength))
  {
    DescriptorStep(directory, previousEnd, previousLast, fileLength);
    var checked := CheckDescriptor(DescriptorAt(directory), previousEnd, previousLast, fileLength);
    if checked.Ok? {
      FollowingStep(read, checked.value,
                    ParseDescriptors(directory[40..], checked.value.offset + checked.value.length,
                                     Some(checked.value.last), fileLength));
    }
  }

  lemma {:induction false} DirectoryLoopEnds(read: seq<PageDescriptor>, directory: seq<byte>, previousEnd: nat,
          previousLast: Option<BucketKey>, fileLength: nat, parsed: Result<seq<PageDescriptor>, PageError>)
    ensures |directory| < PAGE_DIRECTORY_BYTES ==>
              Following(read, ParseDescriptors(directory, previousEnd, previousLast, fileLength)) ==
              if previousEnd == fileLength then Ok(read) else Err(InvalidData)
    ensures Following([], parsed) == parsed
  {
    assert read + [] == read && (parsed.Ok? ==> [] + parsed.value == parsed.value);
  }

  method ParsePageDirectory(directory: seq<byte>, start: nat, fileLength: nat)
    returns (r: Result<seq<PageDescriptor>, PageError>)
    ensures r == ParseDescriptors(directory, start, None, fileLength)
  {
    ghost var parsed := ParseDescriptors(directory, start, None, fileLength);
    var descriptors: seq<PageDescriptor> := [];
    var rest, previousEnd: nat, previousLast := directory, start, None;
    DirectoryLoopEnds([], rest, previousEnd, previousLast, fileLength, parsed);
    while |rest| >= PAGE_DIRECTORY_BYTES
      invariant parsed == Following(descriptors, ParseDescriptors(rest, previousEnd, previousLast, fileLength))
      decreases |rest|
    {
      DirectoryLoopStep(descriptors, rest, previousEnd, previousLast, fileLength);
      var checked := CheckDescriptor(DescriptorAt(rest), previousEnd, previousLast, fileLength);
      if checked.Err? {
        return Err(checked.error);
      }
      var d := checked.value;
      rest, previousEnd, previousLast := rest[40..], d.offset + d.length, Some(d.last);
      descriptors := descriptors + [d];
    }
    DirectoryLoopEnds(descriptors, rest, previousEnd, previousLast, fileLength, parsed);
    return if previousEnd == fileLength then Ok(descriptors) else Err(InvalidData);
  }

  /** Walk the records of a page with a cursor until the target or a larger key. */
  method CollectBucket(page: seq<byte>, target: BucketKey) returns (r: Result<seq<u64>, PageError>)
    ensures r == ScanPage(page, target)
  {
    var cursor := 0;
    assert page[0..] == page;
    while cursor < |page|
      invariant 0 <= cursor <= |page|
      invariant ScanPage(page[cursor..], target) == ScanPage(page, target)
    {
      var record := FirstRecord(page[cursor..]);
      if record.Err? {
        return Err(record.error);
      }
      FirstRecordFits(page[cursor..]);
      if record.value.key == target {
        return Ok(record.value.members);
      }
      if Less(target, record.value.key) {
        return Ok([]);
      }
      assert page[cursor..][RecordSize(record.value)..] == page[cursor + RecordSize(record.value)..];
      cursor := cursor + RecordSize(record.value);
    }
    return Ok([]);
  }

  /** An opened page file. */
  class PageStore {
    const reader: Reader
    const pages: seq<PageDescriptor>

    /** The pages come from an accepted directory. */
    ghost predicate Valid() {
      EndsAscend(pages)
    }

    constructor (reader: Reader, pages: seq<PageDescriptor>)
      requires EndsAscend(pages)
      ensures Valid()
      ensures this.reader == reader && this.pages == pages
    {
      this.reader, this.pages := reader, pages;
    }

    method FindOne(key: BucketKey) returns (r: Result<seq<u64>, PageError>)
      requires Valid()
      modifies reader
      ensures r == FindMembers(reader.bytes, pages, key)
    {
      var page := LocatePage(pages, key);
      if page.None? {
        return Ok([]);
      }
      reader.Seek(page.value.offset);
      var bytes := reader.ReadExact(page.value.length);
      if bytes.None? {
        return Err(InvalidData);
      }
      r := CollectBucket(bytes.value, key);
    }

    /** The found members of all the buckets, in ascending order and without repetition. */
    method Query(buckets: seq<BucketKey>) returns (r: Result<seq<nat>, PageError>)
      requires Valid()
      modifies reader
      ensures
        var found := QueryPages(reader.bytes, pages, buckets);
        r == if found.Err? then Err(found.error) else Ok(AscendingList(found.value))
    {
      ghost var found := QueryPages(reader.bytes, pages, buckets);
      var candidates: set<nat> := {};
      assert buckets[0..] == buckets && (found.Ok? ==> {} + found.value == found.value);
      var i := 0;
      while i < |buckets|
        invariant 0 <= i <= |buckets|
        invariant Joined(candidates, QueryPages(reader.bytes, pages, buckets[i..])) == found
      {
        assert buckets[i..][0] == buckets[i] && buckets[i..][1..] == buckets[i + 1..];
        var members := FindOne(buckets[i]);
        if members.Err? {
          return Err(members.error);
        }
        ghost var ahead := QueryPages(reader.bytes, pages, buckets[i + 1..]);
        var gained := set v | v in members.value :: v as nat;
        assert ahead.Ok? ==> candidates + (gained + ahead.value) == candidates + gained + ahead.value;
        candidates := candidates + gained;
        i := i + 1;
      }
      var list := ListInOrder(candidates);
      return Ok(list);
    }
  }

  /** Candidates collected before a query that continues. */
  ghost function Joined(candidates: set<nat>, rest: Result<set<nat>, PageError>): Result<set<nat>, PageError> {
    if rest.Err? then rest else Ok(candidates + rest.value)
  }

  method OpenPageFile(reader: Reader) returns (r: Result<PageStore, PageError>)
    modifies reader
    ensures r.Ok? <==> ReadDirectory(reader.bytes).Ok?
    ensures r.Ok? ==> r.value.Valid() && r.value.reader == reader && r.value.pages == ReadDirectory(reader.bytes).value
  {
    reader.Seek(0);
    var header := reader.ReadExact(PAGE_HEADER_BYTES);
    if header.None? {
      return Err(InvalidData);
    }
    assert header.value[..16] == reader.bytes[..16];
    var v := PageHeaderAt(header.value);
    var directory := reader.ReadExact(PAGE_DIRECTORY_BYTES * v[2]);
    if directory.None? || v[0] != PAGE_MAGIC || v[1] != PAGE_VERSION {
      return Err(InvalidData);
    }
    var pages := ParsePageDirectory(directory.value, PayloadStart(v[2]), |reader.bytes|);
    if pages.Err? {
      return Err(pages.error);
    }
    ParsedWellPlaced(directory.value, PayloadStart(v[2]), None, |reader.bytes|);
    PlacedEndsAscend(pages.value, PayloadStart(v[2]), None, |reader.bytes|);
    var store := new PageStore(reader, pages.value);
    return Ok(store);
  }

  /** Build, open and query: the sorted union of the bucket map's entries for the queried buckets. */
  method BuildAndQuery(records: seq<Record>, buckets: seq<BucketKey>) returns (r: Result<seq<nat>, PageError>)
    requires KeysAscend(records)
    ensures r.Ok? <==> BuildFile(records).Ok?
    ensures r.Ok? ==> r.value == AscendingList(MembersUnder(records, buckets))
  {
    var file := BuildPageFile(records);
    if file.Err? {
      return Err(file.error);
    }
    QueryIsUnion(records, buckets);
    var reader := new Reader(file.value);
    var store := OpenPageFile(reader);
    r := store.value.Query(buckets);
  }
}
