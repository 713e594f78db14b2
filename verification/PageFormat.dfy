/** The page file at its literal offsets: header, page directory, and the records within a page. */
module PageFormat {
  import opened Words
  import opened Bytes
  import opened BucketSegments
  import opened Pages
  import opened WireFormat

  // ---- Records ----

  /** Band, hash, member count and then the members of a record at the front of some bytes. */
  ghost predicate PageRecordStands(bytes: seq<byte>, record: Record) {
    && LittleEndianAt(bytes, 0, 4, record.key.band) && LittleEndianAt(bytes, 4, 8, record.key.hash)
    && LittleEndianAt(bytes, 12, 4, |record.members|)
    && (forall k :: 0 <= k < |record.members| ==> LittleEndianAt(bytes, 16 + 8 * k, 8, record.members[k]))
  }

  lemma RecordHeadStands(bytes: seq<byte>, record: Record)
    requires |record.members| <= U32_MAX && |bytes| >= 16
    requires bytes[..16] == Join(RecordWidth, [record.key.band, record.key.hash, |record.members|])
    ensures LittleEndianAt(bytes, 0, 4, record.key.band) && LittleEndianAt(bytes, 4, 8, record.key.hash)
    ensures LittleEndianAt(bytes, 12, 4, |record.members|)
  {
    var v, at: seq<nat> := [record.key.band, record.key.hash, |record.members|], [0, 4, 12];
    Limits();
    assert Offsets(RecordWidth, at);
    JoinPlaced(RecordWidth, at, v);
    PrefixStands(bytes, 16);
    var head := bytes[..16];
    assert LittleEndianAt(head, at[0], RecordWidth(0), v[0]) && LittleEndianAt(head, at[1], RecordWidth(1), v[1]);
    assert LittleEndianAt(head, at[2], RecordWidth(2), v[2]);
  }

  lemma {:induction false} RecordStandsInFront(record: Record, rest: seq<byte>)
    requires |record.members| <= U32_MAX
    ensures PageRecordStands(RecordBytes(record) + rest, record)
  {
    var bytes := RecordBytes(record) + rest;
    RecordHeaderSize();
    assert bytes[..16] == Join(RecordWidth, [record.key.band, record.key.hash, |record.members|]);
    RecordHeadStands(bytes, record);
    assert bytes[16..RecordSize(record)] == MemberBytes(record.members);
    forall k | 0 <= k < |record.members|
      ensures LittleEndianAt(bytes, 16 + 8 * k, 8, record.members[k])
    {
      MemberPlaced(record.members, k);
      PlacedInSlice(bytes, 16, RecordSize(record), 8 * k, 8, record.members[k]);
    }
  }

  /** Where record `i` starts in its page. */
  function RecordStart(records: seq<Record>, i: nat): nat
    requires i <= |records|
  {
    if i == 0 then 0 else RecordStart(records, i - 1) + 16 + 8 * |records[i - 1].members|
  }

  lemma {:induction false} RecordsFrom(records: seq<Record>, i: nat)
    requires i <= |records|
    ensures RecordStart(records, i) <= |PageBytes(records)|
    ensures PageBytes(records)[RecordStart(records, i)..] == PageBytes(records[i..])
    decreases i
  {
    if i == 0 {
      assert records[0..] == records;
    } else {
      RecordsFrom(records, i - 1);
      assert records[i - 1..][0] == records[i - 1] && records[i - 1..][1..] == records[i..];
      var start := RecordStart(records, i - 1);
      SuffixSplit(PageBytes(records), start, RecordBytes(records[i - 1]), PageBytes(records[i..]));
    }
  }

  /** Every record of a page stands right behind the one before it. */
  lemma {:induction false} PageRecordPlaced(records: seq<Record>, i: nat)
    requires i < |records| && |records[i].members| <= U32_MAX
    ensures RecordStart(records, i) <= |PageBytes(records)|
    ensures PageRecordStands(PageBytes(records)[RecordStart(records, i)..], records[i])
  {
    RecordsFrom(records, i);
    assert records[i..][0] == records[i];
    RecordStandsInFront(records[i], PageBytes(records[i..][1..]));
  }

  // ---- Header and directory ----

  /** "PARIPG1" and a zero, version 1, page count. */
  ghost predicate PageHeaderStands(bytes: seq<byte>, count: nat) {
    && MagicStands(bytes, [0x50, 0x41, 0x52, 0x49, 0x50, 0x47, 0x31, 0x00])
    && LittleEndianAt(bytes, 8, 4, 1) && LittleEndianAt(bytes, 12, 4, count)
  }

  lemma PageMagicIs(bytes: seq<byte>)
    ensures LittleEndianAt(bytes, 0, 8, PAGE_MAGIC) <==>
            MagicStands(bytes, [0x50, 0x41, 0x52, 0x49, 0x50, 0x47, 0x31, 0x00])
  {
    DigitsAre(bytes, 0, 8, PAGE_MAGIC);
    assert Le(PAGE_MAGIC, 8) == [0x50, 0x41, 0x52, 0x49, 0x50, 0x47, 0x31, 0x00];
  }

  lemma PageHeaderIsPlaced(bytes: seq<byte>, count: nat)
    ensures Placed(bytes, PageHeaderWidth, [0, 8, 12], [PAGE_MAGIC, PAGE_VERSION, count]) <==>
            PageHeaderStands(bytes, count)
  {
    PageMagicIs(bytes);
    var v, at: seq<nat> := [PAGE_MAGIC, PAGE_VERSION, count], [0, 8, 12];
    if Placed(bytes, PageHeaderWidth, at, v) {
      assert LittleEndianAt(bytes, at[0], PageHeaderWidth(0), v[0]);
      assert LittleEndianAt(bytes, at[1], PageHeaderWidth(1), v[1]);
      assert LittleEndianAt(bytes, at[2], PageHeaderWidth(2), v[2]);
    }
  }

  /** Sixteen bytes are an encoded page header if and only if its numbers stand at their offsets. */
  lemma PageHeaderIff(bytes: seq<byte>, count: u32)
    requires |bytes| == PAGE_HEADER_BYTES
    ensures bytes == PageHeader(count) <==> PageHeaderStands(bytes, count)
  {
    var at: seq<nat> := [0, 8, 12];
    PageHeaderSize();
    Limits();
    assert Offsets(PageHeaderWidth, at);
    JoinIff(bytes, PageHeaderWidth, at, [PAGE_MAGIC, PAGE_VERSION, count]);
    PageHeaderIsPlaced(bytes, count);
  }

  /** First and last key, offset, length and four zero bytes. */
  ghost predicate DescriptorStands(bytes: seq<byte>, d: PageDescriptor) {
    && LittleEndianAt(bytes, 0, 4, d.first.band) && LittleEndianAt(bytes, 4, 8, d.first.hash)
    && LittleEndianAt(bytes, 12, 4, d.last.band) && LittleEndianAt(bytes, 16, 8, d.last.hash)
    && LittleEndianAt(bytes, 24, 8, d.offset) && LittleEndianAt(bytes, 32, 4, d.length)
    && LittleEndianAt(bytes, 36, 4, 0)
  }

  lemma DescriptorIsPlaced(bytes: seq<byte>, d: PageDescriptor)
    ensures Placed(bytes, DescriptorWidth, [0, 4, 12, 16, 24, 32, 36], DescriptorFields(d)) <==>
            DescriptorStands(bytes, d)
  {
    var v, at := DescriptorFields(d), [0, 4, 12, 16, 24, 32, 36];
    if Placed(bytes, DescriptorWidth, at, v) {
      assert LittleEndianAt(bytes, at[0], DescriptorWidth(0), v[0]);
      assert LittleEndianAt(bytes, at[1], DescriptorWidth(1), v[1]);
      assert LittleEndianAt(bytes, at[2], DescriptorWidth(2), v[2]);
      assert LittleEndianAt(bytes, at[3], DescriptorWidth(3), v[3]);
      assert LittleEndianAt(bytes, at[4], DescriptorWidth(4), v[4]);
      assert LittleEndianAt(bytes, at[5], DescriptorWidth(5), v[5]);
      assert LittleEndianAt(bytes, at[6], DescriptorWidth(6), v[6]);
    }
  }

  lemma DescriptorOffsets()
    ensures Offsets(DescriptorWidth, [0, 4, 12, 16, 24, 32, 36])
  {
  }

  /** Forty bytes are an encoded descriptor if and only if its numbers stand at their offsets. */
  lemma DescriptorIff(bytes: seq<byte>, d: PageDescriptor)
    requires |bytes| == PAGE_DIRECTORY_BYTES && d.offset <= U64_MAX && d.length <= U32_MAX
    ensures bytes == DescriptorBytes(d) <==> DescriptorStands(bytes, d)
  {
    DescriptorSize();
    Limits();
    DescriptorOffsets();
    JoinIff(bytes, DescriptorWidth, [0, 4, 12, 16, 24, 32, 36], DescriptorFields(d));
    DescriptorIsPlaced(bytes, d);
  }

  lemma {:induction false} DescriptorInDirectory(descriptors: seq<PageDescriptor>, i: nat)
    requires i < |descriptors|
    ensures 40 * i + 40 <= |DirectoryBytes(descriptors)|
    ensures DirectoryBytes(descriptors)[40 * i..40 * i + 40] == DescriptorBytes(descriptors[i])
    decreases i
  {
    var bytes := DirectoryBytes(descriptors);
    if i > 0 {
      DescriptorInDirectory(descriptors[1..], i - 1);
      assert bytes[40..] == DirectoryBytes(descriptors[1..]);
      SliceOfSuffix(bytes, 40, 40 * (i - 1), 40);
    }
  }

  /** Where page `i` starts in the file: behind the header, the directory and the pages before it. */
  function PageStart(pages: seq<EncodedPage>, i: nat): nat
    requires i <= |pages|
  {
    if i == 0 then 16 + 40 * |pages| else PageStart(pages, i - 1) + |pages[i - 1].bytes|
  }

  lemma {:induction false} DescribedAt(pages: seq<EncodedPage>, offset: nat, i: nat)
    requires i < |pages|
    ensures
      var d := Described(pages, offset)[i];
      && d.first == pages[i].first && d.last == pages[i].last && d.length == |pages[i].bytes|
      && d.offset == offset + PageStart(pages, i) - PageStart(pages, 0)
    decreases i
  {
    DescribedNext(pages, offset, i);
    if i > 0 {
      DescribedAt(pages, offset, i - 1);
    }
  }

  lemma {:induction false} DescribedNext(pages: seq<EncodedPage>, offset: nat, i: nat)
    requires i < |pages|
    ensures
      var all := Described(pages, offset);
      && all[i].first == pages[i].first && all[i].last == pages[i].last && all[i].length == |pages[i].bytes|
      && all[i].offset == if i == 0 then offset else all[i - 1].offset + |pages[i - 1].bytes|
    decreases i
  {
    var rest, next := pages[1..], offset + |pages[0].bytes|;
    assert Described(pages, offset)[1..] == Described(rest, next);
    if i > 0 {
      DescribedNext(rest, next, i - 1);
    }
  }

  lemma {:induction false} PayloadFrom(pages: seq<EncodedPage>, file: seq<byte>, i: nat)
    requires i <= |pages| && PageStart(pages, 0) <= |file| && file[PageStart(pages, 0)..] == PagePayload(pages)
    ensures PageStart(pages, i) <= |file| && file[PageStart(pages, i)..] == PagePayload(pages[i..])
    decreases i
  {
    if i == 0 {
      assert pages[0..] == pages;
    } else {
      PayloadFrom(pages, file, i - 1);
      assert pages[i - 1..][0] == pages[i - 1] && pages[i - 1..][1..] == pages[i..];
      SuffixSplit(file, PageStart(pages, i - 1), pages[i - 1].bytes, PagePayload(pages[i..]));
    }
  }

  /** Page `i` of a file: its descriptor in the directory, and its bytes where the descriptor says. */
  ghost predicate PageStands(file: seq<byte>, pages: seq<EncodedPage>, i: nat)
    requires i < |pages|
  {
    var page, start := pages[i], PageStart(pages, i);
    && 16 + 40 * i + 40 <= |file| && start + |page.bytes| <= |file|
    && DescriptorStands(file[16 + 40 * i..16 + 40 * i + 40],
                        PageDescriptor(page.first, page.last, start, |page.bytes|))
    && file[start..start + |page.bytes|] == page.bytes
  }

  lemma {:induction false} FileShape(pages: seq<EncodedPage>)
    ensures
      var file, start := FileOf(pages), PayloadStart(|pages|);
      && start <= |file| && file[..16] == PageHeader(|pages|)
      && file[16..start] == DirectoryBytes(Described(pages, start)) && file[start..] == PagePayload(pages)
  {
    var start := PayloadStart(|pages|);
    ThreeParts(PageHeader(|pages|), DirectoryBytes(Described(pages, start)), PagePayload(pages));
  }

  lemma {:induction false} DescriptorInFile(pages: seq<EncodedPage>, i: nat)
    requires PagesFit(pages) && i < |pages|
    ensures
      var file, d := FileOf(pages), Described(pages, PayloadStart(|pages|))[i];
      16 + 40 * i + 40 <= |file| && file[16 + 40 * i..16 + 40 * i + 40] == DescriptorBytes(d)
  {
    var file, start := FileOf(pages), PayloadStart(|pages|);
    FileShape(pages);
    DescriptorInDirectory(Described(pages, start), i);
    SliceOfSlice(file, 16, start, 40 * i, 40);
  }

  lemma {:induction false} BytesInFile(pages: seq<EncodedPage>, i: nat)
    requires i < |pages|
    ensures
      var file, start, length := FileOf(pages), PageStart(pages, i), |pages[i].bytes|;
      start + length <= |file| && file[start..start + length] == pages[i].bytes
  {
    FileShape(pages);
    PayloadFrom(pages, FileOf(pages), i);
    assert pages[i..][0] == pages[i];
    SuffixSplit(FileOf(pages), PageStart(pages, i), pages[i].bytes, PagePayload(pages[i..][1..]));
  }

  /** Every page of a file that fits stands where its place in the order says. */
  lemma {:induction false} PagePlaced(pages: seq<EncodedPage>, i: nat)
    requires PagesFit(pages) && i < |pages|
    ensures PageStands(FileOf(pages), pages, i)
  {
    var d := Described(pages, PayloadStart(|pages|))[i];
    BytesInFile(pages, i);
    DescriptorInFile(pages, i);
    DescribedAt(pages, PayloadStart(|pages|), i);
    FileShape(pages);
    DescriptorIff(DescriptorBytes(d), d);
  }

  /** The header of such a file stands at its front. */
  lemma PageHeaderPlaced(pages: seq<EncodedPage>)
    requires PagesFit(pages)
    ensures |FileOf(pages)| >= 16 && PageHeaderStands(FileOf(pages)[..16], |pages|)
  {
    FileShape(pages);
    PageHeaderIff(PageHeader(|pages|), |pages|);
  }
}
