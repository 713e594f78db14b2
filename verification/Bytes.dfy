/** Little-endian integers, fixed layouts of such fields, and checksums folded over bytes. */
module Bytes {
  import opened Words
  import opened Bits

  type byte = u8

  /** One more than the largest number of `width` bytes. */
  function Limit(width: nat): (limit: nat)
    ensures limit >= 1
  {
    if width == 0 then 1 else 256 * Limit(width - 1)
  }

  lemma Limits()
    ensures Limit(2) == 0x1_0000 && Limit(4) == 0x1_0000_0000 && Limit(8) == 0x1_0000_0000_0000_0000
  {
  }

  function Le(value: nat, width: nat): (bytes: seq<byte>)
    ensures |bytes| == width
    decreases width, value
  {
    if width == 0 then [] else [value % 256] + Le(value / 256, width - 1)
  }

  function FromLe(bytes: seq<byte>): (value: nat)
    ensures value < Limit(|bytes|)
  {
    if bytes == [] then 0 else bytes[0] + 256 * FromLe(bytes[1..])
  }

  lemma {:induction false} FromLeInverts(value: nat, width: nat)
    requires value < Limit(width)
    ensures FromLe(Le(value, width)) == value
    decreases width
  {
    if width > 0 {
      FromLeInverts(value / 256, width - 1);
      assert Le(value, width)[1..] == Le(value / 256, width - 1);
    }
  }

  lemma {:induction false} LeInverts(bytes: seq<byte>)
    ensures Le(FromLe(bytes), |bytes|) == bytes
  {
    if bytes != [] {
      LeInverts(bytes[1..]);
      assert FromLe(bytes) / 256 == FromLe(bytes[1..]);
    }
  }

  /** Byte `k` of a number is its `k`-th digit to the base 256, lowest first. */
  lemma {:induction false} LeAt(value: nat, width: nat, k: nat)
    requires k < width
    ensures Le(value, width)[k] == (value / Limit(k)) % 256
    decreases k
  {
    if k > 0 {
      LeAt(value / 256, width - 1, k - 1);
      DivideTwice(value, 256, Limit(k - 1));
    }
  }

  /** The `width` bytes at `offset` are the digits of `value` to the base 256, lowest first. */
  ghost predicate LittleEndianAt(bytes: seq<byte>, offset: nat, width: nat, value: nat) {
    offset + width <= |bytes| && forall k: nat :: k < width ==> bytes[offset + k] == (value / Limit(k)) % 256
  }

  lemma {:induction false} DigitsAre(bytes: seq<byte>, offset: nat, width: nat, value: nat)
    ensures LittleEndianAt(bytes, offset, width, value) <==>
            offset + width <= |bytes| && bytes[offset..offset + width] == Le(value, width)
  {
    forall k: nat | k < width
      ensures Le(value, width)[k] == (value / Limit(k)) % 256
    {
      LeAt(value, width, k);
    }
    if offset + width <= |bytes| {
      var slice := bytes[offset..offset + width];
      assert forall k: nat :: k < width ==> slice[k] == bytes[offset + k];
    }
  }

  // ---- Fixed layouts ----

  /** The width in bytes of each numbered field. */
  type Layout = nat -> nat

  /** Bytes taken by fields `start` up to `end`. */
  function Total(layout: Layout, start: nat, end: nat): nat
    requires start <= end
    decreases end - start
  {
    if start == end then 0 else layout(start) + Total(layout, start + 1, end)
  }

  lemma {:induction false} UniformTotal(layout: Layout, start: nat, end: nat, width: nat)
    requires start <= end && forall k :: start <= k < end ==> layout(k) == width
    ensures Total(layout, start, end) == (end - start) * width
    decreases end - start
  {
    if start < end {
      UniformTotal(layout, start + 1, end, width);
    }
  }

  lemma {:induction false} TotalSplit(layout: Layout, start: nat, mid: nat, end: nat)
    requires start <= mid <= end
    ensures Total(layout, start, end) == Total(layout, start, mid) + Total(layout, mid, end)
    decreases mid - start
  {
    if start < mid {
      TotalSplit(layout, start + 1, mid, end);
    }
  }

  /** Fields one after the other, each in its own width. */
  function Pack(layout: Layout, values: seq<nat>, start: nat): (bytes: seq<byte>)
    requires start <= |values|
    ensures |bytes| == Total(layout, start, |values|)
    decreases |values| - start
  {
    if start == |values| then [] else Le(values[start], layout(start)) + Pack(layout, values, start + 1)
  }

  function Unpack(layout: Layout, start: nat, end: nat, bytes: seq<byte>): (values: seq<nat>)
    requires start <= end && |bytes| == Total(layout, start, end)
    ensures |values| == end - start
    decreases end - start, bytes
  {
    if start == end then []
    else [FromLe(bytes[..layout(start)])] + Unpack(layout, start + 1, end, bytes[layout(start)..])
  }

  ghost predicate Fits(layout: Layout, start: nat, values: seq<nat>) {
    forall i :: 0 <= i < |values| ==> values[i] < Limit(layout(start + i))
  }

  lemma {:induction false} UnpackFits(layout: Layout, start: nat, end: nat, bytes: seq<byte>)
    requires start <= end && |bytes| == Total(layout, start, end)
    ensures Fits(layout, start, Unpack(layout, start, end, bytes))
    decreases end - start
  {
    if start < end {
      var rest := bytes[layout(start)..];
      UnpackFits(layout, start + 1, end, rest);
      FitsCons(layout, start, FromLe(bytes[..layout(start)]), Unpack(layout, start + 1, end, rest));
    }
  }

  lemma FitsCons(layout: Layout, start: nat, first: nat, others: seq<nat>)
    requires first < Limit(layout(start)) && Fits(layout, start + 1, others)
    ensures Fits(layout, start, [first] + others)
  {
    var all := [first] + others;
    forall i | 0 <= i < |all|
      ensures all[i] < Limit(layout(start + i))
    {
      if i > 0 {
        assert others[i - 1] < Limit(layout(start + 1 + (i - 1)));
      }
    }
  }

  lemma {:induction false} UnpackInverts(layout: Layout, values: seq<nat>, start: nat)
    requires start <= |values| && Fits(layout, 0, values)
    ensures Unpack(layout, start, |values|, Pack(layout, values, start)) == values[start..]
    decreases |values| - start
  {
    if start < |values| {
      var bytes := Pack(layout, values, start);
      assert bytes[..layout(start)] == Le(values[start], layout(start));
      assert bytes[layout(start)..] == Pack(layout, values, start + 1);
      FromLeInverts(values[start], layout(start));
      UnpackInverts(layout, values, start + 1);
    }
  }

  lemma {:induction false} PackInverts(layout: Layout, start: nat, end: nat, bytes: seq<byte>, values: seq<nat>)
    requires start <= end == |values| && |bytes| == Total(layout, start, end)
    requires values[start..] == Unpack(layout, start, end, bytes)
    ensures Pack(layout, values, start) == bytes
    decreases end - start
  {
    if start < end {
      assert values[start..][0] == values[start] && values[start..][1..] == values[start + 1..];
      LeInverts(bytes[..layout(start)]);
      PackInverts(layout, start + 1, end, bytes[layout(start)..], values);
      assert bytes == bytes[..layout(start)] + bytes[layout(start)..];
    }
  }

  lemma SliceOfSuffix(bytes: seq<byte>, drop: nat, offset: nat, length: nat)
    requires drop + offset + length <= |bytes|
    ensures bytes[drop..][offset..offset + length] == bytes[drop + offset..drop + offset + length]
  {
  }

  lemma SliceOfSlice(bytes: seq<byte>, start: nat, end: nat, offset: nat, length: nat)
    requires start <= end <= |bytes| && start + offset + length <= end
    ensures bytes[start..end][offset..offset + length] == bytes[start + offset..start + offset + length]
  {
    var middle, direct := bytes[start..end], bytes[start + offset..start + offset + length];
    assert forall k :: 0 <= k < length ==> middle[offset..offset + length][k] == middle[offset + k] == direct[k];
  }

  lemma SuffixSplit(bytes: seq<byte>, start: nat, head: seq<byte>, tail: seq<byte>)
    requires start <= |bytes| && bytes[start..] == head + tail
    ensures start + |head| <= |bytes| && bytes[start..start + |head|] == head && bytes[start + |head|..] == tail
  {
    assert bytes[start..start + |head|] == bytes[start..][..|head|];
    assert bytes[start + |head|..] == bytes[start..][|head|..];
  }

  /** The fields from `k` on are those of the bytes behind the fields before it. */
  lemma {:induction false} UnpackFrom(layout: Layout, start: nat, end: nat, bytes: seq<byte>, k: nat, offset: nat)
    requires start <= k <= end && |bytes| == Total(layout, start, end)
    requires offset == Total(layout, start, k) && offset <= |bytes| && |bytes| - offset == Total(layout, k, end)
    ensures Unpack(layout, start, end, bytes)[k - start..] == Unpack(layout, k, end, bytes[offset..])
    decreases k - start
  {
    if start == k {
      assert bytes[0..] == bytes;
    } else {
      var width := layout(start);
      var rest, left := bytes[width..], offset - width;
      assert rest[left..] == bytes[offset..];
      UnpackFrom(layout, start + 1, end, rest, k, left);
      UnpackTail(layout, start, end, bytes, rest, k - start);
    }
  }

  lemma {:induction false} UnpackTail(layout: Layout, start: nat, end: nat, bytes: seq<byte>, rest: seq<byte>, n: nat)
    requires start < end && |bytes| == Total(layout, start, end) && rest == bytes[layout(start)..]
    requires 0 < n <= end - start
    ensures Unpack(layout, start, end, bytes)[n..] == Unpack(layout, start + 1, end, rest)[n - 1..]
  {
    DropFirst(FromLe(bytes[..layout(start)]), Unpack(layout, start + 1, end, rest), n);
  }

  lemma DropFirst(first: nat, others: seq<nat>, n: nat)
    requires 0 < n <= |others| + 1
    ensures ([first] + others)[n..] == others[n - 1..]
  {
  }

  /** Field `k` is the little-endian number at the offset where its predecessors end. */
  lemma {:induction false} FieldAt(layout: Layout, start: nat, end: nat, bytes: seq<byte>, k: nat, offset: nat)
    requires start <= k < end && |bytes| == Total(layout, start, end)
    requires offset == Total(layout, start, k) && offset + layout(k) <= |bytes|
    ensures Unpack(layout, start, end, bytes)[k - start] == FromLe(bytes[offset..offset + layout(k)])
  {
    TotalSplit(layout, start, k, end);
    UnpackFrom(layout, start, end, bytes, k, offset);
    UnpackFirst(layout, k, end, bytes[offset..]);
    assert bytes[offset..][..layout(k)] == bytes[offset..offset + layout(k)];
  }

  lemma {:induction false} UnpackFirst(layout: Layout, start: nat, end: nat, bytes: seq<byte>)
    requires start < end && |bytes| == Total(layout, start, end)
    ensures layout(start) <= |bytes| && Unpack(layout, start, end, bytes)[0] == FromLe(bytes[..layout(start)])
  {
  }

  /** The fields of a fixed layout. */
  function Split(layout: Layout, count: nat, bytes: seq<byte>): (values: seq<nat>)
    requires |bytes| == Total(layout, 0, count)
    ensures |values| == count && Fits(layout, 0, values)
  {
    UnpackFits(layout, 0, count, bytes);
    Unpack(layout, 0, count, bytes)
  }

  /** The bytes of a fixed layout. */
  function Join(layout: Layout, values: seq<nat>): (bytes: seq<byte>)
    ensures |bytes| == Total(layout, 0, |values|)
  {
    Pack(layout, values, 0)
  }

  lemma SplitJoin(layout: Layout, values: seq<nat>)
    requires Fits(layout, 0, values)
    ensures Split(layout, |values|, Join(layout, values)) == values
  {
    UnpackInverts(layout, values, 0);
  }

  lemma {:induction false} JoinSplit(layout: Layout, count: nat, bytes: seq<byte>)
    requires |bytes| == Total(layout, 0, count)
    ensures Join(layout, Split(layout, count, bytes)) == bytes
  {
    PackInverts(layout, 0, count, bytes, Split(layout, count, bytes));
  }

  /** Where the fields of a layout start, the first of them at zero. */
  ghost predicate Offsets(layout: Layout, offsets: seq<nat>) {
    && (offsets != [] ==> offsets[0] == 0)
    && (forall k :: 1 <= k < |offsets| ==> offsets[k] == offsets[k - 1] + layout(k - 1))
  }

  lemma {:induction false} OffsetIs(layout: Layout, offsets: seq<nat>, k: nat)
    requires Offsets(layout, offsets) && k < |offsets|
    ensures Total(layout, 0, k) == offsets[k]
    decreases k
  {
    if k > 0 {
      OffsetIs(layout, offsets, k - 1);
      TotalSplit(layout, 0, k - 1, k);
      assert Total(layout, k - 1, k) == layout(k - 1) + Total(layout, k, k);
    }
  }

  /** Every field stands at its offset. */
  ghost predicate Placed(bytes: seq<byte>, layout: Layout, offsets: seq<nat>, values: seq<nat>) {
    |offsets| == |values| && forall k :: 0 <= k < |values| ==> LittleEndianAt(bytes, offsets[k], layout(k), values[k])
  }

  lemma {:induction false} FieldInside(layout: Layout, offsets: seq<nat>, count: nat, k: nat)
    requires Offsets(layout, offsets) && k < count == |offsets|
    ensures offsets[k] + layout(k) <= Total(layout, 0, count)
  {
    OffsetIs(layout, offsets, k);
    TotalSplit(layout, 0, k, count);
  }

  /** Joined fields stand at their offsets. */
  lemma {:induction false} JoinPlaced(layout: Layout, offsets: seq<nat>, values: seq<nat>)
    requires Offsets(layout, offsets) && |offsets| == |values| && Fits(layout, 0, values)
    ensures Placed(Join(layout, values), layout, offsets, values)
  {
    forall k | 0 <= k < |values|
      ensures LittleEndianAt(Join(layout, values), offsets[k], layout(k), values[k])
    {
      FieldPlaced(layout, offsets, values, k);
    }
  }

  lemma {:induction false} FieldPlaced(layout: Layout, offsets: seq<nat>, values: seq<nat>, k: nat)
    requires Offsets(layout, offsets) && k < |offsets| == |values| && Fits(layout, 0, values)
    ensures LittleEndianAt(Join(layout, values), offsets[k], layout(k), values[k])
  {
    var bytes := Join(layout, values);
    SplitJoin(layout, values);
    FieldInside(layout, offsets, |values|, k);
    OffsetIs(layout, offsets, k);
    FieldAt(layout, 0, |values|, bytes, k, offsets[k]);
    LeInverts(bytes[offsets[k]..offsets[k] + layout(k)]);
    DigitsAre(bytes, offsets[k], layout(k), values[k]);
  }

  lemma {:induction false} PlacedField(bytes: seq<byte>, layout: Layout, offsets: seq<nat>, values: seq<nat>, k: nat)
    requires Offsets(layout, offsets) && Placed(bytes, layout, offsets, values) && Fits(layout, 0, values)
    requires |bytes| == Total(layout, 0, |values|) && k < |values|
    ensures Split(layout, |values|, bytes)[k] == values[k]
  {
    var offset, width, value := offsets[k], layout(k), values[k];
    assert value < Limit(layout(0 + k));
    OffsetIs(layout, offsets, k);
    DigitsAre(bytes, offset, width, value);
    FieldAt(layout, 0, |values|, bytes, k, offset);
    ReadsAs(bytes[offset..offset + width], value, width);
  }

  lemma {:induction false} ReadsAs(piece: seq<byte>, value: nat, width: nat)
    requires value < Limit(width) && piece == Le(value, width)
    ensures FromLe(piece) == value
  {
    FromLeInverts(value, width);
  }

  /** Fields at their offsets, and nothing more, are the joined fields. */
  lemma {:induction false} PlacedIsJoin(bytes: seq<byte>, layout: Layout, offsets: seq<nat>, values: seq<nat>)
    requires Offsets(layout, offsets) && Placed(bytes, layout, offsets, values) && Fits(layout, 0, values)
    requires |bytes| == Total(layout, 0, |values|)
    ensures bytes == Join(layout, values)
  {
    forall k | 0 <= k < |values|
      ensures Split(layout, |values|, bytes)[k] == values[k]
    {
      PlacedField(bytes, layout, offsets, values, k);
    }
    assert Split(layout, |values|, bytes) == values;
    JoinSplit(layout, |values|, bytes);
  }

  // ---- Checksums ----

  /** A checksum that folds a step over the bytes; CRC-32 is one. */
  datatype Checksum = Checksum(init: u32, step: (u32, byte) -> u32, finish: u32 -> u32) {
    function Feed(state: u32, bytes: seq<byte>): u32
      decreases |bytes|
    {
      if bytes == [] then state else Feed(step(state, bytes[0]), bytes[1..])
    }

    function Of(bytes: seq<byte>): u32 {
      finish(Feed(init, bytes))
    }

    /** Feeding chunks one after the other is feeding them at once. */
    lemma {:induction false} FeedConcat(state: u32, left: seq<byte>, right: seq<byte>)
      ensures Feed(Feed(state, left), right) == Feed(state, left + right)
      decreases |left|
    {
      if left == [] {
        assert left + right == right;
      } else {
        FeedConcat(step(state, left[0]), left[1..], right);
        assert (left + right)[1..] == left[1..] + right;
      }
    }
  }

  function Xor32(a: u32, b: u32): u32 {
    Pow2Widths();
    XorBound(a, b, 32);
    Xor(a, b)
  }

  /** One bit of the reflected CRC-32 division (sample code in section 8 of RFC 1952). */
  function CrcBit(c: u32): u32 {
    if c % 2 == 1 then Xor32(0xEDB8_8320, c / 2) else c / 2
  }

  function CrcByte(state: u32, next: byte): u32 {
    CrcBit(CrcBit(CrcBit(CrcBit(CrcBit(CrcBit(CrcBit(CrcBit(Xor32(state, next)))))))))
  }

  const CRC32: Checksum :=
    Checksum(0xFFFF_FFFF, (state, next) => CrcByte(state, next), state => Xor32(state, 0xFFFF_FFFF))
}
