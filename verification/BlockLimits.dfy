/** How far the block device's promise reaches: for each condition that the refinement theorem asks for,
    what exactly goes wrong without it. */
module BlockLimits {
  import opened Arithmetic
  import opened Bytes
  import opened Cache
  import opened DirtyMap
  import opened Overlay
  import opened Pipeline
  import opened Wrappers
  import opened BlockSpec
  import opened BlockRefinement

  // -- Images ----------------------------------------------------------------

  /** Entries are whole, disjoint, short and inside a medium of `n` bytes. */
  ghost predicate Laid(bs: nat, dirty: Entries, n: nat) {
    && Whole(dirty, bs) && Disjoint(dirty) && Short(dirty)
    && forall k :: k in dirty ==> k * bs + |dirty[k].data| <= n
  }

  ghost predicate Has(bs: nat, dirty: Entries, k: nat, a: int) {
    k in dirty && k * bs <= a < k * bs + |dirty[k].data|
  }

  lemma OnlyOneHas(bs: nat, dirty: Entries, j: nat, k: nat, a: int)
    requires bs > 0 && Whole(dirty, bs) && Disjoint(dirty) && Has(bs, dirty, j, a) && Has(bs, dirty, k, a)
    ensures j == k
  {
    if j < k {
      BeyondEnd(bs, j, dirty[j].count, k, a);
    } else if k < j {
      BeyondEnd(bs, k, dirty[k].count, j, a);
    }
  }

  lemma BeyondEnd(bs: nat, j: nat, n: nat, k: nat, a: int)
    requires j + n <= k && a < j * bs + n * bs
    ensures a < k * bs
  {
    assert (j + n) * bs == j * bs + n * bs;
    MulMono(j + n, k, bs);
  }

  ghost function ByteAt(bs: nat, disk: seq<byte>, dirty: Entries, a: nat): byte
    requires a < |disk|
  {
    if k: nat :| Has(bs, dirty, k, a) then dirty[k].data[a - k * bs] else disk[a]
  }

  /** The medium with the entries laid over it. */
  ghost function ImageOf(bs: nat, disk: seq<byte>, dirty: Entries): (flat: seq<byte>)
    requires bs > 0 && Laid(bs, dirty, |disk|)
    ensures IsImage(bs, disk, dirty, flat)
  {
    var flat := seq(|disk|, a requires 0 <= a < |disk| => ByteAt(bs, disk, dirty, a));
    ByteAtIsImage(bs, disk, dirty, flat);
    flat
  }

  lemma ByteAtIsImage(bs: nat, disk: seq<byte>, dirty: Entries, flat: seq<byte>)
    requires bs > 0 && Laid(bs, dirty, |disk|) && |flat| == |disk|
    requires forall a :: 0 <= a < |disk| ==> flat[a] == ByteAt(bs, disk, dirty, a)
    ensures IsImage(bs, disk, dirty, flat)
  {
    forall k | k in dirty
      ensures Holds(flat, k * bs, dirty[k].data, 0, |dirty[k].data|)
    {
      forall a | k * bs <= a < k * bs + |dirty[k].data|
        ensures flat[a] == dirty[k].data[a - k * bs]
      {
        assert Has(bs, dirty, k, a);
        var j: nat :| Has(bs, dirty, j, a) && ByteAt(bs, disk, dirty, a) == dirty[j].data[a - j * bs];
        OnlyOneHas(bs, dirty, j, k, a);
      }
    }
    forall a | 0 <= a < |disk| && !Touched(bs, dirty, a)
      ensures flat[a] == disk[a]
    {
      assert forall k: nat :: !Has(bs, dirty, k, a);
    }
    MakeImage(bs, disk, dirty, flat);
  }

  lemma HoldsByte(image: seq<byte>, at: nat, data: seq<byte>, a: nat)
    requires Holds(image, at, data, 0, |data|) && at <= a < at + |data|
    ensures a < |image| && image[a] == data[a - at]
  {
  }

  /** A byte that an entry holds is the entry's in the image. */
  lemma ImageHasByte(bs: nat, disk: seq<byte>, dirty: Entries, flat: seq<byte>, k: nat, a: nat)
    requires IsImage(bs, disk, dirty, flat) && Has(bs, dirty, k, a)
    ensures a < |flat| && flat[a] == dirty[k].data[a - k * bs]
  {
    ImageHolds(bs, disk, dirty, flat, k);
    HoldsByte(flat, k * bs, dirty[k].data, a);
  }

  /** The same extents, whatever bytes they hold. */
  ghost predicate SameShape(dirty: Entries, other: Entries) {
    && dirty.Keys == other.Keys
    && forall k :: k in dirty ==> dirty[k].count == other[k].count && |dirty[k].data| == |other[k].data|
  }

  /** The entry at `k` filled with one byte value. */
  ghost function Filled(dirty: Entries, k: nat, x: byte): (other: Entries)
    requires k in dirty
    ensures SameShape(dirty, other)
    ensures forall i :: 0 <= i < |other[k].data| ==> other[k].data[i] == x
  {
    dirty[k := Entry(seq(|dirty[k].data|, _ => x), dirty[k].count)]
  }

  lemma SameShapeLaid(bs: nat, dirty: Entries, other: Entries, n: nat)
    requires SameShape(dirty, other) && Laid(bs, dirty, n)
    ensures Laid(bs, other, n)
    ensures forall offset, len :: bs > 0 && WriteSafe(bs, dirty, offset, len) ==> WriteSafe(bs, other, offset, len)
  {
  }

  /** The entry that holds a byte can be filled so that the image differs from the medium there. */
  lemma ByteChanged(bs: nat, disk: seq<byte>, dirty: Entries, k: nat, a: nat) returns (other: Entries, flat: seq<byte>)
    requires bs > 0 && Laid(bs, dirty, |disk|) && Has(bs, dirty, k, a) && a < |disk|
    ensures SameShape(dirty, other) && IsImage(bs, disk, other, flat) && flat[a] != disk[a]
    ensures Laid(bs, other, |disk|) && Has(bs, other, k, a)
  {
    var x: byte := if disk[a] == 0 then 1 else 0;
    other := Filled(dirty, k, x);
    SameShapeLaid(bs, dirty, other, |disk|);
    flat := ImageOf(bs, disk, other);
    FilledHas(bs, dirty, k, x, a);
    ImageHasByte(bs, disk, other, flat, k, a);
  }

  lemma FilledHas(bs: nat, dirty: Entries, k: nat, x: byte, a: nat)
    requires Has(bs, dirty, k, a)
    ensures Has(bs, Filled(dirty, k, x), k, a) && Filled(dirty, k, x)[k].data[a - k * bs] == x
  {
  }

  // -- When a read between write and flush is right --------------------------

  /** Any answer to the read is the flat device's. */
  ghost predicate ReadRight(c: Config, s: State, flat: seq<byte>, offset: nat, size: u32)
    requires c.Valid() && WellFormed(c, s)
  {
    forall reply: seq<byte>, s2: State ::
      ReadStep(c, s, offset, size, Some(reply), s2) ==> reply == FlatRead(flat, offset, size)
  }

  /** Whatever the medium and the entries hold, and whatever of it is cached. */
  ghost predicate AlwaysReadRight(c: Config, dirty: Entries, offset: nat, size: u32)
    requires c.Valid()
  {
    forall s: State, flat: seq<byte> ::
      && WellFormed(c, s) && c.g.Coherent(s.disk, s.cache) && SameShape(dirty, s.dirty)
      && IsImage(c.g.bs, s.disk, s.dirty, flat)
      ==> ReadRight(c, s, flat, offset, size)
  }

  /** One entry holds all the blocks that the bytes touch. */
  ghost predicate HeldWhole(bs: nat, dirty: Entries, offset: nat, size: nat)
    requires bs > 0
  {
    var r := ComputeAlignment(offset, size, bs);
    exists k: nat :: Contains(dirty, k, r.start, r.count)
  }

  ghost predicate NoneTouched(bs: nat, dirty: Entries, from: int, to: int) {
    forall a :: from <= a < to ==> !Touched(bs, dirty, a)
  }

  lemma NotHeldMisses(bs: nat, dirty: Entries, r: Range)
    requires bs > 0 && Whole(dirty, bs) && Disjoint(dirty) && r.count > 0
    requires !exists k: nat :: Contains(dirty, k, r.start, r.count)
    ensures ReadOverlap(dirty, r.start, r.count, bs).None?
  {
    ReadOverlapExact(dirty, r.start, r.count, bs);
  }

  /** What a read answers with when the dirty map does not. */
  lemma MissedReply(c: Config, s: State, offset: nat, size: u32, kept: map<nat, seq<byte>>, reply: seq<byte>, s2: State, r: Range)
    requires c.Valid() && WellFormed(c, s) && 0 < size && offset < c.Total()
    requires ReadLength(c.Total(), offset, size) == size && r == ComputeAlignment(offset, size, c.g.bs)
    requires ReadOverlap(s.dirty, r.start, r.count, c.g.bs).None? && ReadWith(c, s, offset, size, kept, Some(reply), s2)
    ensures SubMap(kept, s.cache) && c.g.SpanFits(|s.disk|, r.start, r.count)
    ensures Cut(ReadThrough(c.g, s.disk, kept, r.start, r.count), r.skip, size) == Some(reply)
  {
  }

  lemma SlicedReply(disk: seq<byte>, at: nat, len: nat, skip: nat, n: nat, reply: seq<byte>)
    requires at + len <= |disk| && skip + n <= len && Cut(disk[at..at + len], skip, n) == Some(reply)
    ensures reply == disk[at + skip..at + skip + n]
  {
    CutSlice(disk, at, len, skip, n);
  }

  lemma MissIsDisk(c: Config, s: State, kept: map<nat, seq<byte>>, r: Range, size: nat, reply: seq<byte>, offset: nat)
    requires c.Valid() && WellFormed(c, s) && c.g.Coherent(s.disk, s.cache) && SubMap(kept, s.cache)
    requires r.count > 0 && r.skip + size <= r.count * c.g.bs && r.start * c.g.bs + r.skip == offset
    requires c.g.SpanFits(|s.disk|, r.start, r.count)
    requires Cut(ReadThrough(c.g, s.disk, kept, r.start, r.count), r.skip, size) == Some(reply)
    ensures offset + size <= |s.disk| && reply == s.disk[offset..offset + size]
  {
    ReadThroughIsDisk(c.g, s.disk, s.cache, kept, r.start, r.count);
    SlicedReply(s.disk, r.start * c.g.bs, r.count * c.g.bs, r.skip, size, reply);
  }

  /** Where a read that is not cut lies. */
  lemma ReadRange(c: Config, offset: nat, size: u32) returns (r: Range)
    requires c.Valid() && size > 0
    ensures r == ComputeAlignment(offset, size, c.g.bs)
    ensures r.count > 0 && r.skip + size <= r.count * c.g.bs && r.start * c.g.bs + r.skip == offset
  {
    r := ComputeAlignment(offset, size, c.g.bs);
    AlignmentFits(offset, size, c.g.bs);
    RangeHolds(offset, size, c.g.bs);
  }

  /** A read that the dirty map does not answer is the medium's, whatever is cached of it. */
  lemma MissedReadIsDisk(c: Config, s: State, offset: nat, size: u32, kept: map<nat, seq<byte>>, reply: seq<byte>, s2: State)
    requires c.Valid() && WellFormed(c, s) && c.g.Coherent(s.disk, s.cache)
    requires Whole(s.dirty, c.g.bs) && Disjoint(s.dirty)
    requires 0 < size && offset + size <= c.Total() && ReadLength(c.Total(), offset, size) == size
    requires !HeldWhole(c.g.bs, s.dirty, offset, size) && ReadWith(c, s, offset, size, kept, Some(reply), s2)
    ensures reply == s.disk[offset..offset + size]
  {
    var r := ReadRange(c, offset, size);
    NotHeldMisses(c.g.bs, s.dirty, r);
    MissedReply(c, s, offset, size, kept, reply, s2, r);
    MissIsDisk(c, s, kept, r, size, reply, offset);
  }

  lemma HeldReadIsFlat(c: Config, s: State, flat: seq<byte>, offset: nat, size: u32, kept: map<nat, seq<byte>>,
                       reply: seq<byte>, s2: State)
    requires c.Valid() && WellFormed(c, s) && IsImage(c.g.bs, s.disk, s.dirty, flat)
    requires Whole(s.dirty, c.g.bs) && Disjoint(s.dirty)
    requires 0 < size && offset + size <= c.Total() && ReadLength(c.Total(), offset, size) == size
    requires HeldWhole(c.g.bs, s.dirty, offset, size) && ReadWith(c, s, offset, size, kept, Some(reply), s2)
    ensures reply == flat[offset..offset + size]
  {
    var r := ComputeAlignment(offset, size, c.g.bs);
    AlignmentFits(offset, size, c.g.bs);
    RangeHolds(offset, size, c.g.bs);
    var found := LookupIsFlat(c.g.bs, s.disk, s.dirty, flat, r, size);
  }

  /** Through an empty cache a read is answered from the medium. */
  lemma SomeRead(c: Config, disk: seq<byte>, dirty: Entries, offset: nat, size: u32) returns (s: State, reply: seq<byte>)
    requires c.Valid() && |disk| == c.Total() && Laid(c.g.bs, dirty, |disk|)
    requires 0 < size && offset + size <= c.Total() && ReadLength(c.Total(), offset, size) == size
    requires ReadFits(c, offset, size) && !HeldWhole(c.g.bs, dirty, offset, size)
    ensures s == State(disk, map[], dirty, false) && WellFormed(c, s)
    ensures reply == disk[offset..offset + size] && ReadStep(c, s, offset, size, Some(reply), s)
  {
    s, reply := State(disk, map[], dirty, false), disk[offset..offset + size];
    var r := ComputeAlignment(offset, size, c.g.bs);
    AlignmentFits(offset, size, c.g.bs);
    RangeHolds(offset, size, c.g.bs);
    ReadOverlapExact(dirty, r.start, r.count, c.g.bs);
    MissedRangeRead(c, s, r, size, r.start * c.g.bs);
    assert ReadWith(c, s, offset, size, s.cache, Some(reply), s);
  }

  lemma MissedRangeRead(c: Config, s: State, r: Range, n: nat, at: nat)
    requires c.Valid() && WellFormed(c, s) && c.g.Coherent(s.disk, s.cache)
    requires ReadOverlap(s.dirty, r.start, r.count, c.g.bs).None? && at == r.start * c.g.bs
    requires r.count > 0 && c.g.SpanFits(c.Total(), r.start, r.count) && r.skip + n <= r.count * c.g.bs
    ensures at + r.skip + n <= |s.disk|
    ensures RangeRead(c, s, r, n, s.cache, Some(s.disk[at + r.skip..at + r.skip + n]), s)
  {
    CachedRead(c.g, s.disk, s.cache, r, n, at, r.count * c.g.bs);
  }

  lemma CachedRead(g: Geometry, disk: seq<byte>, cache: map<nat, seq<byte>>, r: Range, n: nat, at: nat, len: nat)
    requires g.Valid() && g.Coherent(disk, cache) && r.count > 0 && g.SpanFits(|disk|, r.start, r.count)
    requires at == r.start * g.bs && len == r.count * g.bs && r.skip + n <= len
    ensures at + len <= |disk|
    ensures Cut(ReadThrough(g, disk, cache, r.start, r.count), r.skip, n) == Some(disk[at + r.skip..at + r.skip + n])
  {
    ReadThroughIsDisk(g, disk, cache, cache, r.start, r.count);
    CutSlice(disk, at, len, r.skip, n);
  }

  lemma UntouchedBytes(bs: nat, disk: seq<byte>, dirty: Entries, flat: seq<byte>, from: nat, to: nat)
    requires IsImage(bs, disk, dirty, flat) && NoneTouched(bs, dirty, from, to) && from <= to <= |disk|
    ensures disk[from..to] == flat[from..to]
  {
    forall a | from <= a < to
      ensures disk[a] == flat[a]
    {
      ImageElsewhere(bs, disk, dirty, flat, a);
    }
  }

  lemma RightReply(c: Config, s: State, flat: seq<byte>, offset: nat, size: u32, reply: seq<byte>, s2: State)
    requires c.Valid() && WellFormed(c, s) && c.g.Coherent(s.disk, s.cache) && Laid(c.g.bs, s.dirty, c.Total())
    requires IsImage(c.g.bs, s.disk, s.dirty, flat) && ReadStep(c, s, offset, size, Some(reply), s2)
    requires 0 < size && offset + size <= c.Total() && ReadLength(c.Total(), offset, size) == size
    requires HeldWhole(c.g.bs, s.dirty, offset, size) || NoneTouched(c.g.bs, s.dirty, offset, offset + size)
    ensures reply == flat[offset..offset + size]
  {
    var kept :| ReadWith(c, s, offset, size, kept, Some(reply), s2);
    if HeldWhole(c.g.bs, s.dirty, offset, size) {
      HeldReadIsFlat(c, s, flat, offset, size, kept, reply, s2);
    } else {
      MissedReadIsDisk(c, s, offset, size, kept, reply, s2);
      UntouchedBytes(c.g.bs, s.disk, s.dirty, flat, offset, offset + size);
    }
  }

  lemma UntouchedIsRight(c: Config, dirty: Entries, offset: nat, size: u32)
    requires c.Valid() && Laid(c.g.bs, dirty, c.Total())
    requires 0 < size && offset + size <= c.Total() && ReadLength(c.Total(), offset, size) == size
    requires HeldWhole(c.g.bs, dirty, offset, size) || NoneTouched(c.g.bs, dirty, offset, offset + size)
    ensures AlwaysReadRight(c, dirty, offset, size)
  {
    forall s: State, flat: seq<byte>, reply: seq<byte>, s2: State |
        && WellFormed(c, s) && c.g.Coherent(s.disk, s.cache) && SameShape(dirty, s.dirty)
        && IsImage(c.g.bs, s.disk, s.dirty, flat) && ReadStep(c, s, offset, size, Some(reply), s2)
      ensures reply == FlatRead(flat, offset, size)
    {
      SameShapeLaid(c.g.bs, dirty, s.dirty, c.Total());
      SameShapeTouched(c.g.bs, dirty, s.dirty, offset, size);
      RightReply(c, s, flat, offset, size, reply, s2);
    }
  }

  lemma SameShapeTouched(bs: nat, dirty: Entries, other: Entries, offset: nat, size: nat)
    requires bs > 0 && SameShape(dirty, other)
    ensures HeldWhole(bs, dirty, offset, size) <==> HeldWhole(bs, other, offset, size)
    ensures forall a :: Touched(bs, dirty, a) <==> Touched(bs, other, a)
  {
    var r := ComputeAlignment(offset, size, bs);
    assert forall k: nat :: Contains(dirty, k, r.start, r.count) <==> Contains(other, k, r.start, r.count);
  }

  /** In coalescing mode a read before the flush is right, for all contents, exactly when one dirty entry holds all
      the blocks it touches or none holds any of its bytes: a read that is only partly dirty misses the new bytes. */
  lemma ReadRightIff(c: Config, dirty: Entries, offset: nat, size: u32)
    requires c.Valid() && Laid(c.g.bs, dirty, c.Total()) && ReadFits(c, offset, size)
    requires 0 < size && offset + size <= c.Total() && ReadLength(c.Total(), offset, size) == size
    ensures AlwaysReadRight(c, dirty, offset, size) <==>
      HeldWhole(c.g.bs, dirty, offset, size) || NoneTouched(c.g.bs, dirty, offset, offset + size)
  {
    if HeldWhole(c.g.bs, dirty, offset, size) || NoneTouched(c.g.bs, dirty, offset, offset + size) {
      UntouchedIsRight(c, dirty, offset, size);
    } else {
      var a :| offset <= a < offset + size && Touched(c.g.bs, dirty, a);
      var k :| k in dirty && k * c.g.bs <= a < k * c.g.bs + |dirty[k].data|;
      PartlyDirtyGoesWrong(c, dirty, offset, size, k, a);
    }
  }

  lemma PartlyDirtyGoesWrong(c: Config, dirty: Entries, offset: nat, size: u32, k: nat, a: nat)
    requires c.Valid() && Laid(c.g.bs, dirty, c.Total()) && ReadFits(c, offset, size)
    requires 0 < size && offset + size <= c.Total() && ReadLength(c.Total(), offset, size) == size
    requires !HeldWhole(c.g.bs, dirty, offset, size) && Has(c.g.bs, dirty, k, a) && offset <= a < offset + size
    ensures !AlwaysReadRight(c, dirty, offset, size)
  {
    var disk := Zeros(c.Total());
    var other, flat := ByteChanged(c.g.bs, disk, dirty, k, a);
    SameShapeTouched(c.g.bs, dirty, other, offset, size);
    var s, reply := SomeRead(c, disk, other, offset, size);
    OneByteOff(disk, flat, offset, size, a);
    assert !ReadRight(c, s, flat, offset, size);
  }

  lemma OneByteOff(disk: seq<byte>, flat: seq<byte>, offset: nat, n: nat, a: nat)
    requires offset + n <= |disk| == |flat| && offset <= a < offset + n && disk[a] != flat[a]
    ensures disk[offset..offset + n] != FlatRead(flat, offset, n)
  {
    assert disk[offset..offset + n][a - offset] == disk[a] && flat[offset..offset + n][a - offset] == flat[a];
  }

  // -- How long an answer is -------------------------------------------------

  lemma LowBitsOf(m: nat)
    ensures m % 0x1_0000_0000 == m <==> m < 0x1_0000_0000
    ensures m % 0x1_0000_0000 <= m
  {
  }

  /** A read that is answered gets all its bytes up to the end of the device exactly when that end is less than
      2^32 bytes away or the low 32 bits of the distance happen not to cut it short. */
  lemma AnswerIsCompleteIff(c: Config, s: State, offset: nat, size: u32, reply: seq<byte>, s2: State)
    requires c.Valid() && WellFormed(c, s) && ReadStep(c, s, offset, size, Some(reply), s2)
    requires size > 0 && offset < c.Total()
    ensures |reply| == Min(size, c.Total() - offset) <==>
      c.Total() - offset < 0x1_0000_0000 || size <= (c.Total() - offset) % 0x1_0000_0000
  {
    AnswerLength(c, s, offset, size, reply, s2);
    LowBitsOf(c.Total() - offset);
  }

  lemma AnswerLength(c: Config, s: State, offset: nat, size: u32, reply: seq<byte>, s2: State)
    requires c.Valid() && WellFormed(c, s) && ReadStep(c, s, offset, size, Some(reply), s2)
    requires size > 0 && offset < c.Total()
    ensures |reply| == ReadLength(c.Total(), offset, size)
  {
    var kept :| ReadWith(c, s, offset, size, kept, Some(reply), s2);
    var n := ReadLength(c.Total(), offset, size);
    RangeLength(c, s, ComputeAlignment(offset, n, c.g.bs), n, kept, reply, s2);
  }

  lemma RangeLength(c: Config, s: State, r: Range, n: nat, kept: map<nat, seq<byte>>, reply: seq<byte>, s2: State)
    requires c.Valid() && WellFormed(c, s) && RangeRead(c, s, r, n, kept, Some(reply), s2)
    ensures |reply| == n
  {
  }

  /** 2^32 bytes before the end of a device, reads find nothing. */
  lemma NothingFourGigabytesFromTheEnd(c: Config, s: State, offset: nat, size: u32, reply: seq<byte>, s2: State)
    requires c.Valid() && WellFormed(c, s) && ReadStep(c, s, offset, size, Some(reply), s2)
    requires size > 0 && offset + 0x1_0000_0000 == c.Total()
    ensures reply == [] && |FlatRead(s.disk, offset, size)| == size
  {
    var kept :| ReadWith(c, s, offset, size, kept, Some(reply), s2);
    assert ReadLength(c.Total(), offset, size) == 0;
  }

  // -- Devices that end inside a chunk ---------------------------------------

  /** With nothing dirty no read fails, whatever the medium and the cache hold. */
  ghost predicate EveryReadAnswered(c: Config)
    requires c.Valid()
  {
    forall s: State, offset: nat, size: u32, reply: Option<seq<byte>>, s2: State ::
      WellFormed(c, s) && s.dirty == map[] && ReadStep(c, s, offset, size, reply, s2) ==> reply.Some?
  }

  lemma ChunkBelow(c: Config, d: nat)
    requires c.Valid() && c.g.IsChunk(d) && d < c.blocks && c.blocks % c.g.cb == 0
    ensures c.g.ChunkFits(c.Total(), d)
  {
    var cb, q := c.g.cb, c.blocks / c.g.cb;
    DivBounds(c.blocks, cb);
    c.g.ChunkLbaByDivision(d);
    c.g.ChunksApart(d, c.g.ChunkLba(d));
    c.g.ChunksApart(c.g.ChunkLba(d), d);
    MultiplesApart(d / cb, q, cb);
    c.g.ChunkEnd(d);
    MulMono(d + cb, c.blocks, c.g.bs);
  }

  /** The blocks a read asks for are the device's, even when its length is cut. */
  lemma ReadInside(c: Config, offset: nat, n: nat)
    requires c.Valid() && offset < c.Total() && offset + n <= c.Total() && n < 0x1_0000_0000
    ensures var r := ComputeAlignment(offset, n, c.g.bs);
      r.start < c.blocks && r.start + r.count <= c.blocks && r.skip + n <= r.count * c.g.bs
  {
    var bs := c.g.bs;
    DivBounds(offset, bs);
    MulStrict(offset / bs, c.blocks, bs);
    if n > 0 {
      AlignmentFits(offset, n, bs);
      RangeHolds(offset, n, bs);
      AlignmentIsSmallest(offset, n, bs);
      assert 0 * bs <= offset;
    } else {
      NothingAligned(offset, bs);
    }
  }

  /** A read cut to nothing asks for no block, or for the one it would start in. */
  lemma NothingAligned(offset: nat, bs: nat)
    requires bs > 0
    ensures var r := ComputeAlignment(offset, 0, bs);
      r.count <= 1 && r.skip <= r.count * bs
  {
    var q := offset / bs;
    DivBounds(offset, bs);
    MulSucc(q, bs);
    MulSucc(q + 1, bs);
    DivUnique(offset + bs - 1, bs, if offset % bs == 0 then q else q + 1);
  }

  lemma SpanBelow(c: Config, start: nat, count: nat)
    requires c.Valid() && start < c.blocks && start + count <= c.blocks && c.blocks % c.g.cb == 0
    ensures c.g.SpanFits(c.Total(), start, count)
  {
    ChunkBelow(c, c.g.LastChunk(start, count));
  }

  lemma WholeChunksAnswer(c: Config, s: State, offset: nat, size: u32, kept: map<nat, seq<byte>>,
                          reply: Option<seq<byte>>, s2: State)
    requires c.Valid() && WellFormed(c, s) && s.dirty == map[] && c.blocks % c.g.cb == 0
    requires ReadWith(c, s, offset, size, kept, reply, s2)
    ensures reply.Some?
  {
    if size > 0 && offset < c.Total() {
      var n := ReadLength(c.Total(), offset, size);
      LowBitsOf(c.Total() - offset);
      ReadInside(c, offset, n);
      var r := ComputeAlignment(offset, n, c.g.bs);
      SpanBelow(c, r.start, r.count);
    }
  }

  /** The last block of a device that ends inside a chunk. */
  lemma LastSpanSticksOut(c: Config)
    requires c.Valid() && c.blocks % c.g.cb != 0
    ensures c.blocks > 0 && !c.g.SpanFits(c.Total(), c.blocks - 1, 1)
  {
    if c.blocks == 0 {
      ModOfMultiple(0, c.g.cb);
    }
    var d := c.g.ChunkLba(c.blocks - 1);
    c.g.ChunkLbaByDivision(c.blocks - 1);
    assert c.g.FirstChunk(c.blocks - 1) == d && c.g.LastChunk(c.blocks - 1, 1) == d;
    if c.g.SpanFits(c.Total(), c.blocks - 1, 1) {
      FitsOnlyWhole(c, d);
      EndsWithChunk(c.blocks, c.g.cb, (c.blocks - 1) / c.g.cb);
    }
  }

  lemma FitsOnlyWhole(c: Config, d: nat)
    requires c.Valid() && c.g.ChunkFits(c.Total(), d)
    ensures d + c.g.cb <= c.blocks
  {
    c.g.ChunkEnd(d);
    MulStrict(d + c.g.cb, c.blocks, c.g.bs);
  }

  lemma EndsWithChunk(n: nat, cb: nat, q: nat)
    requires cb > 0 && n < q * cb + cb + 1 && q * cb + cb <= n
    ensures n % cb == 0
  {
    MulSucc(q, cb);
    ModOfMultiple(q + 1, cb);
  }

  lemma LastAlignment(last: nat, bs: nat)
    requires bs > 0
    ensures ComputeAlignment(last * bs + (bs - 1), 1, bs) == Range(last, 1, bs - 1)
  {
    var offset := last * bs + (bs - 1);
    MulSucc(last, bs);
    MulSucc(last + 1, bs);
    DivUnique(offset, bs, last);
    DivBounds(offset, bs);
    DivUnique(offset + 1 + bs - 1, bs, last + 1);
  }

  lemma NothingDirtyMisses(start: nat, count: nat, bs: nat)
    ensures ReadOverlap(map[], start, count, bs) == None
  {
  }

  /** A read of the device's last byte alone is not answered. */
  lemma LastByteFails(c: Config) returns (s: State, offset: nat)
    requires c.Valid() && c.blocks % c.g.cb != 0
    ensures WellFormed(c, s) && s.dirty == map[] && ReadStep(c, s, offset, 1, None, s)
  {
    LastSpanSticksOut(c);
    MulSucc(c.blocks - 1, c.g.bs);
    s, offset := State(Zeros(c.Total()), map[], map[], false), (c.blocks - 1) * c.g.bs + (c.g.bs - 1);
    LastAlignment(c.blocks - 1, c.g.bs);
    FailingRead(c, s, offset, c.blocks - 1, c.g.bs - 1);
  }

  lemma FailingRead(c: Config, s: State, offset: nat, start: nat, skip: nat)
    requires c.Valid() && WellFormed(c, s) && s.cache == map[] && s.dirty == map[]
    requires offset + 1 == c.Total() && ComputeAlignment(offset, 1, c.g.bs) == Range(start, 1, skip)
    requires !c.g.SpanFits(c.Total(), start, 1)
    ensures ReadStep(c, s, offset, 1, None, s)
  {
    NothingDirtyMisses(start, 1, c.g.bs);
    assert ReadWith(c, s, offset, 1, map[], None, s);
  }

  /** Whole chunks are fetched, so with nothing dirty every read is answered exactly when the device's size
      is a multiple of the chunk's. */
  lemma EveryReadAnsweredIff(c: Config)
    requires c.Valid()
    ensures EveryReadAnswered(c) <==> c.blocks % c.g.cb == 0
  {
    if c.blocks % c.g.cb == 0 {
      forall s: State, offset: nat, size: u32, reply: Option<seq<byte>>, s2: State |
          WellFormed(c, s) && s.dirty == map[] && ReadStep(c, s, offset, size, reply, s2)
        ensures reply.Some?
      {
        var kept :| ReadWith(c, s, offset, size, kept, reply, s2);
        WholeChunksAnswer(c, s, offset, size, kept, reply, s2);
      }
    } else {
      var s, offset := LastByteFails(c);
    }
  }
}
