/** Every disciplined run of the block device answers as a flat byte array would. */
module BlockRefinement {
  import opened Arithmetic
  import opened Bytes
  import opened Cache
  import opened DirtyMap
  import opened Overlay
  import opened Pipeline
  import opened Sealing
  import opened Wrappers
  import opened BlockSpec

  // -- The flat device -------------------------------------------------------

  function FlatRead(flat: seq<byte>, offset: nat, size: nat): seq<byte> {
    if offset >= |flat| then [] else flat[offset..Min(offset + size, |flat|)]
  }

  function FlatWrite(flat: seq<byte>, offset: nat, data: seq<byte>): (r: seq<byte>)
    ensures |r| == |flat|
  {
    if offset >= |flat| then flat else Splice(flat, offset, data[..Min(|data|, |flat| - offset)])
  }

  function FlatAfter(flat: seq<byte>, e: Event): (r: seq<byte>)
    ensures |r| == |flat|
  {
    if e.Write? then FlatWrite(flat, e.wOffset, e.data) else flat
  }

  // -- Invariant -------------------------------------------------------------

  /** A dirty entry holds the byte at address `a`. */
  ghost predicate Touched(bs: nat, dirty: Entries, a: int) {
    exists k :: k in dirty && k * bs <= a < k * bs + |dirty[k].data|
  }

  /** `flat` is the medium with the dirty entries laid over it. */
  ghost predicate IsImage(bs: nat, disk: seq<byte>, dirty: Entries, flat: seq<byte>) {
    && |flat| == |disk|
    && forall n: nat {:trigger Look(n)} :: Look(n) ==>
         && (forall k :: k in dirty ==> Holds(flat, k * bs, dirty[k].data, 0, |dirty[k].data|))
         && (forall a :: 0 <= a < |disk| && !Touched(bs, dirty, a) ==> flat[a] == disk[a])
  }

  lemma ImageHolds(bs: nat, disk: seq<byte>, dirty: Entries, flat: seq<byte>, k: nat)
    requires IsImage(bs, disk, dirty, flat) && k in dirty
    ensures Holds(flat, k * bs, dirty[k].data, 0, |dirty[k].data|)
  {
    assert Look(0);
  }

  lemma ImageElsewhere(bs: nat, disk: seq<byte>, dirty: Entries, flat: seq<byte>, a: nat)
    requires IsImage(bs, disk, dirty, flat) && a < |disk| && !Touched(bs, dirty, a)
    ensures flat[a] == disk[a]
  {
    assert Look(0);
  }

  lemma MakeImage(bs: nat, disk: seq<byte>, dirty: Entries, flat: seq<byte>)
    requires |flat| == |disk|
    requires forall k :: k in dirty ==> Holds(flat, k * bs, dirty[k].data, 0, |dirty[k].data|)
    requires forall a :: 0 <= a < |disk| && !Touched(bs, dirty, a) ==> flat[a] == disk[a]
    ensures IsImage(bs, disk, dirty, flat)
  {
  }

  /** With nothing dirty, the image is the medium. */
  lemma EmptyIsImage(bs: nat, disk: seq<byte>)
    ensures IsImage(bs, disk, map[], disk)
  {
  }

  lemma ImageOfNothing(bs: nat, disk: seq<byte>, flat: seq<byte>)
    requires IsImage(bs, disk, map[], flat)
    ensures flat == disk
  {
    forall a | 0 <= a < |disk|
      ensures flat[a] == disk[a]
    {
      ImageElsewhere(bs, disk, map[], flat, a);
    }
  }

  ghost predicate Short(dirty: Entries) {
    forall k :: k in dirty ==> |dirty[k].data| < 0x1_0000_0000
  }

  /** No dirty entry meets the blocks [start, end). */
  ghost predicate Clear(dirty: Entries, start: int, end: int) {
    forall k :: k in dirty ==> end <= k || k + dirty[k].count <= start
  }

  /** No dirty entry meets a cached chunk. */
  ghost predicate Fresh(cb: nat, cache: map<nat, seq<byte>>, dirty: Entries) {
    forall c :: c in cache ==> Clear(dirty, c, c + cb)
  }

  ghost predicate Inv(c: Config, s: State, flat: seq<byte>)
    requires c.Valid()
  {
    && WellFormed(c, s)
    && Whole(s.dirty, c.g.bs)
    && Short(s.dirty)
    && Disjoint(s.dirty)
    && IsImage(c.g.bs, s.disk, s.dirty, flat)
    && c.g.Coherent(s.disk, s.cache)
    && Fresh(c.g.cb, s.cache, s.dirty)
  }

  // -- Discipline ------------------------------------------------------------

  /** No dirty entry meets any chunk that a request for these blocks visits. */
  ghost predicate SpanClear(c: Config, dirty: Entries, start: nat, count: nat)
    requires c.Valid()
  {
    Clear(dirty, c.g.FirstChunk(start), c.g.LastChunk(start, count) + c.g.cb)
  }

  ghost predicate ReadGuard(c: Config, s: State, offset: nat, size: u32)
    requires c.Valid()
  {
    size > 0 && offset < c.Total() ==>
      && ReadLength(c.Total(), offset, size) == Min(size, c.Total() - offset)
      && var r := ComputeAlignment(offset, Min(size, c.Total() - offset), c.g.bs);
         || (exists k :: Contains(s.dirty, k, r.start, r.count))
         || SpanClear(c, s.dirty, r.start, r.count)
  }

  /** Each dirty entry is apart from the blocks that `n` bytes at `offset` touch, or starts where the bytes
      start and is overwritten whole. */
  ghost predicate WriteSafe(bs: nat, dirty: Entries, offset: nat, n: nat)
    requires bs > 0
  {
    var start, end := offset / bs, EndBlock(offset, n, bs);
    forall k :: k in dirty ==>
      || end <= k
      || k + dirty[k].count <= start
      || (k == start && start * bs == offset && dirty[k].count * bs <= n)
  }

  /** A write is short and safe. */
  ghost predicate WriteGuard(c: Config, s: State, offset: nat, data: seq<byte>)
    requires c.Valid()
  {
    data != [] && offset < c.Total() ==>
      var n := Min(|data|, c.Total() - offset);
      var start, end := offset / c.g.bs, EndBlock(offset, n, c.g.bs);
      end * c.g.bs - start * c.g.bs < 0x1_0000_0000 && WriteSafe(c.g.bs, s.dirty, offset, n)
  }

  ghost predicate Guard(c: Config, s: State, e: Event)
    requires c.Valid()
  {
    match e
    case Read(offset, size, _) => ReadGuard(c, s, offset, size)
    case Write(offset, data, _) => WriteGuard(c, s, offset, data)
    case Prefetch(lba, blocks) => SpanClear(c, s.dirty, lba, blocks)
    case _ => true
  }

  /** The chunks a read would fetch all lie inside the medium. */
  ghost predicate ReadFits(c: Config, offset: nat, size: u32)
    requires c.Valid()
  {
    size > 0 && offset < c.Total() ==>
      var r := ComputeAlignment(offset, Min(size, c.Total() - offset), c.g.bs);
      c.g.SpanFits(c.Total(), r.start, r.count)
  }

  /** A read answers with the flat bytes and fails only for want of a whole last chunk; a write reports its length. */
  ghost predicate Answered(c: Config, flat: seq<byte>, e: Event)
    requires c.Valid()
  {
    match e
    case Read(offset, size, reply) =>
      && (reply.Some? ==> reply.value == FlatRead(flat, offset, size))
      && (reply.None? ==> !ReadFits(c, offset, size))
    case Write(offset, data, reply) =>
      reply == Some(if offset >= c.Total() then 0 else Min(|data|, c.Total() - offset))
    case _ => true
  }

  // -- Reads -----------------------------------------------------------------

  lemma ApartBlocks(bs: nat, k: int, n: int, start: int, end: int, a: int)
    requires bs > 0 && (end <= k || k + n <= start) && start * bs <= a < end * bs
    ensures !(k * bs <= a < k * bs + n * bs)
  {
    assert (k + n) * bs == k * bs + n * bs;
    MulStrict(k, end, bs);
    MulStrict(start, k + n, bs);
  }

  lemma ClearByte(bs: nat, disk: seq<byte>, dirty: Entries, flat: seq<byte>, start: int, end: int, a: nat)
    requires bs > 0 && Whole(dirty, bs) && IsImage(bs, disk, dirty, flat) && Clear(dirty, start, end)
    requires a < |disk| && start * bs <= a < end * bs
    ensures !Touched(bs, dirty, a) && flat[a] == disk[a]
  {
    forall k | k in dirty
      ensures !(k * bs <= a < k * bs + |dirty[k].data|)
    {
      ApartBlocks(bs, k, dirty[k].count, start, end, a);
    }
    ImageElsewhere(bs, disk, dirty, flat, a);
  }

  /** Bytes of blocks that no dirty entry meets are the medium's. */
  lemma ClearBytes(bs: nat, disk: seq<byte>, dirty: Entries, flat: seq<byte>, start: nat, end: nat, from: nat, to: nat)
    requires bs > 0 && Whole(dirty, bs) && IsImage(bs, disk, dirty, flat) && Clear(dirty, start, end)
    requires start * bs <= from <= to <= end * bs && to <= |disk|
    ensures flat[from..to] == disk[from..to]
  {
    forall a | from <= a < to
      ensures flat[a] == disk[a]
    {
      ClearByte(bs, disk, dirty, flat, start, end, a);
    }
  }

  lemma HitIsFlat(bs: nat, dirty: Entries, flat: seq<byte>, r: Range, n: nat, k: nat)
    requires bs > 0 && Disjoint(dirty) && Contains(dirty, k, r.start, r.count)
    requires |dirty[k].data| == dirty[k].count * bs && Holds(flat, k * bs, dirty[k].data, 0, |dirty[k].data|)
    requires r.count > 0 && r.skip + n <= r.count * bs
    ensures var hit := ReadOverlap(dirty, r.start, r.count, bs);
      var at := r.start * bs + r.skip;
      && hit.Some? && r.skip + n <= |hit.value| && at + n <= |flat|
      && Cut(hit.value, r.skip, n) == Some(flat[at..at + n])
  {
    ReadOverlapAt(dirty, k, r.start, r.count, bs);
    var data, off, len := dirty[k].data, r.start * bs - k * bs, r.count * bs;
    CutSlice(data, off, len, r.skip, n);
    HoldsSlice(flat, k * bs, data, off + r.skip, n);
  }

  lemma CutSlice(s: seq<byte>, at: nat, len: nat, skip: nat, n: nat)
    requires at + len <= |s| && skip + n <= len
    ensures Cut(s[at..at + len], skip, n) == Some(s[at + skip..at + skip + n])
  {
    SubSlice(s, at, at + len, skip, skip + n);
  }

  /** Through a coherent cache, whatever was dropped from it, a read of whole blocks shows the medium. */
  lemma ReadThroughIsDisk(g: Geometry, disk: seq<byte>, cache: map<nat, seq<byte>>, kept: map<nat, seq<byte>>,
                          start: nat, count: nat)
    requires g.Valid() && g.Coherent(disk, cache) && SubMap(kept, cache)
    requires count > 0 && g.SpanFits(|disk|, start, count)
    ensures start * g.bs + count * g.bs <= |disk|
    ensures ReadThrough(g, disk, kept, start, count) == disk[start * g.bs..start * g.bs + count * g.bs]
  {
    SpanInside(g, |disk|, start, count);
    g.CoherentIffViewIsDisk(disk, kept);
  }

  lemma MissIsFlat(bs: nat, disk: seq<byte>, dirty: Entries, flat: seq<byte>, data: seq<byte>, r: Range, n: nat)
    requires bs > 0 && Whole(dirty, bs) && IsImage(bs, disk, dirty, flat)
    requires Clear(dirty, r.start, r.start + r.count) && r.skip + n <= r.count * bs
    requires r.start * bs + r.count * bs <= |disk|
    requires data == disk[r.start * bs..r.start * bs + r.count * bs]
    ensures Cut(data, r.skip, n) == Some(flat[r.start * bs + r.skip..r.start * bs + r.skip + n])
  {
    var at, len := r.start * bs, r.count * bs;
    CutSlice(disk, at, len, r.skip, n);
    assert (r.start + r.count) * bs == at + len;
    ClearBytes(bs, disk, dirty, flat, r.start, r.start + r.count, at + r.skip, at + r.skip + n);
  }

  lemma SpanHoldsRange(g: Geometry, start: nat, count: nat)
    requires g.Valid() && count > 0
    ensures g.FirstChunk(start) <= start && start + count <= g.LastChunk(start, count) + g.cb
  {
  }

  /** Chunks fetched from blocks clear of dirty entries keep the cache coherent and fresh. */
  lemma FetchKeeps(c: Config, s: State, flat: seq<byte>, start: nat, count: nat, cache: map<nat, seq<byte>>)
    requires c.Valid() && Inv(c, s, flat) && SpanClear(c, s.dirty, start, count)
    requires Fetched(c.g, s.disk, start, count, s.cache, cache)
    ensures Inv(c, s.(cache := cache), flat)
  {
    forall d | d in cache
      ensures Clear(s.dirty, d, d + c.g.cb)
    {
      if c.g.InSpan(start, count, d) {
      } else {
        assert d in s.cache;
      }
    }
  }

  /** The aligned range of a request holds its bytes. */
  lemma RangeHolds(offset: nat, size: nat, bs: nat)
    requires bs > 0 && size > 0 && EndBlock(offset, size, bs) - offset / bs < 0x1_0000_0000
    ensures var r := ComputeAlignment(offset, size, bs);
      && r.count > 0
      && r.start + r.count == EndBlock(offset, size, bs)
      && r.start * bs + r.skip == offset
      && r.skip + size <= r.count * bs
  {
    AlignmentIsSmallest(offset, size, bs);
    var r := ComputeAlignment(offset, size, bs);
    assert (r.start + r.count) * bs == r.start * bs + r.count * bs;
  }

  lemma MissKeeps(c: Config, s: State, flat: seq<byte>, r: Range, n: nat, kept: map<nat, seq<byte>>,
                  reply: Option<seq<byte>>, s2: State)
    requires c.Valid() && Inv(c, s, flat) && r.count > 0 && r.skip + n <= r.count * c.g.bs
    requires SpanClear(c, s.dirty, r.start, r.count)
    requires SubMap(kept, s.cache) && c.g.WellFormed(kept, |s.disk|) && s2 == s.(cache := s2.cache)
    requires Fetched(c.g, s.disk, r.start, r.count, s.cache, s2.cache)
    requires reply == if c.g.SpanFits(|s.disk|, r.start, r.count)
                      then Cut(ReadThrough(c.g, s.disk, kept, r.start, r.count), r.skip, n) else None
    ensures Inv(c, s2, flat)
    ensures reply.Some? <==> c.g.SpanFits(c.Total(), r.start, r.count)
    ensures reply.Some? ==> var at := r.start * c.g.bs + r.skip;
      at + n <= |flat| && reply.value == flat[at..at + n]
  {
    SpanHoldsRange(c.g, r.start, r.count);
    if c.g.SpanFits(c.Total(), r.start, r.count) {
      ReadThroughIsDisk(c.g, s.disk, s.cache, kept, r.start, r.count);
      MissIsFlat(c.g.bs, s.disk, s.dirty, flat, ReadThrough(c.g, s.disk, kept, r.start, r.count), r, n);
    }
    FetchKeeps(c, s, flat, r.start, r.count, s2.cache);
  }

  lemma RangeKeeps(c: Config, s: State, flat: seq<byte>, r: Range, n: nat, kept: map<nat, seq<byte>>,
                   reply: Option<seq<byte>>, s2: State)
    requires c.Valid() && Inv(c, s, flat) && r.count > 0 && r.skip + n <= r.count * c.g.bs
    requires (exists k :: Contains(s.dirty, k, r.start, r.count)) || SpanClear(c, s.dirty, r.start, r.count)
    requires RangeRead(c, s, r, n, kept, reply, s2)
    ensures Inv(c, s2, flat)
    ensures reply.None? ==> !c.g.SpanFits(c.Total(), r.start, r.count)
    ensures reply.Some? ==> var at := r.start * c.g.bs + r.skip;
      at + n <= |flat| && reply.value == flat[at..at + n]
  {
    var found := LookupIsFlat(c.g.bs, s.disk, s.dirty, flat, r, n);
    if !found {
      MissKeeps(c, s, flat, r, n, kept, reply, s2);
    }
  }

  lemma InsideReadKeeps(c: Config, s: State, flat: seq<byte>, offset: nat, size: u32, kept: map<nat, seq<byte>>,
                        reply: Option<seq<byte>>, s2: State)
    requires c.Valid() && Inv(c, s, flat) && ReadGuard(c, s, offset, size) && size > 0 && offset < c.Total()
    requires ReadWith(c, s, offset, size, kept, reply, s2)
    ensures Inv(c, s2, flat) && Answered(c, flat, Read(offset, size, reply))
  {
    var n := Min(size, c.Total() - offset);
    AlignmentFits(offset, n, c.g.bs);
    RangeHolds(offset, n, c.g.bs);
    RangeKeeps(c, s, flat, ComputeAlignment(offset, n, c.g.bs), n, kept, reply, s2);
  }

  lemma ReadKeeps(c: Config, s: State, flat: seq<byte>, offset: nat, size: u32, reply: Option<seq<byte>>, s2: State)
    requires c.Valid() && Inv(c, s, flat) && ReadGuard(c, s, offset, size)
    requires ReadStep(c, s, offset, size, reply, s2)
    ensures Inv(c, s2, flat) && Answered(c, flat, Read(offset, size, reply))
  {
    var kept :| ReadWith(c, s, offset, size, kept, reply, s2);
    if size > 0 && offset < c.Total() {
      InsideReadKeeps(c, s, flat, offset, size, kept, reply, s2);
    }
  }

  /** The dirty lookup either answers with the flat bytes or finds no entry that holds the range. */
  lemma LookupIsFlat(bs: nat, disk: seq<byte>, dirty: Entries, flat: seq<byte>, r: Range, n: nat) returns (found: bool)
    requires bs > 0 && Whole(dirty, bs) && Disjoint(dirty) && IsImage(bs, disk, dirty, flat)
    requires r.count > 0 && r.skip + n <= r.count * bs
    ensures var hit := ReadOverlap(dirty, r.start, r.count, bs);
      var at := r.start * bs + r.skip;
      if found then
        hit.Some? && r.skip + n <= |hit.value| && at + n <= |flat| && Cut(hit.value, r.skip, n) == Some(flat[at..at + n])
      else
        hit.None? && forall k: nat :: !Contains(dirty, k, r.start, r.count)
  {
    ReadOverlapExact(dirty, r.start, r.count, bs);
    found := exists k: nat :: Contains(dirty, k, r.start, r.count);
    if found {
      var k: nat :| Contains(dirty, k, r.start, r.count);
      ImageHolds(bs, disk, dirty, flat, k);
      HitIsFlat(bs, dirty, flat, r, n, k);
    }
  }

  // -- Sizes ----------------------------------------------------------------

  /** A buffered write lies inside the medium. */
  lemma BufferedIsWellFormed(c: Config, s: State, offset: nat, d: seq<byte>)
    requires c.Valid() && WellFormed(c, s) && d != [] && offset + |d| <= c.Total() && WriteData(c, s, offset, d).Some?
    ensures WellFormed(c, Buffered(c, s, ComputeAlignment(offset, |d|, c.g.bs), WriteData(c, s, offset, d).value))
  {
    var bs := c.g.bs;
    var r, wd := ComputeAlignment(offset, |d|, bs), WriteData(c, s, offset, d).value;
    AlignmentIsSmallest(offset, |d|, bs);
    if r.skip == 0 && |d| % bs == 0 {
      AlignedRange(offset, |d|, bs);
      MulMono(r.count, EndBlock(offset, |d|, bs) - r.start, bs);
    }
    assert r.count * bs <= |wd| && r.start * bs + |wd| <= c.Total();
  }

  lemma FetchedIsWellFormed(c: Config, s: State, start: nat, count: nat, cache: map<nat, seq<byte>>)
    requires c.Valid() && WellFormed(c, s) && Fetched(c.g, s.disk, start, count, s.cache, cache)
    ensures WellFormed(c, s.(cache := cache))
  {
  }

  /** The write commands of entries that lie inside the medium fit it. */
  lemma DrainFits(c: Config, s: State, items: seq<Extent>)
    requires c.Valid() && WellFormed(c, s) && IsDrain(items, s.dirty)
    ensures Fit(AllJobs(c, items), |s.disk|)
  {
    JobsFit(c, items, |s.disk|);
  }

  lemma {:induction false} JobsFit(c: Config, items: seq<Extent>, n: nat)
    requires c.Valid()
    requires forall i :: 0 <= i < |items| ==> items[i].lba * c.g.bs + |items[i].data| <= n
    ensures Fit(AllJobs(c, items), n)
  {
    if items != [] {
      var front, last := items[..|items| - 1], items[|items| - 1];
      JobsFit(c, front, n);
      var count := WholeBlocks(|last.data|, c.g.bs);
      if count > 0 {
        JobsFitIff(n, c.g.bs, last.lba, count, last.data, 0, c.maxBlocks);
      }
    }
  }

  // -- Flush -----------------------------------------------------------------

  ghost predicate Holding(bs: nat, items: seq<Extent>, flat: seq<byte>)
    requires bs > 0
  {
    forall i :: 0 <= i < |items| ==>
      && |items[i].data| < 0x1_0000_0000
      && |items[i].data| % bs == 0
      && Holds(flat, items[i].lba * bs, items[i].data, 0, |items[i].data|)
  }

  ghost predicate InItems(bs: nat, items: seq<Extent>, a: nat) {
    exists i :: 0 <= i < |items| && items[i].lba * bs <= a < items[i].lba * bs + |items[i].data|
  }

  lemma InItemsSnoc(bs: nat, items: seq<Extent>, a: nat)
    requires items != []
    ensures var last := items[|items| - 1];
      InItems(bs, items, a) <==>
        InItems(bs, items[..|items| - 1], a) || last.lba * bs <= a < last.lba * bs + |last.data|
  {
    var front := items[..|items| - 1];
    if InItems(bs, front, a) {
      var i :| 0 <= i < |front| && front[i].lba * bs <= a < front[i].lba * bs + |front[i].data|;
      assert items[i] == front[i];
    }
  }

  /** The write commands of all drained entries are slices of the image and cover exactly the entries. */
  lemma {:induction false} AllJobsAreSlices(c: Config, items: seq<Extent>, flat: seq<byte>)
    requires c.Valid() && Holding(c.g.bs, items, flat)
    ensures SlicesOf(AllJobs(c, items), flat)
    ensures forall a: nat :: Covered(AllJobs(c, items), a) <==> InItems(c.g.bs, items, a)
  {
    if items != [] {
      var bs, front, last := c.g.bs, items[..|items| - 1], items[|items| - 1];
      AllJobsAreSlices(c, front, flat);
      WholeBlocksExactIff(|last.data|, bs);
      var n := WholeBlocks(|last.data|, bs);
      JobsAreSlices(bs, last.lba, n, last.data, 0, c.maxBlocks, flat);
      var before, jobs := AllJobs(c, front), Jobs(bs, last.lba, n, last.data, 0, c.maxBlocks);
      forall a: nat
        ensures Covered(before + jobs, a) <==> InItems(bs, items, a)
      {
        CoveredConcat(before, jobs, a);
        InItemsSnoc(bs, items, a);
      }
    }
  }

  lemma SlicesFit(ps: seq<Patch>, src: seq<byte>)
    requires SlicesOf(ps, src)
    ensures Fit(ps, |src|)
  {
    forall i | 0 <= i < |ps|
      ensures ps[i].End() <= |src|
    {
      assert ps[i].SliceOf(src);
    }
  }

  lemma DrainHolds(bs: nat, disk: seq<byte>, dirty: Entries, flat: seq<byte>, items: seq<Extent>)
    requires bs > 0 && Whole(dirty, bs) && Short(dirty) && IsImage(bs, disk, dirty, flat) && IsDrain(items, dirty)
    ensures Holding(bs, items, flat)
    ensures forall a: nat :: Touched(bs, dirty, a) ==> InItems(bs, items, a)
  {
    forall i | 0 <= i < |items|
      ensures |items[i].data| % bs == 0
      ensures Holds(flat, items[i].lba * bs, items[i].data, 0, |items[i].data|)
    {
      ModOfMultiple(dirty[items[i].lba].count, bs);
      ImageHolds(bs, disk, dirty, flat, items[i].lba);
    }
    forall a: nat | Touched(bs, dirty, a)
      ensures InItems(bs, items, a)
    {
      TouchedIsListed(bs, dirty, items, a);
    }
  }

  lemma TouchedIsListed(bs: nat, dirty: Entries, items: seq<Extent>, a: nat)
    requires IsDrain(items, dirty) && Touched(bs, dirty, a)
    ensures InItems(bs, items, a)
  {
    var k :| k in dirty && k * bs <= a < k * bs + |dirty[k].data|;
    assert Listed(items, k);
    var i :| 0 <= i < |items| && items[i].lba == k;
  }

  lemma DrainedIsImage(c: Config, s: State, flat: seq<byte>, items: seq<Extent>, order: seq<nat>)
    requires c.Valid() && Whole(s.dirty, c.g.bs) && Short(s.dirty) && IsImage(c.g.bs, s.disk, s.dirty, flat)
    requires IsDrain(items, s.dirty) && IsOrder(order, |AllJobs(c, items)|)
    ensures Fit(Reordered(AllJobs(c, items), order), |s.disk|)
    ensures ApplyAll(s.disk, Reordered(AllJobs(c, items), order)) == flat
  {
    var jobs := AllJobs(c, items);
    DrainHolds(c.g.bs, s.disk, s.dirty, flat, items);
    AllJobsAreSlices(c, items, flat);
    SlicesFit(jobs, flat);
    forall a | 0 <= a < |s.disk|
      ensures Covered(jobs, a) || s.disk[a] == flat[a]
    {
      if !Touched(c.g.bs, s.dirty, a) {
        ImageElsewhere(c.g.bs, s.disk, s.dirty, flat, a);
      }
    }
    SlicesRebuildInAnyOrder(s.disk, jobs, flat, order);
  }

  /** Whatever order the concurrent writes finish in, a flush turns the medium into the image. */
  lemma FlushReachesImage(c: Config, s: State, flat: seq<byte>, s2: State)
    requires c.Valid() && Inv(c, s, flat) && Flushed(c, s, s2)
    ensures s2 == s.(disk := flat, dirty := map[])
    ensures Inv(c, s2, flat)
  {
    if s.dirty == map[] {
      ImageOfNothing(c.g.bs, s.disk, flat);
    } else {
      var items: seq<Extent>, order: seq<nat> :| FlushWith(c, s, items, order, s2);
      DrainedIsImage(c, s, flat, items, order);
      EmptyImage(c, s, flat);
    }
  }

  /** After the flush no cached chunk is behind: none met a dirty entry. */
  lemma EmptyImage(c: Config, s: State, flat: seq<byte>)
    requires c.Valid() && Inv(c, s, flat)
    ensures Inv(c, s.(disk := flat, dirty := map[]), flat)
  {
    forall d | d in s.cache
      ensures s.cache[d] == c.g.ChunkBytes(flat, d)
    {
      c.g.ChunkEnd(d);
      ClearBytes(c.g.bs, s.disk, s.dirty, flat, d, d + c.g.cb, d * c.g.bs, d * c.g.bs + c.g.cb * c.g.bs);
    }
    EmptyIsImage(c.g.bs, flat);
  }

  // -- Writes ----------------------------------------------------------------

  /** The new entry's extent is apart from each other entry's, or replaces one that starts there and is no longer. */
  ghost predicate Replaces(dirty: Entries, start: nat, count: nat) {
    forall k :: k in dirty ==>
      start + count <= k || k + dirty[k].count <= start || (k == start && dirty[k].count <= count)
  }

  lemma ReplaceKeepsDisjoint(dirty: Entries, start: nat, e: Entry)
    requires Disjoint(dirty) && Replaces(dirty, start, e.count) && e.count > 0
    ensures Disjoint(dirty[start := e])
  {
  }

  /** Nothing changes outside the `len` bytes at `at`. */
  ghost predicate SameOutside(flat: seq<byte>, flat2: seq<byte>, at: int, len: int) {
    |flat2| == |flat| && forall a :: 0 <= a < |flat| && !(at <= a < at + len) ==> flat2[a] == flat[a]
  }

  lemma TouchedBefore(bs: nat, dirty: Entries, start: nat, e: Entry, a: int)
    requires Whole(dirty, bs) && Replaces(dirty, start, e.count) && |e.data| == e.count * bs && e.count > 0
    requires !Touched(bs, dirty[start := e], a)
    ensures !Touched(bs, dirty, a) && !(start * bs <= a < start * bs + |e.data|)
  {
    var dirty2 := dirty[start := e];
    assert dirty2[start] == e;
    forall k | k in dirty
      ensures !(k * bs <= a < k * bs + |dirty[k].data|)
    {
      if k == start {
        MulMono(dirty[k].count, e.count, bs);
      } else {
        assert dirty2[k] == dirty[k];
      }
    }
  }

  /** Laying the entry over the image at its blocks gives the image of the larger dirty map. */
  lemma BufferedImage(bs: nat, disk: seq<byte>, dirty: Entries, flat: seq<byte>, start: nat, e: Entry, flat2: seq<byte>)
    requires bs > 0 && Whole(dirty, bs) && IsImage(bs, disk, dirty, flat) && Replaces(dirty, start, e.count)
    requires |e.data| == e.count * bs && e.count > 0 && start * bs + |e.data| <= |flat2|
    requires flat2[start * bs..start * bs + |e.data|] == e.data
    requires SameOutside(flat, flat2, start * bs, |e.data|)
    ensures IsImage(bs, disk, dirty[start := e], flat2)
  {
    var dirty2 := dirty[start := e];
    forall k | k in dirty2
      ensures Holds(flat2, k * bs, dirty2[k].data, 0, |dirty2[k].data|)
    {
      if k == start {
        NewHolds(flat2, start * bs, e.data);
      } else {
        ImageHolds(bs, disk, dirty, flat, k);
        OldHolds(bs, flat, flat2, k, dirty[k], start, e.count);
      }
    }
    forall a | 0 <= a < |disk| && !Touched(bs, dirty2, a)
      ensures flat2[a] == disk[a]
    {
      TouchedBefore(bs, dirty, start, e, a);
      ImageElsewhere(bs, disk, dirty, flat, a);
    }
    MakeImage(bs, disk, dirty2, flat2);
  }

  lemma NewHolds(image: seq<byte>, at: nat, data: seq<byte>)
    requires at + |data| <= |image| && image[at..at + |data|] == data
    ensures Holds(image, at, data, 0, |data|)
  {
    forall a | at <= a < at + |data|
      ensures image[a] == data[a - at]
    {
      assert image[at..at + |data|][a - at] == image[a];
    }
  }

  lemma OldHolds(bs: nat, flat: seq<byte>, flat2: seq<byte>, k: nat, e: Entry, start: nat, count: nat)
    requires bs > 0 && |e.data| == e.count * bs && Holds(flat, k * bs, e.data, 0, |e.data|)
    requires start + count <= k || k + e.count <= start
    requires SameOutside(flat, flat2, start * bs, count * bs)
    ensures Holds(flat2, k * bs, e.data, 0, |e.data|)
  {
    assert (k + e.count) * bs == k * bs + e.count * bs;
    forall a | k * bs <= a < k * bs + |e.data|
      ensures flat2[a] == flat[a]
    {
      ApartBlocks(bs, start, count, k, k + e.count, a);
    }
  }

  lemma AlignedRange(offset: nat, size: nat, bs: nat)
    requires bs > 0 && offset % bs == 0 && size % bs == 0
    ensures (EndBlock(offset, size, bs) - offset / bs) * bs == size
  {
    var start, q := offset / bs, size / bs;
    DivBounds(offset, bs);
    DivBounds(size, bs);
    assert (start + q) * bs == start * bs + q * bs;
    MulSucc(start + q, bs);
    DivUnique(offset + size + bs - 1, bs, start + q);
  }

  /** The entry made for a write holds what the flat device holds on those blocks after it. */
  lemma WriteDataIsFlat(c: Config, s: State, flat: seq<byte>, offset: nat, d: seq<byte>)
    requires c.Valid() && Inv(c, s, flat) && d != [] && offset + |d| <= c.Total()
    requires EndBlock(offset, |d|, c.g.bs) - offset / c.g.bs < 0x1_0000_0000
    requires WriteSafe(c.g.bs, s.dirty, offset, |d|)
    ensures var r := ComputeAlignment(offset, |d|, c.g.bs);
      var at, len := r.start * c.g.bs, r.count * c.g.bs;
      && 0 <= at <= at + len <= c.Total()
      && WriteData(c, s, offset, d) == Some(Splice(flat, offset, d)[at..at + len])
  {
    var bs := c.g.bs;
    var r := ComputeAlignment(offset, |d|, bs);
    RangeHolds(offset, |d|, bs);
    InsideTotal(c, offset, |d|);
    OutsideUntouched(bs, s.disk, s.dirty, flat, offset, |d|);
    MulSplit(r.start, r.count, bs);
    if r.skip == 0 && |d| % bs == 0 {
      AlignedRange(offset, |d|, bs);
    }
    OverlaidIsFlat(bs, s.disk, flat, r, d, r.start * bs, r.count * bs);
  }

  lemma MulSplit(a: int, b: int, c: int)
    ensures (a + b) * c == a * c + b * c
  {
  }

  /** Bytes laid over blocks that agree with the flat device around them. */
  lemma OverlaidIsFlat(bs: nat, disk: seq<byte>, flat: seq<byte>, r: Range, d: seq<byte>, at: nat, len: nat)
    requires bs > 0 && at == r.start * bs && len == r.count * bs && at + len <= |disk| && r.skip + |d| <= len
    requires AgreeAround(flat, disk, at, at + len, at + r.skip, |d|)
    requires r.skip == 0 && |d| % bs == 0 ==> |d| == len
    ensures Overlaid(bs, disk, r, d) == Some(Splice(flat, at + r.skip, d)[at..at + len])
  {
    if r.skip == 0 && |d| % bs == 0 {
      SpliceWhole(flat, at, d);
    } else {
      SpliceAgrees(flat, disk, at, at + len, r.skip, d);
    }
  }

  lemma SpliceWhole(s: seq<byte>, at: nat, d: seq<byte>)
    requires at + |d| <= |s|
    ensures Splice(s, at, d)[at..at + |d|] == d
  {
  }

  /** Of the bytes [at, end) only the `n` from `from` on may differ. */
  ghost predicate AgreeAround(x: seq<byte>, y: seq<byte>, at: int, end: int, from: int, n: int) {
    |x| == |y| && forall a :: 0 <= a < |x| && at <= a < end ==> from <= a < from + n || x[a] == y[a]
  }

  /** On the blocks of a safe write, the bytes it does not carry are the medium's. */
  lemma OutsideUntouched(bs: nat, disk: seq<byte>, dirty: Entries, flat: seq<byte>, offset: nat, n: nat)
    requires bs > 0 && Whole(dirty, bs) && IsImage(bs, disk, dirty, flat) && WriteSafe(bs, dirty, offset, n)
    ensures AgreeAround(flat, disk, offset / bs * bs, EndBlock(offset, n, bs) * bs, offset, n)
  {
    forall a | 0 <= a < |disk| && offset / bs * bs <= a < EndBlock(offset, n, bs) * bs && !(offset <= a < offset + n)
      ensures flat[a] == disk[a]
    {
      PaddingUntouched(bs, dirty, offset, n, a);
      ImageElsewhere(bs, disk, dirty, flat, a);
    }
  }

  lemma PaddingUntouched(bs: nat, dirty: Entries, offset: nat, n: nat, a: nat)
    requires bs > 0 && Whole(dirty, bs) && WriteSafe(bs, dirty, offset, n)
    requires offset / bs * bs <= a < EndBlock(offset, n, bs) * bs && !(offset <= a < offset + n)
    ensures !Touched(bs, dirty, a)
  {
    var start, end := offset / bs, EndBlock(offset, n, bs);
    forall k | k in dirty
      ensures !(k * bs <= a < k * bs + |dirty[k].data|)
    {
      if end <= k || k + dirty[k].count <= start {
        ApartBlocks(bs, k, dirty[k].count, start, end, a);
      }
    }
  }

  lemma SpliceAgrees(x: seq<byte>, y: seq<byte>, at: nat, end: nat, skip: nat, d: seq<byte>)
    requires at + skip + |d| <= end <= |x| && AgreeAround(x, y, at, end, at + skip, |d|)
    ensures Splice(y[at..end], skip, d) == Splice(x, at + skip, d)[at..end]
  {
    var v, w := Splice(y[at..end], skip, d), Splice(x, at + skip, d)[at..end];
    forall i | 0 <= i < end - at
      ensures v[i] == w[i]
    {
      assert w[i] == Splice(x, at + skip, d)[at + i];
    }
    assert v == w;
  }

  /** The aligned range of bytes inside the device is inside it too. */
  lemma InsideTotal(c: Config, offset: nat, size: nat)
    requires c.Valid() && size > 0 && offset + size <= c.Total()
    requires EndBlock(offset, size, c.g.bs) - offset / c.g.bs < 0x1_0000_0000
    ensures var r := ComputeAlignment(offset, size, c.g.bs);
      0 <= r.start * c.g.bs + r.count * c.g.bs <= c.Total()
  {
    var r := ComputeAlignment(offset, size, c.g.bs);
    AlignmentIsSmallest(offset, size, c.g.bs);
    assert 0 * c.g.bs <= offset;
    MulMono(r.start + r.count, c.blocks, c.g.bs);
    assert (r.start + r.count) * c.g.bs == r.start * c.g.bs + r.count * c.g.bs;
  }

  lemma InvalidatedIsFresh(g: Geometry, cache: map<nat, seq<byte>>, dirty: Entries, start: nat, e: Entry, n: nat)
    requires g.Valid() && g.WellFormed(cache, n) && Fresh(g.cb, cache, dirty) && e.count > 0
    ensures Fresh(g.cb, Without(g, cache, start, e.count), dirty[start := e])
  {
    forall d | d in Without(g, cache, start, e.count)
      ensures Clear(dirty[start := e], d, d + g.cb)
    {
      g.SpanIffOverlap(start, e.count, d);
    }
  }

  lemma BufferedInv(c: Config, s: State, flat: seq<byte>, r: Range, wd: seq<byte>, flat2: seq<byte>)
    requires c.Valid() && Inv(c, s, flat) && r.count > 0 && Replaces(s.dirty, r.start, r.count)
    requires |wd| == r.count * c.g.bs < 0x1_0000_0000 && r.start * c.g.bs + |wd| <= |flat2|
    requires flat2[r.start * c.g.bs..r.start * c.g.bs + |wd|] == wd
    requires SameOutside(flat, flat2, r.start * c.g.bs, |wd|)
    ensures Inv(c, Buffered(c, s, r, wd), flat2)
  {
    var e := Entry(wd, r.count);
    BufferedImage(c.g.bs, s.disk, s.dirty, flat, r.start, e, flat2);
    ReplaceKeepsDisjoint(s.dirty, r.start, e);
    InvalidatedIsFresh(c.g, s.cache, s.dirty, r.start, e, c.Total());
  }

  /** Buffering a write, before any flush, is the flat write seen through the larger dirty map. */
  lemma BufferKeeps(c: Config, s: State, flat: seq<byte>, offset: nat, d: seq<byte>)
    requires c.Valid() && Inv(c, s, flat) && d != [] && offset + |d| <= c.Total()
    requires WriteGuard(c, s, offset, d)
    ensures var r, wd := ComputeAlignment(offset, |d|, c.g.bs), WriteData(c, s, offset, d);
      wd.Some? && Inv(c, Buffered(c, s, r, wd.value), Splice(flat, offset, d))
  {
    var bs := c.g.bs;
    var r := ComputeAlignment(offset, |d|, bs);
    ShortRange(offset / bs, EndBlock(offset, |d|, bs), bs);
    RangeHolds(offset, |d|, bs);
    WriteDataIsFlat(c, s, flat, offset, d);
    SafeReplaces(bs, s.dirty, offset, |d|);
    assert (r.start + r.count) * bs == r.start * bs + r.count * bs;
    BufferedInv(c, s, flat, r, WriteData(c, s, offset, d).value, Splice(flat, offset, d));
  }

  lemma SafeReplaces(bs: nat, dirty: Entries, offset: nat, n: nat)
    requires bs > 0 && n > 0 && WriteSafe(bs, dirty, offset, n)
    ensures offset / bs < EndBlock(offset, n, bs)
    ensures Replaces(dirty, offset / bs, EndBlock(offset, n, bs) - offset / bs)
  {
    var start, end := offset / bs, EndBlock(offset, n, bs);
    AlignmentIsSmallest(offset, n, bs);
    assert (end - start) * bs == end * bs - start * bs;
    forall k | k in dirty && k == start && start * bs == offset && dirty[k].count * bs <= n
      ensures dirty[k].count <= end - start
    {
      MulStrict(dirty[k].count, end - start, bs);
    }
  }

  lemma ShortRange(start: nat, end: nat, bs: nat)
    requires bs > 0 && end * bs - start * bs < 0x1_0000_0000
    ensures end - start < 0x1_0000_0000
  {
    assert (end - start) * bs == end * bs - start * bs;
    if end - start >= 0x1_0000_0000 {
      MulMono(0x1_0000_0000, end - start, bs);
    }
  }

  lemma WriteKeeps(c: Config, s: State, flat: seq<byte>, offset: nat, data: seq<byte>, reply: Option<nat>, s2: State)
    requires c.Valid() && Inv(c, s, flat) && WriteGuard(c, s, offset, data)
    requires Wrote(c, s, offset, data, reply, s2)
    ensures Inv(c, s2, FlatWrite(flat, offset, data)) && Answered(c, flat, Write(offset, data, reply))
    ensures s.sync && s.dirty == map[] ==> s2.dirty == map[]
  {
    if data != [] && offset < c.Total() {
      var d := data[..Min(|data|, c.Total() - offset)];
      ShortIsGuarded(c, s, offset, data, d);
      BufferKeeps(c, s, flat, offset, d);
      LengthIsShort(offset, |d|, c.g.bs);
      var r, wd := ComputeAlignment(offset, |d|, c.g.bs), WriteData(c, s, offset, d).value;
      WroteBuffered(c, s, offset, data, d, r, wd, reply, s2);
      BufferedWriteKeeps(c, s, flat, offset, data, d, r, wd, reply, s2);
    } else {
      assert data == [] ==> FlatWrite(flat, offset, data) == flat;
    }
  }

  lemma ShortIsGuarded(c: Config, s: State, offset: nat, data: seq<byte>, d: seq<byte>)
    requires c.Valid() && WriteGuard(c, s, offset, data) && data != [] && offset < c.Total()
    requires d == data[..Min(|data|, c.Total() - offset)]
    ensures WriteGuard(c, s, offset, d)
  {
  }

  /** What a write inside the device comes to once it is buffered. */
  lemma WroteBuffered(c: Config, s: State, offset: nat, data: seq<byte>, d: seq<byte>, r: Range, wd: seq<byte>,
                      reply: Option<nat>, s2: State)
    requires c.Valid() && WellFormed(c, s) && data != [] && offset < c.Total()
    requires d == data[..Min(|data|, c.Total() - offset)] && r == ComputeAlignment(offset, |d|, c.g.bs)
    requires WriteData(c, s, offset, d) == Some(wd) && Wrote(c, s, offset, data, reply, s2)
    ensures reply == Some(|d| % 0x1_0000_0000)
    ensures Flushed(c, Buffered(c, s, r, wd), s2) || (!s.sync && s2 == Buffered(c, s, r, wd))
  {
  }

  lemma BufferedWriteKeeps(c: Config, s: State, flat: seq<byte>, offset: nat, data: seq<byte>, d: seq<byte>, r: Range,
                           wd: seq<byte>, reply: Option<nat>, s2: State)
    requires c.Valid() && WellFormed(c, s) && |flat| == c.Total() && data != [] && offset < c.Total()
    requires d == data[..Min(|data|, c.Total() - offset)] && |d| < 0x1_0000_0000
    requires Inv(c, Buffered(c, s, r, wd), Splice(flat, offset, d))
    requires reply == Some(|d| % 0x1_0000_0000)
    requires Flushed(c, Buffered(c, s, r, wd), s2) || (!s.sync && s2 == Buffered(c, s, r, wd))
    ensures Inv(c, s2, FlatWrite(flat, offset, data)) && Answered(c, flat, Write(offset, data, reply))
    ensures s.sync ==> s2.dirty == map[]
  {
    MaybeFlushKeeps(c, Buffered(c, s, r, wd), Splice(flat, offset, d), s2);
    LengthAnswered(c, flat, offset, data, d);
  }

  lemma LengthAnswered(c: Config, flat: seq<byte>, offset: nat, data: seq<byte>, d: seq<byte>)
    requires c.Valid() && |flat| == c.Total() && offset < c.Total()
    requires d == data[..Min(|data|, c.Total() - offset)] && |d| < 0x1_0000_0000
    ensures FlatWrite(flat, offset, data) == Splice(flat, offset, d)
    ensures Answered(c, flat, Write(offset, data, Some(|d| % 0x1_0000_0000)))
  {
  }

  lemma MaybeFlushKeeps(c: Config, s1: State, flat: seq<byte>, s2: State)
    requires c.Valid() && Inv(c, s1, flat) && (Flushed(c, s1, s2) || s2 == s1)
    ensures Inv(c, s2, flat)
    ensures Flushed(c, s1, s2) ==> s2.dirty == map[]
  {
    if Flushed(c, s1, s2) {
      FlushReachesImage(c, s1, flat, s2);
    }
  }

  lemma LengthIsShort(offset: nat, size: nat, bs: nat)
    requires bs > 0 && size > 0
    requires EndBlock(offset, size, bs) * bs - offset / bs * bs < 0x1_0000_0000
    ensures size < 0x1_0000_0000
  {
    AlignmentIsSmallest(offset, size, bs);
  }

  // -- Steps and runs --------------------------------------------------------

  /** One disciplined step: the invariant holds for the flat device after it, and it answered rightly. */
  lemma StepKeeps(c: Config, s: State, flat: seq<byte>, e: Event, s2: State)
    requires c.Valid() && Inv(c, s, flat) && Guard(c, s, e) && Step(c, s, e, s2)
    ensures Inv(c, s2, FlatAfter(flat, e)) && Answered(c, flat, e)
    ensures s.sync && s.dirty == map[] ==> s2.dirty == map[]
  {
    match e
    case Read(offset, size, reply) =>
      ReadKeeps(c, s, flat, offset, size, reply, s2);
      ReadLeavesDirty(c, s, offset, size, reply, s2);
    case Write(offset, data, reply) => WriteKeeps(c, s, flat, offset, data, reply, s2);
    case Flush => FlushReachesImage(c, s, flat, s2);
    case Tick => FlushReachesImage(c, s, flat, s2);
    case SetSync(_) =>
    case Prefetch(lba, blocks) => FetchKeeps(c, s, flat, lba, blocks, s2.cache);
    case Evict => EvictKeeps(c, s, flat, s2.cache);
  }

  lemma ReadLeavesDirty(c: Config, s: State, offset: nat, size: u32, reply: Option<seq<byte>>, s2: State)
    requires c.Valid() && WellFormed(c, s) && ReadStep(c, s, offset, size, reply, s2)
    ensures s2 == s.(cache := s2.cache)
  {
  }

  lemma EvictKeeps(c: Config, s: State, flat: seq<byte>, cache: map<nat, seq<byte>>)
    requires c.Valid() && Inv(c, s, flat) && SubMap(cache, s.cache)
    ensures Inv(c, s.(cache := cache), flat)
  {
  }

  /** `states` are the states between the events of a run. */
  ghost predicate IsRun(c: Config, states: seq<State>, events: seq<Event>)
    requires c.Valid()
  {
    && |states| == |events| + 1
    && forall i :: 0 <= i < |events| ==>
         WellFormed(c, states[i]) && Step(c, states[i], events[i], states[i + 1])
  }

  ghost predicate Disciplined(c: Config, states: seq<State>, events: seq<Event>)
    requires c.Valid() && |states| == |events| + 1
  {
    forall i :: 0 <= i < |events| ==> Guard(c, states[i], events[i])
  }

  /** The flat device after a list of events. */
  ghost function FlatRun(flat: seq<byte>, events: seq<Event>): (r: seq<byte>)
    ensures |r| == |flat|
  {
    if events == [] then flat
    else FlatAfter(FlatRun(flat, events[..|events| - 1]), events[|events| - 1])
  }

  lemma {:induction false} RunKeeps(c: Config, states: seq<State>, events: seq<Event>, flat: seq<byte>, i: nat)
    requires c.Valid() && IsRun(c, states, events) && Disciplined(c, states, events)
    requires Inv(c, states[0], flat) && i <= |events|
    ensures Inv(c, states[i], FlatRun(flat, events[..i]))
  {
    if i == 0 {
      assert events[..0] == [];
    } else {
      RunKeeps(c, states, events, flat, i - 1);
      assert events[..i][..i - 1] == events[..i - 1];
      StepKeeps(c, states[i - 1], FlatRun(flat, events[..i - 1]), events[i - 1], states[i]);
    }
  }

  /** Over every disciplined run, in any mode, each event answers as the flat device with the writes
      before it applied in order; once the dirty map is empty the medium is that device. */
  lemma DisciplinedRunIsFlat(c: Config, states: seq<State>, events: seq<Event>, flat: seq<byte>)
    requires c.Valid() && IsRun(c, states, events) && Disciplined(c, states, events)
    requires Inv(c, states[0], flat)
    ensures forall i :: 0 <= i < |events| ==> Answered(c, FlatRun(flat, events[..i]), events[i])
    ensures forall i :: 0 <= i <= |events| ==> Inv(c, states[i], FlatRun(flat, events[..i]))
    ensures forall i :: 0 <= i <= |events| && states[i].dirty == map[] ==> states[i].disk == FlatRun(flat, events[..i])
  {
    forall i | 0 <= i <= |events|
      ensures Inv(c, states[i], FlatRun(flat, events[..i]))
      ensures i < |events| ==> Answered(c, FlatRun(flat, events[..i]), events[i])
      ensures states[i].dirty == map[] ==> states[i].disk == FlatRun(flat, events[..i])
    {
      RunKeeps(c, states, events, flat, i);
      if i < |events| {
        StepKeeps(c, states[i], FlatRun(flat, events[..i]), events[i], states[i + 1]);
      }
      if states[i].dirty == map[] {
        NothingDirty(c, states[i], FlatRun(flat, events[..i]));
      }
    }
  }

  lemma NothingDirty(c: Config, s: State, flat: seq<byte>)
    requires c.Valid() && Inv(c, s, flat) && s.dirty == map[]
    ensures s.disk == flat
  {
    ImageOfNothing(c.g.bs, s.disk, flat);
  }

  lemma RunSnoc(c: Config, states: seq<State>, events: seq<Event>, e: Event, s2: State)
    requires c.Valid() && IsRun(c, states, events) && WellFormed(c, states[|events|])
    requires Step(c, states[|events|], e, s2)
    ensures IsRun(c, states + [s2], events + [e])
  {
    var ss, es := states + [s2], events + [e];
    forall i | 0 <= i < |es|
      ensures WellFormed(c, ss[i]) && Step(c, ss[i], es[i], ss[i + 1])
    {
      if i < |events| {
        assert ss[i] == states[i] && ss[i + 1] == states[i + 1] && es[i] == events[i];
      }
    }
  }

  // -- Sync mode -------------------------------------------------------------

  /** What is still asked of an event in sync mode: lengths that 32 bits do not cut, and staying in the mode. */
  ghost predicate SyncGuard(c: Config, e: Event)
    requires c.Valid()
  {
    match e
    case Read(offset, size, _) =>
      size > 0 && offset < c.Total() ==> ReadLength(c.Total(), offset, size) == Min(size, c.Total() - offset)
    case Write(offset, data, _) =>
      data != [] && offset < c.Total() ==>
        EndBlock(offset, Min(|data|, c.Total() - offset), c.g.bs) * c.g.bs - offset / c.g.bs * c.g.bs < 0x1_0000_0000
    case SetSync(enabled) => enabled
    case _ => true
  }

  /** Sync mode with nothing dirty, and a cache that agrees with the medium. */
  ghost predicate Synced(c: Config, s: State)
    requires c.Valid()
  {
    s.sync && s.dirty == map[] && Inv(c, s, s.disk)
  }

  lemma SyncIsGuarded(c: Config, s: State, e: Event)
    requires c.Valid() && s.dirty == map[] && SyncGuard(c, e)
    ensures Guard(c, s, e)
  {
  }

  lemma SyncStepKeeps(c: Config, s: State, e: Event, s2: State)
    requires c.Valid() && Synced(c, s) && Step(c, s, e, s2) && SyncGuard(c, e)
    ensures Synced(c, s2)
  {
    SyncIsGuarded(c, s, e);
    StepKeeps(c, s, s.disk, e, s2);
    StepKeepsMode(c, s, e, s2);
    NothingDirty(c, s2, FlatAfter(s.disk, e));
  }

  lemma {:induction false} SyncRunIsDisciplined(c: Config, states: seq<State>, events: seq<Event>, i: nat)
    requires c.Valid() && IsRun(c, states, events) && i <= |events|
    requires forall j :: 0 <= j < |events| ==> SyncGuard(c, events[j])
    requires Synced(c, states[0])
    ensures Synced(c, states[i])
    ensures i < |events| ==> Guard(c, states[i], events[i])
  {
    if i > 0 {
      SyncRunIsDisciplined(c, states, events, i - 1);
      SyncStepKeeps(c, states[i - 1], events[i - 1], states[i]);
    }
    if i < |events| {
      SyncIsGuarded(c, states[i], events[i]);
    }
  }

  lemma StepKeepsMode(c: Config, s: State, e: Event, s2: State)
    requires c.Valid() && WellFormed(c, s) && Step(c, s, e, s2) && SyncGuard(c, e) && s.sync
    ensures s2.sync
  {
  }

  /** Sync mode: over every run from an empty dirty map, whatever is prefetched or evicted between the
      requests and in whatever order write commands finish, each event answers as a flat byte array with
      the clamped writes applied in order; between requests nothing is dirty, the medium is that array,
      and every cached chunk equals it. */
  lemma SyncRunIsFlat(c: Config, states: seq<State>, events: seq<Event>)
    requires c.Valid() && IsRun(c, states, events)
    requires forall j :: 0 <= j < |events| ==> SyncGuard(c, events[j])
    requires states[0].sync && states[0].dirty == map[]
    requires WellFormed(c, states[0]) && c.g.Coherent(states[0].disk, states[0].cache)
    ensures forall i :: 0 <= i < |events| ==> Answered(c, FlatRun(states[0].disk, events[..i]), events[i])
    ensures forall i :: 0 <= i <= |events| ==>
      && states[i].dirty == map[]
      && states[i].disk == FlatRun(states[0].disk, events[..i])
      && c.g.Coherent(states[i].disk, states[i].cache)
  {
    EmptyIsImage(c.g.bs, states[0].disk);
    assert Synced(c, states[0]);
    forall i | 0 <= i <= |events|
      ensures states[i].dirty == map[]
      ensures i < |events| ==> Guard(c, states[i], events[i])
    {
      SyncRunIsDisciplined(c, states, events, i);
    }
    DisciplinedRunIsFlat(c, states, events, states[0].disk);
  }
}
