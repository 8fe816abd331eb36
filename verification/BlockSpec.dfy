/** The block device worker as a step relation over values, and its refinement of a flat byte array. */
module BlockSpec {
  import opened Arithmetic
  import opened Bytes
  import opened Cache
  import opened DirtyMap
  import opened Overlay
  import opened Pipeline
  import opened Wrappers

  // -- Alignment -------------------------------------------------------------

  datatype Range = Range(start: nat, count: nat, skip: nat)

  function EndBlock(offset: nat, size: nat, bs: nat): nat
    requires bs > 0
  {
    (offset + size + bs - 1) / bs
  }

  function ComputeAlignment(offset: nat, size: nat, bs: nat): Range
    requires bs > 0
  {
    Range(offset / bs, (EndBlock(offset, size, bs) - offset / bs) % 0x1_0000_0000, offset % bs)
  }

  /** The block range is the smallest one that covers the bytes. */
  lemma AlignmentIsSmallest(offset: nat, size: nat, bs: nat)
    requires bs > 0 && size > 0
    ensures var r, end := ComputeAlignment(offset, size, bs), EndBlock(offset, size, bs);
      && r.start * bs + r.skip == offset && r.skip < bs
      && r.start < end && offset + size <= end * bs
      && (end - r.start < 0x1_0000_0000 ==> r.start + r.count == end)
      && forall s, e :: s * bs <= offset && offset + size <= e * bs ==> s <= r.start && end <= e
  {
    var r, end := ComputeAlignment(offset, size, bs), EndBlock(offset, size, bs);
    DivBounds(offset, bs);
    DivBounds(offset + size + bs - 1, bs);
    MulSucc(r.start, bs);
    MulSucc(end, bs);
    MulStrict(r.start, end, bs);
    forall s, e | s * bs <= offset && offset + size <= e * bs
      ensures s <= r.start && end <= e
    {
      MulStrict(s, r.start + 1, bs);
      MulSucc(end - 1, bs);
      MulStrict(end - 1, e, bs);
    }
  }

  /** A length below 2^32 bytes needs fewer than 2^32 blocks. */
  lemma AlignmentFits(offset: nat, size: nat, bs: nat)
    requires bs > 0 && 0 < size < 0x1_0000_0000
    ensures EndBlock(offset, size, bs) - offset / bs < 0x1_0000_0000
  {
    var start, end := offset / bs, EndBlock(offset, size, bs);
    DivBounds(offset, bs);
    DivBounds(offset + size + bs - 1, bs);
    assert (end - 1 - start) * bs == end * bs - bs - start * bs;
    if end - start >= 0x1_0000_0000 {
      MulMono(0xFFFF_FFFF, end - 1 - start, bs);
    }
  }

  // -- State -----------------------------------------------------------------

  datatype Config = Config(g: Geometry, blocks: nat, maxBlocks: nat, coalesceMax: nat) {
    predicate Valid() {
      g.Valid() && maxBlocks > 0
    }

    function Total(): nat {
      blocks * g.bs
    }
  }

  datatype State = State(disk: seq<byte>, cache: map<nat, seq<byte>>, dirty: Entries, sync: bool)

  /** Sizes agree: the medium has its blocks, chunks and dirty entries lie inside it. */
  ghost predicate WellFormed(c: Config, s: State)
    requires c.Valid()
  {
    && |s.disk| == c.Total()
    && c.g.WellFormed(s.cache, c.Total())
    && forall k :: k in s.dirty ==>
         s.dirty[k].count * c.g.bs <= |s.dirty[k].data| && k * c.g.bs + |s.dirty[k].data| <= c.Total()
  }

  datatype Event =
    | Read(offset: nat, size: u32, reply: Option<seq<byte>>)
    | Write(wOffset: nat, data: seq<byte>, wReply: Option<nat>)
    | Flush
    | Tick // the coalescing timer, or the end of the request channel
    | SetSync(enabled: bool)
    | Prefetch(lba: nat, blocks: nat)
    | Evict

  // -- Steps -----------------------------------------------------------------

  /** The length of a read after clamping: the distance to the end is cut to 32 bits first. */
  function ReadLength(total: nat, offset: nat, size: u32): (n: u32)
    requires offset < total
  {
    Min(size, (total - offset) % 0x1_0000_0000)
  }

  function Cut(d: seq<byte>, skip: nat, n: nat): Option<seq<byte>> {
    if skip + n <= |d| then Some(d[skip..skip + n]) else None
  }

  /** `n` bytes of a range of blocks: from the dirty entry that holds it, or through the cache. */
  ghost predicate RangeRead(c: Config, s: State, r: Range, n: nat, kept: map<nat, seq<byte>>,
                            reply: Option<seq<byte>>, s2: State)
    requires c.Valid() && WellFormed(c, s)
  {
    var hit := ReadOverlap(s.dirty, r.start, r.count, c.g.bs);
    if hit.Some? && r.skip + n <= |hit.value| then
      reply == Cut(hit.value, r.skip, n) && s2 == s
    else
      && SubMap(kept, s.cache)
      && s2 == s.(cache := s2.cache)
      && Fetched(c.g, s.disk, r.start, r.count, s.cache, s2.cache)
      && reply == if c.g.SpanFits(|s.disk|, r.start, r.count)
                  then Cut(ReadThrough(c.g, s.disk, kept, r.start, r.count), r.skip, n) else None
  }

  ghost predicate ReadWith(c: Config, s: State, offset: nat, size: u32, kept: map<nat, seq<byte>>,
                           reply: Option<seq<byte>>, s2: State)
    requires c.Valid() && WellFormed(c, s)
  {
    if size == 0 || offset >= c.Total() then
      reply == Some([]) && s2 == s
    else
      var n := ReadLength(c.Total(), offset, size);
      RangeRead(c, s, ComputeAlignment(offset, n, c.g.bs), n, kept, reply, s2)
  }

  /** The single-command writes of all drained entries. */
  ghost function AllJobs(c: Config, items: seq<Extent>): seq<Patch>
    requires c.Valid()
  {
    if items == [] then []
    else
      var last := items[|items| - 1];
      AllJobs(c, items[..|items| - 1])
      + Jobs(c.g.bs, last.lba, WholeBlocks(|last.data|, c.g.bs), last.data, 0, c.maxBlocks)
  }

  ghost predicate FlushWith(c: Config, s: State, items: seq<Extent>, order: seq<nat>, s2: State)
    requires c.Valid()
  {
    var jobs := AllJobs(c, items);
    && IsDrain(items, s.dirty)
    && IsOrder(order, |jobs|)
    && Fit(Reordered(jobs, order), |s.disk|)
    && s2 == s.(disk := ApplyAll(s.disk, Reordered(jobs, order)), dirty := map[])
  }

  /** All entries are drained and their write commands complete in some order. */
  ghost predicate Flushed(c: Config, s: State, s2: State)
    requires c.Valid()
  {
    if s.dirty == map[] then s2 == s
    else exists items: seq<Extent>, order: seq<nat> :: FlushWith(c, s, items, order, s2)
  }

  /** The bytes that go into the dirty map for a write of `d` at the range `r`: whole blocks are taken as
      they are, anything else is laid over the blocks read from the medium. */
  ghost function Overlaid(bs: nat, disk: seq<byte>, r: Range, d: seq<byte>): Option<seq<byte>>
    requires bs > 0
  {
    if r.skip == 0 && |d| % bs == 0 then Some(d)
    else
      var at, len := r.start * bs, r.count * bs;
      if at + len > |disk| || r.skip + |d| > len then None else Some(Splice(disk[at..at + len], r.skip, d))
  }

  ghost function WriteData(c: Config, s: State, offset: nat, d: seq<byte>): Option<seq<byte>>
    requires c.Valid()
  {
    Overlaid(c.g.bs, s.disk, ComputeAlignment(offset, |d|, c.g.bs), d)
  }

  /** The state after the entry is in the dirty map and the cache invalidated, before any flush. */
  ghost function Buffered(c: Config, s: State, r: Range, wd: seq<byte>): State
    requires c.Valid()
  {
    s.(dirty := s.dirty[r.start := Entry(wd, r.count)], cache := Without(c.g, s.cache, r.start, r.count))
  }

  ghost predicate Wrote(c: Config, s: State, offset: nat, data: seq<byte>, reply: Option<nat>, s2: State)
    requires c.Valid() && WellFormed(c, s)
  {
    if data == [] || offset >= c.Total() then
      reply == Some(0) && s2 == s
    else
      var d := data[..Min(|data|, c.Total() - offset)];
      var r := ComputeAlignment(offset, |d|, c.g.bs);
      var wd := WriteData(c, s, offset, d);
      if wd.None? then
        reply == None && s2 == s
      else
        var s1 := Buffered(c, s, r, wd.value);
        && reply == Some(|d| % 0x1_0000_0000)
        && if s.sync || DirtyBytes(s1.dirty) >= c.coalesceMax then Flushed(c, s1, s2) else s2 == s1
  }

  ghost predicate ReadStep(c: Config, s: State, offset: nat, size: u32, reply: Option<seq<byte>>, s2: State)
    requires c.Valid() && WellFormed(c, s)
  {
    exists kept: map<nat, seq<byte>> :: ReadWith(c, s, offset, size, kept, reply, s2)
  }

  ghost predicate Step(c: Config, s: State, e: Event, s2: State)
    requires c.Valid() && WellFormed(c, s)
  {
    match e
    case Read(offset, size, reply) => ReadStep(c, s, offset, size, reply, s2)
    case Write(offset, data, reply) => Wrote(c, s, offset, data, reply, s2)
    case Flush => Flushed(c, s, s2)
    case Tick => Flushed(c, s, s2)
    case SetSync(enabled) => s2 == s.(sync := enabled)
    case Prefetch(lba, blocks) =>
      s2 == s.(cache := s2.cache) && Fetched(c.g, s.disk, lba, blocks, s.cache, s2.cache)
    case Evict =>
      s2 == s.(cache := s2.cache) && SubMap(s2.cache, s.cache)
  }
}
