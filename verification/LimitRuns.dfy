/** Runs in coalescing mode that begin with nothing dirty and end in an answer the flat device would not give. They
    are possible on every device with room for them, whatever it holds, and for all data that can tell. */
module LimitRuns {
  import opened Arithmetic
  import opened Bytes
  import opened Cache
  import opened DirtyMap
  import opened Sealing
  import opened Wrappers
  import opened BlockSpec
  import opened BlockRefinement
  import opened BlockLimits
  import opened FlushLimits

  // -- Where a run can take place --------------------------------------------

  /** Reads of the `n` blocks from `k` on are answered in full when nothing of them is dirty. */
  ghost predicate Place(c: Config, k: nat, n: nat) {
    && c.Valid() && n > 0
    && 0 <= k * c.g.bs && k * c.g.bs + n * c.g.bs <= c.Total() && n * c.g.bs < 0x1_0000_0000
    && ReadLength(c.Total(), k * c.g.bs, n * c.g.bs) == n * c.g.bs
    && ReadFits(c, k * c.g.bs, n * c.g.bs)
  }

  /** The cache's chunks are as many blocks as go into 64 KB, and the device has two blocks and a whole chunk. */
  ghost predicate IsDevice(c: Config) {
    c.Valid() && c.g.cb == CHUNK_BYTES / c.g.bs && 2 <= c.blocks && c.g.cb <= c.blocks
  }

  lemma BlockRange(k: nat, n: nat, bs: nat)
    requires bs > 0 && 0 < n * bs < 0x1_0000_0000 && 0 <= k * bs
    ensures ComputeAlignment(k * bs, n * bs, bs) == Range(k, n, 0)
  {
    AlignmentFits(k * bs, n * bs, bs);
    DivOfMultiple(k, bs);
    ModOfMultiple(k, bs);
    ModOfMultiple(n, bs);
    AlignedRange(k * bs, n * bs, bs);
    MulStrict(EndBlock(k * bs, n * bs, bs) - k, n, bs);
    MulStrict(n, EndBlock(k * bs, n * bs, bs) - k, bs);
  }

  lemma MakePlace(c: Config, k: nat, n: nat)
    requires c.Valid() && n > 0 && n * c.g.bs < 0x1_0000_0000
    requires 0 <= k * c.g.bs && k * c.g.bs + n * c.g.bs <= c.Total()
    requires n * c.g.bs <= (c.Total() - k * c.g.bs) % 0x1_0000_0000
    requires c.g.SpanFits(c.Total(), k, n)
    ensures Place(c, k, n)
  {
    MulMono(1, n, c.g.bs);
    BlockRange(k, n, c.g.bs);
  }

  lemma PlaceSpan(c: Config, k: nat, n: nat)
    requires Place(c, k, n)
    ensures c.g.SpanFits(c.Total(), k, n)
  {
    MulMono(1, n, c.g.bs);
    BlockRange(k, n, c.g.bs);
  }

  lemma ChunkIsShort(bs: nat)
    requires 0 < bs && CHUNK_BYTES / bs > 0
    ensures bs <= CHUNK_BYTES && CHUNK_BYTES / bs * bs <= CHUNK_BYTES
  {
    DivBounds(CHUNK_BYTES, bs);
    MulMono(1, CHUNK_BYTES / bs, bs);
  }

  /** Every device has such a place, for two blocks and for one. */
  lemma EveryDeviceHasPlace(c: Config) returns (k: nat)
    requires IsDevice(c)
    ensures Place(c, k, 2) && Place(c, k, 1)
  {
    var bs := c.g.bs;
    ChunkIsShort(bs);
    MulMono(2, c.blocks, bs);
    k := if 2 * bs <= c.Total() % 0x1_0000_0000 then 0 else 2;
    if k == 0 {
      FrontFits(c, 2);
      FrontFits(c, 1);
    } else {
      LargeTotal(c.Total(), 2 * bs);
      LargeFits(c, 2);
      LargeFits(c, 1);
    }
    MakePlace(c, k, 2);
    MakePlace(c, k, 1);
  }

  /** The chunks of the first one or two blocks lie inside a device with a whole chunk. */
  lemma FrontFits(c: Config, n: nat)
    requires IsDevice(c) && 1 <= n <= 2
    ensures c.g.SpanFits(c.Total(), 0, n)
  {
    var last := c.g.LastChunk(0, n);
    assert last == 0 || (last == 1 && c.g.cb == 1);
    MulMono(last + c.g.cb, c.blocks, c.g.bs);
    c.g.ChunkEnd(last);
  }

  lemma LargeTotal(total: nat, n: nat)
    requires total % 0x1_0000_0000 < n <= total && n <= 0x2_0000
    ensures total >= 0x1_0000_0000 && n <= (total - n) % 0x1_0000_0000
  {
    var q, r := total / 0x1_0000_0000, total % 0x1_0000_0000;
    assert total == q * 0x1_0000_0000 + r;
    assert total - n == (q - 1) * 0x1_0000_0000 + (0x1_0000_0000 + r - n);
  }

  /** Those of the blocks after the first two lie inside a device of 4 GB or more. */
  lemma LargeFits(c: Config, n: nat)
    requires IsDevice(c) && c.Total() >= 0x1_0000_0000 && c.g.bs <= CHUNK_BYTES && c.g.cb * c.g.bs <= CHUNK_BYTES
    requires 1 <= n <= 2
    ensures c.g.SpanFits(c.Total(), 2, n)
  {
    var last := c.g.LastChunk(2, n);
    MulMono(last, 3, c.g.bs);
  }

  // -- Runs ------------------------------------------------------------------

  ghost function Start(disk: seq<byte>): State {
    State(disk, map[], map[], false)
  }

  ghost predicate RunsTo(c: Config, states: seq<State>, events: seq<Event>, disk: seq<byte>, s: State)
    requires c.Valid()
  {
    IsRun(c, states, events) && states[0] == Start(disk) && states[|events|] == s
  }

  /** Some run of these events from the start ends in `s`, and the flat device in `flat`. */
  ghost predicate Reached(c: Config, disk: seq<byte>, events: seq<Event>, s: State, flat: seq<byte>)
    requires c.Valid()
  {
    && WellFormed(c, s)
    && FlatRun(disk, events) == flat
    && exists states :: RunsTo(c, states, events, disk, s)
  }

  /** Some run of these events from a start with nothing dirty or cached ends in a read whose reply is not
      the flat device's. */
  ghost predicate AnswersWrong(c: Config, disk: seq<byte>, events: seq<Event>)
    requires c.Valid()
  {
    forall n: nat {:trigger Look(n)} :: Look(n) ==>
      && Inv(c, Start(disk), disk)
      && (exists states, s :: RunsTo(c, states, events, disk, s))
      && events != []
      && WrongRead(events[|events| - 1], FlatRun(disk, events[..|events| - 1]))
  }

  ghost predicate WrongRead(e: Event, flat: seq<byte>) {
    e.Read? && e.reply.Some? && e.reply.value != FlatRead(flat, e.offset, e.size)
  }

  lemma Started(c: Config, disk: seq<byte>)
    requires c.Valid() && |disk| == c.Total()
    ensures Reached(c, disk, [], Start(disk), disk) && Inv(c, Start(disk), disk)
  {
    assert RunsTo(c, [Start(disk)], [], disk, Start(disk));
  }

  lemma ReachedNext(c: Config, disk: seq<byte>, events: seq<Event>, s: State, flat: seq<byte>, e: Event, s2: State)
    requires c.Valid() && Reached(c, disk, events, s, flat) && Step(c, s, e, s2) && WellFormed(c, s2)
    ensures Reached(c, disk, events + [e], s2, FlatAfter(flat, e))
  {
    var states :| RunsTo(c, states, events, disk, s);
    RunSnoc(c, states, events, e, s2);
    assert (events + [e])[..|events|] == events;
    assert RunsTo(c, states + [s2], events + [e], disk, s2);
  }

  lemma ReachedWrong(c: Config, disk: seq<byte>, events: seq<Event>, s: State, flat: seq<byte>, e: Event, s2: State)
    requires c.Valid() && |disk| == c.Total() && Reached(c, disk, events, s, flat)
    requires Step(c, s, e, s2) && WellFormed(c, s2) && WrongRead(e, flat)
    ensures AnswersWrong(c, disk, events + [e])
  {
    ReachedNext(c, disk, events, s, flat, e, s2);
    Started(c, disk);
    assert (events + [e])[..|events|] == events;
  }

  // -- Steps -----------------------------------------------------------------

  /** A write of whole blocks at block `k`, acknowledged in full. */
  function Writing(c: Config, k: nat, data: seq<byte>): Event
    requires 0 <= k * c.g.bs
  {
    Write(k * c.g.bs, data, Some(|data|))
  }

  function Reading(c: Config, k: nat, n: nat, reply: seq<byte>): Event
    requires 0 <= k * c.g.bs && 0 <= n * c.g.bs < 0x1_0000_0000
  {
    Read(k * c.g.bs, n * c.g.bs, Some(reply))
  }

  /** The read can be answered with these bytes and leaves everything as it is. */
  ghost predicate ReadsAs(c: Config, s: State, k: nat, n: nat, reply: seq<byte>)
    requires Place(c, k, n)
  {
    forall l: nat {:trigger Look(l)} :: Look(l) ==> WellFormed(c, s) && Step(c, s, Reading(c, k, n, reply), s)
  }

  /** Only the entry at block `k` is dirty. */
  ghost function Buffering(disk: seq<byte>, k: nat, n: nat, data: seq<byte>): State {
    Start(disk).(dirty := map[k := Entry(data, n)])
  }

  lemma OneEntryBytes(k: nat, e: Entry)
    ensures DirtyBytes(map[k := e]) == |e.data|
  {
    DirtyBytesAny(map[k := e], k);
    assert map[k := e] - {k} == map[];
  }

  lemma BufferedWithout(c: Config, s: State, offset: nat, d: seq<byte>, r: Range)
    requires c.Valid() && WellFormed(c, s) && !s.sync && s.cache == map[]
    requires d != [] && |d| < 0x1_0000_0000 && offset + |d| <= c.Total() && r == ComputeAlignment(offset, |d|, c.g.bs)
    requires r.skip == 0 && |d| % c.g.bs == 0 && DirtyBytes(s.dirty[r.start := Entry(d, r.count)]) < c.coalesceMax
    ensures Step(c, s, Write(offset, d, Some(|d|)), s.(dirty := s.dirty[r.start := Entry(d, r.count)]))
  {
    BufferedEntry(c, s, r, d);
    StaysBuffered(c, s, offset, d, r, d);
  }

  lemma StaysBuffered(c: Config, s: State, offset: nat, d: seq<byte>, r: Range, wd: seq<byte>)
    requires c.Valid() && WellFormed(c, s) && !s.sync && d != [] && |d| < 0x1_0000_0000 && offset + |d| <= c.Total()
    requires r == ComputeAlignment(offset, |d|, c.g.bs) && WriteData(c, s, offset, d) == Some(wd)
    requires DirtyBytes(Buffered(c, s, r, wd).dirty) < c.coalesceMax
    ensures Wrote(c, s, offset, d, Some(|d|), Buffered(c, s, r, wd))
  {
    assert d[..|d|] == d;
    LowBitsOf(|d|);
    WroteUnflushed(c, s, offset, d, d, r, wd);
  }

  lemma WroteUnflushed(c: Config, s: State, offset: nat, data: seq<byte>, d: seq<byte>, r: Range, wd: seq<byte>)
    requires c.Valid() && WellFormed(c, s) && !s.sync && data != [] && offset < c.Total()
    requires d == data[..Min(|data|, c.Total() - offset)] && r == ComputeAlignment(offset, |d|, c.g.bs)
    requires WriteData(c, s, offset, d) == Some(wd) && DirtyBytes(Buffered(c, s, r, wd).dirty) < c.coalesceMax
    ensures Wrote(c, s, offset, data, Some(|d| % 0x1_0000_0000), Buffered(c, s, r, wd))
  {
  }

  lemma BufferedEntry(c: Config, s: State, r: Range, d: seq<byte>)
    requires c.Valid() && s.cache == map[]
    ensures Buffered(c, s, r, d) == s.(dirty := s.dirty[r.start := Entry(d, r.count)])
  {
    assert Without(c.g, map[], r.start, r.count) == map[];
  }

  /** A write of whole blocks at a block where the only dirty entry is, if there is any, stays in the buffer. */
  lemma BufferStep(c: Config, s: State, k: nat, n: nat, data: seq<byte>)
    requires Place(c, k, n) && WellFormed(c, s) && s == Start(s.disk).(dirty := s.dirty) && s.dirty.Keys <= {k}
    requires |data| == n * c.g.bs && |data| < c.coalesceMax
    ensures Step(c, s, Writing(c, k, data), Buffering(s.disk, k, n, data)) && WellFormed(c, Buffering(s.disk, k, n, data))
  {
    MulMono(1, n, c.g.bs);
    BlockRange(k, n, c.g.bs);
    ModOfMultiple(n, c.g.bs);
    OneEntryBytes(k, Entry(data, n));
    assert s.dirty[k := Entry(data, n)] == map[k := Entry(data, n)];
    BufferedWithout(c, s, k * c.g.bs, data, Range(k, n, 0));
  }

  lemma FlatWriteIs(flat: seq<byte>, at: nat, data: seq<byte>)
    requires data != [] && at + |data| <= |flat|
    ensures FlatWrite(flat, at, data) == Splice(flat, at, data)
  {
    assert data[..|data|] == data;
  }

  lemma FirstWrite(c: Config, disk: seq<byte>, k: nat, n: nat, data: seq<byte>)
    requires Place(c, k, n) && |disk| == c.Total() && |data| == n * c.g.bs && |data| < c.coalesceMax
    ensures Reached(c, disk, [Writing(c, k, data)], Buffering(disk, k, n, data), Splice(disk, k * c.g.bs, data))
  {
    Started(c, disk);
    MulMono(1, n, c.g.bs);
    BufferStep(c, Start(disk), k, n, data);
    FlatWriteIs(disk, k * c.g.bs, data);
    ReachedNext(c, disk, [], Start(disk), disk, Writing(c, k, data), Buffering(disk, k, n, data));
    assert [] + [Writing(c, k, data)] == [Writing(c, k, data)];
  }

  lemma OneEntryImage(bs: nat, disk: seq<byte>, k: nat, n: nat, data: seq<byte>)
    requires bs > 0 && n > 0 && |data| == n * bs && |data| < 0x1_0000_0000 && 0 <= k * bs && k * bs + |data| <= |disk|
    ensures var dirty := map[k := Entry(data, n)];
      Laid(bs, dirty, |disk|) && IsImage(bs, disk, dirty, Splice(disk, k * bs, data))
  {
    var dirty: Entries, flat := map[k := Entry(data, n)], Splice(disk, k * bs, data);
    forall a | 0 <= a < |disk| && !Touched(bs, dirty, a)
      ensures flat[a] == disk[a]
    {
      assert k in dirty && dirty[k].data == data;
    }
    MakeImage(bs, disk, dirty, flat);
  }

  /** A flush makes the medium the image and leaves the cache as it is. */
  lemma FlushStep(c: Config, s: State, flat: seq<byte>)
    requires c.Valid() && WellFormed(c, s) && Laid(c.g.bs, s.dirty, |s.disk|) && IsImage(c.g.bs, s.disk, s.dirty, flat)
    ensures Step(c, s, Flush, s.(disk := flat, dirty := map[])) && WellFormed(c, s.(disk := flat, dirty := map[]))
  {
    var s2 := SomeFlush(c, s);
    FlushIsImage(c, s, flat, s2);
    FlushedSync(c, s, s2);
    assert s2 == s.(disk := flat, dirty := map[]);
  }

  lemma FlushedSync(c: Config, s: State, s2: State)
    requires c.Valid() && Flushed(c, s, s2)
    ensures s2.sync == s.sync
  {
    if s.dirty != map[] {
      var items, order :| FlushWith(c, s, items, order, s2);
    }
  }

  /** With nothing cached and no entry that holds the blocks, the medium is read. */
  lemma DiskStep(c: Config, disk: seq<byte>, dirty: Entries, k: nat, n: nat)
    requires Place(c, k, n) && |disk| == c.Total() && Laid(c.g.bs, dirty, |disk|)
    requires forall j: nat :: !Contains(dirty, j, k, n)
    ensures ReadsAs(c, Start(disk).(dirty := dirty), k, n, disk[k * c.g.bs..k * c.g.bs + n * c.g.bs])
  {
    MulMono(1, n, c.g.bs);
    BlockRange(k, n, c.g.bs);
    var s, reply := SomeRead(c, disk, dirty, k * c.g.bs, n * c.g.bs);
  }

  lemma FlatReadIs(flat: seq<byte>, at: nat, n: nat)
    requires n > 0 && at + n <= |flat|
    ensures FlatRead(flat, at, n) == flat[at..at + n]
  {
  }

  /** A run goes on to a read that does not give the flat device's bytes. */
  lemma WrongAnswer(c: Config, disk: seq<byte>, events: seq<Event>, s: State, flat: seq<byte>, k: nat, n: nat,
                    reply: seq<byte>, all: seq<Event>)
    requires Place(c, k, n) && |disk| == |flat| == c.Total() && Reached(c, disk, events, s, flat)
    requires all == events + [Reading(c, k, n, reply)]
    requires ReadsAs(c, s, k, n, reply) && reply != flat[k * c.g.bs..k * c.g.bs + n * c.g.bs]
    ensures AnswersWrong(c, disk, all)
  {
    assert Look(0);
    MulMono(1, n, c.g.bs);
    FlatReadIs(flat, k * c.g.bs, n * c.g.bs);
    ReachedWrong(c, disk, events, s, flat, Reading(c, k, n, reply), s);
  }

  // -- A write that is lost --------------------------------------------------

  lemma SpliceTwice(s: seq<byte>, at: nat, x: seq<byte>, y: seq<byte>, z: seq<byte>)
    requires |x| == |z| && at + |x| + |y| <= |s|
    ensures Splice(Splice(s, at, x + y), at, z)[at..at + |x| + |y|] == z + y
  {
  }

  lemma SpliceSlice(s: seq<byte>, at: nat, z: seq<byte>, n: nat)
    requires at + |z| + n <= |s|
    ensures Splice(s, at, z)[at..at + |z| + n] == z + s[at + |z|..at + |z| + n]
  {
  }

  lemma DifferentEnds(z: seq<byte>, y: seq<byte>, o: seq<byte>)
    requires y != o
    ensures z + y != z + o
  {
    assert (z + y)[|z|..] == y && (z + o)[|z|..] == o;
  }

  /** The flat device has what the first write put in the second block. */
  lemma NotLost(disk: seq<byte>, at: nat, x: seq<byte>, y: seq<byte>, z: seq<byte>, was: seq<byte>)
    requires |x| == |z| && at + |x| + |y| <= |disk| && y != was
    ensures Splice(Splice(disk, at, x + y), at, z)[at..at + |x| + |y|] != z + was
  {
    SpliceTwice(disk, at, x, y, z);
    DifferentEnds(z, y, was);
  }

  lemma SecondWrite(c: Config, disk: seq<byte>, k: nat, x: seq<byte>, y: seq<byte>, z: seq<byte>)
    requires Place(c, k, 2) && Place(c, k, 1) && |disk| == c.Total() && 2 * c.g.bs < c.coalesceMax
    requires |x| == |y| == |z| == c.g.bs
    ensures Reached(c, disk, [Writing(c, k, x + y), Writing(c, k, z)], Buffering(disk, k, 1, z),
                    Splice(Splice(disk, k * c.g.bs, x + y), k * c.g.bs, z))
  {
    var s, flat := Buffering(disk, k, 2, x + y), Splice(disk, k * c.g.bs, x + y);
    FirstWrite(c, disk, k, 2, x + y);
    BufferStep(c, s, k, 1, z);
    FlatWriteIs(flat, k * c.g.bs, z);
    ReachedNext(c, disk, [Writing(c, k, x + y)], s, flat, Writing(c, k, z), Buffering(disk, k, 1, z));
    assert [Writing(c, k, x + y)] + [Writing(c, k, z)] == [Writing(c, k, x + y), Writing(c, k, z)];
  }

  lemma SecondFlushed(c: Config, disk: seq<byte>, k: nat, x: seq<byte>, y: seq<byte>, z: seq<byte>)
    requires Place(c, k, 2) && Place(c, k, 1) && |disk| == c.Total() && 2 * c.g.bs < c.coalesceMax
    requires |x| == |y| == |z| == c.g.bs
    ensures Reached(c, disk, [Writing(c, k, x + y), Writing(c, k, z), Flush], Start(Splice(disk, k * c.g.bs, z)),
                    Splice(Splice(disk, k * c.g.bs, x + y), k * c.g.bs, z))
  {
    var at := k * c.g.bs;
    var flat, events := Splice(Splice(disk, at, x + y), at, z), [Writing(c, k, x + y), Writing(c, k, z)];
    SecondWrite(c, disk, k, x, y, z);
    OneEntryImage(c.g.bs, disk, k, 1, z);
    FlushStep(c, Buffering(disk, k, 1, z), Splice(disk, at, z));
    ReachedNext(c, disk, events, Buffering(disk, k, 1, z), flat, Flush, Start(Splice(disk, at, z)));
    assert events + [Flush] == [Writing(c, k, x + y), Writing(c, k, z), Flush];
  }

  /** Two blocks are written and the first of them again: the second entry replaces the first one, and what the
      first write put in the second block never reaches the medium, which holds `was` there. */
  lemma LostWrite(c: Config, disk: seq<byte>, k: nat, x: seq<byte>, y: seq<byte>, z: seq<byte>, was: seq<byte>)
    requires Place(c, k, 2) && Place(c, k, 1) && |disk| == c.Total() && 2 * c.g.bs < c.coalesceMax
    requires |x| == |y| == |z| == c.g.bs
    requires var at := k * c.g.bs; was == disk[at + c.g.bs..at + 2 * c.g.bs] && y != was
    ensures AnswersWrong(c, disk, [Writing(c, k, x + y), Writing(c, k, z), Flush, Reading(c, k, 2, z + was)])
  {
    var at := k * c.g.bs;
    SecondFlushed(c, disk, k, x, y, z);
    ReadAfterFlush(c, disk, k, z, was);
    NotLost(disk, at, x, y, z, was);
    WrongAnswer(c, disk, [Writing(c, k, x + y), Writing(c, k, z), Flush], Start(Splice(disk, at, z)),
                Splice(Splice(disk, at, x + y), at, z), k, 2, z + was,
                [Writing(c, k, x + y), Writing(c, k, z), Flush, Reading(c, k, 2, z + was)]);
  }

  lemma ReadAfterFlush(c: Config, disk: seq<byte>, k: nat, z: seq<byte>, was: seq<byte>)
    requires Place(c, k, 2) && |disk| == c.Total() && |z| == c.g.bs
    requires was == disk[k * c.g.bs + c.g.bs..k * c.g.bs + 2 * c.g.bs]
    ensures ReadsAs(c, Start(Splice(disk, k * c.g.bs, z)), k, 2, z + was)
  {
    SpliceSlice(disk, k * c.g.bs, z, c.g.bs);
    DiskStep(c, Splice(disk, k * c.g.bs, z), map[], k, 2);
  }

  // -- A read that is only partly dirty --------------------------------------

  lemma FrontDiffers(s: seq<byte>, at: nat, x: seq<byte>, was: seq<byte>)
    requires |x| <= |was| && at + |was| <= |s| && was == s[at..at + |was|] && x != was[..|x|]
    ensures Splice(s, at, x)[at..at + |was|] != was
  {
    assert Splice(s, at, x)[at..at + |was|][..|x|] == x;
  }

  lemma OneBlockHoldsNoTwo(k: nat, x: seq<byte>)
    ensures forall j: nat :: !Contains(map[k := Entry(x, 1)], j, k, 2)
  {
  }

  lemma ReadAroundEntry(c: Config, disk: seq<byte>, k: nat, x: seq<byte>, reply: seq<byte>)
    requires Place(c, k, 2) && Place(c, k, 1) && |disk| == c.Total() && |x| == c.g.bs
    requires reply == disk[k * c.g.bs..k * c.g.bs + 2 * c.g.bs]
    ensures ReadsAs(c, Buffering(disk, k, 1, x), k, 2, reply)
  {
    OneEntryImage(c.g.bs, disk, k, 1, x);
    OneBlockHoldsNoTwo(k, x);
    DiskStep(c, disk, map[k := Entry(x, 1)], k, 2);
  }

  /** A block is written and read together with the next one before any flush: what the medium `was` is read,
      without the new bytes. */
  lemma PartlyDirtyRead(c: Config, disk: seq<byte>, k: nat, x: seq<byte>, was: seq<byte>)
    requires Place(c, k, 2) && Place(c, k, 1) && |disk| == c.Total() && c.g.bs < c.coalesceMax && |x| == c.g.bs
    requires was == disk[k * c.g.bs..k * c.g.bs + 2 * c.g.bs] && x != was[..c.g.bs]
    ensures AnswersWrong(c, disk, [Writing(c, k, x), Reading(c, k, 2, was)])
  {
    FirstWrite(c, disk, k, 1, x);
    ReadAroundEntry(c, disk, k, x, was);
    FrontDiffers(disk, k * c.g.bs, x, was);
    WrongAnswer(c, disk, [Writing(c, k, x)], Buffering(disk, k, 1, x), Splice(disk, k * c.g.bs, x), k, 2, was,
                [Writing(c, k, x), Reading(c, k, 2, was)]);
  }

  // -- A chunk that stays stale ----------------------------------------------

  /** The cache with the chunk that holds block `k`. */
  ghost function ChunkOnly(c: Config, disk: seq<byte>, k: nat): (cache: map<nat, seq<byte>>)
    requires c.Valid() && c.g.ChunkFits(|disk|, c.g.ChunkLba(k))
  {
    map[c.g.ChunkLba(k) := c.g.ChunkBytes(disk, c.g.ChunkLba(k))]
  }

  lemma PlaceChunk(c: Config, k: nat)
    requires Place(c, k, 1)
    ensures c.g.ChunkFits(c.Total(), c.g.ChunkLba(k))
  {
    PlaceSpan(c, k, 1);
  }

  lemma PrefetchStep(c: Config, s: State, k: nat)
    requires Place(c, k, 1) && WellFormed(c, s) && s.cache == map[] && c.g.ChunkFits(|s.disk|, c.g.ChunkLba(k))
    ensures Step(c, s, Prefetch(k, 1), s.(cache := ChunkOnly(c, s.disk, k)))
    ensures WellFormed(c, s.(cache := ChunkOnly(c, s.disk, k)))
  {
  }

  /** Through the chunk as it was cached, a block shows what the medium held then. */
  lemma ThroughChunk(c: Config, disk: seq<byte>, now: seq<byte>, k: nat)
    requires Place(c, k, 1) && |disk| == |now| == c.Total() && c.g.ChunkFits(|disk|, c.g.ChunkLba(k))
    ensures var cache, at := ChunkOnly(c, disk, k), k * c.g.bs;
      && c.g.WellFormed(cache, |now|) && c.g.SpanFits(|now|, k, 1)
      && ReadThrough(c.g, now, cache, k, 1) == disk[at..at + c.g.bs]
  {
    PlaceSpan(c, k, 1);
    BlockInView(c.g, disk, now, c.g.ChunkLba(k), k, ChunkOnly(c, disk, k));
    OneBlockThrough(c.g, now, ChunkOnly(c, disk, k), k);
  }

  lemma OneBlockThrough(g: Geometry, disk: seq<byte>, kept: map<nat, seq<byte>>, k: nat)
    requires g.Valid() && g.WellFormed(kept, |disk|) && g.SpanFits(|disk|, k, 1)
    ensures 0 <= k * g.bs && k * g.bs + g.bs <= |disk|
    ensures ReadThrough(g, disk, kept, k, 1) == g.View(disk, kept)[k * g.bs..k * g.bs + g.bs]
  {
    SpanInside(g, |disk|, k, 1);
  }

  lemma BlockInView(g: Geometry, disk: seq<byte>, now: seq<byte>, d: nat, k: nat, cache: map<nat, seq<byte>>)
    requires g.Valid() && |disk| == |now| && g.IsChunk(d) && d <= k < d + g.cb && g.ChunkFits(|disk|, d)
    requires cache == map[d := g.ChunkBytes(disk, d)] && 0 <= k * g.bs && k * g.bs + g.bs <= |disk|
    ensures g.View(now, cache)[k * g.bs..k * g.bs + g.bs] == disk[k * g.bs..k * g.bs + g.bs]
  {
    g.ViewOfChunk(now, cache, d);
    BlockOfChunk(g, g.View(now, cache), disk, d, k);
  }

  lemma BlockOfChunk(g: Geometry, v: seq<byte>, w: seq<byte>, d: nat, k: nat)
    requires |v| == |w| && d <= k < d + g.cb && g.ChunkFits(|v|, d) && g.ChunkBytes(v, d) == g.ChunkBytes(w, d)
    ensures 0 <= k * g.bs && k * g.bs + g.bs <= |v|
    ensures v[k * g.bs..k * g.bs + g.bs] == w[k * g.bs..k * g.bs + g.bs]
  {
    InChunk(g, d, k);
    SliceOfBoth(v, w, d * g.bs, d * g.bs + g.cb * g.bs, k * g.bs, k * g.bs + g.bs);
  }

  lemma InChunk(g: Geometry, d: nat, k: nat)
    requires d <= k < d + g.cb
    ensures 0 <= d * g.bs <= k * g.bs && k * g.bs + g.bs <= d * g.bs + g.cb * g.bs
  {
    MulMono(0, d, g.bs);
    MulMono(d, k, g.bs);
    MulMono(k + 1, d + g.cb, g.bs);
    MulSucc(k, g.bs);
    g.ChunkEnd(d);
  }

  lemma SliceOfBoth(v: seq<byte>, w: seq<byte>, a: nat, b: nat, x: nat, y: nat)
    requires |v| == |w| && a <= x <= y <= b <= |v| && v[a..b] == w[a..b]
    ensures v[x..y] == w[x..y]
  {
    SubSlice(v, a, b, x - a, y - a);
    SubSlice(w, a, b, x - a, y - a);
  }

  lemma CachedStep(c: Config, disk: seq<byte>, now: seq<byte>, k: nat)
    requires Place(c, k, 1) && |disk| == |now| == c.Total() && c.g.ChunkFits(|disk|, c.g.ChunkLba(k))
    ensures ReadsAs(c, Start(now).(cache := ChunkOnly(c, disk, k)), k, 1, disk[k * c.g.bs..k * c.g.bs + c.g.bs])
  {
    var s, at := Start(now).(cache := ChunkOnly(c, disk, k)), k * c.g.bs;
    BlockRange(k, 1, c.g.bs);
    ThroughChunk(c, disk, now, k);
    var data := disk[at..at + c.g.bs];
    assert data[0..c.g.bs] == data;
    assert RangeRead(c, s, Range(k, 1, 0), c.g.bs, s.cache, Some(data), s);
    assert ReadWith(c, s, at, c.g.bs, s.cache, Some(data), s);
  }

  lemma PrefetchedDirty(c: Config, disk: seq<byte>, k: nat, x: seq<byte>)
    requires Place(c, k, 1) && |disk| == c.Total() && c.g.bs < c.coalesceMax && |x| == c.g.bs
    requires c.g.ChunkFits(|disk|, c.g.ChunkLba(k))
    ensures Reached(c, disk, [Writing(c, k, x), Prefetch(k, 1)], Buffering(disk, k, 1, x).(cache := ChunkOnly(c, disk, k)),
                    Splice(disk, k * c.g.bs, x))
  {
    var s, flat := Buffering(disk, k, 1, x), Splice(disk, k * c.g.bs, x);
    FirstWrite(c, disk, k, 1, x);
    PrefetchStep(c, s, k);
    ReachedNext(c, disk, [Writing(c, k, x)], s, flat, Prefetch(k, 1), s.(cache := ChunkOnly(c, disk, k)));
    assert [Writing(c, k, x)] + [Prefetch(k, 1)] == [Writing(c, k, x), Prefetch(k, 1)];
  }

  lemma FlushedStale(c: Config, disk: seq<byte>, k: nat, x: seq<byte>)
    requires Place(c, k, 1) && |disk| == c.Total() && c.g.bs < c.coalesceMax && |x| == c.g.bs
    requires c.g.ChunkFits(|disk|, c.g.ChunkLba(k))
    ensures var flat := Splice(disk, k * c.g.bs, x);
      Reached(c, disk, [Writing(c, k, x), Prefetch(k, 1), Flush], Start(flat).(cache := ChunkOnly(c, disk, k)), flat)
  {
    var s, flat := Buffering(disk, k, 1, x).(cache := ChunkOnly(c, disk, k)), Splice(disk, k * c.g.bs, x);
    var events := [Writing(c, k, x), Prefetch(k, 1)];
    PrefetchedDirty(c, disk, k, x);
    OneEntryImage(c.g.bs, disk, k, 1, x);
    FlushStep(c, s, flat);
    ReachedNext(c, disk, events, s, flat, Flush, Start(flat).(cache := ChunkOnly(c, disk, k)));
    assert events + [Flush] == [Writing(c, k, x), Prefetch(k, 1), Flush];
  }

  /** A write of a block is buffered, its chunk is prefetched, and after the flush what was there before is read. */
  lemma StaleReadAfterFlush(c: Config, disk: seq<byte>, k: nat, x: seq<byte>, was: seq<byte>)
    requires Place(c, k, 1) && |disk| == c.Total() && c.g.bs < c.coalesceMax && |x| == c.g.bs
    requires was == disk[k * c.g.bs..k * c.g.bs + c.g.bs] && x != was
    ensures AnswersWrong(c, disk, [Writing(c, k, x), Prefetch(k, 1), Flush, Reading(c, k, 1, was)])
  {
    var flat := Splice(disk, k * c.g.bs, x);
    PlaceChunk(c, k);
    FlushedStale(c, disk, k, x);
    CachedStep(c, disk, flat, k);
    FrontDiffers(disk, k * c.g.bs, x, was);
    WrongAnswer(c, disk, [Writing(c, k, x), Prefetch(k, 1), Flush], Start(flat).(cache := ChunkOnly(c, disk, k)), flat,
                k, 1, was, [Writing(c, k, x), Prefetch(k, 1), Flush, Reading(c, k, 1, was)]);
  }
}
