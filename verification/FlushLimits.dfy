/** What coalescing can lose: which writes come out right after the flush, and which flushes leave the cache right. */
module FlushLimits {
  import opened Arithmetic
  import opened Bytes
  import opened Cache
  import opened DirtyMap
  import opened Overlay
  import opened Pipeline
  import opened Wrappers
  import opened BlockSpec
  import opened BlockRefinement
  import opened BlockLimits

  // -- Some flush there is ---------------------------------------------------

  lemma {:induction false} GreatestKey(m: Entries) returns (k: nat)
    requires m != map[]
    ensures k in m && forall j :: j in m ==> j <= k
    decreases |m|
  {
    k :| k in m;
    var rest := m - {k};
    assert forall j :: j in m ==> j == k || j in rest;
    if rest != map[] {
      var g := GreatestKey(rest);
      k := if g < k then k else g;
    }
  }

  lemma {:induction false} SomeDrain(m: Entries) returns (items: seq<Extent>)
    ensures IsDrain(items, m)
    decreases |m|
  {
    items := [];
    if m != map[] {
      var k := GreatestKey(m);
      items := SomeDrain(m - {k});
      DrainSnoc(items, m - {k}, k, m[k]);
      items := items + [Extent(k, m[k].data)];
      assert (m - {k})[k := m[k]] == m;
    }
  }

  /** The entries drained and their commands completing in this order make a flush. */
  lemma FlushInOrder(c: Config, s: State, items: seq<Extent>, order: seq<nat>) returns (s2: State)
    requires c.Valid() && WellFormed(c, s) && s.dirty != map[]
    requires IsDrain(items, s.dirty) && IsOrder(order, |AllJobs(c, items)|)
    ensures Fit(Reordered(AllJobs(c, items), order), |s.disk|)
    ensures s2 == s.(disk := ApplyAll(s.disk, Reordered(AllJobs(c, items), order)), dirty := map[])
    ensures Flushed(c, s, s2)
  {
    DrainFits(c, s, items);
    FitReordered(AllJobs(c, items), order, |s.disk|);
    s2 := s.(disk := ApplyAll(s.disk, Reordered(AllJobs(c, items), order)), dirty := map[]);
    assert FlushWith(c, s, items, order, s2);
  }

  lemma SomeFlush(c: Config, s: State) returns (s2: State)
    requires c.Valid() && WellFormed(c, s)
    ensures Flushed(c, s, s2) && s2.dirty == map[]
  {
    s2 := s;
    if s.dirty != map[] {
      var items := SomeDrain(s.dirty);
      s2 := FlushInOrder(c, s, items, InSequence(|AllJobs(c, items)|));
    }
  }

  // -- The commands of one entry ---------------------------------------------

  /** The patch carries what the entry holds of byte `a`. */
  ghost predicate Carries(p: Patch, bs: nat, e: Extent, a: nat) {
    && p.Covers(a)
    && e.lba * bs <= a < e.lba * bs + |e.data|
    && p.data[a - p.at] == e.data[a - e.lba * bs]
  }

  /** A byte string that holds the entry at its place. */
  ghost function Placed(bs: nat, e: Extent): (image: seq<byte>)
    ensures Holds(image, e.lba * bs, e.data, 0, |e.data|)
  {
    Zeros(e.lba * bs) + e.data
  }

  ghost function JobsOf(c: Config, e: Extent): seq<Patch>
    requires c.Valid()
  {
    Jobs(c.g.bs, e.lba, WholeBlocks(|e.data|, c.g.bs), e.data, 0, c.maxBlocks)
  }

  /** Short entries of whole blocks. */
  ghost predicate IsWhole(bs: nat, e: Extent)
    requires bs > 0
  {
    |e.data| < 0x1_0000_0000 && |e.data| % bs == 0
  }

  lemma PlacedSlice(bs: nat, e: Extent, p: Patch, a: nat)
    requires p.SliceOf(Placed(bs, e)) && p.Covers(a) && e.lba * bs <= a
    ensures Carries(p, bs, e, a)
  {
    assert p.data[a - p.at] == Placed(bs, e)[a];
  }

  lemma OneEntry(c: Config, e: Extent, a: nat)
    requires c.Valid() && IsWhole(c.g.bs, e)
    ensures forall p :: p in JobsOf(c, e) && p.Covers(a) ==> Carries(p, c.g.bs, e, a)
    ensures e.lba * c.g.bs <= a < e.lba * c.g.bs + |e.data| ==> Covered(JobsOf(c, e), a)
  {
    WholeBlocksExactIff(|e.data|, c.g.bs);
    var n, jobs := WholeBlocks(|e.data|, c.g.bs), JobsOf(c, e);
    JobsAreSlices(c.g.bs, e.lba, n, e.data, 0, c.maxBlocks, Placed(c.g.bs, e));
    forall p | p in jobs && p.Covers(a)
      ensures Carries(p, c.g.bs, e, a)
    {
      var i :| 0 <= i < |jobs| && jobs[i] == p;
      assert Covered(jobs, a);
      PlacedSlice(c.g.bs, e, p, a);
    }
  }

  lemma AllJobsSnoc(c: Config, items: seq<Extent>)
    requires c.Valid() && items != []
    ensures AllJobs(c, items) == AllJobs(c, items[..|items| - 1]) + JobsOf(c, items[|items| - 1])
  {
  }

  /** Each entry that holds byte `a` has a command that carries it. */
  lemma {:induction false} JobForItem(c: Config, items: seq<Extent>, i: nat, a: nat) returns (j: nat)
    requires c.Valid() && i < |items| && IsWhole(c.g.bs, items[i])
    requires items[i].lba * c.g.bs <= a < items[i].lba * c.g.bs + |items[i].data|
    ensures j < |AllJobs(c, items)| && Carries(AllJobs(c, items)[j], c.g.bs, items[i], a)
  {
    var last := |items| - 1;
    AllJobsSnoc(c, items);
    if i < last {
      j := JobForItem(c, items[..last], i, a);
    } else {
      OneEntry(c, items[last], a);
      var k :| 0 <= k < |JobsOf(c, items[last])| && JobsOf(c, items[last])[k].Covers(a);
      j := |AllJobs(c, items[..last])| + k;
      assert JobsOf(c, items[last])[k] in JobsOf(c, items[last]);
    }
  }

  /** A command that covers byte `a` carries what some entry holds of it. */
  lemma {:induction false} ItemForJob(c: Config, items: seq<Extent>, p: Patch, a: nat) returns (i: nat)
    requires c.Valid() && p in AllJobs(c, items) && p.Covers(a)
    requires forall k :: 0 <= k < |items| ==> IsWhole(c.g.bs, items[k])
    ensures i < |items| && Carries(p, c.g.bs, items[i], a)
  {
    var last := |items| - 1;
    AllJobsSnoc(c, items);
    if p in AllJobs(c, items[..last]) {
      i := ItemForJob(c, items[..last], p, a);
    } else {
      OneEntry(c, items[last], a);
      i := last;
    }
  }

  // -- What a flush makes of one byte ----------------------------------------

  ghost predicate AllWhole(bs: nat, dirty: Entries)
    requires bs > 0
  {
    forall k :: k in dirty ==> |dirty[k].data| < 0x1_0000_0000 && |dirty[k].data| % bs == 0
  }

  /** Any command can be the last to complete. */
  lemma FlushEndingAt(c: Config, s: State, items: seq<Extent>, j: nat, a: nat) returns (s2: State)
    requires c.Valid() && WellFormed(c, s) && s.dirty != map[] && IsDrain(items, s.dirty)
    requires j < |AllJobs(c, items)| && AllJobs(c, items)[j].Covers(a)
    ensures Flushed(c, s, s2) && s2.dirty == map[] && a < |s2.disk| == |s.disk|
    ensures s2.disk[a] == AllJobs(c, items)[j].data[a - AllJobs(c, items)[j].at]
  {
    var jobs := AllJobs(c, items);
    DrainFits(c, s, items);
    var b := MovedByte(s.disk, jobs, j, a);
    s2 := FlushInOrder(c, s, items, MovedLast(|jobs|, j));
  }

  lemma ItemOf(items: seq<Extent>, m: Entries, k: nat) returns (i: nat)
    requires IsDrain(items, m) && k in m
    ensures i < |items| && items[i] == Extent(k, m[k].data)
  {
    assert Listed(items, k);
    i :| 0 <= i < |items| && items[i].lba == k;
  }

  /** The command that brings an entry's byte. */
  lemma JobOfEntry(c: Config, dirty: Entries, items: seq<Extent>, k: nat, a: nat) returns (j: nat)
    requires c.Valid() && AllWhole(c.g.bs, dirty) && Has(c.g.bs, dirty, k, a) && IsDrain(items, dirty)
    ensures j < |AllJobs(c, items)| && AllJobs(c, items)[j].Covers(a)
    ensures AllJobs(c, items)[j].data[a - AllJobs(c, items)[j].at] == dirty[k].data[a - k * c.g.bs]
  {
    var i := ItemOf(items, dirty, k);
    j := JobForItem(c, items, i, a);
  }

  /** Any entry that holds a byte can be the last to reach it. */
  lemma FlushEndingWith(c: Config, s: State, k: nat, a: nat) returns (s2: State)
    requires c.Valid() && WellFormed(c, s) && AllWhole(c.g.bs, s.dirty)
    requires Has(c.g.bs, s.dirty, k, a)
    ensures Flushed(c, s, s2) && s2.dirty == map[] && a < |s2.disk| == |s.disk|
    ensures s2.disk[a] == s.dirty[k].data[a - k * c.g.bs]
  {
    var items := SomeDrain(s.dirty);
    var j := JobOfEntry(c, s.dirty, items, k, a);
    s2 := FlushEndingAt(c, s, items, j, a);
  }

  /** A byte that no entry would change stays, whatever the order. */
  lemma FlushKeepsByte(c: Config, s: State, s2: State, a: nat)
    requires c.Valid() && WellFormed(c, s) && AllWhole(c.g.bs, s.dirty) && Flushed(c, s, s2) && a < |s.disk|
    requires forall k: nat :: Has(c.g.bs, s.dirty, k, a) ==> s.dirty[k].data[a - k * c.g.bs] == s.disk[a]
    ensures |s2.disk| == |s.disk| && s2.disk[a] == s.disk[a]
  {
    if s.dirty != map[] {
      var items: seq<Extent>, order: seq<nat> :| FlushWith(c, s, items, order, s2);
      var jobs := AllJobs(c, items);
      forall p | p in jobs && p.Covers(a)
        ensures p.data[a - p.at] == s.disk[a]
      {
        var i := ItemForJob(c, items, p, a);
        assert Has(c.g.bs, s.dirty, items[i].lba, a);
      }
      SteadyByte(s.disk, Reordered(jobs, order), a, s.disk[a]);
    }
  }

  // -- Without the cache -----------------------------------------------------

  ghost function NoCache(s: State): State {
    s.(cache := map[])
  }

  lemma FlushedNoCache(c: Config, s: State, s2: State)
    requires c.Valid() && Flushed(c, s, s2)
    ensures Flushed(c, NoCache(s), NoCache(s2)) && s2.cache == s.cache
  {
    if s.dirty != map[] {
      var items: seq<Extent>, order: seq<nat> :| FlushWith(c, s, items, order, s2);
      assert FlushWith(c, NoCache(s), items, order, NoCache(s2));
    }
  }

  lemma NoCacheInv(c: Config, s: State, flat: seq<byte>)
    requires c.Valid() && WellFormed(c, s) && Laid(c.g.bs, s.dirty, |s.disk|) && IsImage(c.g.bs, s.disk, s.dirty, flat)
    ensures Inv(c, NoCache(s), flat)
  {
  }

  /** With disjoint short entries a flush makes the medium their image, whatever the cache holds. */
  lemma FlushIsImage(c: Config, s: State, flat: seq<byte>, s2: State)
    requires c.Valid() && WellFormed(c, s) && Laid(c.g.bs, s.dirty, |s.disk|) && IsImage(c.g.bs, s.disk, s.dirty, flat)
    requires Flushed(c, s, s2)
    ensures s2.disk == flat && s2.cache == s.cache
  {
    NoCacheInv(c, s, flat);
    FlushedNoCache(c, s, s2);
    FlushReachesImage(c, NoCache(s), flat, NoCache(s2));
  }

  // -- When a write comes out right ------------------------------------------

  /** However the write's own flush, if it makes one, and the next flush go, the medium is then the flat device
      with the write. */
  ghost predicate WriteRight(c: Config, s: State, flat: seq<byte>, offset: nat, d: seq<byte>)
    requires c.Valid() && WellFormed(c, s)
  {
    forall reply: Option<nat>, s1: State, s2: State ::
      Wrote(c, s, offset, d, reply, s1) && Flushed(c, s1, s2) ==> s2.disk == FlatWrite(flat, offset, d)
  }

  /** Whatever the medium, the cache, the dirty entries and the write hold. */
  ghost predicate AlwaysWriteRight(c: Config, dirty: Entries, offset: nat, len: nat)
    requires c.Valid()
  {
    forall s: State, flat: seq<byte>, d: seq<byte> ::
      WellFormed(c, s) && SameShape(dirty, s.dirty) && IsImage(c.g.bs, s.disk, s.dirty, flat) && |d| == len ==>
        WriteRight(c, s, flat, offset, d)
  }

  /** Bytes inside the device, on blocks of less than 2^32 bytes together. */
  ghost predicate ShortWrite(c: Config, offset: nat, len: nat)
    requires c.Valid()
  {
    && len > 0
    && offset + len <= c.Total()
    && EndBlock(offset, len, c.g.bs) * c.g.bs - offset / c.g.bs * c.g.bs < 0x1_0000_0000
  }

  /** Flushed at once or later, a buffer that is an image reaches the medium. */
  lemma FlushedSoonOrLater(c: Config, b: State, flat: seq<byte>, s1: State, s2: State)
    requires c.Valid() && Inv(c, NoCache(b), flat) && (s1 == b || Flushed(c, b, s1)) && Flushed(c, s1, s2)
    ensures s2.disk == flat
  {
    if s1 == b {
      FlushedNoCache(c, b, s2);
      FlushReachesImage(c, NoCache(b), flat, NoCache(s2));
    } else {
      FlushedNoCache(c, b, s1);
      FlushReachesImage(c, NoCache(b), flat, NoCache(s1));
    }
  }

  lemma SafeWriteIsRight(c: Config, s: State, flat: seq<byte>, offset: nat, d: seq<byte>, reply: Option<nat>,
                         s1: State, s2: State)
    requires c.Valid() && WellFormed(c, s) && Laid(c.g.bs, s.dirty, c.Total()) && IsImage(c.g.bs, s.disk, s.dirty, flat)
    requires ShortWrite(c, offset, |d|) && WriteSafe(c.g.bs, s.dirty, offset, |d|)
    requires Wrote(c, s, offset, d, reply, s1) && Flushed(c, s1, s2)
    ensures s2.disk == FlatWrite(flat, offset, d)
  {
    NoCacheInv(c, s, flat);
    BufferKeeps(c, NoCache(s), flat, offset, d);
    var r, wd := ComputeAlignment(offset, |d|, c.g.bs), WriteData(c, s, offset, d).value;
    assert d[..|d|] == d;
    WroteBuffered(c, s, offset, d, d, r, wd, reply, s1);
    BufferedNoCache(c, s, r, wd);
    FlushedSoonOrLater(c, Buffered(c, s, r, wd), Splice(flat, offset, d), s1, s2);
  }

  lemma BufferedNoCache(c: Config, s: State, r: Range, wd: seq<byte>)
    requires c.Valid()
    ensures Buffered(c, NoCache(s), r, wd) == NoCache(Buffered(c, s, r, wd))
  {
    assert Without(c.g, map[], r.start, r.count) == map[];
  }

  /** In sync mode, what is buffered is flushed at once. */
  lemma BufferedWrote(c: Config, s: State, offset: nat, data: seq<byte>, d: seq<byte>, r: Range, wd: seq<byte>, s1: State)
    requires c.Valid() && WellFormed(c, s) && s.sync && data != [] && offset < c.Total()
    requires d == data[..Min(|data|, c.Total() - offset)] && r == ComputeAlignment(offset, |d|, c.g.bs)
    requires WriteData(c, s, offset, d) == Some(wd) && Flushed(c, Buffered(c, s, r, wd), s1)
    ensures Wrote(c, s, offset, data, Some(|d| % 0x1_0000_0000), s1)
  {
  }

  lemma SyncWrote(c: Config, s: State, offset: nat, d: seq<byte>, r: Range, wd: seq<byte>, s1: State)
    requires c.Valid() && WellFormed(c, s) && s.sync && d != [] && offset + |d| <= c.Total() && |d| < 0x1_0000_0000
    requires r == ComputeAlignment(offset, |d|, c.g.bs) && WriteData(c, s, offset, d) == Some(wd)
    requires Flushed(c, Buffered(c, s, r, wd), s1)
    ensures Wrote(c, s, offset, d, Some(|d|), s1)
  {
    assert d[..|d|] == d;
    LowBitsOf(|d|);
    BufferedWrote(c, s, offset, d, d, r, wd, s1);
  }

  /** The state of a sync-mode worker with an empty cache over a medium of zeros. */
  ghost function ZeroState(c: Config, dirty: Entries): State
    requires c.Valid()
  {
    State(Zeros(c.Total()), map[], dirty, true)
  }

  /** The same with a write of zeros buffered. */
  ghost function ZeroBuffered(c: Config, dirty: Entries, r: Range): State
    requires c.Valid()
  {
    ZeroState(c, dirty[r.start := Entry(Zeros(r.count * c.g.bs), r.count)])
  }

  lemma ZeroData(c: Config, dirty: Entries, offset: nat, len: nat)
    requires c.Valid() && ShortWrite(c, offset, len)
    ensures var r := ComputeAlignment(offset, len, c.g.bs);
      && WriteData(c, ZeroState(c, dirty), offset, Zeros(len)) == Some(Zeros(r.count * c.g.bs))
      && r.count * c.g.bs < 0x1_0000_0000
  {
    var bs, r := c.g.bs, ComputeAlignment(offset, len, c.g.bs);
    ShortRange(offset / bs, EndBlock(offset, len, bs), bs);
    RangeHolds(offset, len, bs);
    InsideTotal(c, offset, len);
    assert (r.start + r.count) * bs == r.start * bs + r.count * bs;
    ZerosOverlaid(bs, c.Total(), offset, len);
  }

  lemma ZeroWellFormed(c: Config, dirty: Entries, offset: nat, len: nat)
    requires c.Valid() && ShortWrite(c, offset, len) && Laid(c.g.bs, dirty, c.Total())
    ensures var b := ZeroBuffered(c, dirty, ComputeAlignment(offset, len, c.g.bs));
      && WellFormed(c, ZeroState(c, dirty)) && WellFormed(c, b) && AllWhole(c.g.bs, b.dirty)
      && var r := ComputeAlignment(offset, len, c.g.bs);
         b == Buffered(c, ZeroState(c, dirty), r, Zeros(r.count * c.g.bs))
  {
    var r, s := ComputeAlignment(offset, len, c.g.bs), ZeroState(c, dirty);
    ZeroData(c, dirty, offset, len);
    BufferedIsWellFormed(c, s, offset, Zeros(len));
    assert Without(c.g, s.cache, r.start, r.count) == map[];
    WholeWithNew(c.g.bs, dirty, r.start, r.count, c.Total());
  }

  /** In sync mode, a write of zeros over zeros ends as any flush of the zeros buffered does. */
  lemma ZeroWrote(c: Config, dirty: Entries, offset: nat, len: nat, s1: State)
    requires c.Valid() && ShortWrite(c, offset, len) && Laid(c.g.bs, dirty, c.Total())
    requires WellFormed(c, ZeroState(c, dirty))
    requires Flushed(c, ZeroBuffered(c, dirty, ComputeAlignment(offset, len, c.g.bs)), s1)
    ensures Wrote(c, ZeroState(c, dirty), offset, Zeros(len), Some(len), s1)
  {
    ZeroWellFormed(c, dirty, offset, len);
    ZeroData(c, dirty, offset, len);
    LengthIsShort(offset, len, c.g.bs);
    var r := ComputeAlignment(offset, len, c.g.bs);
    SyncWrote(c, ZeroState(c, dirty), offset, Zeros(len), r, Zeros(r.count * c.g.bs), s1);
  }

  lemma ZerosOverlaid(bs: nat, total: nat, offset: nat, len: nat)
    requires bs > 0 && len > 0 && EndBlock(offset, len, bs) - offset / bs < 0x1_0000_0000
    requires var r := ComputeAlignment(offset, len, bs);
      r.start * bs + r.count * bs <= total
    ensures var r := ComputeAlignment(offset, len, bs);
      Overlaid(bs, Zeros(total), r, Zeros(len)) == Some(Zeros(r.count * bs))
  {
    var r := ComputeAlignment(offset, len, bs);
    RangeHolds(offset, len, bs);
    if r.skip == 0 && len % bs == 0 {
      AlignedRange(offset, len, bs);
    } else {
      var at, n := r.start * bs, r.count * bs;
      assert Zeros(total)[at..at + n] == Zeros(n);
      assert Splice(Zeros(n), r.skip, Zeros(len)) == Zeros(n);
    }
  }

  lemma WholeWithNew(bs: nat, dirty: Entries, start: nat, count: nat, n: nat)
    requires bs > 0 && Laid(bs, dirty, n) && count * bs < 0x1_0000_0000
    ensures AllWhole(bs, dirty[start := Entry(Zeros(count * bs), count)])
  {
    forall k | k in dirty
      ensures |dirty[k].data| % bs == 0
    {
      ModOfMultiple(dirty[k].count, bs);
    }
    ModOfMultiple(count, bs);
  }

  /** A write of zeros that ends with a wrong byte. */
  lemma NotRight(c: Config, dirty: Entries, other: Entries, flat: seq<byte>, offset: nat, len: nat, s1: State, a: nat)
    requires c.Valid() && ShortWrite(c, offset, len) && Laid(c.g.bs, other, c.Total()) && SameShape(dirty, other)
    requires WellFormed(c, ZeroState(c, other)) && IsImage(c.g.bs, Zeros(c.Total()), other, flat)
    requires Flushed(c, ZeroBuffered(c, other, ComputeAlignment(offset, len, c.g.bs)), s1) && s1.dirty == map[]
    requires a < |flat| == |s1.disk| && s1.disk[a] != if offset <= a < offset + len then 0 else flat[a]
    ensures !AlwaysWriteRight(c, dirty, offset, len)
  {
    ZeroWrote(c, other, offset, len, s1);
    FlatZeros(flat, offset, len, a);
    assert Flushed(c, s1, s1);
    assert !WriteRight(c, ZeroState(c, other), flat, offset, Zeros(len));
  }

  /** The entry and the written blocks share a byte. */
  lemma MeetingByte(bs: nat, dirty: Entries, r: Range, k: nat, n: nat) returns (a: nat)
    requires bs > 0 && Laid(bs, dirty, n) && k in dirty && k != r.start
    requires r.count > 0 && k < r.start + r.count && r.start < k + dirty[k].count
    ensures var e := Entry(Zeros(r.count * bs), r.count);
      Has(bs, dirty, k, a) && Has(bs, dirty[r.start := e], k, a) && Has(bs, dirty[r.start := e], r.start, a)
  {
    a := SharedByte(bs, r.start, r.count, k, dirty[k].count);
  }

  /** An entry that starts elsewhere and meets the written blocks: a byte both hold goes to whichever command
      completes last, and the wrong one can. */
  lemma MeetingEntriesRace(c: Config, dirty: Entries, offset: nat, len: nat, k: nat)
    requires c.Valid() && ShortWrite(c, offset, len) && Laid(c.g.bs, dirty, c.Total())
    requires k in dirty && k != offset / c.g.bs
    requires k < EndBlock(offset, len, c.g.bs) && offset / c.g.bs < k + dirty[k].count
    ensures !AlwaysWriteRight(c, dirty, offset, len)
  {
    var bs, r := c.g.bs, ComputeAlignment(offset, len, c.g.bs);
    ShortRange(offset / bs, EndBlock(offset, len, bs), bs);
    RangeHolds(offset, len, bs);
    var other := Filled(dirty, k, 1);
    SameShapeLaid(bs, dirty, other, c.Total());
    var a := MeetingByte(bs, other, r, k, c.Total());
    RaceAt(c, dirty, other, offset, len, k, a);
  }

  lemma RaceAt(c: Config, dirty: Entries, other: Entries, offset: nat, len: nat, k: nat, a: nat)
    requires c.Valid() && ShortWrite(c, offset, len) && Laid(c.g.bs, other, c.Total()) && SameShape(dirty, other)
    requires Has(c.g.bs, other, k, a) && other[k].data[a - k * c.g.bs] == 1
    requires var r := ComputeAlignment(offset, len, c.g.bs);
      var b := ZeroBuffered(c, other, r);
      k != r.start && Has(c.g.bs, b.dirty, k, a) && Has(c.g.bs, b.dirty, r.start, a)
    ensures !AlwaysWriteRight(c, dirty, offset, len)
  {
    ZeroWellFormed(c, other, offset, len);
    var s1 := RaceEnding(c, other, ComputeAlignment(offset, len, c.g.bs), k, a, offset <= a < offset + len);
    RaceShown(c, dirty, other, offset, len, k, a, s1);
  }

  lemma RaceShown(c: Config, dirty: Entries, other: Entries, offset: nat, len: nat, k: nat, a: nat, s1: State)
    requires c.Valid() && ShortWrite(c, offset, len) && Laid(c.g.bs, other, c.Total()) && SameShape(dirty, other)
    requires Has(c.g.bs, other, k, a) && other[k].data[a - k * c.g.bs] == 1 && WellFormed(c, ZeroState(c, other))
    requires Flushed(c, ZeroBuffered(c, other, ComputeAlignment(offset, len, c.g.bs)), s1) && s1.dirty == map[]
    requires a < |s1.disk| == c.Total() && s1.disk[a] == if offset <= a < offset + len then 1 else 0
    ensures !AlwaysWriteRight(c, dirty, offset, len)
  {
    var flat := ImageWith(c.g.bs, Zeros(c.Total()), other, k, a);
    NotRight(c, dirty, other, flat, offset, len, s1, a);
  }

  /** A byte that the old entry and the new one hold ends as the one's or as the other's. */
  lemma RaceEnding(c: Config, dirty: Entries, r: Range, k: nat, a: nat, older: bool) returns (s1: State)
    requires c.Valid() && k != r.start && Has(c.g.bs, dirty, k, a) && dirty[k].data[a - k * c.g.bs] == 1
    requires var b := ZeroBuffered(c, dirty, r);
      WellFormed(c, b) && AllWhole(c.g.bs, b.dirty) && Has(c.g.bs, b.dirty, k, a) && Has(c.g.bs, b.dirty, r.start, a)
    ensures Flushed(c, ZeroBuffered(c, dirty, r), s1) && s1.dirty == map[]
    ensures a < |s1.disk| == c.Total() && s1.disk[a] == if older then 1 else 0
  {
    var b := ZeroBuffered(c, dirty, r);
    if older {
      s1 := FlushEndingWith(c, b, k, a);
    } else {
      s1 := FlushEndingWith(c, b, r.start, a);
    }
  }

  lemma ImageWith(bs: nat, disk: seq<byte>, dirty: Entries, k: nat, a: nat) returns (flat: seq<byte>)
    requires bs > 0 && Laid(bs, dirty, |disk|) && Has(bs, dirty, k, a)
    ensures IsImage(bs, disk, dirty, flat) && a < |flat| && flat[a] == dirty[k].data[a - k * bs]
  {
    flat := ImageOf(bs, disk, dirty);
    ImageHasByte(bs, disk, dirty, flat, k, a);
  }

  lemma FlatZeros(flat: seq<byte>, offset: nat, len: nat, a: nat)
    requires offset + len <= |flat| && len > 0 && a < |flat|
    ensures FlatWrite(flat, offset, Zeros(len))[a] == if offset <= a < offset + len then 0 else flat[a]
  {
    assert Zeros(len)[..len] == Zeros(len);
  }

  /** A byte of the replaced entry that the write does not carry falls back to the medium's. */
  lemma ReplacedByteIsLost(c: Config, dirty: Entries, offset: nat, len: nat, a: nat)
    requires c.Valid() && ShortWrite(c, offset, len) && Laid(c.g.bs, dirty, c.Total())
    requires Has(c.g.bs, dirty, offset / c.g.bs, a) && 0 <= a < c.Total() && !(offset <= a < offset + len)
    ensures !AlwaysWriteRight(c, dirty, offset, len)
  {
    var bs, start := c.g.bs, offset / c.g.bs;
    var other, flat := ByteChanged(bs, Zeros(c.Total()), dirty, start, a);
    LostAt(c, dirty, other, flat, offset, len, a);
  }

  lemma LostAt(c: Config, dirty: Entries, other: Entries, flat: seq<byte>, offset: nat, len: nat, a: nat)
    requires c.Valid() && ShortWrite(c, offset, len) && Laid(c.g.bs, other, c.Total()) && SameShape(dirty, other)
    requires IsImage(c.g.bs, Zeros(c.Total()), other, flat) && Has(c.g.bs, other, offset / c.g.bs, a)
    requires 0 <= a < |flat| && flat[a] != 0 && !(offset <= a < offset + len)
    ensures !AlwaysWriteRight(c, dirty, offset, len)
  {
    var r := ComputeAlignment(offset, len, c.g.bs);
    ZeroWellFormed(c, other, offset, len);
    var s1 := LostEnding(c, other, r, a);
    NotRight(c, dirty, other, flat, offset, len, s1, a);
  }

  /** A byte of a replaced entry ends as the medium's. */
  lemma LostEnding(c: Config, dirty: Entries, r: Range, a: nat) returns (s1: State)
    requires c.Valid() && Laid(c.g.bs, dirty, c.Total()) && Has(c.g.bs, dirty, r.start, a) && a < c.Total()
    requires WellFormed(c, ZeroBuffered(c, dirty, r)) && AllWhole(c.g.bs, ZeroBuffered(c, dirty, r).dirty)
    ensures Flushed(c, ZeroBuffered(c, dirty, r), s1) && s1.dirty == map[]
    ensures |s1.disk| == c.Total() && s1.disk[a] == 0
  {
    var b := ZeroBuffered(c, dirty, r);
    OnlyNewHas(c.g.bs, dirty, r.start, b.dirty[r.start], a, c.Total());
    s1 := SomeFlush(c, b);
    FlushKeepsByte(c, b, s1, a);
  }

  /** Of a byte that the replaced entry held, only the new one can hold anything, and that is zero. */
  lemma OnlyNewHas(bs: nat, dirty: Entries, start: nat, e: Entry, a: nat, n: nat)
    requires bs > 0 && Laid(bs, dirty, n) && Has(bs, dirty, start, a) && e.data == Zeros(|e.data|)
    ensures forall k: nat :: Has(bs, dirty[start := e], k, a) ==> dirty[start := e][k].data[a - k * bs] == 0
  {
    forall k: nat | Has(bs, dirty[start := e], k, a)
      ensures dirty[start := e][k].data[a - k * bs] == 0
    {
      if k != start {
        assert Has(bs, dirty, k, a);
        OnlyOneHas(bs, dirty, k, start, a);
      }
    }
  }

  lemma UnsafeGoesWrong(c: Config, dirty: Entries, offset: nat, len: nat, k: nat)
    requires c.Valid() && ShortWrite(c, offset, len) && Laid(c.g.bs, dirty, c.Total())
    requires var bs, start, end := c.g.bs, offset / c.g.bs, EndBlock(offset, len, c.g.bs);
      && k in dirty && k < end && start < k + dirty[k].count
      && !(k == start && start * bs == offset && dirty[k].count * bs <= len)
    ensures !AlwaysWriteRight(c, dirty, offset, len)
  {
    if k != offset / c.g.bs {
      MeetingEntriesRace(c, dirty, offset, len, k);
    } else {
      var a := LeftoverByte(c.g.bs, dirty, offset, len, c.Total());
      ReplacedByteIsLost(c, dirty, offset, len, a);
    }
  }

  /** A replaced entry that is not overwritten whole has a byte that the write does not carry. */
  lemma LeftoverByte(bs: nat, dirty: Entries, offset: nat, len: nat, total: nat) returns (a: nat)
    requires bs > 0 && Laid(bs, dirty, total) && offset / bs in dirty
    requires !(offset / bs * bs == offset && dirty[offset / bs].count * bs <= len)
    ensures Has(bs, dirty, offset / bs, a) && a < total && !(offset <= a < offset + len)
  {
    var start := offset / bs;
    DivBounds(offset, bs);
    MulMono(1, dirty[start].count, bs);
    a := if start * bs != offset then start * bs else offset + len;
  }

  /** In coalescing mode a write comes out right after the flush, for all contents and every order in which write
      commands complete, exactly when it is safe: every dirty entry is apart from its blocks, or starts where
      its bytes start and is overwritten whole. */
  lemma WriteRightIff(c: Config, dirty: Entries, offset: nat, len: nat)
    requires c.Valid() && ShortWrite(c, offset, len) && Laid(c.g.bs, dirty, c.Total())
    ensures AlwaysWriteRight(c, dirty, offset, len) <==> WriteSafe(c.g.bs, dirty, offset, len)
  {
    if WriteSafe(c.g.bs, dirty, offset, len) {
      forall s: State, flat: seq<byte>, d: seq<byte>, reply: Option<nat>, s1: State, s2: State |
          && WellFormed(c, s) && SameShape(dirty, s.dirty) && IsImage(c.g.bs, s.disk, s.dirty, flat) && |d| == len
          && Wrote(c, s, offset, d, reply, s1) && Flushed(c, s1, s2)
        ensures s2.disk == FlatWrite(flat, offset, d)
      {
        SameShapeLaid(c.g.bs, dirty, s.dirty, c.Total());
        SafeWriteIsRight(c, s, flat, offset, d, reply, s1, s2);
      }
    } else {
      var k :| k in dirty && k < EndBlock(offset, len, c.g.bs) && offset / c.g.bs < k + dirty[k].count
        && !(k == offset / c.g.bs && offset / c.g.bs * c.g.bs == offset && dirty[k].count * c.g.bs <= len);
      UnsafeGoesWrong(c, dirty, offset, len, k);
    }
  }

  // -- When a flush leaves the cache right -----------------------------------

  /** Whatever the medium and the dirty entries hold and in whatever order the commands complete, a cache that
      agrees with the medium agrees with it after the flush. */
  ghost predicate FlushKeepsCoherence(c: Config, cache: map<nat, seq<byte>>, dirty: Entries)
    requires c.Valid()
  {
    forall s: State, s2: State ::
      && WellFormed(c, s) && s.cache == cache && SameShape(dirty, s.dirty) && c.g.Coherent(s.disk, cache)
      && Flushed(c, s, s2)
      ==> c.g.Coherent(s2.disk, s2.cache)
  }

  lemma FreshStaysCoherent(c: Config, s: State, s2: State)
    requires c.Valid() && WellFormed(c, s) && Laid(c.g.bs, s.dirty, |s.disk|) && c.g.Coherent(s.disk, s.cache)
    requires Fresh(c.g.cb, s.cache, s.dirty) && Flushed(c, s, s2)
    ensures c.g.Coherent(s2.disk, s2.cache)
  {
    var flat := ImageOf(c.g.bs, s.disk, s.dirty);
    assert Inv(c, s, flat);
    FlushReachesImage(c, s, flat, s2);
  }

  /** A medium that agrees with a given cache. */
  lemma SomeMedium(g: Geometry, n: nat, cache: map<nat, seq<byte>>) returns (disk: seq<byte>)
    requires g.Valid() && g.WellFormed(cache, n)
    ensures |disk| == n && g.Coherent(disk, cache)
  {
    disk := g.View(Zeros(n), cache);
    forall c | c in cache
      ensures cache[c] == g.ChunkBytes(disk, c)
    {
      g.ViewOfChunk(Zeros(n), cache, c);
    }
  }

  lemma ChunkByte(g: Geometry, disk: seq<byte>, cache: map<nat, seq<byte>>, d: nat, a: nat)
    requires g.Valid() && g.Coherent(disk, cache) && d in cache && d * g.bs <= a < d * g.bs + g.cb * g.bs
    ensures a < |disk| && disk[a] == cache[d][a - d * g.bs]
  {
    assert cache[d] == g.ChunkBytes(disk, d);
  }

  lemma StaleAfterFlush(c: Config, cache: map<nat, seq<byte>>, dirty: Entries, d: nat, k: nat)
    requires c.Valid() && c.g.WellFormed(cache, c.Total()) && Laid(c.g.bs, dirty, c.Total())
    requires d in cache && k in dirty && k < d + c.g.cb && d < k + dirty[k].count
    ensures !FlushKeepsCoherence(c, cache, dirty)
  {
    var disk := SomeMedium(c.g, c.Total(), cache);
    var a := SharedByte(c.g.bs, d, c.g.cb, k, dirty[k].count);
    ChunkByte(c.g, disk, cache, d, a);
    var other, flat := ByteChanged(c.g.bs, disk, dirty, k, a);
    FlushChanges(c, State(disk, cache, other, false), dirty, flat, d, a);
  }

  lemma FlushChanges(c: Config, s: State, dirty: Entries, flat: seq<byte>, d: nat, a: nat)
    requires c.Valid() && WellFormed(c, s) && Laid(c.g.bs, s.dirty, |s.disk|) && IsImage(c.g.bs, s.disk, s.dirty, flat)
    requires SameShape(dirty, s.dirty) && c.g.Coherent(s.disk, s.cache)
    requires d in s.cache && d * c.g.bs <= a < d * c.g.bs + c.g.cb * c.g.bs && a < |flat| && flat[a] != s.disk[a]
    ensures !FlushKeepsCoherence(c, s.cache, dirty)
  {
    var s2 := SomeFlush(c, s);
    FlushIsImage(c, s, flat, s2);
    NotCoherent(c.g, s.disk, flat, s.cache, d, a);
  }

  lemma NotCoherent(g: Geometry, disk: seq<byte>, flat: seq<byte>, cache: map<nat, seq<byte>>, d: nat, a: nat)
    requires g.Valid() && g.Coherent(disk, cache) && a < |flat| && a < |disk| && flat[a] != disk[a]
    requires d in cache && d * g.bs <= a < d * g.bs + g.cb * g.bs
    ensures !g.Coherent(flat, cache)
  {
    ChunkByte(g, disk, cache, d, a);
    if g.Coherent(flat, cache) {
      ChunkByte(g, flat, cache, d, a);
    }
  }

  /** The cache is invalidated when a write is buffered, not when it is flushed. The flush leaves it right, for
      all contents, exactly when no chunk was cached in between from blocks that a dirty entry meets. */
  lemma FlushKeepsCoherenceIff(c: Config, cache: map<nat, seq<byte>>, dirty: Entries)
    requires c.Valid() && c.g.WellFormed(cache, c.Total()) && Laid(c.g.bs, dirty, c.Total())
    ensures FlushKeepsCoherence(c, cache, dirty) <==> Fresh(c.g.cb, cache, dirty)
  {
    if Fresh(c.g.cb, cache, dirty) {
      forall s: State, s2: State |
          && WellFormed(c, s) && s.cache == cache && SameShape(dirty, s.dirty) && c.g.Coherent(s.disk, cache)
          && Flushed(c, s, s2)
        ensures c.g.Coherent(s2.disk, s2.cache)
      {
        SameShapeLaid(c.g.bs, dirty, s.dirty, c.Total());
        FreshStaysCoherent(c, s, s2);
      }
    } else {
      var d, k :| d in cache && k in dirty && k < d + c.g.cb && d < k + dirty[k].count;
      StaleAfterFlush(c, cache, dirty, d, k);
    }
  }

  /** Two block ranges that meet share a byte. */
  lemma SharedByte(bs: nat, d: nat, m: nat, k: nat, n: nat) returns (a: nat)
    requires bs > 0 && d < k + n && k < d + m && m > 0 && n > 0
    ensures d * bs <= a < d * bs + m * bs && k * bs <= a < k * bs + n * bs
  {
    var b := Max(k, d);
    a := b * bs;
    MulMono(d, b, bs);
    MulMono(k, b, bs);
    MulStrict(b, d + m, bs);
    MulStrict(b, k + n, bs);
    assert (k + n) * bs == k * bs + n * bs && (d + m) * bs == d * bs + m * bs;
  }
}
