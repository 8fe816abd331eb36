/** Splitting large transfers into burst-sized SCSI commands that complete in any order (iscsi/pipeline.rs). */
module Pipeline {
  import opened Arithmetic
  import opened Bytes
  import opened Overlay
  import opened Sealing
  import opened Sets
  import opened Wrappers

  datatype Chunk = Chunk(lba: nat, count: nat)

  function MaxReadBlocksFor(maxBurst: nat, bs: nat): (r: nat)
    ensures bs > 0 ==> r * bs <= maxBurst < (r + 1) * bs
  {
    if bs == 0 then 0
    else
      DivBounds(maxBurst, bs);
      maxBurst / bs
  }

  /** A burst holds whole blocks, so that the chunk loop moves on and ends, exactly when it is no shorter than one. */
  lemma BurstHoldsBlocksIff(maxBurst: nat, bs: nat)
    ensures MaxReadBlocksFor(maxBurst, bs) > 0 <==> 0 < bs <= maxBurst
  {
    if bs > 0 {
      var r := MaxReadBlocksFor(maxBurst, bs);
      if r > 0 {
        MulMono(1, r, bs);
      } else {
        MulMono(r + 1, 1, bs);
      }
    }
  }

  ghost function ChunkList(lba: nat, count: nat, max: nat): seq<Chunk>
    requires max > 0
    decreases count
  {
    if count == 0 then []
    else
      var c := Min(count, max);
      [Chunk(lba, c)] + ChunkList(lba + c, count - c, max)
  }

  /** `chunks` follow each other without gap or overlap from `lba` over `count` blocks. */
  ghost predicate Tiles(chunks: seq<Chunk>, lba: nat, count: nat) {
    if chunks == [] then count == 0
    else
      && chunks[0].lba == lba
      && chunks[0].count <= count
      && Tiles(chunks[1..], lba + chunks[0].count, count - chunks[0].count)
  }

  method ComputeReadChunks(startLba: nat, blockCount: nat, maxBlocks: nat) returns (chunks: seq<Chunk>)
    requires maxBlocks > 0
    ensures chunks == ChunkList(startLba, blockCount, maxBlocks)
  {
    chunks := [];
    var remaining, current := blockCount, startLba;
    while remaining > 0
      invariant remaining >= 0 && current >= 0
      invariant chunks + ChunkList(current, remaining, maxBlocks) == ChunkList(startLba, blockCount, maxBlocks)
    {
      var chunk := Min(remaining, maxBlocks);
      chunks := chunks + [Chunk(current, chunk)];
      current := current + chunk;
      remaining := remaining - chunk;
    }
  }

  /** The chunks tile the range, ceil(count/max) of them, all full except possibly the last. */
  lemma {:induction false} ChunkListTiles(lba: nat, count: nat, max: nat)
    requires max > 0
    ensures var chunks := ChunkList(lba, count, max);
      && Tiles(chunks, lba, count)
      && (|chunks| - 1) * max < count <= |chunks| * max
      && (forall i :: 0 <= i < |chunks| ==> 0 < chunks[i].count <= max)
      && (forall i :: 0 <= i < |chunks| - 1 ==> chunks[i].count == max)
    decreases count
  {
    if count > 0 {
      var c := Min(count, max);
      ChunkListTiles(lba + c, count - c, max);
    }
  }

  /** What one chunk moves never exceeds the negotiated burst. */
  lemma ChunksWithinBurst(lba: nat, count: nat, maxBurst: nat, bs: nat)
    requires bs > 0 && maxBurst >= bs
    ensures MaxReadBlocksFor(maxBurst, bs) > 0
    ensures var chunks := ChunkList(lba, count, MaxReadBlocksFor(maxBurst, bs));
      forall i :: 0 <= i < |chunks| ==> 0 < chunks[i].count * bs <= maxBurst
  {
    var max := MaxReadBlocksFor(maxBurst, bs);
    BurstHoldsBlocksIff(maxBurst, bs);
    ChunkListTiles(lba, count, max);
    var chunks := ChunkList(lba, count, max);
    forall i | 0 <= i < |chunks|
      ensures 0 < chunks[i].count * bs <= maxBurst
    {
      MulMono(chunks[i].count, max, bs);
      MulMono(1, chunks[i].count, bs);
    }
  }

  // -- Splitting a write -----------------------------------------------------

  /** How many whole blocks of `len` bytes a write command carries: the length is cut to 32 bits first. */
  function WholeBlocks(len: nat, bs: nat): (n: nat)
    requires bs > 0
    ensures n * bs <= len
  {
    var kept := len % 0x1_0000_0000;
    DivBounds(kept, bs);
    kept / bs
  }

  /** Nothing is cut off exactly when the data is whole blocks and fits 32 bits. */
  lemma WholeBlocksExactIff(len: nat, bs: nat)
    requires bs > 0
    ensures WholeBlocks(len, bs) * bs == len <==> len < 0x1_0000_0000 && len % bs == 0
  {
    DivBounds(len % 0x1_0000_0000, bs);
    DivBounds(len, bs);
  }

  /** The patches of the single-command writes that the `count` blocks at `offset` of `data` are split into. */
  ghost function Jobs(bs: nat, lba: nat, count: nat, data: seq<byte>, offset: nat, max: nat): (jobs: seq<Patch>)
    requires max > 0 && offset + count * bs <= |data|
    decreases count
  {
    if count == 0 then []
    else
      var c := Min(count, max);
      SplitProduct(c, count, bs);
      [Patch(lba * bs, data[offset..offset + c * bs])] + Jobs(bs, lba + c, count - c, data, offset + c * bs, max)
  }

  /** The first of the jobs left goes to the jobs done. */
  lemma NextJob(bs: nat, jobs: seq<Patch>, cur: nat, rem: nat, data: seq<byte>, offset: nat, max: nat, all: seq<Patch>)
    requires max > 0 && rem > 0 && offset + rem * bs <= |data|
    requires jobs + Jobs(bs, cur, rem, data, offset, max) == all
    ensures var c := Min(rem, max);
      && 0 <= c * bs && offset + c * bs + (rem - c) * bs <= |data| && offset + c * bs <= |data|
      && jobs + [Patch(cur * bs, data[offset..offset + c * bs])]
         + Jobs(bs, cur + c, rem - c, data, offset + c * bs, max) == all
  {
    SplitProduct(Min(rem, max), rem, bs);
  }

  lemma SplitProduct(c: nat, count: nat, bs: nat)
    requires c <= count
    ensures 0 <= c * bs <= count * bs && (count - c) * bs == count * bs - c * bs
  {
    MulMono(c, count, bs);
  }

  /** `image` holds at `at` the `len` bytes that `data` holds at `offset`. */
  ghost predicate Holds(image: seq<byte>, at: nat, data: seq<byte>, offset: nat, len: nat) {
    && at + len <= |image|
    && offset + len <= |data|
    && forall a :: at <= a < at + len ==> image[a] == data[offset + (a - at)]
  }

  lemma HoldsSlice(image: seq<byte>, at: nat, data: seq<byte>, from: nat, n: nat)
    requires Holds(image, at, data, 0, |data|) && from + n <= |data|
    ensures at + from + n <= |image| && data[from..from + n] == image[at + from..at + from + n]
  {
    var x, y := data[from..from + n], image[at + from..at + from + n];
    forall i | 0 <= i < n
      ensures x[i] == y[i]
    {
      assert image[at + from + i] == data[from + i];
    }
    assert x == y;
  }

  /** Every job is a slice of any image that holds the whole write, and the jobs cover it to the byte. */
  lemma {:induction false} JobsAreSlices(bs: nat, lba: nat, count: nat, data: seq<byte>, offset: nat, max: nat,
                                         image: seq<byte>)
    requires max > 0 && Holds(image, lba * bs, data, offset, count * bs)
    ensures SlicesOf(Jobs(bs, lba, count, data, offset, max), image)
    ensures forall a: nat :: Covered(Jobs(bs, lba, count, data, offset, max), a)
                        <==> lba * bs <= a < lba * bs + count * bs
    decreases count
  {
    if count > 0 {
      var c := Min(count, max);
      SplitProduct(c, count, bs);
      var at, n := lba * bs, c * bs;
      assert (lba + c) * bs == at + n;
      JobsAreSlices(bs, lba + c, count - c, data, offset + n, max, image);
      var first, tail := Patch(at, data[offset..offset + n]), Jobs(bs, lba + c, count - c, data, offset + n, max);
      FirstIsSlice(image, at, data, offset, n, count * bs);
      forall a: nat
        ensures Covered([first] + tail, a) <==> at <= a < at + count * bs
      {
        CoveredCons(first, tail, a);
      }
    }
  }

  lemma FirstIsSlice(image: seq<byte>, at: nat, data: seq<byte>, offset: nat, n: nat, len: nat)
    requires Holds(image, at, data, offset, len) && n <= len
    ensures Patch(at, data[offset..offset + n]).SliceOf(image)
  {
    var x, y := data[offset..offset + n], image[at..at + n];
    forall i | 0 <= i < n
      ensures x[i] == y[i]
    {
      assert image[at + i] == data[offset + i];
    }
  }

  lemma CoveredCons(p: Patch, ps: seq<Patch>, a: nat)
    ensures Covered([p] + ps, a) <==> p.Covers(a) || Covered(ps, a)
  {
    var all := [p] + ps;
    if p.Covers(a) {
      assert all[0].Covers(a);
    }
    if Covered(ps, a) {
      var i :| 0 <= i < |ps| && ps[i].Covers(a);
      assert all[i + 1].Covers(a);
    }
  }

  /** Laying the jobs over a disk, in any order of completion, is one splice of the whole write. */
  lemma JobsWriteAll(disk: seq<byte>, bs: nat, lba: nat, count: nat, data: seq<byte>, max: nat, order: seq<nat>)
    requires max > 0 && count * bs <= |data| && lba * bs + count * bs <= |disk|
    requires IsOrder(order, |Jobs(bs, lba, count, data, 0, max)|)
    ensures var jobs := Jobs(bs, lba, count, data, 0, max);
      && Fit(jobs, |disk|)
      && Fit(Reordered(jobs, order), |disk|)
      && ApplyAll(disk, Reordered(jobs, order)) == Splice(disk, lba * bs, data[..count * bs])
  {
    var image := Splice(disk, lba * bs, data[..count * bs]);
    JobsAreSlices(bs, lba, count, data, 0, max, image);
    SlicesRebuildInAnyOrder(disk, Jobs(bs, lba, count, data, 0, max), image, order);
  }

  /** The jobs all fit a device exactly when the whole write does. */
  lemma {:induction false} JobsFitIff(n: nat, bs: nat, lba: nat, count: nat, data: seq<byte>, offset: nat, max: nat)
    requires max > 0 && offset + count * bs <= |data| && bs > 0 && count > 0
    ensures Fit(Jobs(bs, lba, count, data, offset, max), n) <==> lba * bs + count * bs <= n
    decreases count
  {
    var c := Min(count, max);
    SplitProduct(c, count, bs);
    var first := Patch(lba * bs, data[offset..offset + c * bs]);
    var tail := Jobs(bs, lba + c, count - c, data, offset + c * bs, max);
    assert (lba + c) * bs == lba * bs + c * bs;
    FitCons(first, tail, n);
    if c < count {
      JobsFitIff(n, bs, lba + c, count - c, data, offset + c * bs, max);
    }
  }

  lemma FitCons(p: Patch, ps: seq<Patch>, n: nat)
    ensures Fit([p] + ps, n) <==> p.End() <= n && Fit(ps, n)
  {
    var all := [p] + ps;
    assert all[0] == p && forall i :: 0 <= i < |ps| ==> all[i + 1] == ps[i];
    if Fit(all, n) {
      forall i | 0 <= i < |ps|
        ensures ps[i].End() <= n
      {
        assert all[i + 1].End() <= n;
      }
    }
  }

  /** Each command moves something, and no more than the burst. */
  ghost predicate WithinBurst(jobs: seq<Patch>, burst: nat) {
    forall i :: 0 <= i < |jobs| ==> 0 < |jobs[i].data| <= burst
  }

  lemma {:induction false} JobsWithinBurst(bs: nat, lba: nat, count: nat, data: seq<byte>, offset: nat, max: nat, burst: nat)
    requires bs > 0 && max > 0 && max * bs <= burst && offset + count * bs <= |data|
    ensures WithinBurst(Jobs(bs, lba, count, data, offset, max), burst)
    decreases count
  {
    if count > 0 {
      var c := Min(count, max);
      SplitProduct(c, count, bs);
      MulMono(1, c, bs);
      MulMono(c, max, bs);
      JobsWithinBurst(bs, lba + c, count - c, data, offset + c * bs, max, burst);
    }
  }

  // -- The target and the pipeline -------------------------------------------

  /** A SCSI target seen through its medium: block reads and writes, refused outside the medium. No command may
      move more than the negotiated burst. */
  class Target {
    const blockSize: nat
    const burst: nat
    var disk: seq<byte>

    constructor (blockSize: nat, burst: nat, disk: seq<byte>)
      ensures this.blockSize == blockSize && this.burst == burst && this.disk == disk
    {
      this.blockSize := blockSize;
      this.burst := burst;
      this.disk := disk;
    }

    predicate InRange(lba: nat, count: nat)
      reads this
    {
      lba * blockSize + count * blockSize <= |disk|
    }

    method Read(lba: nat, count: nat) returns (r: Option<seq<byte>>)
      requires 0 < count * blockSize <= burst
      ensures r == if InRange(lba, count) then Some(disk[lba * blockSize..lba * blockSize + count * blockSize]) else None
    {
      r := None;
      if InRange(lba, count) {
        r := Some(disk[lba * blockSize..lba * blockSize + count * blockSize]);
      }
    }

    /** The write commands of concurrently running tasks finish one at a time, in any order whatever. */
    method Complete(jobs: seq<Patch>) returns (ok: bool, ghost order: seq<nat>)
      requires WithinBurst(jobs, burst)
      modifies this
      ensures |disk| == |old(disk)|
      ensures ok <==> Fit(jobs, |disk|)
      ensures ok ==> IsOrder(order, |jobs|)
      ensures ok ==> Fit(Reordered(jobs, order), |disk|) && disk == ApplyAll(old(disk), Reordered(jobs, order))
    {
      var pending := Below(|jobs|);
      ok, order := true, [];
      NothingListed(|jobs|);
      while pending != {}
        invariant |disk| == |old(disk)| && OnceEach(order, pending, |jobs|)
        invariant forall i :: 0 <= i < |order| ==> order[i] < |jobs|
        invariant ok <==> Fit(Reordered(jobs, order), |disk|)
        invariant ok ==> disk == ApplyAll(old(disk), Reordered(jobs, order))
        decreases pending
      {
        var k :| k in pending;
        OneMoreListed(order, pending, |jobs|, k);
        ReorderedSnoc(jobs, order, k, |disk|);
        if jobs[k].at + |jobs[k].data| <= |disk| {
          if ok {
            ApplyAllSnoc(old(disk), Reordered(jobs, order), jobs[k]);
          }
          disk := Splice(disk, jobs[k].at, jobs[k].data);
        } else {
          ok := false;
        }
        order := order + [k];
        pending := pending - {k};
      }
      AllListed(order, |jobs|);
      FitReordered(jobs, order, |disk|);
    }
  }

  /** The indices below `n` are listed once each, but for those still pending. */
  ghost predicate OnceEach(order: seq<nat>, pending: set<nat>, n: nat) {
    forall l: nat {:trigger Look(l)} :: Look(l) ==>
      && pending <= Below(n) && |order| + |pending| == n
      && (forall i :: 0 <= i < |order| ==> order[i] < n && order[i] !in pending)
      && (forall i, j :: 0 <= i < j < |order| ==> order[i] != order[j])
      && (forall k :: 0 <= k < n ==> k in pending || k in order)
  }

  lemma NothingListed(n: nat)
    ensures OnceEach([], Below(n), n)
  {
  }

  lemma OneMoreListed(order: seq<nat>, pending: set<nat>, n: nat, k: nat)
    requires OnceEach(order, pending, n) && k in pending
    ensures k < n && OnceEach(order + [k], pending - {k}, n)
  {
    assert Look(0);
    assert (order + [k])[|order|] == k;
    forall j | 0 <= j < n && j in order
      ensures j in order + [k]
    {
    }
  }

  lemma AllListed(order: seq<nat>, n: nat)
    requires OnceEach(order, {}, n)
    ensures IsOrder(order, n)
  {
    assert Look(0);
  }

  lemma ReorderedSnoc(ps: seq<Patch>, order: seq<nat>, k: nat, n: nat)
    requires k < |ps| && forall i :: 0 <= i < |order| ==> order[i] < |ps|
    ensures Reordered(ps, order + [k]) == Reordered(ps, order) + [ps[k]]
    ensures Fit(Reordered(ps, order + [k]), n) <==> Fit(Reordered(ps, order), n) && ps[k].End() <= n
  {
    var before, all := Reordered(ps, order), Reordered(ps, order + [k]);
    assert all[|order|] == ps[k] && forall i :: 0 <= i < |order| ==> all[i] == before[i];
    if Fit(all, n) {
      forall i | 0 <= i < |order|
        ensures before[i].End() <= n
      {
        assert all[i].End() <= n;
      }
    }
  }

  lemma FitReordered(ps: seq<Patch>, order: seq<nat>, n: nat)
    requires IsOrder(order, |ps|)
    ensures Fit(Reordered(ps, order), n) <==> Fit(ps, n)
  {
    var qs := Reordered(ps, order);
    if Fit(qs, n) {
      forall k | 0 <= k < |ps|
        ensures ps[k].End() <= n
      {
        assert k in order;
        var i :| 0 <= i < |order| && order[i] == k;
        assert qs[i].End() <= n;
      }
    }
  }

  class Pipeline {
    const target: Target
    const blockSize: nat
    const maxBurst: nat

    /** The negotiated burst holds at least one block; with less, the chunk loop would not end. */
    predicate Valid() {
      blockSize > 0 && target.blockSize == blockSize && target.burst == maxBurst && maxBurst >= blockSize
    }

    constructor (target: Target, blockSize: nat, maxBurst: nat)
      requires blockSize > 0 && target.blockSize == blockSize && target.burst == maxBurst && maxBurst >= blockSize
      ensures Valid() && this.target == target && this.blockSize == blockSize
    {
      this.target := target;
      this.blockSize := blockSize;
      this.maxBurst := maxBurst;
    }

    /** As many blocks as a burst holds. */
    function MaxBlocks(): (r: nat)
      requires Valid()
      ensures r > 0 && r * blockSize <= maxBurst < (r + 1) * blockSize
    {
      BurstHoldsBlocksIff(maxBurst, blockSize);
      MaxReadBlocksFor(maxBurst, blockSize)
    }

    /** Chunked concurrent reads, awaited in order, return what one read of the whole range would. */
    method ScsiRead(lba: nat, blockCount: nat) returns (r: Option<seq<byte>>)
      requires Valid()
      ensures blockCount == 0 ==> r == Some([])
      ensures blockCount > 0 ==> r == if target.InRange(lba, blockCount)
        then Some(target.disk[lba * blockSize..lba * blockSize + blockCount * blockSize]) else None
    {
      if blockCount == 0 {
        return Some([]);
      }
      var chunks := ComputeReadChunks(lba, blockCount, MaxBlocks());
      var result := [];
      ghost var cur, rem := lba, blockCount;
      ghost var first, end := lba * blockSize, lba * blockSize + blockCount * blockSize;
      ghost var at := first;
      var i := 0;
      while i < |chunks|
        invariant 0 <= i <= |chunks| && rem >= 0 && cur >= 0
        invariant chunks[i..] == ChunkList(cur, rem, MaxBlocks())
        invariant at == cur * blockSize && at + rem * blockSize == end && first <= at
        invariant i > 0 ==> at <= |target.disk|
        invariant result == if i == 0 then [] else target.disk[first..at]
        invariant i == 0 ==> at == first && rem > 0
      {
        assert chunks[i] == chunks[i..][0] && chunks[i + 1..] == chunks[i..][1..];
        MulMono(1, chunks[i].count, blockSize);
        MulMono(chunks[i].count, MaxBlocks(), blockSize);
        var data := target.Read(chunks[i].lba, chunks[i].count);
        ghost var c := chunks[i].count;
        SplitProduct(c, rem, blockSize);
        assert (cur + c) * blockSize == cur * blockSize + c * blockSize;
        if data.None? {
          return None;
        }
        result := result + data.value;
        cur, rem, at := cur + c, rem - c, at + c * blockSize;
        i := i + 1;
      }
      r := Some(result);
    }

    function BlocksOf(data: seq<byte>): (n: nat)
      requires Valid()
      ensures n * blockSize <= |data|
    {
      WholeBlocks(|data|, blockSize)
    }

    /** The single-command writes that one large write is split into. */
    method SplitWrite(lba: nat, data: seq<byte>) returns (jobs: seq<Patch>)
      requires Valid()
      ensures jobs == Jobs(blockSize, lba, BlocksOf(data), data, 0, MaxBlocks())
      ensures WithinBurst(jobs, maxBurst)
    {
      var blockCount, max := BlocksOf(data), MaxBlocks();
      var chunks := ComputeReadChunks(lba, blockCount, max);
      jobs := [];
      var offset := 0;
      ghost var cur, rem, all := lba, blockCount, Jobs(blockSize, lba, blockCount, data, 0, max);
      var i := 0;
      while i < |chunks|
        invariant 0 <= i <= |chunks| && rem >= 0 && cur >= 0
        invariant chunks[i..] == ChunkList(cur, rem, max)
        invariant 0 <= offset && offset + rem * blockSize <= |data|
        invariant jobs + Jobs(blockSize, cur, rem, data, offset, max) == all
      {
        assert chunks[i] == chunks[i..][0] && chunks[i + 1..] == chunks[i..][1..];
        NextJob(blockSize, jobs, cur, rem, data, offset, max, all);
        var chunkBytes := chunks[i].count * blockSize;
        jobs := jobs + [Patch(chunks[i].lba * blockSize, data[offset..offset + chunkBytes])];
        offset := offset + chunkBytes;
        cur, rem := cur + chunks[i].count, rem - chunks[i].count;
        i := i + 1;
      }
      JobsWithinBurst(blockSize, lba, blockCount, data, 0, max, maxBurst);
    }

    /** A write succeeds exactly when it fits, and then the medium holds its whole blocks at `lba`. */
    method ScsiWrite(lba: nat, data: seq<byte>) returns (ok: bool)
      requires Valid()
      modifies target
      ensures |target.disk| == |old(target.disk)|
      ensures ok <==> BlocksOf(data) == 0 || target.InRange(lba, BlocksOf(data))
      ensures ok && BlocksOf(data) > 0 ==>
        target.disk == Splice(old(target.disk), lba * blockSize, data[..BlocksOf(data) * blockSize])
      ensures BlocksOf(data) == 0 ==> target.disk == old(target.disk)
    {
      if data == [] {
        return true;
      }
      var jobs := SplitWrite(lba, data);
      ghost var order;
      ok, order := target.Complete(jobs);
      if BlocksOf(data) > 0 {
        JobsFitIff(|target.disk|, blockSize, lba, BlocksOf(data), data, 0, MaxBlocks());
        if ok {
          JobsWriteAll(old(target.disk), blockSize, lba, BlocksOf(data), data, MaxBlocks(), order);
        }
      }
    }
  }
}
