/** The 64 KB-chunk read cache (block/cache.rs) as a view of the medium it may lag behind. */
module Cache {
  import opened Arithmetic
  import opened Bytes
  import opened Sealing
  import opened Wrappers
  import Pipeline

  const CHUNK_BYTES := 64 * 1024

  /** Block size in bytes and blocks per cached chunk. */
  datatype Geometry = Geometry(bs: nat, cb: nat) {
    predicate Valid() {
      bs > 0 && cb > 0
    }

    /** Chunks start at the multiples of `cb`. */
    predicate IsChunk(c: nat)
      requires Valid()
    {
      c == 0 || (c >= cb && IsChunk(c - cb))
    }

    /** The first block of the chunk that holds `lba`. */
    function ChunkLba(lba: nat): (c: nat)
      requires Valid()
      ensures IsChunk(c) && c <= lba < c + cb
    {
      if lba < cb then 0 else ChunkLba(lba - cb) + cb
    }

    /** The greatest chunk start at or below `lba` is what rounding by division gives. */
    lemma {:induction false} ChunkLbaByDivision(lba: nat)
      requires Valid()
      ensures ChunkLba(lba) == lba / cb * cb
    {
      if lba < cb {
        DivUnique(lba, cb, 0);
      } else {
        ChunkLbaByDivision(lba - cb);
        DivBounds(lba - cb, cb);
        MulSucc((lba - cb) / cb, cb);
        MulSucc((lba - cb) / cb + 1, cb);
        DivUnique(lba, cb, (lba - cb) / cb + 1);
      }
    }

    function FirstChunk(start: nat): nat
      requires Valid()
    {
      ChunkLba(start)
    }

    function LastChunk(start: nat, count: nat): nat
      requires Valid()
    {
      ChunkLba(if start + count == 0 then 0 else start + count - 1)
    }

    /** Chunks that a request for `count` blocks at `start` visits. */
    predicate InSpan(start: nat, count: nat, c: nat)
      requires Valid()
    {
      IsChunk(c) && FirstChunk(start) <= c <= LastChunk(start, count)
    }

    /** The chunk at `c` lies inside a medium of `n` bytes. */
    predicate ChunkFits(n: nat, c: nat) {
      c * bs + cb * bs <= n
    }

    /** Every chunk of the span lies inside the medium. */
    predicate SpanFits(n: nat, start: nat, count: nat)
      requires Valid()
    {
      FirstChunk(start) <= LastChunk(start, count) ==> ChunkFits(n, LastChunk(start, count))
    }

    /** The chunk that holds byte address `a`. */
    function ChunkOf(a: nat): (c: nat)
      requires Valid()
      ensures IsChunk(c) && c * bs <= a < c * bs + cb * bs
    {
      var lba := a / bs;
      var c := ChunkLba(lba);
      DivBounds(a, bs);
      MulMono(c, lba, bs);
      MulMono(lba + 1, c + cb, bs);
      ChunkEnd(c);
      c
    }

    lemma {:induction false} ChunksApart(c: nat, d: nat)
      requires Valid() && IsChunk(c) && IsChunk(d)
      ensures c < d ==> c + cb <= d
    {
      if 0 < c < d {
        ChunksApart(c - cb, d - cb);
      }
    }

    lemma ChunkEnd(c: nat)
      ensures (c + cb) * bs == c * bs + cb * bs
    {
    }

    /** Chunks are disjoint: the bytes of a chunk belong to no other. */
    lemma ChunkOfUnique(a: nat, c: nat)
      requires Valid() && IsChunk(c) && c * bs <= a < c * bs + cb * bs
      ensures ChunkOf(a) == c
    {
      var d := ChunkOf(a);
      ChunkEnd(c);
      ChunkEnd(d);
      MulStrict(c, d + cb, bs);
      MulStrict(d, c + cb, bs);
      ChunksApart(c, d);
      ChunksApart(d, c);
    }

    /** A chunk meets the block range exactly when it is in the range's span. */
    lemma SpanIffOverlap(start: nat, count: nat, c: nat)
      requires Valid() && count > 0 && IsChunk(c)
      ensures InSpan(start, count, c) <==> start < c + cb && c < start + count
    {
      var f, l := FirstChunk(start), LastChunk(start, count);
      ChunksApart(c, f);
      ChunksApart(f, c);
      ChunksApart(c, l);
      ChunksApart(l, c);
    }

    function ChunkBytes(disk: seq<byte>, c: nat): (s: seq<byte>)
      requires ChunkFits(|disk|, c)
      ensures |s| == cb * bs
    {
      disk[c * bs..c * bs + cb * bs]
    }

    /** Cached chunks are whole, aligned and inside the medium. */
    ghost predicate WellFormed(entries: map<nat, seq<byte>>, n: nat)
      requires Valid()
    {
      forall c :: c in entries ==> IsChunk(c) && |entries[c]| == cb * bs && ChunkFits(n, c)
    }

    /** Every cached chunk equals the medium. */
    ghost predicate Coherent(disk: seq<byte>, entries: map<nat, seq<byte>>)
      requires Valid()
    {
      WellFormed(entries, |disk|) && forall c :: c in entries ==> entries[c] == ChunkBytes(disk, c)
    }

    ghost function ViewByte(disk: seq<byte>, entries: map<nat, seq<byte>>, a: nat): byte
      requires Valid() && WellFormed(entries, |disk|) && a < |disk|
    {
      var c := ChunkOf(a);
      if c in entries then entries[c][a - c * bs] else disk[a]
    }

    /** What the medium looks like through the cache: cached bytes where a chunk is cached, else the medium's. */
    ghost function View(disk: seq<byte>, entries: map<nat, seq<byte>>): (v: seq<byte>)
      requires Valid() && WellFormed(entries, |disk|)
      ensures |v| == |disk|
    {
      seq(|disk|, a requires 0 <= a < |disk| => ViewByte(disk, entries, a))
    }

    lemma ViewByteOfChunk(disk: seq<byte>, entries: map<nat, seq<byte>>, c: nat, at: nat, i: nat)
      requires Valid() && WellFormed(entries, |disk|) && IsChunk(c) && ChunkFits(|disk|, c)
      requires at == c * bs && i < cb * bs
      ensures View(disk, entries)[at + i] == if c in entries then entries[c][i] else disk[at + i]
    {
      ChunkOfUnique(at + i, c);
      assert View(disk, entries)[at + i] == ViewByte(disk, entries, at + i);
    }

    lemma ViewBytesOfChunk(disk: seq<byte>, entries: map<nat, seq<byte>>, c: nat, at: nat, n: nat, v: seq<byte>, s: seq<byte>)
      requires Valid() && WellFormed(entries, |disk|) && IsChunk(c) && ChunkFits(|disk|, c)
      requires at == c * bs && n == cb * bs && v == View(disk, entries)
      requires s == if c in entries then entries[c] else disk[at..at + n]
      ensures at + n <= |v| && |s| == n && forall i :: 0 <= i < n ==> v[at + i] == s[i]
    {
      forall i | 0 <= i < n
        ensures v[at + i] == s[i]
      {
        ViewByteOfChunk(disk, entries, c, at, i);
      }
    }

    lemma ViewOfChunk(disk: seq<byte>, entries: map<nat, seq<byte>>, c: nat)
      requires Valid() && WellFormed(entries, |disk|) && IsChunk(c) && ChunkFits(|disk|, c)
      ensures View(disk, entries)[c * bs..c * bs + cb * bs]
           == if c in entries then entries[c] else ChunkBytes(disk, c)
    {
      var at, n := c * bs, cb * bs;
      var v, s := View(disk, entries), if c in entries then entries[c] else disk[at..at + n];
      ViewBytesOfChunk(disk, entries, c, at, n, v, s);
      SliceIs(v, at, n, s);
    }

    lemma SliceIs(v: seq<byte>, at: nat, n: nat, s: seq<byte>)
      requires at + n <= |v| && |s| == n && forall i :: 0 <= i < n ==> v[at + i] == s[i]
      ensures v[at..at + n] == s
    {
    }

    /** The view below a chunk boundary depends only on the chunks below it. */
    lemma ViewPrefix(disk: seq<byte>, e: map<nat, seq<byte>>, f: map<nat, seq<byte>>, limit: nat, m: nat)
      requires Valid() && WellFormed(e, |disk|) && WellFormed(f, |disk|)
      requires forall c :: c < limit ==> (c in e <==> c in f)
      requires forall c :: c < limit && c in e && c in f ==> e[c] == f[c]
      requires m <= |disk| && m <= limit * bs
      ensures View(disk, e)[..m] == View(disk, f)[..m]
    {
      forall a | 0 <= a < m
        ensures ViewByte(disk, e, a) == ViewByte(disk, f, a)
      {
        var c := ChunkOf(a);
        MulStrict(c, limit, bs);
      }
    }

    /** A cache agrees with the medium exactly when looking through it shows the medium. */
    lemma CoherentIffViewIsDisk(disk: seq<byte>, entries: map<nat, seq<byte>>)
      requires Valid() && WellFormed(entries, |disk|)
      ensures Coherent(disk, entries) <==> View(disk, entries) == disk
    {
      if View(disk, entries) == disk {
        forall c | c in entries
          ensures entries[c] == ChunkBytes(disk, c)
        {
          ViewOfChunk(disk, entries, c);
        }
      }
      if Coherent(disk, entries) {
        forall a | 0 <= a < |disk|
          ensures ViewByte(disk, entries, a) == disk[a]
        {
          assert ChunkOf(a) in entries ==> entries[ChunkOf(a)] == ChunkBytes(disk, ChunkOf(a));
        }
      }
    }
  }

  /** `s` is what the image `v` holds in blocks [from, to). */
  ghost predicate IsBlocks(g: Geometry, v: seq<byte>, from: nat, to: nat, s: seq<byte>) {
    forall n: nat {:trigger Look(n)} :: Look(n) ==>
      0 <= from * g.bs <= to * g.bs <= |v| && s == v[from * g.bs..to * g.bs]
  }

  lemma BlocksAre(g: Geometry, v: seq<byte>, from: nat, to: nat, s: seq<byte>)
    requires IsBlocks(g, v, from, to, s)
    ensures 0 <= from * g.bs <= to * g.bs <= |v| && s == v[from * g.bs..to * g.bs]
  {
    assert Look(0);
  }

  lemma JoinBlocks(g: Geometry, v: seq<byte>, a: nat, b: nat, c: nat, s: seq<byte>, t: seq<byte>)
    requires IsBlocks(g, v, a, b, s) && IsBlocks(g, v, b, c, t)
    ensures IsBlocks(g, v, a, c, s + t)
  {
    BlocksAre(g, v, a, b, s);
    BlocksAre(g, v, b, c, t);
    JoinSlices(v, a * g.bs, b * g.bs, c * g.bs);
  }

  lemma JoinSlices(v: seq<byte>, a: nat, b: nat, c: nat)
    requires a <= b <= c <= |v|
    ensures v[a..b] + v[b..c] == v[a..c]
  {
  }

  /** Where the blocks [from, to) of the chunk at `c` lie inside it. */
  lemma SliceOfChunk(g: Geometry, v: seq<byte>, c: nat, from: nat, to: nat)
    requires g.Valid() && c <= from <= to <= c + g.cb && g.ChunkFits(|v|, c)
    ensures 0 <= (from - c) * g.bs <= (from - c) * g.bs + (to - from) * g.bs <= g.cb * g.bs
    ensures IsBlocks(g, v, from, to,
      v[c * g.bs..c * g.bs + g.cb * g.bs][(from - c) * g.bs..(from - c) * g.bs + (to - from) * g.bs])
  {
    var bs := g.bs;
    assert (from - c) * bs == from * bs - c * bs && (to - from) * bs == to * bs - from * bs;
    g.ChunkEnd(c);
    MulMono(from, to, bs);
    MulMono(c, from, bs);
    MulMono(to, c + g.cb, bs);
    SubSlice(v, c * bs, c * bs + g.cb * bs, (from - c) * bs, (from - c) * bs + (to - from) * bs);
  }

  /** The bytes of `count` blocks at `start` seen through the entries `kept`. */
  ghost function ReadThrough(g: Geometry, disk: seq<byte>, kept: map<nat, seq<byte>>, start: nat, count: nat): (s: seq<byte>)
    requires g.Valid() && g.WellFormed(kept, |disk|) && g.SpanFits(|disk|, start, count)
    ensures |s| == count * g.bs
  {
    if count == 0 then []
    else
      SpanInside(g, |disk|, start, count);
      g.View(disk, kept)[start * g.bs..start * g.bs + count * g.bs]
  }

  lemma SpanInside(g: Geometry, n: nat, start: nat, count: nat)
    requires g.Valid() && count > 0 && g.SpanFits(n, start, count)
    ensures start * g.bs + count * g.bs <= n
  {
    var last := g.LastChunk(start, count);
    g.ChunksApart(last, g.FirstChunk(start));
    g.ChunkEnd(last);
    MulMono(start + count, last + g.cb, g.bs);
    assert (start + count) * g.bs == start * g.bs + count * g.bs;
  }

  ghost predicate AgreeFrom(e: map<nat, seq<byte>>, f: map<nat, seq<byte>>, from: nat) {
    forall c :: from <= c ==> (c in e <==> c in f) && (c in e ==> e[c] == f[c])
  }

  ghost predicate SubMap(e: map<nat, seq<byte>>, f: map<nat, seq<byte>>) {
    forall c :: c in e ==> c in f && e[c] == f[c]
  }

  /** `after` holds only entries of `before` and chunks of the request's span as the medium has them. */
  ghost predicate Fetched(g: Geometry, disk: seq<byte>, start: nat, count: nat,
                          before: map<nat, seq<byte>>, after: map<nat, seq<byte>>)
    requires g.Valid()
  {
    forall c :: c in after ==>
      || (c in before && after[c] == before[c])
      || (g.InSpan(start, count, c) && g.ChunkFits(|disk|, c) && after[c] == g.ChunkBytes(disk, c))
  }

  /** The entries left after dropping every chunk of a range's span. */
  ghost function Without(g: Geometry, entries: map<nat, seq<byte>>, start: nat, count: nat): map<nat, seq<byte>>
    requires g.Valid()
  {
    map c | c in entries && !g.InSpan(start, count, c) :: entries[c]
  }

  /** The entries left after dropping the chunks of [first, end). */
  ghost function Cleared(g: Geometry, entries: map<nat, seq<byte>>, first: nat, end: nat): map<nat, seq<byte>>
    requires g.Valid()
  {
    map c | c in entries && !(g.IsChunk(c) && first <= c < end) :: entries[c]
  }

  lemma NothingCleared(g: Geometry, entries: map<nat, seq<byte>>, first: nat)
    requires g.Valid()
    ensures Cleared(g, entries, first, first) == entries
  {
  }

  lemma ClearedMore(g: Geometry, entries: map<nat, seq<byte>>, first: nat, clba: nat)
    requires g.Valid() && g.IsChunk(clba) && first <= clba
    ensures Cleared(g, entries, first, clba) - {clba} == Cleared(g, entries, first, clba + g.cb)
  {
    forall c | c in entries && g.IsChunk(c) && c > clba
      ensures c >= clba + g.cb
    {
      g.ChunksApart(clba, c);
    }
  }

  lemma ClearedAll(g: Geometry, entries: map<nat, seq<byte>>, start: nat, count: nat, clba: nat)
    requires g.Valid() && g.IsChunk(clba) && g.LastChunk(start, count) < clba && clba - g.cb <= g.LastChunk(start, count)
    ensures Cleared(g, entries, g.FirstChunk(start), clba) == Without(g, entries, start, count)
  {
    forall c | c in entries && g.IsChunk(c) && c < clba
      ensures c <= g.LastChunk(start, count)
    {
      g.ChunksApart(c, clba);
    }
  }

  lemma FetchedThen(g: Geometry, disk: seq<byte>, start: nat, count: nat, first: map<nat, seq<byte>>,
                    before: map<nat, seq<byte>>, after: map<nat, seq<byte>>)
    requires g.Valid() && Fetched(g, disk, start, count, first, before) && Fetched(g, disk, start, count, before, after)
    ensures Fetched(g, disk, start, count, first, after)
  {
  }

  class BlockCache {
    const geo: Geometry
    var inner: map<nat, seq<byte>>

    constructor (blockSize: nat)
      requires 0 < blockSize <= CHUNK_BYTES
      ensures geo.Valid() && geo.bs == blockSize && geo.cb == CHUNK_BYTES / blockSize && inner == map[]
    {
      assert CHUNK_BYTES / blockSize > 0 by {
        DivBounds(CHUNK_BYTES, blockSize);
      }
      geo := Geometry(blockSize, CHUNK_BYTES / blockSize);
      inner := map[];
    }

    /** Align `lba` down to the start of its chunk. */
    function ChunkLba(lba: nat): (c: nat)
      requires geo.Valid()
      ensures c == geo.ChunkLba(lba)
    {
      geo.ChunkLbaByDivision(lba);
      lba / geo.cb * geo.cb
    }

    /** The cache may drop any of its entries at any moment. */
    method Evict()
      modifies this
      ensures SubMap(inner, old(inner))
    {
      assert {} <= inner.Keys;
      var keep :| keep <= inner.Keys;
      inner := map c | c in keep :: inner[c];
    }

    /** A cached chunk, or the chunk just fetched and cached; nothing is cached when the fetch fails. */
    method TryGetWith(pipeline: Pipeline.Pipeline, c: nat) returns (r: Option<seq<byte>>)
      requires geo.Valid() && pipeline.Valid() && pipeline.blockSize == geo.bs
      requires geo.WellFormed(inner, |pipeline.target.disk|)
      modifies this
      ensures r.Some? <==> c in old(inner) || geo.ChunkFits(|pipeline.target.disk|, c)
      ensures r.Some? ==> r.value == if c in old(inner) then old(inner)[c] else geo.ChunkBytes(pipeline.target.disk, c)
      ensures inner == if r.Some? then old(inner)[c := r.value] else old(inner)
    {
      if c in inner {
        assert inner == inner[c := inner[c]];
        return Some(inner[c]);
      }
      r := pipeline.ScsiRead(c, geo.cb);
      if r.Some? {
        inner := inner[c := r.value];
      }
    }

    /** The part of the chunk at `clba` that the request for [start, endLba) asks for. */
    method CopyChunk(pipeline: Pipeline.Pipeline, ghost kept: map<nat, seq<byte>>, start: nat, endLba: nat, clba: nat)
      returns (r: Option<seq<byte>>)
      requires geo.Valid() && pipeline.Valid() && pipeline.blockSize == geo.bs
      requires geo.WellFormed(inner, |pipeline.target.disk|) && geo.WellFormed(kept, |pipeline.target.disk|)
      requires geo.IsChunk(clba) && start <= endLba && start < clba + geo.cb
      requires clba <= endLba && (clba in inner <==> clba in kept) && (clba in kept ==> inner[clba] == kept[clba])
      modifies this
      ensures r.Some? <==> clba in old(inner) || geo.ChunkFits(|pipeline.target.disk|, clba)
      ensures r.Some? ==> IsBlocks(geo, geo.View(pipeline.target.disk, kept),
                                   Max(start, clba), Min(endLba, clba + geo.cb), r.value)
      ensures inner == old(inner) || (geo.ChunkFits(|pipeline.target.disk|, clba)
        && inner == old(inner)[clba := geo.ChunkBytes(pipeline.target.disk, clba)])
    {
      var chunk := TryGetWith(pipeline, clba);
      if chunk.None? {
        return None;
      }
      var chunkEnd := clba + geo.cb;
      var sliceStart := Max(start, clba);
      var sliceEnd := Min(endLba, chunkEnd);
      var offset := (sliceStart - clba) * geo.bs;
      var len := (sliceEnd - sliceStart) * geo.bs;
      PieceOfChunk(pipeline.target.disk, kept, clba, chunk.value, sliceStart, sliceEnd, offset, len);
      var end := Min(offset + len, |chunk.value|);
      r := Some(chunk.value[offset..end]);
    }

    lemma PieceOfChunk(disk: seq<byte>, kept: map<nat, seq<byte>>, c: nat, chunk: seq<byte>, from: nat, to: nat,
                       offset: int, len: int)
      requires geo.Valid() && geo.WellFormed(kept, |disk|) && geo.IsChunk(c) && c <= from <= to <= c + geo.cb
      requires geo.ChunkFits(|disk|, c) && chunk == if c in kept then kept[c] else geo.ChunkBytes(disk, c)
      requires offset == (from - c) * geo.bs && len == (to - from) * geo.bs
      ensures 0 <= offset <= offset + len <= |chunk|
      ensures IsBlocks(geo, geo.View(disk, kept), from, to, chunk[offset..offset + len])
    {
      geo.ViewOfChunk(disk, kept, c);
      SliceOfChunk(geo, geo.View(disk, kept), c, from, to);
    }

    lemma PrefixKept(disk: seq<byte>, was: map<nat, seq<byte>>, kept: map<nat, seq<byte>>,
                     start: nat, pos: nat, clba: nat, assembled: seq<byte>)
      requires geo.Valid() && geo.WellFormed(was, |disk|) && geo.WellFormed(kept, |disk|)
      requires SubMap(kept, was) && (forall c :: c in was && c < clba ==> c in kept)
      requires pos <= clba && IsBlocks(geo, geo.View(disk, was), start, pos, assembled)
      ensures IsBlocks(geo, geo.View(disk, kept), start, pos, assembled)
    {
      BlocksAre(geo, geo.View(disk, was), start, pos, assembled);
      MulMono(pos, clba, geo.bs);
      geo.ViewPrefix(disk, was, kept, clba, pos * geo.bs);
      SamePrefix(geo.View(disk, was), geo.View(disk, kept), start * geo.bs, pos * geo.bs);
    }

    lemma SamePrefix(v: seq<byte>, w: seq<byte>, from: nat, to: nat)
      requires from <= to <= |v| == |w| && v[..to] == w[..to]
      ensures v[from..to] == w[from..to]
    {
      assert v[from..to] == v[..to][from..] && w[from..to] == w[..to][from..];
    }

    lemma NotInside(n: nat, start: nat, count: nat, clba: nat)
      requires geo.Valid() && geo.InSpan(start, count, clba) && !geo.ChunkFits(n, clba)
      ensures !geo.SpanFits(n, start, count)
    {
      MulMono(clba, geo.LastChunk(start, count), geo.bs);
    }

    /** `assembled` is what the request has asked for of the chunks before `clba`, seen through `kept`. */
    ghost predicate Progress(disk: seq<byte>, kept: map<nat, seq<byte>>, start: nat, count: nat,
                             clba: nat, assembled: seq<byte>)
      requires geo.Valid()
    {
      && geo.WellFormed(kept, |disk|)
      && forall n: nat {:trigger Look(n)} :: Look(n) ==>
           && geo.IsChunk(clba)
           && geo.FirstChunk(start) <= clba
           && clba - geo.cb <= geo.LastChunk(start, count)
           && (clba == geo.FirstChunk(start) ==> assembled == [])
           && (clba > geo.FirstChunk(start) ==> SoFar(disk, kept, start, count, clba, assembled))
    }

    lemma ProgressStart(disk: seq<byte>, kept: map<nat, seq<byte>>, start: nat, count: nat)
      requires geo.Valid() && geo.WellFormed(kept, |disk|)
      ensures Progress(disk, kept, start, count, geo.FirstChunk(start), [])
    {
      geo.ChunksApart(geo.LastChunk(start, count), geo.FirstChunk(start));
    }

    lemma ProgressIs(disk: seq<byte>, kept: map<nat, seq<byte>>, start: nat, count: nat, clba: nat, assembled: seq<byte>)
      requires geo.Valid() && Progress(disk, kept, start, count, clba, assembled)
      ensures geo.IsChunk(clba) && geo.FirstChunk(start) <= clba && clba - geo.cb <= geo.LastChunk(start, count)
      ensures clba == geo.FirstChunk(start) ==> assembled == []
      ensures clba > geo.FirstChunk(start) ==> SoFar(disk, kept, start, count, clba, assembled)
    {
      assert Look(0);
    }

    ghost predicate SoFar(disk: seq<byte>, kept: map<nat, seq<byte>>, start: nat, count: nat,
                          clba: nat, assembled: seq<byte>)
      requires geo.Valid() && geo.WellFormed(kept, |disk|)
    {
      && clba >= geo.cb
      && geo.ChunkFits(|disk|, clba - geo.cb)
      && IsBlocks(geo, geo.View(disk, kept), start, Min(clba, start + count), assembled)
    }

    lemma ProgressNext(disk: seq<byte>, kept: map<nat, seq<byte>>, start: nat, count: nat, clba: nat, assembled: seq<byte>)
      requires geo.Valid() && geo.WellFormed(kept, |disk|) && geo.InSpan(start, count, clba) && geo.ChunkFits(|disk|, clba)
      requires IsBlocks(geo, geo.View(disk, kept), start, Min(clba + geo.cb, start + count), assembled)
      ensures Progress(disk, kept, start, count, clba + geo.cb, assembled)
    {
    }

    lemma Finished(disk: seq<byte>, kept: map<nat, seq<byte>>, start: nat, count: nat, clba: nat, assembled: seq<byte>)
      requires geo.Valid() && Progress(disk, kept, start, count, clba, assembled)
      requires clba > geo.LastChunk(start, count)
      ensures geo.SpanFits(|disk|, start, count)
      ensures assembled == ReadThrough(geo, disk, kept, start, count)
    {
      ProgressIs(disk, kept, start, count, clba, assembled);
      var last := geo.LastChunk(start, count);
      geo.ChunksApart(last, clba);
      if geo.FirstChunk(start) < clba {
        assert clba - geo.cb == last;
        BlocksAre(geo, geo.View(disk, kept), start, start + count, assembled);
      }
      assert (start + count) * geo.bs == start * geo.bs + count * geo.bs;
    }

    /** Entries dropped between two chunks: of those still to be visited, `still` keeps what the cache keeps,
        so what was assembled so far is still the medium seen through `still`. */
    method EvictBeyond(ghost disk: seq<byte>, ghost kept: map<nat, seq<byte>>, ghost start: nat, ghost pos: nat,
                       clba: nat, assembled: seq<byte>)
      returns (ghost still: map<nat, seq<byte>>)
      requires geo.Valid() && geo.WellFormed(kept, |disk|) && AgreeFrom(kept, inner, clba)
      requires pos <= clba && IsBlocks(geo, geo.View(disk, kept), start, pos, assembled)
      modifies this
      ensures SubMap(inner, old(inner)) && SubMap(still, kept) && AgreeFrom(still, inner, clba)
      ensures geo.WellFormed(still, |disk|) && IsBlocks(geo, geo.View(disk, still), start, pos, assembled)
    {
      Evict();
      still := map c | c in kept && (c < clba || c in inner) :: kept[c];
      PrefixKept(disk, kept, still, start, pos, clba, assembled);
    }

    /** One turn of the read loop. */
    method VisitChunk(pipeline: Pipeline.Pipeline, ghost kept: map<nat, seq<byte>>, start: nat, count: nat,
                      clba: nat, assembled: seq<byte>)
      returns (r: Option<seq<byte>>, ghost still: map<nat, seq<byte>>)
      requires geo.Valid() && pipeline.Valid() && pipeline.blockSize == geo.bs
      requires geo.WellFormed(inner, |pipeline.target.disk|)
      requires Progress(pipeline.target.disk, kept, start, count, clba, assembled)
      requires AgreeFrom(kept, inner, clba) && clba <= geo.LastChunk(start, count)
      modifies this
      ensures SubMap(still, kept)
      ensures r.None? ==> !geo.SpanFits(|pipeline.target.disk|, start, count)
      ensures r.Some? ==> AgreeFrom(still, inner, clba + geo.cb)
      ensures r.Some? ==> Progress(pipeline.target.disk, still, start, count, clba + geo.cb, r.value)
      ensures Fetched(geo, pipeline.target.disk, start, count, old(inner), inner)
    {
      ghost var disk := pipeline.target.disk;
      ProgressIs(disk, kept, start, count, clba, assembled);
      var piece := CopyChunk(pipeline, kept, start, start + count, clba);
      assert AgreeFrom(kept, inner, clba + geo.cb) && Fetched(geo, disk, start, count, old(inner), inner);
      if piece.None? {
        NotInside(|disk|, start, count, clba);
        return None, kept;
      }
      JoinPiece(disk, kept, start, count, clba, assembled, piece.value);
      r := Some(assembled + piece.value);
      still := EvictBeyond(disk, kept, start, Min(start + count, clba + geo.cb), clba + geo.cb, r.value);
      ProgressNext(disk, still, start, count, clba, r.value);
    }

    lemma JoinPiece(disk: seq<byte>, kept: map<nat, seq<byte>>, start: nat, count: nat, clba: nat,
                    assembled: seq<byte>, piece: seq<byte>)
      requires geo.Valid() && Progress(disk, kept, start, count, clba, assembled)
      requires clba <= geo.LastChunk(start, count)
      requires IsBlocks(geo, geo.View(disk, kept), Max(start, clba), Min(start + count, clba + geo.cb), piece)
      ensures IsBlocks(geo, geo.View(disk, kept), start, Min(start + count, clba + geo.cb), assembled + piece)
    {
      ProgressIs(disk, kept, start, count, clba, assembled);
      var first, next := geo.FirstChunk(start), Min(start + count, clba + geo.cb);
      geo.ChunksApart(first, clba);
      if clba == first {
        assert assembled + piece == piece;
      } else {
        JoinBlocks(geo, geo.View(disk, kept), start, Min(clba, start + count), next, assembled, piece);
      }
    }

    /** Reads through the cache, with entries dropped at any moment. `kept` are the old entries that were
        still there when the loop came to them: the answer is what the medium looks like through those. */
    method ReadBlocks(pipeline: Pipeline.Pipeline, start: nat, count: nat)
      returns (r: Option<seq<byte>>, ghost kept: map<nat, seq<byte>>)
      requires geo.Valid() && pipeline.Valid() && pipeline.blockSize == geo.bs
      requires geo.WellFormed(inner, |pipeline.target.disk|)
      modifies this
      ensures SubMap(kept, old(inner))
      ensures r.Some? <==> geo.SpanFits(|pipeline.target.disk|, start, count)
      ensures r.Some? ==> r.value == ReadThrough(geo, pipeline.target.disk, kept, start, count)
      ensures Fetched(geo, pipeline.target.disk, start, count, old(inner), inner)
    {
      var endLba := start + count;
      var firstChunk := ChunkLba(start);
      var lastChunk := ChunkLba(if endLba == 0 then 0 else endLba - 1);
      ghost var disk := pipeline.target.disk;
      Evict();
      r, kept := Some([]), inner;
      var clba := firstChunk;
      ProgressStart(disk, kept, start, count);
      while clba <= lastChunk
        invariant r.Some? && Progress(disk, kept, start, count, clba, r.value)
        invariant SubMap(kept, old(inner)) && AgreeFrom(kept, inner, clba)
        invariant Fetched(geo, disk, start, count, old(inner), inner)
        decreases lastChunk + geo.cb - clba
      {
        ghost var before := inner;
        r, kept := VisitChunk(pipeline, kept, start, count, clba, r.value);
        FetchedThen(geo, disk, start, count, old(inner), before, inner);
        if r.None? {
          return;
        }
        clba := clba + geo.cb;
      }
      Finished(disk, kept, start, count, clba, r.value);
    }

    /** Removes every chunk that meets [start, start + count) and no other. */
    method InvalidateRange(start: nat, count: nat)
      requires geo.Valid()
      modifies this
      ensures inner == Without(geo, old(inner), start, count)
    {
      var endLba := start + count;
      var firstChunk := ChunkLba(start);
      var lastChunk := ChunkLba(if endLba == 0 then 0 else endLba - 1);
      var clba := firstChunk;
      NothingCleared(geo, inner, firstChunk);
      while clba <= lastChunk
        invariant geo.IsChunk(clba) && firstChunk <= clba && clba - geo.cb <= lastChunk
        invariant inner == Cleared(geo, old(inner), firstChunk, clba)
        decreases lastChunk + geo.cb - clba
      {
        ClearedMore(geo, old(inner), firstChunk, clba);
        inner := inner - {clba};
        clba := clba + geo.cb;
      }
      ClearedAll(geo, old(inner), start, count, clba);
    }

    /** The readahead task: fetches the chunks of a block range in turn and stops at the first that fails. */
    method Prefetch(pipeline: Pipeline.Pipeline, lba: nat, blocks: nat)
      requires geo.Valid() && pipeline.Valid() && pipeline.blockSize == geo.bs
      requires geo.WellFormed(inner, |pipeline.target.disk|)
      modifies this
      ensures Fetched(geo, pipeline.target.disk, lba, blocks, old(inner), inner)
    {
      var endLba := lba + blocks;
      var clba := ChunkLba(lba);
      while clba < endLba
        invariant geo.IsChunk(clba) && geo.FirstChunk(lba) <= clba
        invariant Fetched(geo, pipeline.target.disk, lba, blocks, old(inner), inner)
      {
        ghost var before := inner;
        ghost var last := geo.LastChunk(lba, blocks);
        geo.ChunksApart(last, clba);
        var r := TryGetWith(pipeline, clba);
        FetchedThen(geo, pipeline.target.disk, lba, blocks, old(inner), before, inner);
        if r.None? {
          break;
        }
        clba := clba + geo.cb;
      }
    }
  }
}
