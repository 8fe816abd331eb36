/** The worker that serves block requests (block/mod.rs, BlockDeviceWorker), proved to take the steps of BlockSpec. */
module Block {
  import opened Arithmetic
  import opened Bytes
  import opened Cache
  import opened DirtyMap
  import opened Overlay
  import opened Pipeline
  import opened Sealing
  import opened Wrappers
  import opened BlockSpec
  import opened BlockRefinement
  import Modes

  datatype Request =
    | ReadReq(offset: nat, size: u32)
    | WriteReq(offset: nat, data: seq<byte>)
    | FlushReq
    | SetSyncReq(enabled: bool)

  datatype Reply =
    | Data(bytes: Option<seq<byte>>)
    | Length(n: Option<nat>)
    | Done

  /** What the caller of an event asked and was told; background events have no caller. */
  function Seen(e: Event): Option<(Request, Reply)> {
    match e
    case Read(offset, size, reply) => Some((ReadReq(offset, size), Data(reply)))
    case Write(offset, data, reply) => Some((WriteReq(offset, data), Length(reply)))
    case Flush => Some((FlushReq, Done))
    case SetSync(enabled) => Some((SetSyncReq(enabled), Done))
    case _ => None
  }

  function Conversation(events: seq<Event>): seq<(Request, Reply)> {
    if events == [] then []
    else
      var last := Seen(events[|events| - 1]);
      Conversation(events[..|events| - 1]) + if last.Some? then [last.value] else []
  }

  /** The mode that the callers asked for last, or the initial one. */
  function LastRequested(initial: bool, requests: seq<Request>): bool {
    if requests == [] then initial
    else
      var last := requests[|requests| - 1];
      if last.SetSyncReq? then last.enabled else LastRequested(initial, requests[..|requests| - 1])
  }

  /** Only callers change the mode. */
  lemma {:induction false} ModeIsRequested(initial: bool, events: seq<Event>, requests: seq<Request>, replies: seq<Reply>)
    requires |requests| == |replies| && Conversation(events) == Paired(requests, replies)
    ensures Modes.LastMode(initial, events) == LastRequested(initial, requests)
    decreases |events|
  {
    if events == [] {
      assert requests == [];
    } else {
      var front, last := events[..|events| - 1], events[|events| - 1];
      if Seen(last).None? {
        ModeIsRequested(initial, front, requests, replies);
      } else {
        PairedFront(requests, replies, Conversation(front), Seen(last).value);
        ModeIsRequested(initial, front, requests[..|requests| - 1], replies[..|requests| - 1]);
      }
    }
  }

  /** At the end of a run the mode is the one requested last. */
  lemma RunEndsInMode(c: Config, states: seq<State>, events: seq<Event>, requests: seq<Request>, replies: seq<Reply>)
    requires c.Valid() && IsRun(c, states, events)
    requires |requests| == |replies| && Conversation(events) == Paired(requests, replies)
    ensures states[|events|].sync == LastRequested(states[0].sync, requests)
  {
    Modes.ModeIsLastAsked(c, states, events, |events|);
    assert events[..|events|] == events;
    ModeIsRequested(states[0].sync, events, requests, replies);
  }

  // -- What the flat device replies ------------------------------------------

  function FlatServed(flat: seq<byte>, requests: seq<Request>): (r: seq<byte>)
    ensures |r| == |flat|
  {
    if requests == [] then flat
    else
      var before, last := FlatServed(flat, requests[..|requests| - 1]), requests[|requests| - 1];
      if last.WriteReq? then FlatWrite(before, last.offset, last.data) else before
  }

  /** The reply a flat device holding `flat` gives; a read may fail, but only for want of a whole last chunk. */
  ghost predicate Proper(c: Config, flat: seq<byte>, request: Request, reply: Reply)
    requires c.Valid()
  {
    match request
    case ReadReq(offset, size) =>
      reply == Data(Some(FlatRead(flat, offset, size))) || (reply == Data(None) && !ReadFits(c, offset, size))
    case WriteReq(offset, data) =>
      reply == Length(Some(if offset >= c.Total() then 0 else Min(|data|, c.Total() - offset)))
    case _ => reply == Done
  }

  ghost predicate AllProper(c: Config, flat: seq<byte>, requests: seq<Request>, replies: seq<Reply>)
    requires c.Valid() && |requests| == |replies|
  {
    forall i :: 0 <= i < |requests| ==> Proper(c, FlatServed(flat, requests[..i]), requests[i], replies[i])
  }

  /** Every reply is the flat device's after the requests before it, and the medium ends as that device. */
  ghost predicate ServedAsFlat(c: Config, flat: seq<byte>, requests: seq<Request>, replies: seq<Reply>, disk: seq<byte>)
    requires c.Valid() && |requests| == |replies|
  {
    disk == FlatServed(flat, requests) && AllProper(c, flat, requests, replies)
  }

  /** Sync mode, nothing dirty, and a cache that agrees with the medium. */
  ghost predicate SyncStart(c: Config, s: State)
    requires c.Valid()
  {
    WellFormed(c, s) && s.sync && s.dirty == map[] && c.g.Coherent(s.disk, s.cache)
  }

  /** Lengths that 32 bits do not cut, and staying in sync mode. */
  ghost predicate SyncRequest(c: Config, request: Request)
    requires c.Valid()
  {
    match request
    case ReadReq(offset, size) => SyncGuard(c, Read(offset, size, None))
    case WriteReq(offset, data) => SyncGuard(c, Write(offset, data, None))
    case FlushReq => true
    case SetSyncReq(enabled) => enabled
  }

  /** An event with a caller is one of the exchanges. */
  lemma {:induction false} SeenIsExchanged(events: seq<Event>, j: nat)
    requires j < |events| && Seen(events[j]).Some?
    ensures Seen(events[j]).value in Conversation(events)
  {
    if j < |events| - 1 {
      SeenIsExchanged(events[..|events| - 1], j);
    }
  }

  lemma PairedAt(requests: seq<Request>, replies: seq<Reply>, x: (Request, Reply))
    requires |requests| == |replies| && x in Paired(requests, replies)
    ensures x.0 in requests
  {
    var i :| 0 <= i < |requests| && Paired(requests, replies)[i] == x;
    assert requests[i] == x.0;
  }

  lemma GuardOfSeen(c: Config, e: Event)
    requires c.Valid() && (Seen(e).Some? ==> SyncRequest(c, Seen(e).value.0))
    ensures SyncGuard(c, e)
  {
  }

  lemma GuardsFollow(c: Config, events: seq<Event>, requests: seq<Request>, replies: seq<Reply>)
    requires c.Valid() && |requests| == |replies| && Conversation(events) == Paired(requests, replies)
    requires forall i :: 0 <= i < |requests| ==> SyncRequest(c, requests[i])
    ensures forall j :: 0 <= j < |events| ==> SyncGuard(c, events[j])
  {
    forall j | 0 <= j < |events|
      ensures SyncGuard(c, events[j])
    {
      if Seen(events[j]).Some? {
        SeenIsExchanged(events, j);
        PairedAt(requests, replies, Seen(events[j]).value);
      }
      GuardOfSeen(c, events[j]);
    }
  }

  /** A right answer to an event is a right reply to its request. */
  lemma SeenIsProper(c: Config, flat: seq<byte>, e: Event)
    requires c.Valid() && Answered(c, flat, e)
    ensures Seen(e).None? ==> FlatAfter(flat, e) == flat
    ensures Seen(e).Some? ==> var (request, reply) := Seen(e).value;
      Proper(c, flat, request, reply) && FlatAfter(flat, e) == FlatServed(flat, [request])
  {
    if Seen(e).Some? {
      assert [Seen(e).value.0][..0] == [];
    }
  }

  /** Right answers to all events are right replies to all requests. */
  lemma {:induction false} ExchangesAreProper(c: Config, flat: seq<byte>, events: seq<Event>,
                                              requests: seq<Request>, replies: seq<Reply>)
    requires c.Valid() && |requests| == |replies| && Conversation(events) == Paired(requests, replies)
    requires forall i :: 0 <= i < |events| ==> Answered(c, FlatRun(flat, events[..i]), events[i])
    ensures FlatRun(flat, events) == FlatServed(flat, requests) && AllProper(c, flat, requests, replies)
    decreases |events|
  {
    if events == [] {
      assert requests == [];
    } else {
      var front, last := events[..|events| - 1], events[|events| - 1];
      assert forall i :: 0 <= i < |front| ==> front[..i] == events[..i];
      SeenIsProper(c, FlatRun(flat, front), last);
      if Seen(last).None? {
        ExchangesAreProper(c, flat, front, requests, replies);
      } else {
        var n := |requests| - 1;
        PairedFront(requests, replies, Conversation(front), Seen(last).value);
        ExchangesAreProper(c, flat, front, requests[..n], replies[..n]);
        OneMoreServed(flat, requests);
        OneMoreProper(c, flat, requests, replies);
      }
    }
  }

  lemma OneMoreServed(flat: seq<byte>, requests: seq<Request>)
    requires requests != []
    ensures var n := |requests| - 1;
      FlatServed(flat, requests) == FlatServed(FlatServed(flat, requests[..n]), [requests[n]])
  {
    assert [requests[|requests| - 1]][..0] == [];
  }

  lemma OneMoreProper(c: Config, flat: seq<byte>, requests: seq<Request>, replies: seq<Reply>)
    requires c.Valid() && |requests| == |replies| > 0
    requires var n := |requests| - 1;
      && Proper(c, FlatServed(flat, requests[..n]), requests[n], replies[n])
      && AllProper(c, flat, requests[..n], replies[..n])
    ensures AllProper(c, flat, requests, replies)
  {
    var n := |requests| - 1;
    forall i | 0 <= i < n
      ensures Proper(c, FlatServed(flat, requests[..i]), requests[i], replies[i])
    {
      assert requests[..n][..i] == requests[..i];
      assert Proper(c, FlatServed(flat, requests[..n][..i]), requests[..n][i], replies[..n][i]);
    }
  }

  lemma PairedFront(requests: seq<Request>, replies: seq<Reply>, front: seq<(Request, Reply)>, last: (Request, Reply))
    requires |requests| == |replies| && Paired(requests, replies) == front + [last]
    ensures var n := |requests| - 1;
      n >= 0 && front == Paired(requests[..n], replies[..n]) && last == (requests[n], replies[n])
  {
    var all, n := front + [last], |requests| - 1;
    assert |all| == |requests| && all[n] == last && all[n] == Paired(requests, replies)[n];
    assert front == all[..n] == Paired(requests, replies)[..n];
  }

  /** The whole worker in sync mode: whatever happens between the requests, every reply is that of a flat byte
      array with the clamped writes before it applied in order, and the medium ends up being that array. */
  lemma RepliesAreFlat(c: Config, states: seq<State>, events: seq<Event>, requests: seq<Request>, replies: seq<Reply>)
    requires c.Valid() && IsRun(c, states, events) && SyncStart(c, states[0])
    requires |requests| == |replies| && Conversation(events) == Paired(requests, replies)
    requires forall i :: 0 <= i < |requests| ==> SyncRequest(c, requests[i])
    ensures ServedAsFlat(c, states[0].disk, requests, replies, states[|events|].disk)
  {
    GuardsFollow(c, events, requests, replies);
    SyncRunIsFlat(c, states, events);
    ExchangesAreProper(c, states[0].disk, events, requests, replies);
    assert events[..|events|] == events;
  }

  // -- The record of a run ---------------------------------------------------

  /** A run from one state to another, in which the callers asked and were told just this. */
  ghost predicate Records(c: Config, states: seq<State>, events: seq<Event>, first: State, now: State,
                          talk: seq<(Request, Reply)>)
    requires c.Valid()
  {
    forall n: nat {:trigger Look(n)} :: Look(n) ==>
      IsRun(c, states, events) && states[0] == first && states[|events|] == now && Conversation(events) == talk
  }

  lemma RecordsAre(c: Config, states: seq<State>, events: seq<Event>, first: State, now: State, talk: seq<(Request, Reply)>)
    requires c.Valid() && Records(c, states, events, first, now, talk)
    ensures IsRun(c, states, events) && states[0] == first && states[|events|] == now && Conversation(events) == talk
  {
    assert Look(0);
  }

  lemma NothingRecorded(c: Config, s: State)
    requires c.Valid()
    ensures Records(c, [s], [], s, s, [])
  {
  }

  lemma RecordsMore(c: Config, states: seq<State>, events: seq<Event>, first: State, now: State,
                    talk: seq<(Request, Reply)>, e: Event, s2: State)
    requires c.Valid() && Records(c, states, events, first, now, talk) && WellFormed(c, now) && Step(c, now, e, s2)
    ensures Records(c, states + [s2], events + [e], first, s2, talk + if Seen(e).Some? then [Seen(e).value] else [])
  {
    RecordsAre(c, states, events, first, now, talk);
    RunSnoc(c, states, events, e, s2);
    ConversationSnoc(events, e);
  }

  class BlockDeviceWorker {
    const pipeline: Pipeline
    const cache: BlockCache
    const dirty: DirtyMap
    const blockSize: nat
    const totalBlocks: nat
    const coalesceMaxBytes: nat
    var syncWrites: bool

    predicate Wired() {
      && pipeline.Valid() && cache.geo.Valid()
      && pipeline.blockSize == blockSize && cache.geo.bs == blockSize
    }

    ghost function Cfg(): (c: Config)
      requires Wired()
      ensures c.Valid()
    {
      Config(cache.geo, totalBlocks, pipeline.MaxBlocks(), coalesceMaxBytes)
    }

    ghost function Snapshot(): State
      reads this, cache, dirty, pipeline.target
    {
      State(pipeline.target.disk, cache.inner, dirty.entries, syncWrites)
    }

    ghost predicate Valid()
      reads this, cache, dirty, pipeline.target
    {
      Wired() && dirty.Valid() && WellFormed(Cfg(), Snapshot())
    }

    constructor (pipeline: Pipeline, cache: BlockCache, totalBlocks: nat, coalesceMaxBytes: nat, syncWrites: bool)
      requires pipeline.Valid() && cache.geo.Valid() && cache.geo.bs == pipeline.blockSize && cache.inner == map[]
      requires |pipeline.target.disk| == totalBlocks * pipeline.blockSize
      ensures Valid() && this.pipeline == pipeline && this.cache == cache && this.syncWrites == syncWrites
      ensures this.totalBlocks == totalBlocks && dirty.entries == map[] && fresh(dirty)
    {
      this.pipeline, this.cache := pipeline, cache;
      this.blockSize, this.totalBlocks := pipeline.blockSize, totalBlocks;
      this.coalesceMaxBytes, this.syncWrites := coalesceMaxBytes, syncWrites;
      dirty := new DirtyMap();
    }

    method HandleRead(offset: nat, size: u32) returns (reply: Option<seq<byte>>)
      requires Valid()
      modifies cache
      ensures Valid() && ReadStep(Cfg(), old(Snapshot()), offset, size, reply, Snapshot())
    {
      var totalBytes := totalBlocks * blockSize;
      ghost var s := Snapshot();
      if size == 0 || offset >= totalBytes {
        assert ReadWith(Cfg(), s, offset, size, map[], Some([]), Snapshot());
        return Some([]);
      }
      var actual := ReadLength(totalBytes, offset, size);
      var r := ComputeAlignment(offset, actual, blockSize);
      var hit := dirty.Lookup(r.start, r.count, blockSize);
      if hit.Some? && r.skip + actual <= |hit.value| {
        reply := Some(hit.value[r.skip..r.skip + actual]);
        assert ReadWith(Cfg(), s, offset, size, map[], reply, Snapshot());
        return;
      }
      ghost var kept;
      var data;
      data, kept := cache.ReadBlocks(pipeline, r.start, r.count);
      reply := None;
      if data.Some? && r.skip + actual <= |data.value| {
        reply := Some(data.value[r.skip..r.skip + actual]);
      }
      FetchedIsWellFormed(Cfg(), s, r.start, r.count, cache.inner);
      assert ReadWith(Cfg(), s, offset, size, kept, reply, Snapshot());
    }

    /** Drains the dirty map and lets the write commands of all entries complete in any order. */
    method FlushDirty() returns (ok: bool)
      requires Valid()
      modifies dirty, pipeline.target
      ensures ok && Valid() && Flushed(Cfg(), old(Snapshot()), Snapshot())
    {
      ghost var c, s := Cfg(), Snapshot();
      if dirty.IsEmpty() {
        return true;
      }
      var items := dirty.DrainSorted();
      var jobs := SplitAll(items);
      DrainFits(c, s, items);
      ghost var order;
      ok, order := pipeline.target.Complete(jobs);
      assert FlushWith(c, s, items, order, Snapshot());
    }

    /** The bytes to buffer for a write: the data itself, or the blocks read from the medium with it laid over. */
    method PrepareWrite(r: Range, data: seq<byte>) returns (wd: Option<seq<byte>>)
      requires Wired() && data != []
      ensures wd == Overlaid(blockSize, pipeline.target.disk, r, data)
    {
      if r.skip == 0 && |data| % blockSize == 0 {
        return Some(data);
      }
      var existing := pipeline.ScsiRead(r.start, r.count);
      if existing.None? {
        return None;
      }
      var endInBuf := r.skip + |data|;
      if endInBuf > |existing.value| {
        return None;
      }
      assert r.count > 0;
      wd := Some(Splice(existing.value, r.skip, data));
    }

    method HandleWrite(offset: nat, data: seq<byte>) returns (reply: Option<nat>)
      requires Valid()
      modifies dirty, cache, pipeline.target
      ensures Valid() && Wrote(Cfg(), old(Snapshot()), offset, data, reply, Snapshot())
    {
      ghost var c, s := Cfg(), Snapshot();
      var totalBytes := totalBlocks * blockSize;
      if data == [] || offset >= totalBytes {
        return Some(0);
      }
      var actual := Min(|data|, totalBytes - offset);
      var d := data[..actual];
      var r := ComputeAlignment(offset, actual, blockSize);
      var wd := PrepareWrite(r, d);
      if wd.None? {
        return None;
      }
      dirty.Insert(r.start, r.count, wd.value);
      cache.InvalidateRange(r.start, r.count);
      BufferedIsWellFormed(c, s, offset, d);
      ghost var s1 := Snapshot();
      assert s1 == Buffered(c, s, r, wd.value);
      reply := Some(actual % 0x1_0000_0000);
      if syncWrites || dirty.totalBytes >= coalesceMaxBytes {
        var ok := FlushDirty();
        if !ok {
          reply := None;
        }
      }
    }

    /** Serves `requests` in order. Between any two of them the coalescing timer may fire, a readahead may
        fetch chunks and the cache may drop entries, any number of times: `states` and `events` record the run. */
    method Run(requests: seq<Request>)
      returns (replies: seq<Reply>, ghost states: seq<State>, ghost events: seq<Event>)
      requires Valid()
      modifies this, dirty, cache, pipeline.target
      ensures Valid() && |replies| == |requests|
      ensures IsRun(Cfg(), states, events)
      ensures states[0] == old(Snapshot()) && states[|events|] == Snapshot()
      ensures Conversation(events) == Paired(requests, replies)
      ensures states[|events|].dirty == map[] && syncWrites == LastRequested(old(syncWrites), requests)
      ensures SyncStart(Cfg(), old(Snapshot())) && (forall i :: 0 <= i < |requests| ==> SyncRequest(Cfg(), requests[i])) ==>
        ServedAsFlat(Cfg(), old(Snapshot()).disk, requests, replies, Snapshot().disk)
    {
      replies, states, events := [], [Snapshot()], [];
      ghost var first := Snapshot();
      NothingRecorded(Cfg(), first);
      var i := 0;
      while i < |requests|
        invariant 0 <= i <= |requests| && |replies| == i && Valid()
        invariant Records(Cfg(), states, events, first, Snapshot(), Paired(requests[..i], replies))
      {
        var reply;
        reply, states, events := ServeNext(requests[i], states, events, first, Paired(requests[..i], replies));
        PairedSnoc(requests, replies, i, reply);
        replies := replies + [reply];
        i := i + 1;
      }
      assert requests[..i] == requests;
      // The channel is closed: what is still dirty is flushed.
      states, events := FinalFlush(states, events, first, Paired(requests, replies));
      RecordsAre(Cfg(), states, events, first, Snapshot(), Paired(requests, replies));
      RunEndsInMode(Cfg(), states, events, requests, replies);
      if SyncStart(Cfg(), states[0]) && forall i :: 0 <= i < |requests| ==> SyncRequest(Cfg(), requests[i]) {
        RepliesAreFlat(Cfg(), states, events, requests, replies);
      }
    }

    method FinalFlush(ghost states0: seq<State>, ghost events0: seq<Event>, ghost first: State,
                      ghost talk: seq<(Request, Reply)>)
      returns (ghost states: seq<State>, ghost events: seq<Event>)
      requires Valid() && Records(Cfg(), states0, events0, first, Snapshot(), talk)
      modifies dirty, pipeline.target
      ensures Valid() && Records(Cfg(), states, events, first, Snapshot(), talk) && dirty.entries == map[]
    {
      ghost var now := Snapshot();
      var _ := FlushDirty();
      RecordsMore(Cfg(), states0, events0, first, now, talk, Tick, Snapshot());
      assert talk + [] == talk;
      states, events := states0 + [Snapshot()], events0 + [Tick];
    }

    /** What goes on in the background, then one request. */
    method ServeNext(request: Request, ghost states0: seq<State>, ghost events0: seq<Event>, ghost first: State,
                     ghost talk: seq<(Request, Reply)>)
      returns (reply: Reply, ghost states: seq<State>, ghost events: seq<Event>)
      requires Valid() && Records(Cfg(), states0, events0, first, Snapshot(), talk)
      modifies this, dirty, cache, pipeline.target
      ensures Valid() && Records(Cfg(), states, events, first, Snapshot(), talk + [(request, reply)])
    {
      states, events := Background(states0, events0, first, talk);
      ghost var now := Snapshot();
      ghost var e;
      reply, e := Serve(request);
      RecordsMore(Cfg(), states, events, first, now, talk, e, Snapshot());
      states, events := states + [Snapshot()], events + [e];
    }

    method Serve(request: Request) returns (reply: Reply, ghost e: Event)
      requires Valid()
      modifies this, dirty, cache, pipeline.target
      ensures Valid() && Step(Cfg(), old(Snapshot()), e, Snapshot())
      ensures Seen(e) == Some((request, reply))
    {
      match request
      case ReadReq(offset, size) =>
        var r := HandleRead(offset, size);
        reply, e := Data(r), Read(offset, size, r);
      case WriteReq(offset, data) =>
        var n := HandleWrite(offset, data);
        reply, e := Length(n), Write(offset, data, n);
      case FlushReq =>
        var _ := FlushDirty();
        reply, e := Done, Flush;
      case SetSyncReq(enabled) =>
        syncWrites := enabled;
        reply, e := Done, SetSync(enabled);
    }

    /** Any number of timer ticks, readaheads and evictions. */
    method Background(ghost states0: seq<State>, ghost events0: seq<Event>, ghost first: State,
                      ghost talk: seq<(Request, Reply)>)
      returns (ghost states: seq<State>, ghost events: seq<Event>)
      requires Valid() && Records(Cfg(), states0, events0, first, Snapshot(), talk)
      modifies dirty, cache, pipeline.target
      ensures Valid() && Records(Cfg(), states, events, first, Snapshot(), talk)
    {
      states, events := states0, events0;
      var rounds: nat := *;
      while rounds > 0
        invariant Valid() && Records(Cfg(), states, events, first, Snapshot(), talk)
      {
        ghost var now := Snapshot();
        ghost var e := BackgroundStep();
        RecordsMore(Cfg(), states, events, first, now, talk, e, Snapshot());
        assert talk + [] == talk;
        states, events := states + [Snapshot()], events + [e];
        rounds := rounds - 1;
      }
    }

    method BackgroundStep() returns (ghost e: Event)
      requires Valid()
      modifies dirty, cache, pipeline.target
      ensures Valid() && Step(Cfg(), old(Snapshot()), e, Snapshot()) && Seen(e).None?
    {
      if * {
        var _ := FlushDirty();
        e := Tick;
      } else if * {
        ghost var s := Snapshot();
        var lba: nat, blocks: nat := *, *;
        cache.Prefetch(pipeline, lba, blocks);
        FetchedIsWellFormed(Cfg(), s, lba, blocks, cache.inner);
        e := Prefetch(lba, blocks);
      } else {
        cache.Evict();
        e := Evict;
      }
    }

    /** One task per drained entry, each splitting its write into commands. */
    method SplitAll(items: seq<Extent>) returns (jobs: seq<Patch>)
      requires Wired()
      ensures jobs == AllJobs(Cfg(), items) && WithinBurst(jobs, pipeline.target.burst)
    {
      jobs := [];
      var i := 0;
      while i < |items|
        invariant 0 <= i <= |items|
        invariant jobs == AllJobs(Cfg(), items[..i]) && WithinBurst(jobs, pipeline.target.burst)
      {
        var one := pipeline.SplitWrite(items[i].lba, items[i].data);
        assert items[..i + 1][..i] == items[..i];
        jobs := jobs + one;
        i := i + 1;
      }
      assert items[..|items|] == items;
    }
  }

  function Paired(requests: seq<Request>, replies: seq<Reply>): seq<(Request, Reply)>
    requires |requests| == |replies|
  {
    seq(|requests|, i requires 0 <= i < |requests| => (requests[i], replies[i]))
  }

  lemma PairedSnoc(requests: seq<Request>, replies: seq<Reply>, i: nat, reply: Reply)
    requires i < |requests| && |replies| == i
    ensures Paired(requests[..i + 1], replies + [reply]) == Paired(requests[..i], replies) + [(requests[i], reply)]
  {
  }

  lemma ConversationSnoc(events: seq<Event>, e: Event)
    ensures Conversation(events + [e]) == Conversation(events) + if Seen(e).Some? then [Seen(e).value] else []
  {
    assert (events + [e])[..|events|] == events;
  }
}
