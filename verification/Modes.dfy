/** Sync and coalescing mode: which of them the worker is in, and where a write's bytes are when it is answered. */
module Modes {
  import opened Arithmetic
  import opened Bytes
  import opened Cache
  import opened DirtyMap
  import opened Wrappers
  import opened BlockSpec
  import opened BlockRefinement

  /** The mode asked for last, or the initial one. */
  function LastMode(initial: bool, events: seq<Event>): bool {
    if events == [] then initial
    else
      var last := events[|events| - 1];
      if last.SetSync? then last.enabled else LastMode(initial, events[..|events| - 1])
  }

  lemma ModeAfter(c: Config, s: State, e: Event, s2: State)
    requires c.Valid() && WellFormed(c, s) && Step(c, s, e, s2)
    ensures s2.sync == if e.SetSync? then e.enabled else s.sync
  {
    if e.Read? {
      var kept :| ReadWith(c, s, e.offset, e.size, kept, e.reply, s2);
    }
  }

  /** At every moment of every run the mode is the one asked for last. */
  lemma {:induction false} ModeIsLastAsked(c: Config, states: seq<State>, events: seq<Event>, j: nat)
    requires c.Valid() && IsRun(c, states, events) && j <= |events|
    ensures states[j].sync == LastMode(states[0].sync, events[..j])
  {
    if j > 0 {
      ModeIsLastAsked(c, states, events, j - 1);
      ModeAfter(c, states[j - 1], events[j - 1], states[j]);
      assert events[..j][..j - 1] == events[..j - 1];
    }
  }

  /** A write that has bytes for the device. */
  predicate HasBytes(c: Config, e: Event) {
    e.Write? && e.data != [] && e.wOffset < c.Total()
  }

  lemma SyncWriteFlushes(c: Config, s: State, e: Event, s2: State)
    requires c.Valid() && WellFormed(c, s) && Step(c, s, e, s2) && HasBytes(c, e) && s.sync && e.wReply.Some?
    ensures s2.dirty == map[]
  {
  }

  /** Sync mode, from whenever it was asked for: over every guarded run, once a write has been answered nothing is
      dirty and the medium is the flat device with all writes so far, however the run began. */
  lemma SyncWritesAreOnMedium(c: Config, states: seq<State>, events: seq<Event>, flat: seq<byte>, j: nat)
    requires c.Valid() && IsRun(c, states, events) && Disciplined(c, states, events) && Inv(c, states[0], flat)
    requires j < |events| && HasBytes(c, events[j]) && LastMode(states[0].sync, events[..j])
    ensures states[j + 1].dirty == map[] && states[j + 1].disk == FlatRun(flat, events[..j + 1])
  {
    ModeIsLastAsked(c, states, events, j);
    DisciplinedRunIsFlat(c, states, events, flat);
    RunKeeps(c, states, events, flat, j + 1);
    assert Answered(c, FlatRun(flat, events[..j]), events[j]);
    SyncWriteFlushes(c, states[j], events[j], states[j + 1]);
    NothingDirty(c, states[j + 1], FlatRun(flat, events[..j + 1]));
  }

  // -- Coalescing mode -------------------------------------------------------

  /** The bytes of the blocks that a write touches. */
  function BlockBytes(c: Config, e: Event): int
    requires c.Valid() && HasBytes(c, e)
  {
    var n := Min(|e.data|, c.Total() - e.wOffset);
    (EndBlock(e.wOffset, n, c.g.bs) - e.wOffset / c.g.bs) * c.g.bs
  }

  /** What is put in the buffer is no more than the blocks touched. */
  lemma DataWithinBlocks(c: Config, s: State, offset: nat, d: seq<byte>)
    requires c.Valid() && WellFormed(c, s) && d != [] && WriteData(c, s, offset, d).Some?
    ensures |WriteData(c, s, offset, d).value| <= (EndBlock(offset, |d|, c.g.bs) - offset / c.g.bs) * c.g.bs
  {
    var bs, r := c.g.bs, ComputeAlignment(offset, |d|, c.g.bs);
    AlignmentIsSmallest(offset, |d|, bs);
    if r.skip == 0 && |d| % bs == 0 {
      AlignedRange(offset, |d|, bs);
    } else {
      MulMono(r.count, EndBlock(offset, |d|, bs) - r.start, bs);
    }
  }

  lemma BelowThreshold(c: Config, s: State, r: Range, wd: seq<byte>, room: int)
    requires c.Valid() && |wd| <= room && DirtyBytes(s.dirty) + room < c.coalesceMax
    ensures DirtyBytes(Buffered(c, s, r, wd).dirty) < c.coalesceMax
  {
    DirtyBytesInsert(s.dirty, r.start, Entry(wd, r.count));
  }

  /** Coalescing mode, from whenever it was asked for: over every run, a write that together with what is dirty
      already stays below the threshold leaves the medium as it was, and its bytes are in the buffer. */
  lemma CoalescedWritesAreBuffered(c: Config, states: seq<State>, events: seq<Event>, j: nat)
    requires c.Valid() && IsRun(c, states, events)
    requires j < |events| && HasBytes(c, events[j]) && events[j].wReply.Some? && !LastMode(states[0].sync, events[..j])
    requires DirtyBytes(states[j].dirty) + BlockBytes(c, events[j]) < c.coalesceMax
    ensures states[j + 1].disk == states[j].disk && events[j].wOffset / c.g.bs in states[j + 1].dirty
  {
    var s, e := states[j], events[j];
    ModeIsLastAsked(c, states, events, j);
    var d := e.data[..Min(|e.data|, c.Total() - e.wOffset)];
    DataPrepared(c, s, e.wOffset, e.data, d, e.wReply, states[j + 1]);
    var r, wd := ComputeAlignment(e.wOffset, |d|, c.g.bs), WriteData(c, s, e.wOffset, d).value;
    DataWithinBlocks(c, s, e.wOffset, d);
    BelowThreshold(c, s, r, wd, BlockBytes(c, e));
    StaysBuffered(c, s, e.wOffset, e.data, d, r, wd, e.wReply, states[j + 1]);
  }

  lemma DataPrepared(c: Config, s: State, offset: nat, data: seq<byte>, d: seq<byte>, reply: Option<nat>, s2: State)
    requires c.Valid() && WellFormed(c, s) && data != [] && offset < c.Total() && reply.Some?
    requires d == data[..Min(|data|, c.Total() - offset)] && Wrote(c, s, offset, data, reply, s2)
    ensures WriteData(c, s, offset, d).Some?
  {
  }

  lemma StaysBuffered(c: Config, s: State, offset: nat, data: seq<byte>, d: seq<byte>, r: Range, wd: seq<byte>,
                      reply: Option<nat>, s2: State)
    requires c.Valid() && WellFormed(c, s) && !s.sync && data != [] && offset < c.Total()
    requires d == data[..Min(|data|, c.Total() - offset)] && r == ComputeAlignment(offset, |d|, c.g.bs)
    requires WriteData(c, s, offset, d) == Some(wd) && DirtyBytes(Buffered(c, s, r, wd).dirty) < c.coalesceMax
    requires Wrote(c, s, offset, data, reply, s2)
    ensures s2 == Buffered(c, s, r, wd)
  {
  }
}
