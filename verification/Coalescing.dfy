/** Runs whose writes are whole blocks with extents pairwise identical or apart, as a caller can see to beforehand. */
module Coalescing {
  import opened Arithmetic
  import opened Bytes
  import opened Cache
  import opened DirtyMap
  import opened Wrappers
  import opened BlockSpec
  import opened BlockRefinement

  /** Whole blocks inside the device. */
  ghost predicate WholeWrite(c: Config, e: Event)
    requires c.Valid()
  {
    e.Write? ==>
      && e.wOffset % c.g.bs == 0
      && |e.data| % c.g.bs == 0
      && 0 < |e.data| < 0x1_0000_0000
      && e.wOffset + |e.data| <= c.Total()
  }

  ghost predicate SameOrApart(e: Event, f: Event) {
    e.Write? && f.Write? ==>
      || (e.wOffset == f.wOffset && |e.data| == |f.data|)
      || e.wOffset + |e.data| <= f.wOffset
      || f.wOffset + |f.data| <= e.wOffset
  }

  /** An entry at block `k` of `count` blocks has the extent of one of the writes. */
  ghost predicate IsOfWrite(bs: nat, events: seq<Event>, k: nat, count: nat) {
    exists j :: 0 <= j < |events| && HasExtent(bs, events[j], k, count)
  }

  ghost predicate HasExtent(bs: nat, e: Event, k: nat, count: nat) {
    e.Write? && e.wOffset == k * bs && |e.data| == count * bs
  }

  ghost predicate OfWrites(bs: nat, events: seq<Event>, dirty: Entries) {
    forall k :: k in dirty ==> IsOfWrite(bs, events, k, dirty[k].count)
  }

  lemma OfMoreWrites(bs: nat, events: seq<Event>, e: Event, dirty: Entries)
    requires OfWrites(bs, events, dirty)
    ensures OfWrites(bs, events + [e], dirty)
  {
    forall k | k in dirty
      ensures IsOfWrite(bs, events + [e], k, dirty[k].count)
    {
      var j :| 0 <= j < |events| && HasExtent(bs, events[j], k, dirty[k].count);
      assert HasExtent(bs, (events + [e])[j], k, dirty[k].count);
    }
  }

  /** The blocks of a write of whole blocks are its extent. */
  lemma WholeExtent(c: Config, e: Event)
    requires c.Valid() && e.Write? && WholeWrite(c, e)
    ensures var r := ComputeAlignment(e.wOffset, |e.data|, c.g.bs);
      && HasExtent(c.g.bs, e, r.start, r.count) && r.skip == 0
      && r.start + r.count == EndBlock(e.wOffset, |e.data|, c.g.bs)
  {
    AlignmentIsSmallest(e.wOffset, |e.data|, c.g.bs);
    AlignmentFits(e.wOffset, |e.data|, c.g.bs);
    AlignedRange(e.wOffset, |e.data|, c.g.bs);
  }

  lemma StepOfWrites(c: Config, s: State, e: Event, s2: State, events: seq<Event>)
    requires c.Valid() && WellFormed(c, s) && Step(c, s, e, s2) && WholeWrite(c, e)
    requires OfWrites(c.g.bs, events, s.dirty)
    ensures OfWrites(c.g.bs, events + [e], s2.dirty)
  {
    OfMoreWrites(c.g.bs, events, e, s.dirty);
    if e.Write? {
      WholeExtent(c, e);
      assert (events + [e])[|events|] == e;
      assert e.data[..Min(|e.data|, c.Total() - e.wOffset)] == e.data;
    } else if e.Read? {
      ReadLeavesDirty(c, s, e.offset, e.size, e.reply, s2);
    }
  }

  /** What is dirty at any moment of a run has the extents of writes before it. */
  lemma {:induction false} DirtyIsOfWrites(c: Config, states: seq<State>, events: seq<Event>, i: nat)
    requires c.Valid() && IsRun(c, states, events) && states[0].dirty == map[] && i <= |events|
    requires forall j :: 0 <= j < |events| ==> WholeWrite(c, events[j])
    ensures OfWrites(c.g.bs, events[..i], states[i].dirty)
  {
    if i > 0 {
      DirtyIsOfWrites(c, states, events, i - 1);
      StepOfWrites(c, states[i - 1], events[i - 1], states[i], events[..i - 1]);
      assert events[..i] == events[..i - 1] + [events[i - 1]];
    }
  }

  /** Byte extents that are identical or apart belong to block ranges that are. */
  lemma BlocksSameOrApart(bs: nat, k: nat, n: nat, start: nat, count: nat)
    requires bs > 0
    requires
      || (k * bs == start * bs && n * bs == count * bs)
      || k * bs + n * bs <= start * bs
      || start * bs + count * bs <= k * bs
    ensures (k == start && n * bs <= count * bs) || k + n <= start || start + count <= k
  {
    assert (k + n) * bs == k * bs + n * bs && (start + count) * bs == start * bs + count * bs;
    MulStrict(start + count, k, bs);
    MulStrict(k + n, start, bs);
    MulStrict(k, start, bs);
    MulStrict(start, k, bs);
  }

  lemma NextIsSafe(c: Config, dirty: Entries, events: seq<Event>, e: Event)
    requires c.Valid() && e.Write? && WholeWrite(c, e) && OfWrites(c.g.bs, events, dirty)
    requires forall j :: 0 <= j < |events| ==> SameOrApart(events[j], e)
    ensures WriteSafe(c.g.bs, dirty, e.wOffset, |e.data|)
  {
    var bs := c.g.bs;
    var r := ComputeAlignment(e.wOffset, |e.data|, bs);
    WholeExtent(c, e);
    forall k | k in dirty
      ensures
        || r.start + r.count <= k
        || k + dirty[k].count <= r.start
        || (k == r.start && dirty[k].count * bs <= |e.data|)
    {
      var j :| 0 <= j < |events| && HasExtent(bs, events[j], k, dirty[k].count);
      assert SameOrApart(events[j], e);
      BlocksSameOrApart(bs, k, dirty[k].count, r.start, r.count);
    }
  }

  lemma WholeWriteIsGuarded(c: Config, s: State, e: Event, events: seq<Event>)
    requires c.Valid() && e.Write? && WholeWrite(c, e) && OfWrites(c.g.bs, events, s.dirty)
    requires forall j :: 0 <= j < |events| ==> SameOrApart(events[j], e)
    ensures WriteGuard(c, s, e.wOffset, e.data)
  {
    var start, end := e.wOffset / c.g.bs, EndBlock(e.wOffset, |e.data|, c.g.bs);
    NextIsSafe(c, s.dirty, events, e);
    AlignedRange(e.wOffset, |e.data|, c.g.bs);
    assert (end - start) * c.g.bs == end * c.g.bs - start * c.g.bs;
  }

  /** Whole-block writes whose extents are pairwise identical or apart, timer ticks, flushes, evictions and
      changes of mode in any succession: at every moment no two dirty entries share a block, the medium
      with the dirty entries laid over it is the flat device with all writes so far, and every flush, in
      whatever order its write commands finish, makes the medium that device. Reads and prefetches in
      between are right as long as they meet dirty entries either wholly or not at all. */
  lemma CoalescedRunIsFlat(c: Config, states: seq<State>, events: seq<Event>)
    requires c.Valid() && IsRun(c, states, events) && WellFormed(c, states[0])
    requires states[0].dirty == map[] && c.g.Coherent(states[0].disk, states[0].cache)
    requires forall i :: 0 <= i < |events| ==> WholeWrite(c, events[i])
    requires forall i, j :: 0 <= i < j < |events| ==> SameOrApart(events[i], events[j])
    requires forall i :: 0 <= i < |events| && (events[i].Read? || events[i].Prefetch?) ==> Guard(c, states[i], events[i])
    ensures forall i :: 0 <= i <= |events| ==> Disjoint(states[i].dirty)
    ensures forall i :: 0 <= i <= |events| ==>
      IsImage(c.g.bs, states[i].disk, states[i].dirty, FlatRun(states[0].disk, events[..i]))
    ensures forall i :: 0 <= i < |events| ==> Answered(c, FlatRun(states[0].disk, events[..i]), events[i])
    ensures forall i :: 0 <= i < |events| && (events[i].Flush? || events[i].Tick?) ==>
      states[i + 1].dirty == map[] && states[i + 1].disk == FlatRun(states[0].disk, events[..i])
  {
    var flat := states[0].disk;
    assert Inv(c, states[0], flat);
    forall i | 0 <= i < |events|
      ensures Guard(c, states[i], events[i])
    {
      if events[i].Write? {
        DirtyIsOfWrites(c, states, events, i);
        WholeWriteIsGuarded(c, states[i], events[i], events[..i]);
      }
    }
    DisciplinedRunIsFlat(c, states, events, flat);
    forall i | 0 <= i < |events| && (events[i].Flush? || events[i].Tick?)
      ensures states[i + 1].dirty == map[] && states[i + 1].disk == FlatRun(flat, events[..i])
    {
      FlushReachesImage(c, states[i], FlatRun(flat, events[..i]), states[i + 1]);
    }
  }

  // -- How much is buffered --------------------------------------------------

  /** Below the threshold, or nothing at all. */
  ghost predicate Small(c: Config, s: State) {
    s.dirty == map[] || DirtyBytes(s.dirty) < c.coalesceMax
  }

  lemma StepKeepsSmall(c: Config, s: State, e: Event, s2: State)
    requires c.Valid() && WellFormed(c, s) && Step(c, s, e, s2) && Small(c, s)
    ensures Small(c, s2)
    ensures s.sync && s.dirty == map[] ==> s2.dirty == map[]
  {
    if e.Read? {
      ReadLeavesDirty(c, s, e.offset, e.size, e.reply, s2);
    }
  }

  /** Whatever is asked, between requests the buffer never holds the threshold's bytes or more; and as long
      as the mode is sync it holds none at all. */
  lemma {:induction false} BufferStaysSmall(c: Config, states: seq<State>, events: seq<Event>, i: nat)
    requires c.Valid() && IsRun(c, states, events) && states[0].dirty == map[] && i <= |events|
    ensures Small(c, states[i])
    ensures (forall j :: 0 <= j < i ==> states[j].sync) ==> states[i].dirty == map[]
  {
    if i > 0 {
      BufferStaysSmall(c, states, events, i - 1);
      StepKeepsSmall(c, states[i - 1], events[i - 1], states[i]);
    }
  }
}
