/** Writes from their data to the target's buffers: what the receiver task puts on the stream for the PDUs it
    handles, the other tasks' PDUs in between, and what the target makes of it all for each tag. */
module WriteDelivery {
  import opened Bytes
  import opened Overlay
  import opened Pdu
  import opened Sealing
  import opened Streams
  import opened Transport
  import opened WriteTransfer
  import opened Wrappers

  // -- What the receiver writes ----------------------------------------------

  /** What the session knows when a PDU is handled: the next CmdSN, the write data registered per tag, and who
      waits for which tag. */
  datatype Context = Context(cmdSn: u32, data: map<nat, seq<byte>>, waiters: seq<Option<nat>>)

  /** An R2T, and the ExpStatSN of the session when it is answered. */
  datatype Ask = Ask(ttt: u32, expStatSn: u32, request: Request)

  const RESERVED_TAG: u32 := 0xFFFF_FFFF

  function NextStatSn(p: Pdu): u32 {
    (p.bhs.StatSn() + 1) % TWO32
  }

  function AskOf(p: Pdu): Ask {
    Ask(p.bhs.Ttt(), NextStatSn(p), Request(p.bhs.R2tBufferOffset(), p.bhs.R2tDesiredLength()))
  }

  /** A PDU to be sent: what its header says, and its data. */
  datatype Item = Item(m: Message, data: Option<seq<byte>>)

  function DataOutItem(itt: u32, ask: Ask, s: Segment): Item {
    Item(DataOutOf(itt, ask.ttt, ask.expStatSn, s), Some(s.data))
  }

  function ItemsOf(itt: u32, ask: Ask, segments: seq<Segment>): (ps: seq<Item>)
    ensures |ps| == |segments|
    ensures forall i :: 0 <= i < |ps| ==> ps[i] == DataOutItem(itt, ask, segments[i])
  {
    seq(|segments|, i requires 0 <= i < |segments| => DataOutItem(itt, ask, segments[i]))
  }

  ghost function TransferFor(data: seq<byte>, ask: Ask, max: nat): Transfer
    requires max > 0
  {
    Answered(data, ask.request.at, ask.request.len, max)
  }

  /** The Data-Outs that answer an R2T. */
  ghost function ItemsFor(itt: u32, data: seq<byte>, ask: Ask, max: nat): seq<Item>
    requires max > 0
  {
    ItemsOf(itt, ask, TransferFor(data, ask, max).segments)
  }

  function PingReply(ttt: u32, cmdSn: u32, expStatSn: u32): Item {
    Item(Ping(RESERVED_TAG, ttt, cmdSn, expStatSn), None)
  }

  /** What is written when `p` is handled: Data-Outs for an R2T with registered data, a NOP-Out for a ping. */
  ghost function Output(ctx: Context, p: Pdu, max: nat): seq<Item>
    requires max > 0
  {
    match p.bhs.opcode
    case R2t => if p.bhs.itt in ctx.data then ItemsFor(p.bhs.itt, ctx.data[p.bhs.itt], AskOf(p), max) else []
    case NopIn => if p.bhs.Ttt() != RESERVED_TAG then [PingReply(p.bhs.Ttt(), ctx.cmdSn, NextStatSn(p))] else []
    case _ => []
  }

  lemma OutputOfAsk(ctx: Context, p: Pdu, max: nat, request: Request, data: seq<byte>)
    requires max > 0 && p.bhs.opcode == R2t && p.bhs.itt in ctx.data && ctx.data[p.bhs.itt] == data
    requires request == Request(p.bhs.R2tBufferOffset(), p.bhs.R2tDesiredLength())
    ensures Output(ctx, p, max) == ItemsFor(p.bhs.itt, data, Ask(p.bhs.Ttt(), NextStatSn(p), request), max)
    ensures OutputOk(ctx, p, max) == TransferFor(data, Ask(p.bhs.Ttt(), NextStatSn(p), request), max).ok
  {
  }

  lemma OutputOfPing(ctx: Context, p: Pdu, max: nat)
    requires max > 0 && p.bhs.opcode == NopIn && p.bhs.Ttt() != RESERVED_TAG
    ensures Output(ctx, p, max) == [PingReply(p.bhs.Ttt(), ctx.cmdSn, NextStatSn(p))] && OutputOk(ctx, p, max)
  {
  }

  lemma OutputOfOther(ctx: Context, p: Pdu, max: nat)
    requires max > 0
    requires p.bhs.opcode == R2t ==> p.bhs.itt !in ctx.data
    requires p.bhs.opcode == NopIn ==> p.bhs.Ttt() == RESERVED_TAG
    ensures Output(ctx, p, max) == [] && OutputOk(ctx, p, max)
  {
  }

  /** The handler does not run off the end of the registered data. */
  ghost predicate OutputOk(ctx: Context, p: Pdu, max: nat)
    requires max > 0
  {
    p.bhs.opcode == R2t && p.bhs.itt in ctx.data ==> TransferFor(ctx.data[p.bhs.itt], AskOf(p), max).ok
  }

  ghost function Outputs(ctxs: seq<Context>, pdus: seq<Pdu>, max: nat): (outs: seq<seq<Item>>)
    requires |ctxs| == |pdus| && max > 0
    ensures |outs| == |pdus| && forall i :: 0 <= i < |outs| ==> outs[i] == Output(ctxs[i], pdus[i], max)
  {
    seq(|pdus|, i requires 0 <= i < |pdus| => Output(ctxs[i], pdus[i], max))
  }

  /** What is written for a list of PDUs, each handled in its context. */
  ghost function OutputAll(ctxs: seq<Context>, pdus: seq<Pdu>, max: nat): seq<Item>
    requires |ctxs| == |pdus| && max > 0
  {
    Flatten(Outputs(ctxs, pdus, max))
  }

  lemma OutputAllSnoc(ctxs: seq<Context>, pdus: seq<Pdu>, ctx: Context, p: Pdu, max: nat)
    requires |ctxs| == |pdus| && max > 0
    ensures OutputAll(ctxs + [ctx], pdus + [p], max) == OutputAll(ctxs, pdus, max) + Output(ctx, p, max)
  {
    assert Outputs(ctxs + [ctx], pdus + [p], max) == Outputs(ctxs, pdus, max) + [Output(ctx, p, max)];
    FlattenSnoc(Outputs(ctxs, pdus, max), Output(ctx, p, max));
  }

  lemma OutputAllSplit(ctxs: seq<Context>, pdus: seq<Pdu>, n: nat, max: nat)
    requires |ctxs| == |pdus| && max > 0 && n <= |pdus|
    ensures OutputAll(ctxs, pdus, max) == OutputAll(ctxs[..n], pdus[..n], max) + OutputAll(ctxs[n..], pdus[n..], max)
  {
    assert Outputs(ctxs, pdus, max) == Outputs(ctxs[..n], pdus[..n], max) + Outputs(ctxs[n..], pdus[n..], max);
    FlattenConcat(Outputs(ctxs[..n], pdus[..n], max), Outputs(ctxs[n..], pdus[n..], max));
  }

  lemma OutputAllLast(ctxs: seq<Context>, pdus: seq<Pdu>, max: nat)
    requires |ctxs| == |pdus| > 0 && max > 0
    ensures var n := |pdus| - 1;
      OutputAll(ctxs, pdus, max) == OutputAll(ctxs[..n], pdus[..n], max) + Output(ctxs[n], pdus[n], max)
  {
    var n := |pdus| - 1;
    assert Outputs(ctxs, pdus, max)[..n] == Outputs(ctxs[..n], pdus[..n], max);
  }

  // -- Several writers on one stream -----------------------------------------

  ghost predicate Merges<T>(all: seq<T>, a: seq<T>, b: seq<T>)
    decreases |all|
  {
    if all == [] then a == [] && b == []
    else
      || (a != [] && a[|a| - 1] == all[|all| - 1] && Merges(all[..|all| - 1], a[..|a| - 1], b))
      || (b != [] && b[|b| - 1] == all[|all| - 1] && Merges(all[..|all| - 1], a, b[..|b| - 1]))
  }

  /** `all` has the elements of `a` and those of `b`, each in their order. */
  ghost predicate Interleaves<T>(all: seq<T>, a: seq<T>, b: seq<T>) {
    forall n: nat {:trigger Look(n)} :: Look(n) ==> Merges(all, a, b)
  }

  lemma MergesOwn<T>(all: seq<T>, a: seq<T>, b: seq<T>, x: T)
    requires Merges(all, a, b)
    ensures Merges(all + [x], a + [x], b)
  {
    assert (all + [x])[..|all|] == all && (a + [x])[..|a|] == a;
  }

  lemma {:induction false} MergesOther<T>(all: seq<T>, a: seq<T>, b: seq<T>, more: seq<T>)
    requires Merges(all, a, b)
    ensures Merges(all + more, a, b + more)
    decreases |more|
  {
    if more == [] {
      assert all + more == all && b + more == b;
    } else {
      var front, x := more[..|more| - 1], more[|more| - 1];
      MergesOther(all, a, b, front);
      assert (all + more)[..|all + more| - 1] == all + front && (b + more)[..|b + more| - 1] == b + front;
      assert (all + more)[|all + more| - 1] == x && (b + more)[|b + more| - 1] == x;
    }
  }

  lemma InterleavesOwn<T>(all: seq<T>, a: seq<T>, b: seq<T>, x: T)
    requires Interleaves(all, a, b)
    ensures Interleaves(all + [x], a + [x], b)
  {
    assert Look(0);
    MergesOwn(all, a, b, x);
  }

  lemma InterleavesOther<T>(all: seq<T>, a: seq<T>, b: seq<T>, more: seq<T>)
    requires Interleaves(all, a, b)
    ensures Interleaves(all + more, a, b + more)
  {
    assert Look(0);
    MergesOther(all, a, b, more);
  }

  /** The last element comes from one of the two. */
  lemma LastFrom<T>(all: seq<T>, a: seq<T>, b: seq<T>) returns (own: bool)
    requires all != [] && Interleaves(all, a, b)
    ensures var front, x := all[..|all| - 1], all[|all| - 1];
      if own then a != [] && a[|a| - 1] == x && Interleaves(front, a[..|a| - 1], b)
      else b != [] && b[|b| - 1] == x && Interleaves(front, a, b[..|b| - 1])
  {
    assert Look(0);
    own := a != [] && a[|a| - 1] == all[|all| - 1] && Merges(all[..|all| - 1], a[..|a| - 1], b);
  }

  lemma NothingInterleaves<T>(a: seq<T>, b: seq<T>)
    requires Interleaves([], a, b)
    ensures a == [] && b == []
  {
    assert Look(0);
  }

  lemma {:induction false} FromEither<T>(all: seq<T>, a: seq<T>, b: seq<T>, i: nat)
    requires Interleaves(all, a, b) && i < |all|
    ensures all[i] in a || all[i] in b
    decreases |all|
  {
    var n := |all| - 1;
    var own := LastFrom(all, a, b);
    if i < n {
      if own {
        FromEither(all[..n], a[..|a| - 1], b, i);
      } else {
        FromEither(all[..n], a, b[..|b| - 1], i);
      }
    }
  }

  // -- One tag's PDUs --------------------------------------------------------

  predicate IsCommand(p: Item, t: u32) {
    p.m.Command? && p.m.itt == t
  }

  predicate IsDataOut(p: Item, t: u32) {
    p.m.DataOut? && p.m.itt == t
  }

  /** The Data-Outs with a tag. */
  function DataOutsOf(ps: seq<Item>, t: u32): seq<Item> {
    if ps == [] then []
    else
      var last := ps[|ps| - 1];
      DataOutsOf(ps[..|ps| - 1], t) + if IsDataOut(last, t) then [last] else []
  }

  /** What the target has for the command of a tag: the latest command PDU with it, and the Data-Outs since. */
  function OfCommand(ps: seq<Item>, t: u32): seq<Item> {
    if ps == [] then []
    else
      var front, last := ps[..|ps| - 1], ps[|ps| - 1];
      if IsCommand(last, t) then [last]
      else OfCommand(front, t) + if IsDataOut(last, t) then [last] else []
  }

  lemma {:induction false} DataOutsConcat(ps: seq<Item>, qs: seq<Item>, t: u32)
    ensures DataOutsOf(ps + qs, t) == DataOutsOf(ps, t) + DataOutsOf(qs, t)
    decreases |qs|
  {
    if qs == [] {
      assert ps + qs == ps;
    } else {
      var front, last := qs[..|qs| - 1], qs[|qs| - 1];
      DataOutsConcat(ps, front, t);
      assert (ps + qs)[..|ps + qs| - 1] == ps + front && (ps + qs)[|ps + qs| - 1] == last;
      var one := if IsDataOut(last, t) then [last] else [];
      assert DataOutsOf(ps, t) + (DataOutsOf(front, t) + one) == DataOutsOf(ps, t) + DataOutsOf(front, t) + one;
    }
  }

  /** Of PDUs interleaved with others that have no Data-Out of a tag, its Data-Outs are those of the first. */
  lemma {:induction false} InterleavedDataOuts(all: seq<Item>, a: seq<Item>, b: seq<Item>, t: u32)
    requires Interleaves(all, a, b) && forall i :: 0 <= i < |b| ==> !IsDataOut(b[i], t)
    ensures DataOutsOf(all, t) == DataOutsOf(a, t)
    decreases |all|
  {
    if all == [] {
      NothingInterleaves(a, b);
    } else {
      var front := all[..|all| - 1];
      var own := LastFrom(all, a, b);
      if own {
        InterleavedDataOuts(front, a[..|a| - 1], b, t);
      } else {
        InterleavedDataOuts(front, a, b[..|b| - 1], t);
      }
    }
  }

  /** Once the latest command of a tag is at `c`, what belongs to it are the Data-Outs after. */
  lemma {:induction false} OfCommandAt(ps: seq<Item>, c: nat, t: u32)
    requires c < |ps| && IsCommand(ps[c], t) && forall i :: c < i < |ps| ==> !IsCommand(ps[i], t)
    ensures OfCommand(ps, t) == [ps[c]] + DataOutsOf(ps[c + 1..], t)
    decreases |ps|
  {
    var n := |ps| - 1;
    if c < n {
      OfCommandAt(ps[..n], c, t);
      var after, one := ps[c + 1..], if IsDataOut(ps[n], t) then [ps[n]] else [];
      assert after[..|after| - 1] == ps[..n][c + 1..] && after[|after| - 1] == ps[n];
      assert [ps[c]] + (DataOutsOf(ps[..n][c + 1..], t) + one) == [ps[c]] + DataOutsOf(ps[..n][c + 1..], t) + one;
    } else {
      assert ps[c + 1..] == [];
    }
  }

  // -- The Data-Outs of one tag in the receiver's output ---------------------

  /** The R2Ts of a tag among the PDUs handled. */
  function AsksOf(pdus: seq<Pdu>, t: u32): seq<Ask> {
    if pdus == [] then []
    else
      var last := pdus[|pdus| - 1];
      AsksOf(pdus[..|pdus| - 1], t) + if IsAsk(last, t) then [AskOf(last)] else []
  }

  predicate IsAsk(p: Pdu, t: u32) {
    p.bhs.itt == t && p.bhs.opcode == R2t
  }

  ghost function DataOutItems(t: u32, data: seq<byte>, asks: seq<Ask>, max: nat): seq<Item>
    requires max > 0
  {
    if asks == [] then []
    else
      var n := |asks| - 1;
      DataOutItems(t, data, asks[..n], max) + ItemsFor(t, data, asks[n], max)
  }

  lemma ItemsOfLast(itt: u32, ask: Ask, segments: seq<Segment>)
    requires segments != []
    ensures var n, ps := |segments| - 1, ItemsOf(itt, ask, segments);
      && ps[..n] == ItemsOf(itt, ask, segments[..n])
      && ps == ItemsOf(itt, ask, segments[..n]) + [DataOutItem(itt, ask, segments[n])]
  {
  }

  lemma {:induction false} OwnDataOuts(itt: u32, ask: Ask, segments: seq<Segment>, t: u32)
    ensures DataOutsOf(ItemsOf(itt, ask, segments), t) == if itt == t then ItemsOf(itt, ask, segments) else []
    decreases |segments|
  {
    if segments != [] {
      var n := |segments| - 1;
      OwnDataOuts(itt, ask, segments[..n], t);
      ItemsOfLast(itt, ask, segments);
    }
  }

  /** The data registered for a tag whenever one of its R2Ts is handled. */
  ghost predicate Registered(ctxs: seq<Context>, pdus: seq<Pdu>, t: u32, data: seq<byte>)
    requires |ctxs| == |pdus|
  {
    forall i :: 0 <= i < |pdus| && IsAsk(pdus[i], t) ==> t in ctxs[i].data && ctxs[i].data[t] == data
  }

  lemma OutputDataOuts(ctx: Context, p: Pdu, t: u32, data: seq<byte>, max: nat)
    requires max > 0 && (IsAsk(p, t) ==> t in ctx.data && ctx.data[t] == data)
    ensures DataOutsOf(Output(ctx, p, max), t) == if IsAsk(p, t) then ItemsFor(t, data, AskOf(p), max) else []
  {
    if p.bhs.opcode == R2t {
      AskDataOuts(ctx, p, t, max);
    } else {
      OtherDataOuts(ctx, p, t, max);
    }
  }

  lemma AskDataOuts(ctx: Context, p: Pdu, t: u32, max: nat)
    requires max > 0 && p.bhs.opcode == R2t
    ensures DataOutsOf(Output(ctx, p, max), t)
      == if p.bhs.itt == t && t in ctx.data then ItemsFor(t, ctx.data[t], AskOf(p), max) else []
  {
    if p.bhs.itt in ctx.data {
      var items := ItemsFor(p.bhs.itt, ctx.data[p.bhs.itt], AskOf(p), max);
      assert Output(ctx, p, max) == items;
      OwnItems(p.bhs.itt, ctx.data[p.bhs.itt], AskOf(p), t, max);
    }
  }

  lemma OwnItems(itt: u32, data: seq<byte>, ask: Ask, t: u32, max: nat)
    requires max > 0
    ensures DataOutsOf(ItemsFor(itt, data, ask, max), t) == if itt == t then ItemsFor(itt, data, ask, max) else []
  {
    OwnDataOuts(itt, ask, TransferFor(data, ask, max).segments, t);
  }

  lemma OtherDataOuts(ctx: Context, p: Pdu, t: u32, max: nat)
    requires max > 0 && p.bhs.opcode != R2t
    ensures DataOutsOf(Output(ctx, p, max), t) == []
  {
    if Output(ctx, p, max) != [] {
      NotADataOut(PingReply(p.bhs.Ttt(), ctx.cmdSn, NextStatSn(p)), t);
    }
  }

  /** However many tags' R2Ts it answers in between, the receiver writes for each tag the Data-Outs of that
      tag's R2Ts, in order. */
  lemma {:induction false} TagOutput(ctxs: seq<Context>, pdus: seq<Pdu>, t: u32, data: seq<byte>, max: nat)
    requires |ctxs| == |pdus| && max > 0 && Registered(ctxs, pdus, t, data)
    ensures DataOutsOf(OutputAll(ctxs, pdus, max), t) == DataOutItems(t, data, AsksOf(pdus, t), max)
    decreases |pdus|
  {
    if pdus != [] {
      var n := |pdus| - 1;
      var asks, last := AsksOf(pdus[..n], t), AskOf(pdus[n]);
      TagOutput(ctxs[..n], pdus[..n], t, data, max);
      OutputDataOuts(ctxs[n], pdus[n], t, data, max);
      OutputAllLast(ctxs, pdus, max);
      DataOutsConcat(OutputAll(ctxs[..n], pdus[..n], max), Output(ctxs[n], pdus[n], max), t);
      if IsAsk(pdus[n], t) {
        assert (asks + [last])[..|asks|] == asks;
      } else {
        assert AsksOf(pdus, t) == asks;
      }
    }
  }

  // -- The buffer ------------------------------------------------------------

  function RequestsOf(asks: seq<Ask>): (r: seq<Request>)
    ensures |r| == |asks| && forall i :: 0 <= i < |r| ==> r[i] == asks[i].request
  {
    seq(|asks|, i requires 0 <= i < |asks| => asks[i].request)
  }

  /** Where the target puts a PDU's data: a command's first, a Data-Out's at the offset in its header. */
  function PatchOf(p: Item): Patch {
    Patch(if p.m.DataOut? then p.m.bufferOffset else 0, if p.data.Some? then p.data.value else [])
  }

  ghost predicate Inside(asks: seq<Ask>, n: nat) {
    forall i :: 0 <= i < |asks| ==> asks[i].request.at + asks[i].request.len <= Min(n, TWO32)
  }

  lemma SegmentPatches(itt: u32, ask: Ask, segments: seq<Segment>)
    requires Small(segments)
    ensures Map(PatchOf, ItemsOf(itt, ask, segments)) == Patches(segments)
  {
    forall i | 0 <= i < |segments|
      ensures PatchOf(ItemsOf(itt, ask, segments)[i]) == segments[i].AsPatch()
    {
      assert segments[i].at % TWO32 == segments[i].at;
    }
  }

  lemma MapConcat<S, T>(f: S -> T, a: seq<S>, b: seq<S>)
    ensures Map(f, a + b) == Map(f, a) + Map(f, b)
  {
  }

  lemma {:induction false} DataOutPatches(t: u32, data: seq<byte>, asks: seq<Ask>, max: nat)
    requires 0 < max < 0x100_0000 && Inside(asks, |data|)
    ensures Map(PatchOf, DataOutItems(t, data, asks, max)) == DataOuts(data, RequestsOf(asks), max)
    decreases |asks|
  {
    if asks != [] {
      var n := |asks| - 1;
      var last := asks[n];
      DataOutPatches(t, data, asks[..n], max);
      RequestIsSmall(data, last.request.at, 0, last.request.len, max, 0);
      SegmentPatches(t, last, TransferFor(data, last, max).segments);
      MapConcat(PatchOf, DataOutItems(t, data, asks[..n], max), ItemsFor(t, data, last, max));
      assert RequestsOf(asks)[..n] == RequestsOf(asks[..n]);
    }
  }

  /** Nothing of the data is missing: each byte was sent with the command, or asked for, or is there already. */
  ghost predicate NothingMissing(data: seq<byte>, immediate: Option<seq<byte>>, reqs: seq<Request>, buffer: seq<byte>)
    requires |buffer| == |data|
  {
    forall a :: 0 <= a < |data| ==>
      (immediate.Some? && a < |immediate.value|) || Asked(reqs, a) || buffer[a] == data[a]
  }

  /** The patches rebuild the data in the buffer exactly when nothing is missing. */
  ghost predicate RebuildIff(ps: seq<Patch>, data: seq<byte>, immediate: Option<seq<byte>>, reqs: seq<Request>,
                             buffer: seq<byte>)
    requires |buffer| == |data|
  {
    Fit(ps, |buffer|) && (ApplyAll(buffer, ps) == data <==> NothingMissing(data, immediate, reqs, buffer))
  }

  lemma FirstThenDataOuts(data: seq<byte>, immediate: Option<seq<byte>>, reqs: seq<Request>, max: nat, buffer: seq<byte>)
    requires max > 0 && |buffer| == |data| && WriteTransfer.Inside(reqs, |data|)
    requires immediate.Some? ==> |immediate.value| <= |data| && immediate.value == data[..|immediate.value|]
    ensures var first := Patch(0, if immediate.Some? then immediate.value else []);
      RebuildIff([first] + DataOuts(data, reqs, max), data, immediate, reqs, buffer)
  {
    var first := Patch(0, if immediate.Some? then immediate.value else []);
    var ps := [first] + DataOuts(data, reqs, max);
    FirstAndSlices(data, immediate, reqs, max);
    forall a | 0 <= a < |data|
      ensures Covered(ps, a) <==> (immediate.Some? && a < |immediate.value|) || Asked(reqs, a)
    {
      FirstOrAsked(data, immediate, reqs, max, a);
    }
    SlicesRebuild(buffer, ps, data);
  }

  lemma FirstAndSlices(data: seq<byte>, immediate: Option<seq<byte>>, reqs: seq<Request>, max: nat)
    requires max > 0 && WriteTransfer.Inside(reqs, |data|)
    requires immediate.Some? ==> |immediate.value| <= |data| && immediate.value == data[..|immediate.value|]
    ensures var ps := [Patch(0, if immediate.Some? then immediate.value else [])] + DataOuts(data, reqs, max);
      SlicesOf(ps, data) && Fit(ps, |data|)
  {
    DataOutsCover(data, reqs, max, 0);
    var ps := [Patch(0, if immediate.Some? then immediate.value else [])] + DataOuts(data, reqs, max);
    assert SlicesOf(ps, data);
    forall i | 0 <= i < |ps|
      ensures ps[i].End() <= |data|
    {
      assert ps[i].SliceOf(data);
    }
  }

  lemma FirstOrAsked(data: seq<byte>, immediate: Option<seq<byte>>, reqs: seq<Request>, max: nat, a: nat)
    requires max > 0 && WriteTransfer.Inside(reqs, |data|)
    ensures var first := Patch(0, if immediate.Some? then immediate.value else []);
      Covered([first] + DataOuts(data, reqs, max), a) <==>
        (immediate.Some? && a < |immediate.value|) || Asked(reqs, a)
  {
    var first := Patch(0, if immediate.Some? then immediate.value else []);
    DataOutsCover(data, reqs, max, a);
    CoveredConcat([first], DataOuts(data, reqs, max), a);
    assert Covered([first], a) <==> [first][0].Covers(a);
  }

  /** A stream whose PDUs for a tag, from its latest command on, are that command with its immediate data and the
      Data-Outs of some R2Ts: what the target lays for the tag rebuilds the data exactly when nothing is missing. */
  lemma DataOutsAreDeliveredIff(ps: seq<Item>, t: u32, command: Item, data: seq<byte>, enabled: bool, firstBurst: u32,
                                asks: seq<Ask>, max: nat, buffer: seq<byte>)
    requires 0 < max < 0x100_0000 && |buffer| == |data| && Inside(asks, |data|)
    requires IsCommand(command, t) && command.data == Immediate(data, enabled, firstBurst)
    requires OfCommand(ps, t) == [command] + DataOutItems(t, data, asks, max)
    ensures RebuildIff(Map(PatchOf, OfCommand(ps, t)), data, command.data, RequestsOf(asks), buffer)
  {
    MapConcat(PatchOf, [command], DataOutItems(t, data, asks, max));
    DataOutPatches(t, data, asks, max);
    FirstThenDataOuts(data, command.data, RequestsOf(asks), max, buffer);
    assert Map(PatchOf, [command]) == [PatchOf(command)];
  }

  // -- The stream ------------------------------------------------------------

  function PduOf(x: Item): Pdu {
    Pdu(HeaderOf(x.m), None, x.data)
  }

  function ItemBytes(crc: Crc, digests: DigestConfig, x: Item): seq<byte> {
    Encode(crc, digests, PduOf(x))
  }

  function ItemEncoder(crc: Crc, digests: DigestConfig): Item -> seq<byte> {
    (x: Item) => ItemBytes(crc, digests, x)
  }

  /** What the accessors find in a PDU, and its data. */
  function ItemIn(p: Pdu): Option<Item> {
    match Read(p.bhs)
    case None => None
    case Some(m) => Some(Item(m, p.data))
  }

  /** The header has room for what it says, and that includes the length of the data, which is not empty. */
  predicate Fits(x: Item) {
    && Representable(x.m)
    && match x.data
       case None => LengthOf(x.m) == 0
       case Some(d) => 0 < |d| == LengthOf(x.m)
  }

  /** An item that fits arrives, and is found in what arrives. */
  lemma ItemArrives(crc: Crc, digests: DigestConfig, x: Item, rest: seq<byte>)
    requires Fits(x)
    ensures Decode(crc, digests, ItemBytes(crc, digests, x) + rest) == Ok(PduOf(x), rest)
    ensures ItemIn(PduOf(x)) == Some(x)
  {
    HeaderOfWire(x.m);
    HeaderReads(x.m);
    LengthFits(x.m);
    HeaderArrives(crc, digests, HeaderOf(x.m), x.data, rest);
  }

  lemma LengthFits(m: Message)
    requires Representable(m)
    ensures Low24(LengthOf(m)) == LengthOf(m)
  {
  }

  lemma HeaderArrives(crc: Crc, digests: DigestConfig, h: Header, data: Option<seq<byte>>, rest: seq<byte>)
    requires Parse(Wire(h)) == Some(h)
    requires match data case None => h.dataSegmentLength == 0 case Some(d) => 0 < |d| == h.dataSegmentLength < 0x100_0000
    ensures Decode(crc, digests, Encode(crc, digests, Pdu(h, None, data)) + rest) == Ok(Pdu(h, None, data), rest)
  {
    LengthNotCut(if data.Some? then |data.value| else 0);
    CommandArrivesIff(crc, digests, h, data, rest);
  }

  lemma LengthNotCut(n: nat)
    requires n < 0x100_0000
    ensures Low24(n % TWO32) == n
  {
  }

  ghost predicate AllFit(xs: seq<Item>) {
    forall i :: 0 <= i < |xs| ==> Fits(xs[i])
  }

  lemma ItemsArrive(crc: Crc, digests: DigestConfig, xs: seq<Item>, suffix: seq<byte>)
    requires AllFit(xs)
    ensures DecodeMany(Decoder(crc, digests), |xs|, EncodeAll(ItemEncoder(crc, digests), xs) + suffix)
         == Some((Map(PduOf, xs), suffix))
    ensures forall i :: 0 <= i < |xs| ==> ItemIn(PduOf(xs[i])) == Some(xs[i])
  {
    forall i, rest: seq<byte> | 0 <= i < |xs|
      ensures Decoder(crc, digests)(ItemEncoder(crc, digests)(xs[i]) + rest) == Ok(PduOf(xs[i]), rest)
      ensures ItemIn(PduOf(xs[i])) == Some(xs[i])
    {
      ItemArrives(crc, digests, xs[i], rest);
    }
    ManyArrive(ItemEncoder(crc, digests), Decoder(crc, digests), PduOf, xs, suffix);
    forall i | 0 <= i < |xs|
      ensures ItemIn(PduOf(xs[i])) == Some(xs[i])
    {
      ItemArrives(crc, digests, xs[i], []);
    }
  }

  /** The R2Ts handled ask for bytes inside the registered data. */
  ghost predicate AsksInside(ctxs: seq<Context>, pdus: seq<Pdu>)
    requires |ctxs| == |pdus|
  {
    forall i :: 0 <= i < |pdus| ==> AskInside(ctxs[i], pdus[i])
  }

  ghost predicate AskInside(ctx: Context, p: Pdu) {
    p.bhs.opcode == R2t && p.bhs.itt in ctx.data ==>
      p.bhs.R2tBufferOffset() + p.bhs.R2tDesiredLength() <= Min(|ctx.data[p.bhs.itt]|, TWO32)
  }

  lemma OutputFits(ctx: Context, p: Pdu, max: nat, i: nat)
    requires 0 < max < 0x100_0000 && AskInside(ctx, p) && i < |Output(ctx, p, max)|
    ensures Fits(Output(ctx, p, max)[i])
  {
    if p.bhs.opcode == R2t {
      var ask, data := AskOf(p), ctx.data[p.bhs.itt];
      RequestIsSmall(data, ask.request.at, 0, ask.request.len, max, 0);
      SegmentFits(p.bhs.itt, ask, TransferFor(data, ask, max).segments[i]);
    }
  }

  lemma SegmentFits(itt: u32, ask: Ask, s: Segment)
    requires 0 < |s.data| < 0x100_0000
    ensures Fits(DataOutItem(itt, ask, s))
  {
  }

  lemma {:induction false} AllOutputFits(ctxs: seq<Context>, pdus: seq<Pdu>, max: nat, x: Item)
    requires |ctxs| == |pdus| && 0 < max < 0x100_0000 && AsksInside(ctxs, pdus) && x in OutputAll(ctxs, pdus, max)
    ensures Fits(x)
    decreases |pdus|
  {
    if pdus != [] {
      var n := |pdus| - 1;
      OutputAllLast(ctxs, pdus, max);
      if x in OutputAll(ctxs[..n], pdus[..n], max) {
        AllOutputFits(ctxs[..n], pdus[..n], max, x);
      } else {
        var i :| 0 <= i < |Output(ctxs[n], pdus[n], max)| && Output(ctxs[n], pdus[n], max)[i] == x;
        assert AskInside(ctxs[n], pdus[n]);
        OutputFits(ctxs[n], pdus[n], max, i);
      }
    }
  }

  // -- A run of the session --------------------------------------------------

  /** What the receiver handled and what the session knew each time, what the other tasks sent meanwhile, and
      all PDUs as they went on the stream. */
  datatype Run = Run(ctxs: seq<Context>, pdus: seq<Pdu>, others: seq<Item>, log: seq<Item>)

  ghost predicate IsRun(run: Run, max: nat)
    requires max > 0
  {
    |run.ctxs| == |run.pdus| && Interleaves(run.log, OutputAll(run.ctxs, run.pdus, max), run.others)
  }

  /** What the other tasks send fits, and R2Ts stay inside the data. */
  ghost predicate Orderly(run: Run)
    requires |run.ctxs| == |run.pdus|
  {
    AsksInside(run.ctxs, run.pdus) && AllFit(run.others)
  }

  lemma RunFits(run: Run, max: nat)
    requires 0 < max < 0x100_0000 && IsRun(run, max) && Orderly(run)
    ensures AllFit(run.log)
  {
    var out := OutputAll(run.ctxs, run.pdus, max);
    forall i | 0 <= i < |run.log|
      ensures Fits(run.log[i])
    {
      FromEither(run.log, out, run.others, i);
      if run.log[i] in out {
        AllOutputFits(run.ctxs, run.pdus, max, run.log[i]);
      }
    }
  }

  /** The stream decodes to as many PDUs as were sent, the accessors find in each what was sent, and what
      follows is not touched. */
  ghost predicate Delivered(crc: Crc, digests: DigestConfig, log: seq<Item>, suffix: seq<byte>) {
    var got := DecodeMany(Decoder(crc, digests), |log|, EncodeAll(ItemEncoder(crc, digests), log) + suffix);
    && got.Some? && got.value.1 == suffix && |got.value.0| == |log|
    && forall i :: 0 <= i < |log| ==> ItemIn(got.value.0[i]) == Some(log[i])
  }

  lemma RunArrives(crc: Crc, digests: DigestConfig, run: Run, max: nat, suffix: seq<byte>)
    requires 0 < max < 0x100_0000 && IsRun(run, max) && Orderly(run)
    ensures Delivered(crc, digests, run.log, suffix)
  {
    RunFits(run, max);
    ItemsArrive(crc, digests, run.log, suffix);
  }

  /** At `c` of the stream is the latest command of its tag, sent after the Data-Outs for the R2Ts of that tag among
      the first `n` PDUs handled; no other task sends Data-Outs. */
  ghost predicate CommandAt(run: Run, max: nat, c: nat, n: nat)
    requires max > 0 && |run.ctxs| == |run.pdus|
  {
    && c < |run.log| && n <= |run.pdus|
    && run.log[c].m.Command?
    && var t := run.log[c].m.itt;
       && (forall i :: c < i < |run.log| ==> !IsCommand(run.log[i], t))
       && (forall i :: 0 <= i < |run.others| ==> !IsDataOut(run.others[i], t))
       && DataOutsOf(run.log[..c], t) == DataOutsOf(OutputAll(run.ctxs[..n], run.pdus[..n], max), t)
  }

  /** After an item that is no Data-Out of the tag come those Data-Outs that the ones before it leave. */
  lemma DataOutsAfter(log: seq<Item>, c: nat, t: u32, late: seq<Item>)
    requires c < |log| && !IsDataOut(log[c], t)
    requires DataOutsOf(log, t) == DataOutsOf(log[..c], t) + late
    ensures DataOutsOf(log[c + 1..], t) == late
  {
    var before, after := log[..c], log[c + 1..];
    Parts(log, c);
    DataOutsConcat(before + [log[c]], after, t);
    DataOutsSnoc(before, log[c], t);
    SameTail(DataOutsOf(before, t), DataOutsOf(after, t), late);
  }

  lemma Parts<T>(s: seq<T>, c: nat)
    requires c < |s|
    ensures s == s[..c] + [s[c]] + s[c + 1..]
  {
  }

  lemma DataOutsSnoc(ps: seq<Item>, x: Item, t: u32)
    ensures DataOutsOf(ps + [x], t) == DataOutsOf(ps, t) + if IsDataOut(x, t) then [x] else []
  {
    assert (ps + [x])[..|ps|] == ps;
  }

  lemma DataOutsOfRun(run: Run, max: nat, n: nat, t: u32)
    requires max > 0 && IsRun(run, max) && n <= |run.pdus|
    requires forall i :: 0 <= i < |run.others| ==> !IsDataOut(run.others[i], t)
    ensures DataOutsOf(run.log, t) == DataOutsOf(OutputAll(run.ctxs[..n], run.pdus[..n], max), t)
                                    + DataOutsOf(OutputAll(run.ctxs[n..], run.pdus[n..], max), t)
  {
    OutputAllSplit(run.ctxs, run.pdus, n, max);
    InterleavedDataOuts(run.log, OutputAll(run.ctxs, run.pdus, max), run.others, t);
    DataOutsConcat(OutputAll(run.ctxs[..n], run.pdus[..n], max), OutputAll(run.ctxs[n..], run.pdus[n..], max), t);
  }

  /** What the target has for that tag is the command and the Data-Outs for the R2Ts handled since. */
  lemma CommandThenDataOuts(run: Run, max: nat, c: nat, n: nat, data: seq<byte>)
    requires max > 0 && IsRun(run, max) && CommandAt(run, max, c, n)
    requires Registered(run.ctxs[n..], run.pdus[n..], run.log[c].m.itt, data)
    ensures var t := run.log[c].m.itt;
      OfCommand(run.log, t) == [run.log[c]] + DataOutItems(t, data, AsksOf(run.pdus[n..], t), max)
  {
    var t := run.log[c].m.itt;
    OfCommandAt(run.log, c, t);
    DataOutsOfRun(run, max, n, t);
    DataOutsAfter(run.log, c, t, DataOutsOf(OutputAll(run.ctxs[n..], run.pdus[n..], max), t));
    TagOutput(run.ctxs[n..], run.pdus[n..], t, data, max);
  }

  lemma NotADataOut(p: Item, t: u32)
    requires !IsDataOut(p, t)
    ensures DataOutsOf([p], t) == []
  {
    assert [p][..0] == [];
  }

  lemma SameTail<T>(a: seq<T>, b: seq<T>, c: seq<T>)
    requires a + b == a + c
    ensures b == c
  {
    assert b == (a + b)[|a|..] && c == (a + c)[|a|..];
  }

  /** Many writes at once on one stream, from their data to the target: the receiver answers R2Ts of any tags in any
      order, and other tasks' commands come between its PDUs. Whatever follows, the stream decodes to just what was
      sent; and for the latest command of a tag, laying its immediate data and the Data-Outs with that tag since
      at the offsets in their headers rebuilds the write data exactly when each byte was sent with the command,
      was asked for by an R2T of the tag, or was in the buffer already. */
  lemma WriteIsDeliveredIff(crc: Crc, digests: DigestConfig, run: Run, max: nat, c: nat, n: nat, data: seq<byte>,
                            enabled: bool, firstBurst: u32, buffer: seq<byte>, suffix: seq<byte>)
    requires 0 < max < 0x100_0000 && |buffer| == |data|
    requires IsRun(run, max) && Orderly(run) && CommandAt(run, max, c, n)
    requires run.log[c].data == Immediate(data, enabled, firstBurst)
    requires Registered(run.ctxs[n..], run.pdus[n..], run.log[c].m.itt, data)
    ensures Delivered(crc, digests, run.log, suffix)
    ensures var t := run.log[c].m.itt;
      RebuildIff(Map(PatchOf, OfCommand(run.log, t)), data, run.log[c].data, RequestsOf(AsksOf(run.pdus[n..], t)), buffer)
  {
    RunArrives(crc, digests, run, max, suffix);
    TagRebuildsIff(run, max, c, n, data, enabled, firstBurst, buffer);
  }

  lemma TagRebuildsIff(run: Run, max: nat, c: nat, n: nat, data: seq<byte>, enabled: bool, firstBurst: u32,
                       buffer: seq<byte>)
    requires 0 < max < 0x100_0000 && |buffer| == |data|
    requires IsRun(run, max) && Orderly(run) && CommandAt(run, max, c, n)
    requires run.log[c].data == Immediate(data, enabled, firstBurst)
    requires Registered(run.ctxs[n..], run.pdus[n..], run.log[c].m.itt, data)
    ensures var t := run.log[c].m.itt;
      RebuildIff(Map(PatchOf, OfCommand(run.log, t)), data, run.log[c].data, RequestsOf(AsksOf(run.pdus[n..], t)), buffer)
  {
    var t, command := run.log[c].m.itt, run.log[c];
    var asks := TagHasCommand(run, max, c, n, data);
    DataOutsAreDeliveredIff(run.log, t, command, data, enabled, firstBurst, asks, max, buffer);
  }

  lemma TagHasCommand(run: Run, max: nat, c: nat, n: nat, data: seq<byte>) returns (asks: seq<Ask>)
    requires max > 0 && IsRun(run, max) && Orderly(run) && CommandAt(run, max, c, n)
    requires Registered(run.ctxs[n..], run.pdus[n..], run.log[c].m.itt, data)
    ensures var t := run.log[c].m.itt;
      && asks == AsksOf(run.pdus[n..], t) && Inside(asks, |data|) && IsCommand(run.log[c], t)
      && OfCommand(run.log, t) == [run.log[c]] + DataOutItems(t, data, asks, max)
  {
    var t := run.log[c].m.itt;
    asks := AsksOf(run.pdus[n..], t);
    CommandThenDataOuts(run, max, c, n, data);
    LaterAsksInside(run.ctxs, run.pdus, n);
    AsksAreInside(run.ctxs[n..], run.pdus[n..], t, data);
  }

  lemma LaterAsksInside(ctxs: seq<Context>, pdus: seq<Pdu>, n: nat)
    requires |ctxs| == |pdus| && n <= |pdus| && AsksInside(ctxs, pdus)
    ensures AsksInside(ctxs[n..], pdus[n..])
  {
    forall i | 0 <= i < |pdus[n..]|
      ensures AskInside(ctxs[n..][i], pdus[n..][i])
    {
      assert ctxs[n..][i] == ctxs[n + i] && pdus[n..][i] == pdus[n + i];
    }
  }

  lemma {:induction false} AsksAreInside(ctxs: seq<Context>, pdus: seq<Pdu>, t: u32, data: seq<byte>)
    requires |ctxs| == |pdus| && AsksInside(ctxs, pdus) && Registered(ctxs, pdus, t, data)
    ensures Inside(AsksOf(pdus, t), |data|)
    decreases |pdus|
  {
    if pdus != [] {
      var n := |pdus| - 1;
      AsksAreInside(ctxs[..n], pdus[..n], t, data);
      assert AskInside(ctxs[n], pdus[n]);
    }
  }

  // -- Commands --------------------------------------------------------------

  function ImmediateLength(immediate: Option<seq<byte>>): nat {
    if immediate.Some? then |immediate.value| else 0
  }

  /** The header that the builder's rows stand for is one that serialising and parsing leave as it is, and the
      accessors find in it what the builder was asked for. */
  lemma BuiltHeader(m: Message)
    requires Representable(m)
    ensures var h := HeaderOf(m);
      Wire(h) == Layout(Rows(m)) && Parse(Wire(h)) == Some(h) && Read(h) == Some(m)
  {
    HeaderOfWire(m);
    HeaderReads(m);
  }

  /** With a header that survives parsing, a PDU arrives as it is. */
  lemma ArrivesAsItIs(crc: Crc, digests: DigestConfig, h: Header, data: Option<seq<byte>>, suffix: seq<byte>)
    requires Parse(Wire(h)) == Some(h)
    ensures var p := Pdu(h, None, data);
      var r := Decode(crc, digests, Encode(crc, digests, p) + suffix);
      (Framed(crc, digests, p) ==> r == Ok(p, suffix)) && (r.Ok? && r.item == p ==> Framed(crc, digests, p))
  {
    RoundTripIff(crc, digests, Pdu(h, None, data), suffix);
  }

  lemma FramedByImmediate(crc: Crc, digests: DigestConfig, h: Header, immediate: Option<seq<byte>>)
    requires h.dataSegmentLength == Low24(ImmediateLength(immediate) % TWO32)
    ensures Framed(crc, digests, Pdu(h, None, immediate)) <==> immediate.None? || 0 < |immediate.value| < 0x100_0000
  {
    match immediate
    case None => FramedWithout(crc, digests, h);
    case Some(d) =>
      FramedByLength(crc, digests, h, d);
      FitsLength(|d|, |d| % TWO32);
  }

  lemma FramedWithout(crc: Crc, digests: DigestConfig, h: Header)
    requires h.dataSegmentLength == 0
    ensures Framed(crc, digests, Pdu(h, None, None))
  {
  }

  /** A command arrives as it was meant exactly when its immediate data, if any, is not empty and shorter
      than 2^24 bytes. */
  lemma CommandArrivesIff(crc: Crc, digests: DigestConfig, h: Header, immediate: Option<seq<byte>>, suffix: seq<byte>)
    requires Parse(Wire(h)) == Some(h) && h.dataSegmentLength == Low24(ImmediateLength(immediate) % TWO32)
    ensures var p := Pdu(h, None, immediate);
      var r := Decode(crc, digests, Encode(crc, digests, p) + suffix);
      var fits := immediate.None? || 0 < |immediate.value| < 0x100_0000;
      && (fits ==> r == Ok(p, suffix))
      && (r.Ok? && r.item == p ==> fits)
  {
    FramedByImmediate(crc, digests, h, immediate);
    ArrivesAsItIs(crc, digests, h, immediate, suffix);
  }
}
