/** The session's receive handlers (iscsi/session.rs, Session). */
module Session {
  import opened Bytes
  import opened IttPool
  import opened Overlay
  import opened Pdu
  import opened Reassembly
  import opened Sealing
  import opened Streams
  import opened Transport
  import opened WriteTransfer
  import opened WriteDelivery
  import opened Wrappers
  import CmdWindow

  datatype PduResponse = PduResponse(status: byte, data: Option<seq<byte>>, sense: Option<seq<byte>>)

  datatype Outcome =
    | Pending
    | Completed(waiter: Option<nat>, response: PduResponse)
    | Panicked // the tag indexes past the 128 slots

  /** What a received PDU means for the read buffers; PDUs that carry no read data leave them alone. */
  function ArrivalOf(pdu: Pdu): Arrival {
    match pdu.bhs.opcode
    case ScsiDataIn =>
      Arrival(pdu.bhs.itt,
              if pdu.data.Some? then Some(Patch(pdu.bhs.BufferOffset(), pdu.data.value)) else None,
              pdu.bhs.StatusFlag())
    case ScsiResponse => Arrival(pdu.bhs.itt, None, true)
    case _ => Arrival(pdu.bhs.itt, None, false)
  }

  /** The answer to the command that the PDU ends. */
  function ResponseOf(acc: Buffers, pdu: Pdu): PduResponse {
    PduResponse(pdu.bhs.ScsiStatus(), Answer(acc, ArrivalOf(pdu)),
                if pdu.bhs.opcode == ScsiResponse then pdu.data else None)
  }

  /** A PDU that ends a command hands what the buffers make of it to whoever waits for its tag; no other does. */
  function OutcomeOf(acc: Buffers, ctx: Context, pdu: Pdu): Outcome
    requires |ctx.waiters| == 128
  {
    if !ArrivalOf(pdu).final then Pending
    else if pdu.bhs.itt >= 128 then Panicked
    else Completed(ctx.waiters[pdu.bhs.itt], ResponseOf(acc, pdu))
  }

  ghost predicate AllAnswered(outcomes: seq<Outcome>, ctxs: seq<Context>, pdus: seq<Pdu>)
    requires |outcomes| == |ctxs| == |pdus|
  {
    forall i :: 0 <= i < |pdus| ==>
      |ctxs[i].waiters| == 128 && outcomes[i] == OutcomeOf(AfterAll(Map(ArrivalOf, pdus[..i])), ctxs[i], pdus[i])
  }

  /** The stream starts with just these PDUs and goes on with `rest`; `acc` are the buffers they leave, and
      the outcomes are the right ones. */
  ghost predicate Handled(crc: Crc, digests: DigestConfig, stream: seq<byte>, rest: seq<byte>, ctxs: seq<Context>,
                          pdus: seq<Pdu>, outcomes: seq<Outcome>, acc: Buffers)
  {
    && |outcomes| == |ctxs| == |pdus|
    && forall n: nat {:trigger Look(n)} :: Look(n) ==>
         && DecodeMany(Decoder(crc, digests), |pdus|, stream) == Some((pdus, rest))
         && acc == AfterAll(Map(ArrivalOf, pdus))
         && AllAnswered(outcomes, ctxs, pdus)
  }

  lemma HandledIs(crc: Crc, digests: DigestConfig, stream: seq<byte>, rest: seq<byte>, ctxs: seq<Context>,
                  pdus: seq<Pdu>, outcomes: seq<Outcome>, acc: Buffers)
    requires Handled(crc, digests, stream, rest, ctxs, pdus, outcomes, acc)
    ensures DecodeMany(Decoder(crc, digests), |pdus|, stream) == Some((pdus, rest))
    ensures acc == AfterAll(Map(ArrivalOf, pdus)) && AllAnswered(outcomes, ctxs, pdus)
  {
    assert Look(0);
  }

  lemma NothingHandled(crc: Crc, digests: DigestConfig, stream: seq<byte>)
    ensures Handled(crc, digests, stream, stream, [], [], [], map[])
  {
  }

  /** One more PDU decoded and dispatched. */
  lemma HandledMore(crc: Crc, digests: DigestConfig, stream: seq<byte>, rest: seq<byte>, ctxs: seq<Context>,
                    pdus: seq<Pdu>, outcomes: seq<Outcome>, acc: Buffers, ctx: Context, got: Reply)
    requires Handled(crc, digests, stream, rest, ctxs, pdus, outcomes, acc) && |ctx.waiters| == 128
    requires got.Ok? && got == Decode(crc, digests, rest)
    ensures Handled(crc, digests, stream, got.rest, ctxs + [ctx], pdus + [got.item],
                    outcomes + [OutcomeOf(acc, ctx, got.item)], After(acc, ArrivalOf(got.item)))
  {
    HandledIs(crc, digests, stream, rest, ctxs, pdus, outcomes, acc);
    DecodeOneMore(Decoder(crc, digests), pdus, stream, rest);
    AfterOneMore(pdus, got.item);
    OneMoreAnswered(outcomes, ctxs, pdus, OutcomeOf(acc, ctx, got.item), ctx, got.item);
  }

  lemma DecodeShrinks(crc: Crc, digests: DigestConfig, s: seq<byte>)
    requires Decode(crc, digests, s).Ok?
    ensures |Decode(crc, digests, s).rest| < |s|
  {
  }

  lemma AfterOneMore(pdus: seq<Pdu>, pdu: Pdu)
    ensures AfterAll(Map(ArrivalOf, pdus + [pdu])) == After(AfterAll(Map(ArrivalOf, pdus)), ArrivalOf(pdu))
  {
    MapSnoc(ArrivalOf, pdus, pdu);
    AfterAllSnoc(Map(ArrivalOf, pdus), ArrivalOf(pdu));
  }

  lemma OneMoreAnswered(outcomes: seq<Outcome>, ctxs: seq<Context>, pdus: seq<Pdu>, r: Outcome, ctx: Context, pdu: Pdu)
    requires |outcomes| == |ctxs| == |pdus| && AllAnswered(outcomes, ctxs, pdus)
    requires |ctx.waiters| == 128 && r == OutcomeOf(AfterAll(Map(ArrivalOf, pdus)), ctx, pdu)
    ensures AllAnswered(outcomes + [r], ctxs + [ctx], pdus + [pdu])
  {
    var all := pdus + [pdu];
    forall i | 0 <= i < |all|
      ensures |(ctxs + [ctx])[i].waiters| == 128
      ensures (outcomes + [r])[i] == OutcomeOf(AfterAll(Map(ArrivalOf, all[..i])), (ctxs + [ctx])[i], all[i])
    {
      assert all[..i] == if i < |pdus| then pdus[..i] else pdus;
    }
  }

  /** What a read comes to, from PDUs to response: when the data of the PDUs for its tag, since the command
      before it ended, are slices that cover the source buffer, whoever waits for the tag is handed just that
      buffer, however the PDUs of other commands come in between. */
  lemma ReadIsAnswered(outcomes: seq<Outcome>, ctxs: seq<Context>, pdus: seq<Pdu>, i: nat, src: seq<byte>)
    requires |outcomes| == |ctxs| == |pdus| && AllAnswered(outcomes, ctxs, pdus) && i < |pdus|
    requires ArrivalOf(pdus[i]).final && pdus[i].bhs.itt < 128 && src != []
    requires var e := ArrivalOf(pdus[i]);
      var ps := WithPatch(History(Map(ArrivalOf, pdus[..i]), e.itt), e);
      SlicesOf(ps, src) && forall a :: 0 <= a < |src| ==> Covered(ps, a)
    ensures |ctxs[i].waiters| == 128 && outcomes[i].Completed? && outcomes[i].waiter == ctxs[i].waiters[pdus[i].bhs.itt]
    ensures outcomes[i].response.data == Some(src) && outcomes[i].response.status == pdus[i].bhs.ScsiStatus()
  {
    CoveredReadIsAnswered(Map(ArrivalOf, pdus[..i]), ArrivalOf(pdus[i]), src);
  }

  /** What a command's header says; the length of the immediate data is cut to 32 bits. */
  function CommandOf(cdb: Cdb, lun: u64, itt: u32, cmdSn: u32, expStatSn: u32, edtl: u32, read: bool, write: bool,
                     immediate: Option<seq<byte>>): Message {
    Command(lun, itt, cmdSn, expStatSn, cdb, edtl, read, write, ImmediateLength(immediate) % TWO32)
  }

  /** The PDU of a command, as the builders and the immediate data make it. */
  function CommandItem(cdb: Cdb, lun: u64, itt: u32, cmdSn: u32, expStatSn: u32, edtl: u32, read: bool, write: bool,
                       immediate: Option<seq<byte>>): Item {
    Item(CommandOf(cdb, lun, itt, cmdSn, expStatSn, edtl, read, write, immediate), immediate)
  }

  /** Whatever follows on the stream, what was sent is received as a command with just these fields and this data. */
  ghost predicate ReceivedAsCommand(crc: Crc, digests: DigestConfig, sent: seq<byte>, cdb: Cdb, lun: u64, itt: u32,
                                    cmdSn: u32, expStatSn: u32, edtl: u32, read: bool, write: bool,
                                    immediate: Option<seq<byte>>)
  {
    var len := if immediate.Some? then |immediate.value| else 0;
    forall n: nat {:trigger Look(n)} :: Look(n) ==>
      len < TWO32 && forall suffix: seq<byte> ::
        var r := Decode(crc, digests, sent + suffix);
        && r.Ok? && r.rest == suffix && r.item.data == immediate
        && Read(r.item.bhs) == Some(Command(lun, itt, cmdSn, expStatSn, cdb, edtl, read, write, len))
  }

  /** No PDU is received with empty data, or with data of 2^24 bytes or more. */
  lemma ReceivedData(crc: Crc, digests: DigestConfig, s: seq<byte>)
    requires Decode(crc, digests, s).Ok? && Decode(crc, digests, s).item.data.Some?
    ensures 0 < |Decode(crc, digests, s).item.data.value| < 0x100_0000
  {
    var b := s[..48];
    SecondRow(b);
  }

  /** A command is received as it was meant exactly when its immediate data, if any, is not empty and shorter
      than 2^24 bytes. */
  lemma CommandIsReceivedIff(crc: Crc, digests: DigestConfig, cdb: Cdb, lun: u64, itt: u32, cmdSn: u32, expStatSn: u32,
                             edtl: u32, read: bool, write: bool, immediate: Option<seq<byte>>)
    ensures ReceivedAsCommand(crc, digests, ItemBytes(crc, digests,
              CommandItem(cdb, lun, itt, cmdSn, expStatSn, edtl, read, write, immediate)),
              cdb, lun, itt, cmdSn, expStatSn, edtl, read, write, immediate)
       <==> immediate.None? || 0 < |immediate.value| < 0x100_0000
  {
    var sent := ItemBytes(crc, digests, CommandItem(cdb, lun, itt, cmdSn, expStatSn, edtl, read, write, immediate));
    if immediate.None? || 0 < |immediate.value| < 0x100_0000 {
      ShortIsReceived(crc, digests, cdb, lun, itt, cmdSn, expStatSn, edtl, read, write, immediate);
    } else if ReceivedAsCommand(crc, digests, sent, cdb, lun, itt, cmdSn, expStatSn, edtl, read, write, immediate) {
      assert Look(0);
      var r := Decode(crc, digests, sent + []);
      UnfitIsNotReceived(crc, digests, sent, immediate);
      assert false;
    }
  }

  lemma ShortIsReceived(crc: Crc, digests: DigestConfig, cdb: Cdb, lun: u64, itt: u32, cmdSn: u32, expStatSn: u32,
                        edtl: u32, read: bool, write: bool, immediate: Option<seq<byte>>)
    requires immediate.None? || 0 < |immediate.value| < 0x100_0000
    ensures ReceivedAsCommand(crc, digests, ItemBytes(crc, digests,
              CommandItem(cdb, lun, itt, cmdSn, expStatSn, edtl, read, write, immediate)),
              cdb, lun, itt, cmdSn, expStatSn, edtl, read, write, immediate)
  {
    var len := ImmediateLength(immediate);
    var x := Item(Command(lun, itt, cmdSn, expStatSn, cdb, edtl, read, write, len), immediate);
    assert CommandItem(cdb, lun, itt, cmdSn, expStatSn, edtl, read, write, immediate) == x;
    FitIsReceived(crc, digests, x);
  }

  lemma FitIsReceived(crc: Crc, digests: DigestConfig, x: Item)
    requires Fits(x)
    ensures forall suffix: seq<byte> :: var r := Decode(crc, digests, ItemBytes(crc, digests, x) + suffix);
      r.Ok? && r.rest == suffix && r.item.data == x.data && Read(r.item.bhs) == Some(x.m)
  {
    forall suffix: seq<byte>
      ensures var r := Decode(crc, digests, ItemBytes(crc, digests, x) + suffix);
        r.Ok? && r.rest == suffix && r.item.data == x.data && Read(r.item.bhs) == Some(x.m)
    {
      ItemArrives(crc, digests, x, suffix);
    }
  }

  lemma UnfitIsNotReceived(crc: Crc, digests: DigestConfig, sent: seq<byte>, immediate: Option<seq<byte>>)
    requires immediate.Some? && !(0 < |immediate.value| < 0x100_0000)
    ensures var r := Decode(crc, digests, sent + []); !(r.Ok? && r.item.data == immediate)
  {
    var r := Decode(crc, digests, sent + []);
    if r.Ok? && r.item.data.Some? {
      ReceivedData(crc, digests, sent + []);
    }
  }

  /** With what the first burst lets go with it, if that is shorter than 2^24 bytes, a command fits. */
  lemma CommandFits(cdb: Cdb, lun: u64, itt: u32, cmdSn: u32, expStatSn: u32, edtl: u32, read: bool, write: bool,
                    data: seq<byte>, enabled: bool, firstBurst: u32)
    requires firstBurst < 0x100_0000
    ensures Fits(CommandItem(cdb, lun, itt, cmdSn, expStatSn, edtl, read, write, Immediate(data, enabled, firstBurst)))
  {
  }

  /** A header with the item's rows is sent as the item is. */
  lemma BuiltEncoding(crc: Crc, digests: DigestConfig, h: Header, x: Item)
    requires Wire(h) == Layout(Rows(x.m))
    ensures ItemBytes(crc, digests, x) == Encode(crc, digests, Pdu(h, None, x.data))
  {
    HeaderOfWire(x.m);
  }

  /** What has gone on the stream since some moment, and the other tasks' part of it. */
  datatype Trace = Trace(log: seq<Item>, others: seq<Item>)

  /** Since `before`, the stream got the items of the trace: `mine`, and other tasks' in between. */
  ghost predicate Follows(crc: Crc, digests: DigestConfig, before: seq<byte>, now: seq<byte>, mine: seq<Item>, t: Trace) {
    forall n: nat {:trigger Look(n)} :: Look(n) ==>
      now == before + EncodeAll(ItemEncoder(crc, digests), t.log) && Interleaves(t.log, mine, t.others)
  }

  lemma FollowsIs(crc: Crc, digests: DigestConfig, before: seq<byte>, now: seq<byte>, mine: seq<Item>, t: Trace)
    requires Follows(crc, digests, before, now, mine, t)
    ensures now == before + EncodeAll(ItemEncoder(crc, digests), t.log) && Interleaves(t.log, mine, t.others)
  {
    assert Look(0);
  }

  lemma IsFollows(crc: Crc, digests: DigestConfig, before: seq<byte>, now: seq<byte>, mine: seq<Item>, t: Trace)
    requires now == before + EncodeAll(ItemEncoder(crc, digests), t.log) && Interleaves(t.log, mine, t.others)
    ensures Follows(crc, digests, before, now, mine, t)
  {
  }

  lemma FollowsNothing(crc: Crc, digests: DigestConfig, now: seq<byte>)
    ensures Follows(crc, digests, now, now, [], Trace([], []))
  {
    assert now + [] == now;
  }

  lemma FollowsOwn(crc: Crc, digests: DigestConfig, before: seq<byte>, now: seq<byte>, mine: seq<Item>, t: Trace, x: Item)
    requires Follows(crc, digests, before, now, mine, t)
    ensures Follows(crc, digests, before, now + ItemBytes(crc, digests, x), mine + [x], Trace(t.log + [x], t.others))
  {
    FollowsIs(crc, digests, before, now, mine, t);
    EncodeAllMore(ItemEncoder(crc, digests), t.log, x, before);
    InterleavesOwn(t.log, mine, t.others, x);
    IsFollows(crc, digests, before, now + ItemBytes(crc, digests, x), mine + [x], Trace(t.log + [x], t.others));
  }

  lemma FollowsOther(crc: Crc, digests: DigestConfig, before: seq<byte>, now: seq<byte>, mine: seq<Item>, t: Trace,
                     sent: seq<Item>)
    requires Follows(crc, digests, before, now, mine, t)
    ensures Follows(crc, digests, before, now + EncodeAll(ItemEncoder(crc, digests), sent), mine,
                    Trace(t.log + sent, t.others + sent))
  {
    FollowsIs(crc, digests, before, now, mine, t);
    EncodeAllConcat(ItemEncoder(crc, digests), t.log, sent);
    InterleavesOther(t.log, mine, t.others, sent);
    Regroup(before, EncodeAll(ItemEncoder(crc, digests), t.log), EncodeAll(ItemEncoder(crc, digests), sent));
    IsFollows(crc, digests, before, now + EncodeAll(ItemEncoder(crc, digests), sent), mine,
              Trace(t.log + sent, t.others + sent));
  }

  lemma ItemsMore(itt: u32, ask: Ask, mine: seq<Item>, done: seq<Segment>, s: Segment)
    ensures mine + ItemsOf(itt, ask, done) + [DataOutItem(itt, ask, s)] == mine + ItemsOf(itt, ask, done + [s])
  {
    assert ItemsOf(itt, ask, done + [s]) == ItemsOf(itt, ask, done) + [DataOutItem(itt, ask, s)];
  }

  /** All the stream got, once the last PDU is handled. */
  lemma RunOf(crc: Crc, digests: DigestConfig, before: seq<byte>, now: seq<byte>, ctxs: seq<Context>, pdus: seq<Pdu>,
              max: nat, t: Trace)
    requires |ctxs| == |pdus| && max > 0 && Follows(crc, digests, before, now, OutputAll(ctxs, pdus, max), t)
    ensures IsRun(Run(ctxs, pdus, t.others, t.log), max) && now == before + EncodeAll(ItemEncoder(crc, digests), t.log)
  {
    FollowsIs(crc, digests, before, now, OutputAll(ctxs, pdus, max), t);
  }

  ghost predicate WentWell(ctx: Context, p: Pdu, r: Outcome, max: nat)
    requires max > 0
  {
    OutputOk(ctx, p, max) && !r.Panicked?
  }

  /** All but the last PDU were handled without failure, and the last one too if `ok`. */
  ghost predicate FailsLast(ctxs: seq<Context>, pdus: seq<Pdu>, outcomes: seq<Outcome>, max: nat, ok: bool)
    requires |ctxs| == |pdus| == |outcomes| && max > 0
  {
    forall n: nat {:trigger Look(n)} :: Look(n) ==>
      && (forall i :: 0 <= i < |pdus| - 1 ==> WentWell(ctxs[i], pdus[i], outcomes[i], max))
      && (ok <==> (forall i :: 0 <= i < |pdus| ==> WentWell(ctxs[i], pdus[i], outcomes[i], max)))
  }

  lemma NothingFails(max: nat)
    requires max > 0
    ensures FailsLast([], [], [], max, true)
  {
  }

  lemma FailsLastMore(ctxs: seq<Context>, pdus: seq<Pdu>, outcomes: seq<Outcome>, max: nat, ctx: Context, p: Pdu, r: Outcome)
    requires |ctxs| == |pdus| == |outcomes| && max > 0 && FailsLast(ctxs, pdus, outcomes, max, true)
    ensures FailsLast(ctxs + [ctx], pdus + [p], outcomes + [r], max, WentWell(ctx, p, r, max))
  {
    assert Look(0);
    var k := |pdus|;
    assert (ctxs + [ctx])[k] == ctx && (pdus + [p])[k] == p && (outcomes + [r])[k] == r;
  }

  class Session {
    const pool: IttPool
    const writer: TransportWriter
    const state: CmdWindow.SessionState
    const maxSend: u32
    const maxRecv: u32
    var dataAccumulator: Buffers

    constructor (pool: IttPool, writer: TransportWriter, state: CmdWindow.SessionState, maxSend: u32, maxRecv: u32)
      ensures this.pool == pool && this.writer == writer && this.state == state
      ensures this.maxSend == maxSend && this.maxRecv == maxRecv && dataAccumulator == map[]
    {
      this.pool, this.writer, this.state := pool, writer, state;
      this.maxSend, this.maxRecv := maxSend, maxRecv;
      dataAccumulator := map[];
    }

    /** What the session knows when a PDU is handled. */
    ghost function Now(): (ctx: Context)
      reads state, pool
      ensures ctx.cmdSn == state.cmdSn && ctx.data == pool.writeData && ctx.waiters == pool.completions
    {
      Context(state.cmdSn, pool.writeData, pool.completions)
    }

    /** Removes what was gathered for the tag. */
    method TakeBuffer(itt: u32) returns (data: Option<seq<byte>>)
      modifies this`dataAccumulator
      ensures data == if itt in old(dataAccumulator) then Some(old(dataAccumulator)[itt]) else None
      ensures dataAccumulator == old(dataAccumulator) - {itt}
    {
      data := None;
      if itt in dataAccumulator {
        data := Some(dataAccumulator[itt]);
      }
      dataAccumulator := dataAccumulator - {itt};
    }

    method Finish(itt: u32, response: PduResponse) returns (r: Outcome)
      requires pool.Valid()
      modifies pool
      ensures pool.Valid() && pool.writeData == old(pool.writeData)
      ensures r == if itt < 128 then Completed(old(pool.completions)[itt], response) else Panicked
      ensures itt >= 128 ==> pool.completions == old(pool.completions) && pool.Tags() == old(pool.Tags())
      ensures itt < 128 ==> pool.completions == old(pool.completions)[itt := None] && pool.Tags() == old(pool.Tags()) - {itt}
    {
      if itt >= 128 {
        return Panicked;
      }
      var waiter := pool.Complete(itt);
      r := Completed(waiter, response);
    }

    method HandleScsiResponse(pdu: Pdu) returns (r: Outcome)
      requires pool.Valid() && pdu.bhs.opcode == ScsiResponse
      modifies this`dataAccumulator, pool
      ensures pool.Valid()
      ensures dataAccumulator == After(old(dataAccumulator), ArrivalOf(pdu))
      ensures pdu.bhs.itt >= 128 ==> r == Panicked && Now() == old(Now()) && pool.Tags() == old(pool.Tags())
      ensures pdu.bhs.itt < 128 ==>
        && r == Completed(old(pool.completions)[pdu.bhs.itt], ResponseOf(old(dataAccumulator), pdu))
        && pool.completions == old(pool.completions)[pdu.bhs.itt := None]
        && pool.Tags() == old(pool.Tags()) - {pdu.bhs.itt}
        && pool.writeData == old(pool.writeData) - {pdu.bhs.itt}
    {
      var itt := pdu.bhs.itt;
      var data := TakeBuffer(itt);
      r := Finish(itt, PduResponse(pdu.bhs.ScsiStatus(), data, pdu.data));
      if r.Completed? {
        pool.writeData := pool.writeData - {itt};
      }
    }

    method Accumulate(itt: u32, bufferOffset: u32, data: seq<byte>)
      modifies this`dataAccumulator
      ensures dataAccumulator == Accumulated(old(dataAccumulator), Arrival(itt, Some(Patch(bufferOffset, data)), false))
    {
      var buf := if itt in dataAccumulator then dataAccumulator[itt] else [];
      var needed := bufferOffset + |data|;
      if |buf| < needed {
        buf := buf + Zeros(needed - |buf|);
      }
      buf := Splice(buf, bufferOffset, data);
      dataAccumulator := dataAccumulator[itt := buf];
    }

    method HandleDataIn(pdu: Pdu) returns (r: Outcome)
      requires pool.Valid() && pdu.bhs.opcode == ScsiDataIn
      modifies this`dataAccumulator, pool
      ensures pool.Valid()
      ensures dataAccumulator == After(old(dataAccumulator), ArrivalOf(pdu))
      ensures pool.writeData == old(pool.writeData)
      ensures !pdu.bhs.StatusFlag() ==> r == Pending
      ensures pdu.bhs.StatusFlag() && pdu.bhs.itt >= 128 ==> r == Panicked
      ensures !r.Completed? ==> pool.completions == old(pool.completions) && pool.Tags() == old(pool.Tags())
      ensures pdu.bhs.StatusFlag() && pdu.bhs.itt < 128 ==>
        && r == Completed(old(pool.completions)[pdu.bhs.itt], ResponseOf(old(dataAccumulator), pdu))
        && pool.completions == old(pool.completions)[pdu.bhs.itt := None]
        && pool.Tags() == old(pool.Tags()) - {pdu.bhs.itt}
    {
      var itt, bufferOffset := pdu.bhs.itt, pdu.bhs.BufferOffset();
      if pdu.data.Some? {
        Accumulate(itt, bufferOffset, pdu.data.value);
      }
      r := Pending;
      if pdu.bhs.StatusFlag() {
        var data := TakeBuffer(itt);
        r := Finish(itt, PduResponse(pdu.bhs.ScsiStatus(), data, None));
      }
    }

    method CommandHeader(cdb: Cdb, lun: u64, itt: u32, cmdSn: u32, edtl: u32, read: bool, write: bool,
                         immediate: Option<seq<byte>>)
      returns (bhs: Bhs)
      ensures fresh(bhs) && bhs.Valid()
      ensures Wire(bhs.Value()) == Layout(Rows(CommandOf(cdb, lun, itt, cmdSn, state.expStatSn, edtl, read, write, immediate)))
    {
      bhs := BuildScsiCommand(lun, itt, cmdSn, state.expStatSn, cdb, edtl, read, write);
      ghost var tail := bhs.Tail();
      bhs.dataSegmentLength := ImmediateLength(immediate) % TWO32;
      assert bhs.Tail() == tail;
      CommandBuilt(bhs.Value(), cdb, lun, itt, cmdSn, state.expStatSn, edtl, read, write);
    }

    /** The command of a transfer once it has a tag and a number, with the immediate data if there is any. */
    method SendCommand(cdb: Cdb, lun: u64, itt: u32, cmdSn: u32, edtl: u32, read: bool, write: bool,
                       immediate: Option<seq<byte>>)
      returns (ghost sent: seq<byte>)
      modifies writer`written
      ensures writer.written == old(writer.written) + sent
      ensures sent == ItemBytes(writer.crc, writer.digests,
        CommandItem(cdb, lun, itt, cmdSn, state.expStatSn, edtl, read, write, immediate))
      ensures ReceivedAsCommand(writer.crc, writer.digests, sent,
                                cdb, lun, itt, cmdSn, state.expStatSn, edtl, read, write, immediate)
         <==> immediate.None? || 0 < |immediate.value| < 0x100_0000
    {
      var bhs := CommandHeader(cdb, lun, itt, cmdSn, edtl, read, write, immediate);
      BuiltEncoding(writer.crc, writer.digests, bhs.Value(),
                    CommandItem(cdb, lun, itt, cmdSn, state.expStatSn, edtl, read, write, immediate));
      CommandIsReceivedIff(writer.crc, writer.digests, cdb, lun, itt, cmdSn, state.expStatSn, edtl, read, write, immediate);
      sent := ItemBytes(writer.crc, writer.digests,
                        CommandItem(cdb, lun, itt, cmdSn, state.expStatSn, edtl, read, write, immediate));
      writer.SendPdu(Pdu(bhs.Value(), None, immediate));
    }

    // -- Other tasks ---------------------------------------------------------

    method SendItem(x: Item)
      modifies writer`written
      ensures writer.written == old(writer.written) + ItemEncoder(writer.crc, writer.digests)(x)
    {
      writer.SendPdu(PduOf(x));
    }

    /** Whatever the other tasks do in the meantime: take tags and numbers, register write data, send PDUs. */
    method OtherTasks() returns (ghost sent: seq<Item>)
      requires pool.Valid()
      modifies pool, state`cmdSn, writer`written
      ensures pool.Valid()
      ensures writer.written == old(writer.written) + EncodeAll(ItemEncoder(writer.crc, writer.digests), sent)
    {
      sent := [];
      var steps: nat := *;
      while steps > 0
        invariant pool.Valid()
        invariant writer.written == old(writer.written) + EncodeAll(ItemEncoder(writer.crc, writer.digests), sent)
      {
        if * {
          var waiter: nat := *;
          var _ := pool.Alloc(waiter);
        } else if * {
          var itt: u32, data: seq<byte> := *, *;
          pool.writeData := pool.writeData[itt := data];
        } else {
          var x: Item := *;
          state.cmdSn := (state.cmdSn + 1) % TWO32;
          SendItem(x);
          EncodeAllMore(ItemEncoder(writer.crc, writer.digests), sent, x, old(writer.written));
          sent := sent + [x];
        }
        steps := steps - 1;
      }
    }

    /** The receiver sends a PDU; other tasks may get at the writer before it. */
    method SendOwn(pdu: Pdu, ghost x: Item, ghost before: seq<byte>, ghost mine: seq<Item>, ghost t: Trace)
      returns (ghost t2: Trace)
      requires pool.Valid() && Encode(writer.crc, writer.digests, pdu) == ItemBytes(writer.crc, writer.digests, x)
      requires Follows(writer.crc, writer.digests, before, writer.written, mine, t)
      modifies pool, state`cmdSn, writer`written
      ensures pool.Valid()
      ensures Follows(writer.crc, writer.digests, before, writer.written, mine + [x], t2)
    {
      ghost var now := writer.written;
      ghost var sent := OtherTasks();
      FollowsOther(writer.crc, writer.digests, before, now, mine, t, sent);
      t2 := Trace(t.log + sent, t.others + sent);
      FollowsOwn(writer.crc, writer.digests, before, writer.written, mine, t2, x);
      writer.SendPdu(pdu);
      t2 := Trace(t2.log + [x], t2.others);
    }

    // -- Answering an R2T ----------------------------------------------------

    /** The target's limit, else ours, else 256 KB. */
    function SegmentLimit(): (r: nat)
      ensures r > 0
      ensures r == if maxSend > 0 then maxSend else if maxRecv > 0 then maxRecv else 262144
    {
      MaxSegment(maxSend, maxRecv)
    }

    method DataOutHeader(itt: u32, ask: Ask, s: Segment) returns (bhs: Bhs)
      ensures fresh(bhs) && bhs.Valid()
      ensures Wire(bhs.Value()) == Layout(Rows(DataOutOf(itt, ask.ttt, ask.expStatSn, s)))
    {
      bhs := BuildDataOut(0, itt, ask.ttt, ask.expStatSn, s.dataSn % TWO32, s.at % TWO32);
      ghost var tail := bhs.Tail();
      bhs.flags := FlagBit(s.final, 0x80);
      bhs.dataSegmentLength := |s.data| % TWO32;
      assert bhs.Tail() == tail;
      DataOutBuilt(bhs.Value(), 0, itt, ask.ttt, ask.expStatSn, s.dataSn % TWO32, s.at % TWO32, s.final);
    }

    method SendDataOut(itt: u32, ask: Ask, s: Segment, ghost before: seq<byte>, ghost mine: seq<Item>, ghost t: Trace)
      returns (ghost t2: Trace)
      requires pool.Valid() && Follows(writer.crc, writer.digests, before, writer.written, mine, t)
      modifies pool, state`cmdSn, writer`written
      ensures pool.Valid()
      ensures Follows(writer.crc, writer.digests, before, writer.written, mine + [DataOutItem(itt, ask, s)], t2)
    {
      var bhs := DataOutHeader(itt, ask, s);
      BuiltEncoding(writer.crc, writer.digests, bhs.Value(), DataOutItem(itt, ask, s));
      t2 := SendOwn(Pdu(bhs.Value(), None, Some(s.data)), DataOutItem(itt, ask, s), before, mine, t);
    }

    /** `done` are the segments sent so far of a request, and those of `Rest` are still to be sent. */
    ghost predicate Midway(data: seq<byte>, base: nat, sent: nat, desired: nat, sn: nat, done: seq<Segment>) {
      var all, rest := Answered(data, base, desired, SegmentLimit()), Rest(data, base, sent, desired, SegmentLimit(), sn);
      forall n: nat {:trigger Look(n)} :: Look(n) ==> all.ok == rest.ok && all.segments == done + rest.segments
    }

    lemma NothingSent(data: seq<byte>, base: nat, sent: nat, desired: nat, sn: nat, done: seq<Segment>)
      requires sent == 0 && sn == 0 && done == []
      ensures Midway(data, base, sent, desired, sn, done)
    {
      var all := Answered(data, base, desired, SegmentLimit());
      assert all.segments == [] + all.segments;
    }

    lemma OneMoreSent(data: seq<byte>, base: nat, sent: nat, desired: nat, sn: nat, done: seq<Segment>)
      requires sent < desired && base + sent <= |data| && Midway(data, base, sent, desired, sn, done)
      ensures Midway(data, base, sent + Min(desired - sent, SegmentLimit()), desired, sn + 1,
                     done + [SegmentAt(data, base, sent, desired, SegmentLimit(), sn)])
    {
      assert Look(0);
      var all := Answered(data, base, desired, SegmentLimit());
      var next := RestStep(data, base, sent, desired, SegmentLimit(), sn, done, all);
    }

    lemma NothingLeft(data: seq<byte>, base: nat, sent: nat, desired: nat, sn: nat, done: seq<Segment>)
      requires Midway(data, base, sent, desired, sn, done) && (sent >= desired || base + sent > |data|)
      ensures Answered(data, base, desired, SegmentLimit()) == Transfer(done, sent >= desired)
    {
      assert Look(0);
      assert done + [] == done;
    }

    /** Answers an R2T with Data-Outs for the segments of the requested slice; `ok` is false when the loop
        runs off the end of the data. */
    method SendSegments(itt: u32, ask: Ask, writeData: seq<byte>, ghost before: seq<byte>, ghost mine: seq<Item>,
                        ghost t: Trace)
      returns (ok: bool, ghost t2: Trace)
      requires pool.Valid() && Follows(writer.crc, writer.digests, before, writer.written, mine, t)
      modifies pool, state`cmdSn, writer`written
      ensures pool.Valid() && ok == TransferFor(writeData, ask, SegmentLimit()).ok
      ensures Follows(writer.crc, writer.digests, before, writer.written,
                      mine + ItemsFor(itt, writeData, ask, SegmentLimit()), t2)
    {
      var bufferOffset, desiredLength := ask.request.at, ask.request.len;
      var sent, dataSn := 0, 0;
      ghost var done: seq<Segment> := [];
      t2 := t;
      NothingSent(writeData, bufferOffset, sent, desiredLength, dataSn, done);
      assert mine + ItemsOf(itt, ask, []) == mine;
      while sent < desiredLength && bufferOffset + sent <= |writeData|
        invariant 0 <= sent && dataSn >= 0 && pool.Valid()
        invariant Midway(writeData, bufferOffset, sent, desiredLength, dataSn, done)
        invariant Follows(writer.crc, writer.digests, before, writer.written, mine + ItemsOf(itt, ask, done), t2)
      {
        var s := SegmentAt(writeData, bufferOffset, sent, desiredLength, SegmentLimit(), dataSn);
        t2 := SendDataOut(itt, ask, s, before, mine + ItemsOf(itt, ask, done), t2);
        ItemsMore(itt, ask, mine, done, s);
        OneMoreSent(writeData, bufferOffset, sent, desiredLength, dataSn, done);
        done := done + [s];
        sent := sent + Min(desiredLength - sent, SegmentLimit());
        dataSn := dataSn + 1;
      }
      NothingLeft(writeData, bufferOffset, sent, desiredLength, dataSn, done);
      ok := sent >= desiredLength;
    }

    /** Without registered data nothing is sent. */
    method HandleR2t(pdu: Pdu, ghost before: seq<byte>, ghost mine: seq<Item>, ghost t: Trace)
      returns (ok: bool, ghost t2: Trace)
      requires pool.Valid() && pdu.bhs.opcode == R2t && state.expStatSn == NextStatSn(pdu)
      requires Follows(writer.crc, writer.digests, before, writer.written, mine, t)
      modifies pool, state`cmdSn, writer`written
      ensures pool.Valid() && ok == OutputOk(old(Now()), pdu, SegmentLimit())
      ensures Follows(writer.crc, writer.digests, before, writer.written,
                      mine + Output(old(Now()), pdu, SegmentLimit()), t2)
    {
      var itt := pdu.bhs.itt;
      if itt !in pool.writeData {
        OutputOfOther(Now(), pdu, SegmentLimit());
        assert mine + [] == mine;
        return true, t;
      }
      var request := Request(pdu.bhs.R2tBufferOffset(), pdu.bhs.R2tDesiredLength());
      OutputOfAsk(Now(), pdu, SegmentLimit(), request, pool.writeData[itt]);
      ok, t2 := SendSegments(itt, Ask(pdu.bhs.Ttt(), state.expStatSn, request), pool.writeData[itt], before, mine, t);
    }

    /** A ping is answered with its own transfer tag; an answer to our own ping is not. */
    method HandleNopIn(pdu: Pdu, ghost before: seq<byte>, ghost mine: seq<Item>, ghost t: Trace) returns (ghost t2: Trace)
      requires pool.Valid() && pdu.bhs.opcode == NopIn && state.expStatSn == NextStatSn(pdu)
      requires Follows(writer.crc, writer.digests, before, writer.written, mine, t)
      modifies pool, state`cmdSn, writer`written
      ensures pool.Valid()
      ensures Follows(writer.crc, writer.digests, before, writer.written,
                      mine + Output(old(Now()), pdu, SegmentLimit()), t2)
    {
      var ttt := pdu.bhs.Ttt();
      if ttt == RESERVED_TAG {
        OutputOfOther(Now(), pdu, SegmentLimit());
        assert mine + [] == mine;
        return t;
      }
      OutputOfPing(Now(), pdu, SegmentLimit());
      var bhs := BuildNopOut(RESERVED_TAG, ttt, state.cmdSn, state.expStatSn);
      ghost var x := PingReply(ttt, state.cmdSn, state.expStatSn);
      BuiltEncoding(writer.crc, writer.digests, bhs.Value(), x);
      t2 := SendOwn(Pdu(bhs.Value(), None, None), x, before, mine, t);
    }

    // -- The receiver task ---------------------------------------------------

    /** The handler for the opcode. */
    method Handle(pdu: Pdu, ghost before: seq<byte>, ghost mine: seq<Item>, ghost t: Trace)
      returns (r: Outcome, ok: bool, ghost t2: Trace)
      requires pool.Valid() && state.expStatSn == NextStatSn(pdu)
      requires Follows(writer.crc, writer.digests, before, writer.written, mine, t)
      modifies this`dataAccumulator, state`cmdSn, pool, writer`written
      ensures pool.Valid() && r == OutcomeOf(old(dataAccumulator), old(Now()), pdu)
      ensures dataAccumulator == After(old(dataAccumulator), ArrivalOf(pdu))
      ensures r.Completed? ==>
        && pdu.bhs.itt < 128 && r.waiter == old(pool.completions)[pdu.bhs.itt]
        && pool.completions == old(pool.completions)[pdu.bhs.itt := None]
        && pool.Tags() == old(pool.Tags()) - {pdu.bhs.itt}
      ensures !r.Completed? && pdu.bhs.opcode != R2t && pdu.bhs.opcode != NopIn ==>
        Now() == old(Now()) && pool.Tags() == old(pool.Tags())
      ensures r.Completed? && pdu.bhs.opcode == ScsiResponse ==> pool.writeData == old(pool.writeData) - {pdu.bhs.itt}
      ensures ok == OutputOk(old(Now()), pdu, SegmentLimit())
      ensures Follows(writer.crc, writer.digests, before, writer.written,
                      mine + Output(old(Now()), pdu, SegmentLimit()), t2)
    {
      r, ok, t2 := Pending, true, t;
      assert mine + [] == mine;
      if pdu.bhs.opcode != R2t && pdu.bhs.opcode != NopIn {
        OutputOfOther(Now(), pdu, SegmentLimit());
      }
      match pdu.bhs.opcode
      case ScsiResponse =>
        r := HandleScsiResponse(pdu);
      case ScsiDataIn =>
        r := HandleDataIn(pdu);
      case R2t =>
        ok, t2 := HandleR2t(pdu, before, mine, t);
      case NopIn =>
        t2 := HandleNopIn(pdu, before, mine, t);
      case _ =>
    }

    /** What the receiver task does with one PDU: the session's numbers, then the handler. */
    method Dispatch(pdu: Pdu, ghost before: seq<byte>, ghost mine: seq<Item>, ghost t: Trace)
      returns (r: Outcome, ok: bool, ghost t2: Trace)
      requires pool.Valid() && Follows(writer.crc, writer.digests, before, writer.written, mine, t)
      modifies this`dataAccumulator, state, pool, writer`written
      ensures pool.Valid() && r == OutcomeOf(old(dataAccumulator), old(Now()), pdu)
      ensures dataAccumulator == After(old(dataAccumulator), ArrivalOf(pdu))
      ensures state.expStatSn == NextStatSn(pdu) && state.expCmdSn == pdu.bhs.ExpCmdSn()
      ensures state.maxCmdSn == pdu.bhs.MaxCmdSn()
      ensures r.Completed? ==>
        && pdu.bhs.itt < 128 && r.waiter == old(pool.completions)[pdu.bhs.itt]
        && pool.completions == old(pool.completions)[pdu.bhs.itt := None]
        && pool.Tags() == old(pool.Tags()) - {pdu.bhs.itt}
      ensures !r.Completed? && pdu.bhs.opcode != R2t && pdu.bhs.opcode != NopIn ==>
        Now() == old(Now()) && pool.Tags() == old(pool.Tags())
      ensures r.Completed? && pdu.bhs.opcode == ScsiResponse ==> pool.writeData == old(pool.writeData) - {pdu.bhs.itt}
      ensures ok == OutputOk(old(Now()), pdu, SegmentLimit())
      ensures Follows(writer.crc, writer.digests, before, writer.written,
                      mine + Output(old(Now()), pdu, SegmentLimit()), t2)
    {
      state.UpdateSequenceNumbers(pdu.bhs);
      assert Now() == old(Now());
      r, ok, t2 := Handle(pdu, before, mine, t);
    }

    /** One turn of the receiver task. */
    method ReceiveNext(reader: TransportReader, ghost stream: seq<byte>, ghost ctxs: seq<Context>, ghost pdus: seq<Pdu>,
                       ghost outcomes: seq<Outcome>, ghost before: seq<byte>, ghost t: Trace)
      returns (got: Reply, r: Outcome, ok: bool, ghost ctx: Context, ghost t2: Trace)
      requires pool.Valid() && reader.Valid()
      requires Handled(reader.crc, reader.digests, stream, reader.unread, ctxs, pdus, outcomes, dataAccumulator)
      requires Follows(writer.crc, writer.digests, before, writer.written, OutputAll(ctxs, pdus, SegmentLimit()), t)
      modifies this`dataAccumulator, state, pool, writer`written, reader`unread, reader.bhsBuf
      ensures pool.Valid() && got == Decode(reader.crc, reader.digests, old(reader.unread))
      ensures got.Err? ==> dataAccumulator == old(dataAccumulator)
      ensures got.Err? ==>
        Follows(writer.crc, writer.digests, before, writer.written, OutputAll(ctxs, pdus, SegmentLimit()), t2)
      ensures got.Ok? ==> |reader.unread| < |old(reader.unread)|
      ensures got.Ok? ==> (ok <==> WentWell(ctx, got.item, r, SegmentLimit()))
      ensures got.Ok? ==> Handled(reader.crc, reader.digests, stream, reader.unread, ctxs + [ctx], pdus + [got.item],
                                  outcomes + [r], dataAccumulator)
      ensures got.Ok? ==> Follows(writer.crc, writer.digests, before, writer.written,
                                  OutputAll(ctxs + [ctx], pdus + [got.item], SegmentLimit()), t2)
    {
      r, ok := Pending, false;
      ghost var now := writer.written;
      ghost var sent := OtherTasks();
      FollowsOther(writer.crc, writer.digests, before, now, OutputAll(ctxs, pdus, SegmentLimit()), t, sent);
      t2 := Trace(t.log + sent, t.others + sent);
      ctx := Now();
      got := reader.RecvPdu();
      if got.Ok? {
        DecodeShrinks(reader.crc, reader.digests, old(reader.unread));
        HandledMore(reader.crc, reader.digests, stream, old(reader.unread), ctxs, pdus, outcomes, dataAccumulator, ctx, got);
        r, ok, t2 := Dispatch(got.item, before, OutputAll(ctxs, pdus, SegmentLimit()), t2);
        OutputAllSnoc(ctxs, pdus, ctx, got.item, SegmentLimit());
        ok := ok && !r.Panicked?;
      }
    }

    /** The receiver task: PDU after PDU is decoded and dispatched, until no more can be read or a handler
        fails (`ok` is false), while other tasks take tags, register data and send PDUs at any moment. Whatever
        PDUs of whatever commands it was given: the buffers are those of the PDUs' histories; each PDU that ends
        a command hands what its history amounts to to whoever waited for its tag; and the stream got just what
        the PDUs ask for, in their order, interleaved with what the other tasks sent. */
    method Receive(reader: TransportReader)
      returns (outcomes: seq<Outcome>, ok: bool, ghost run: Run, ghost rest: seq<byte>)
      requires pool.Valid() && reader.Valid() && dataAccumulator == map[]
      modifies this`dataAccumulator, state, pool, writer`written, reader`unread, reader.bhsBuf
      ensures pool.Valid() && IsRun(run, SegmentLimit())
      ensures writer.written == old(writer.written) + EncodeAll(ItemEncoder(writer.crc, writer.digests), run.log)
      ensures Handled(reader.crc, reader.digests, old(reader.unread), rest, run.ctxs, run.pdus, outcomes, dataAccumulator)
      ensures ok ==> Decode(reader.crc, reader.digests, rest).Err?
      ensures FailsLast(run.ctxs, run.pdus, outcomes, SegmentLimit(), ok)
    {
      outcomes, ok, rest := [], true, reader.unread;
      ghost var before, t := writer.written, Trace([], []);
      ghost var ctxs: seq<Context>, pdus: seq<Pdu> := [], [];
      FollowsNothing(writer.crc, writer.digests, before);
      NothingHandled(reader.crc, reader.digests, reader.unread);
      NothingFails(SegmentLimit());
      while ok
        invariant pool.Valid() && rest == reader.unread
        invariant Handled(reader.crc, reader.digests, old(reader.unread), rest, ctxs, pdus, outcomes, dataAccumulator)
        invariant Follows(writer.crc, writer.digests, before, writer.written, OutputAll(ctxs, pdus, SegmentLimit()), t)
        invariant FailsLast(ctxs, pdus, outcomes, SegmentLimit(), ok)
        decreases ok, |reader.unread|
      {
        var got, r;
        ghost var ctx;
        got, r, ok, ctx, t := ReceiveNext(reader, old(reader.unread), ctxs, pdus, outcomes, before, t);
        if got.Err? {
          ok := true;
          break;
        }
        FailsLastMore(ctxs, pdus, outcomes, SegmentLimit(), ctx, got.item, r);
        ctxs, pdus, outcomes, rest := ctxs + [ctx], pdus + [got.item], outcomes + [r], reader.unread;
      }
      run := Run(ctxs, pdus, t.others, t.log);
      RunOf(writer.crc, writer.digests, before, writer.written, ctxs, pdus, SegmentLimit(), t);
    }
  }
}
