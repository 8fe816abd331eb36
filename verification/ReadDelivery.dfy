/** What the target's PDUs on the stream come to at the initiator: the answers handed to those who wait for them, and
    the PDUs sent in return. */
module ReadDelivery {
  import opened Bytes
  import opened Overlay
  import opened Pdu
  import opened Reassembly
  import opened Streams
  import opened Transport
  import opened Wrappers
  import opened WriteDelivery
  import opened WriteTransfer
  import opened Session

  // -- What the target says --------------------------------------------------

  /** The PDU ends the command of a tag: a response, or the Data-In with the status. */
  predicate Ends(x: Item, t: u32) {
    x.m.itt == t && (x.m.Response? || (x.m.DataIn? && x.m.hasStatus))
  }

  predicate BringsData(x: Item, t: u32) {
    x.m.DataIn? && x.m.itt == t && x.data.Some?
  }

  /** The data of the PDU is what `src` holds at the offset the header says. */
  predicate BringsSlice(x: Item, src: seq<byte>)
    requires x.m.DataIn? && x.data.Some?
  {
    x.m.bufferOffset + |x.data.value| <= |src|
    && x.data.value == src[x.m.bufferOffset..x.m.bufferOffset + |x.data.value|]
  }

  predicate BringsByte(x: Item, t: u32, a: nat) {
    BringsData(x, t) && x.m.bufferOffset <= a < x.m.bufferOffset + |x.data.value|
  }

  /** From `n` on come the PDUs of the tag's command that the one at `i` ends. */
  ghost predicate IsCommandOf(items: seq<Item>, t: u32, n: nat, i: nat) {
    && n <= i < |items|
    && Ends(items[i], t)
    && (n > 0 ==> Ends(items[n - 1], t))
    && forall j :: n <= j < i ==> !Ends(items[j], t)
  }

  /** The data of a command's PDUs are slices of `src`. */
  ghost predicate BringSlices(items: seq<Item>, t: u32, n: nat, i: nat, src: seq<byte>)
    requires i < |items|
  {
    forall j :: n <= j <= i && BringsData(items[j], t) ==> BringsSlice(items[j], src)
  }

  /** Together they bring every byte of it. */
  ghost predicate BringAll(items: seq<Item>, t: u32, n: nat, i: nat, src: seq<byte>)
    requires i < |items|
  {
    forall a: nat :: a < |src| ==> SomeBrings(items, t, n, i, a)
  }

  ghost predicate SomeBrings(items: seq<Item>, t: u32, n: nat, i: nat, a: nat)
    requires i < |items|
  {
    exists j :: n <= j <= i && BringsByte(items[j], t, a)
  }

  // -- What the receiver makes of one PDU ------------------------------------

  function ArrivalFrom(x: Item): Arrival {
    Arrival(x.m.itt, if BringsData(x, x.m.itt) then Some(Patch(x.m.bufferOffset, x.data.value)) else None,
            Ends(x, x.m.itt))
  }

  /** What is read from a header says its opcode and tag. */
  lemma ReadTells(h: Header, m: Message)
    requires Read(h) == Some(m)
    ensures h.itt == m.itt
    ensures (m.DataIn? <==> h.opcode == ScsiDataIn) && (m.Response? <==> h.opcode == ScsiResponse)
    ensures (m.Ready? <==> h.opcode == R2t) && (m.Pong? <==> h.opcode == NopIn)
  {
  }

  lemma DataInTells(p: Pdu, m: Message)
    requires Read(p.bhs) == Some(m) && (m.DataIn? || m.Response?)
    ensures p.bhs.ScsiStatus() == m.status
    ensures m.DataIn? ==> p.bhs.BufferOffset() == m.bufferOffset && p.bhs.StatusFlag() == m.hasStatus
  {
  }

  lemma ArrivalReads(p: Pdu, m: Message)
    requires Read(p.bhs) == Some(m)
    ensures ArrivalOf(p) == ArrivalFrom(Item(m, p.data))
  {
    ReadTells(p.bhs, m);
    if m.DataIn? {
      DataInTells(p, m);
    }
  }

  lemma ArrivalIs(x: Item)
    requires Fits(x)
    ensures ArrivalOf(PduOf(x)) == ArrivalFrom(x)
  {
    HeaderReads(x.m);
    ArrivalReads(PduOf(x), x.m);
  }

  /** What the receiver makes of a PDU in whatever situation, whoever made its header. */
  lemma OutcomeReads(p: Pdu, m: Message, acc: Buffers, ctx: Context)
    requires Read(p.bhs) == Some(m) && |ctx.waiters| == 128
    ensures var r, t, ends := OutcomeOf(acc, ctx, p), m.itt, Ends(Item(m, p.data), m.itt);
      && (!ends ==> r == Pending)
      && (ends && t < 128 ==>
            && r.Completed? && r.waiter == ctx.waiters[t]
            && r.response.status == m.status && r.response.sense == if m.Response? then p.data else None)
  {
    ReadTells(p.bhs, m);
    ArrivalReads(p, m);
    if m.DataIn? || m.Response? {
      DataInTells(p, m);
    }
  }

  lemma {:induction false} ArrivalsAre(items: seq<Item>)
    requires AllFit(items)
    ensures Map(ArrivalOf, Map(PduOf, items)) == Map(ArrivalFrom, items)
  {
    forall i | 0 <= i < |items|
      ensures ArrivalOf(PduOf(items[i])) == ArrivalFrom(items[i])
    {
      ArrivalIs(items[i]);
    }
  }

  // -- The data of a command -------------------------------------------------

  /** A patch is what one of the command's PDUs brings. */
  ghost predicate IsBrought(items: seq<Item>, t: u32, n: nat, i: nat, p: Patch)
    requires i <= |items|
  {
    exists j :: n <= j < i && BringsData(items[j], t) && p == Patch(items[j].m.bufferOffset, items[j].data.value)
  }

  ghost predicate OnlyBrought(items: seq<Item>, t: u32, n: nat, i: nat, ps: seq<Patch>)
    requires i <= |items|
  {
    forall k :: 0 <= k < |ps| ==> IsBrought(items, t, n, i, ps[k])
  }

  ghost predicate AllBrought(items: seq<Item>, t: u32, n: nat, i: nat, ps: seq<Patch>)
    requires i <= |items|
  {
    forall j :: n <= j < i && BringsData(items[j], t) ==> Patch(items[j].m.bufferOffset, items[j].data.value) in ps
  }

  lemma BroughtOneMore(items: seq<Item>, t: u32, n: nat, i: nat, ps: seq<Patch>)
    requires n <= i < |items| && OnlyBrought(items, t, n, i, ps) && AllBrought(items, t, n, i, ps)
    ensures var more := if items[i].m.itt == t then WithPatch(ps, ArrivalFrom(items[i])) else ps;
      OnlyBrought(items, t, n, i + 1, more) && AllBrought(items, t, n, i + 1, more)
  {
    var more := if items[i].m.itt == t then WithPatch(ps, ArrivalFrom(items[i])) else ps;
    forall k | 0 <= k < |more|
      ensures IsBrought(items, t, n, i + 1, more[k])
    {
      if k < |ps| {
        assert IsBrought(items, t, n, i, ps[k]);
      } else {
        assert BringsData(items[i], t);
      }
    }
    forall j | n <= j < i + 1 && BringsData(items[j], t)
      ensures Patch(items[j].m.bufferOffset, items[j].data.value) in more
    {
      if j == i {
        assert more[|ps|] == Patch(items[j].m.bufferOffset, items[j].data.value);
      }
    }
  }

  /** The history of a tag is what its PDUs brought since its last command ended. */
  lemma {:induction false} HistoryIsBrought(items: seq<Item>, t: u32, n: nat, i: nat)
    requires n <= i <= |items| && (n > 0 ==> Ends(items[n - 1], t)) && forall j :: n <= j < i ==> !Ends(items[j], t)
    ensures var h := History(Map(ArrivalFrom, items[..i]), t);
      OnlyBrought(items, t, n, i, h) && AllBrought(items, t, n, i, h)
    decreases i
  {
    if i > 0 {
      MapSnoc(ArrivalFrom, items[..i - 1], items[i - 1]);
      assert items[..i] == items[..i - 1] + [items[i - 1]];
      var es := Map(ArrivalFrom, items[..i - 1]);
      assert (es + [ArrivalFrom(items[i - 1])])[..|es|] == es;
      if n < i {
        HistoryIsBrought(items, t, n, i - 1);
        BroughtOneMore(items, t, n, i - 1, History(es, t));
      }
    }
  }

  /** Slices that bring all of `src` make patches that cover it. */
  lemma BroughtCovers(items: seq<Item>, t: u32, n: nat, i: nat, src: seq<byte>, ps: seq<Patch>)
    requires i < |items| && OnlyBrought(items, t, n, i + 1, ps) && AllBrought(items, t, n, i + 1, ps)
    requires BringSlices(items, t, n, i, src) && BringAll(items, t, n, i, src)
    ensures SlicesOf(ps, src) && forall a :: 0 <= a < |src| ==> Covered(ps, a)
  {
    forall k | 0 <= k < |ps|
      ensures ps[k].SliceOf(src)
    {
      assert IsBrought(items, t, n, i + 1, ps[k]);
    }
    forall a | 0 <= a < |src|
      ensures Covered(ps, a)
    {
      assert SomeBrings(items, t, n, i, a);
      var j :| n <= j <= i && BringsByte(items[j], t, a);
      var k :| 0 <= k < |ps| && ps[k] == Patch(items[j].m.bufferOffset, items[j].data.value);
      assert ps[k].Covers(a);
    }
  }

  // -- From the stream to the answer -----------------------------------------

  /** The PDUs handled are the first of those the target sent. */
  lemma {:induction false} HandledAreSent(crc: Crc, digests: DigestConfig, items: seq<Item>, suffix: seq<byte>, rest: seq<byte>, pdus: seq<Pdu>)
    requires AllFit(items) && |pdus| <= |items|
    requires DecodeMany(Decoder(crc, digests), |pdus|, EncodeAll(ItemEncoder(crc, digests), items) + suffix)
      == Some((pdus, rest))
    ensures pdus == Map(PduOf, items[..|pdus|])
  {
    var n, enc := |pdus|, ItemEncoder(crc, digests);
    StreamSplit(enc, items, n, suffix);
    ItemsArrive(crc, digests, items[..n], EncodeAll(enc, items[n..]) + suffix);
  }

  lemma {:induction false} StreamSplit(encode: Item -> seq<byte>, items: seq<Item>, n: nat, suffix: seq<byte>)
    requires n <= |items|
    ensures EncodeAll(encode, items) + suffix == EncodeAll(encode, items[..n]) + (EncodeAll(encode, items[n..]) + suffix)
  {
    assert items == items[..n] + items[n..];
    EncodeAllConcat(encode, items[..n], items[n..]);
    Regroup(EncodeAll(encode, items[..n]), EncodeAll(encode, items[n..]), suffix);
  }

  /** On a stream of any PDUs of a target: the PDU that ends a command is answered to whoever waits for its tag, with
      its status, and with what a response carries as sense data; any other PDU is answered to nobody. */
  lemma {:induction false} EndIsAnswered(crc: Crc, digests: DigestConfig, items: seq<Item>, suffix: seq<byte>, rest: seq<byte>,
                      ctxs: seq<Context>, pdus: seq<Pdu>, outcomes: seq<Outcome>, acc: Buffers, i: nat)
    requires AllFit(items) && i < |pdus| <= |items|
    requires Handled(crc, digests, EncodeAll(ItemEncoder(crc, digests), items) + suffix, rest, ctxs, pdus, outcomes, acc)
    ensures !Ends(items[i], items[i].m.itt) ==> outcomes[i] == Pending
    ensures Ends(items[i], items[i].m.itt) && items[i].m.itt < 128 ==>
      && |ctxs[i].waiters| == 128
      && outcomes[i].Completed? && outcomes[i].waiter == ctxs[i].waiters[items[i].m.itt]
      && outcomes[i].response.status == items[i].m.status
      && outcomes[i].response.sense == if items[i].m.Response? then items[i].data else None
  {
    HandledIs(crc, digests, EncodeAll(ItemEncoder(crc, digests), items) + suffix, rest, ctxs, pdus, outcomes, acc);
    HandledAreSent(crc, digests, items, suffix, rest, pdus);
    assert outcomes[i] == OutcomeOf(AfterAll(Map(ArrivalOf, pdus[..i])), ctxs[i], pdus[i]);
    HeaderReads(items[i].m);
    OutcomeReads(pdus[i], items[i].m, AfterAll(Map(ArrivalOf, pdus[..i])), ctxs[i]);
  }

  /** A read, from the target's PDUs on the stream to the answer: when the Data-Ins of a command, of whatever tags
      the PDUs in between are, bring slices of a buffer at the offsets in their headers and together all
      of it, then whoever waits for the tag is handed just that buffer with the status of the last one. */
  lemma {:induction false} ReadIsDelivered(crc: Crc, digests: DigestConfig, items: seq<Item>, suffix: seq<byte>, rest: seq<byte>,
                        ctxs: seq<Context>, pdus: seq<Pdu>, outcomes: seq<Outcome>, acc: Buffers, t: u32, n: nat, i: nat,
                        src: seq<byte>)
    requires AllFit(items) && i < |pdus| <= |items| && t < 128 && src != []
    requires Handled(crc, digests, EncodeAll(ItemEncoder(crc, digests), items) + suffix, rest, ctxs, pdus, outcomes, acc)
    requires IsCommandOf(items, t, n, i) && BringSlices(items, t, n, i, src) && BringAll(items, t, n, i, src)
    ensures |ctxs[i].waiters| == 128 && outcomes[i].Completed? && outcomes[i].waiter == ctxs[i].waiters[t]
    ensures outcomes[i].response.data == Some(src) && outcomes[i].response.status == items[i].m.status
  {
    var stream := EncodeAll(ItemEncoder(crc, digests), items) + suffix;
    EndIsAnswered(crc, digests, items, suffix, rest, ctxs, pdus, outcomes, acc, i);
    HandledIs(crc, digests, stream, rest, ctxs, pdus, outcomes, acc);
    HandledAreSent(crc, digests, items, suffix, rest, pdus);
    PdusBefore(items, pdus, i);
    ArrivalIs(items[i]);
    HistoryIsBrought(items, t, n, i);
    BroughtOneMore(items, t, n, i, History(Map(ArrivalFrom, items[..i]), t));
    BroughtCovers(items, t, n, i, src, WithPatch(History(Map(ArrivalFrom, items[..i]), t), ArrivalFrom(items[i])));
    ReadIsAnswered(outcomes, ctxs, pdus, i, src);
  }

  /** A command that brings no data is answered without any. */
  lemma {:induction false} NothingIsDelivered(crc: Crc, digests: DigestConfig, items: seq<Item>, suffix: seq<byte>,
      rest: seq<byte>, ctxs: seq<Context>, pdus: seq<Pdu>, outcomes: seq<Outcome>, acc: Buffers, t: u32, n: nat, i: nat)
    requires AllFit(items) && i < |pdus| <= |items| && t < 128
    requires Handled(crc, digests, EncodeAll(ItemEncoder(crc, digests), items) + suffix, rest, ctxs, pdus, outcomes, acc)
    requires IsCommandOf(items, t, n, i) && forall j :: n <= j <= i ==> !BringsData(items[j], t)
    ensures outcomes[i].Completed? && outcomes[i].response.data == None
  {
    EndIsAnswered(crc, digests, items, suffix, rest, ctxs, pdus, outcomes, acc, i);
    HandledIs(crc, digests, EncodeAll(ItemEncoder(crc, digests), items) + suffix, rest, ctxs, pdus, outcomes, acc);
    HandledAreSent(crc, digests, items, suffix, rest, pdus);
    PdusBefore(items, pdus, i);
    ArrivalIs(items[i]);
    HistoryIsBrought(items, t, n, i);
    NoneBrought(items, t, n, i, History(Map(ArrivalFrom, items[..i]), t));
    BuffersAreHistories(Map(ArrivalFrom, items[..i]), t);
    assert outcomes[i] == OutcomeOf(AfterAll(Map(ArrivalOf, pdus[..i])), ctxs[i], pdus[i]);
  }

  lemma NoneBrought(items: seq<Item>, t: u32, n: nat, i: nat, ps: seq<Patch>)
    requires i < |items| && OnlyBrought(items, t, n, i, ps) && forall j :: n <= j <= i ==> !BringsData(items[j], t)
    ensures ps == []
  {
    assert ps != [] ==> IsBrought(items, t, n, i, ps[0]);
  }

  lemma {:induction false} PdusBefore(items: seq<Item>, pdus: seq<Pdu>, i: nat)
    requires AllFit(items) && i < |pdus| <= |items| && pdus == Map(PduOf, items[..|pdus|])
    ensures pdus[i] == PduOf(items[i]) && Map(ArrivalOf, pdus[..i]) == Map(ArrivalFrom, items[..i])
  {
    assert pdus[..i] == Map(PduOf, items[..i]);
    ArrivalsAre(items[..i]);
  }

  // -- What is sent in return ------------------------------------------------

  /** The `k`th Data-Out for an R2T: to its tags, acknowledging its status number, with the bytes of `data` at the offset
      it says, and final if it is the last one. */
  predicate IsPart(x: Item, r: Message, k: nat, last: bool, data: seq<byte>, max: nat)
    requires r.Ready?
  {
    && x.m.DataOut? && x.m.lun == 0 && x.m.itt == r.itt && x.m.ttt == r.ttt
    && x.m.expStatSn == (r.statSn + 1) % TWO32 && x.m.dataSn == k && x.m.final == last
    && 0 < x.m.len <= max && x.m.bufferOffset + x.m.len <= |data|
    && x.data == Some(data[x.m.bufferOffset..x.m.bufferOffset + x.m.len])
  }

  /** The Data-Outs answer the R2T: one after another without gap from its offset on, up to its length. */
  ghost predicate AnswerRequest(out: seq<Item>, r: Message, data: seq<byte>, max: nat)
    requires r.Ready?
  {
    && (forall k :: 0 <= k < |out| ==> IsPart(out[k], r, k, k == |out| - 1, data, max))
    && (forall k :: 0 <= k < |out| - 1 ==> out[k + 1].m.bufferOffset == out[k].m.bufferOffset + out[k].m.len)
    && (out == [] <==> r.desired == 0)
    && (out != [] ==> var last := out[|out| - 1];
          out[0].m.bufferOffset == r.bufferOffset && last.m.bufferOffset + last.m.len == r.bufferOffset + r.desired)
  }

  /** The tags and numbers for an R2T, and what it asks for. */
  function AskFor(r: Message): Ask
    requires r.Ready?
  {
    Ask(r.ttt, (r.statSn + 1) % TWO32, Request(r.bufferOffset, r.desired))
  }

  lemma SegmentsAnswer(r: Message, data: seq<byte>, max: nat)
    requires r.Ready? && 0 < max < 0x100_0000 && r.bufferOffset + r.desired <= Min(|data|, TWO32)
    ensures TransferFor(data, AskFor(r), max).ok && AnswerRequest(ItemsFor(r.itt, data, AskFor(r), max), r, data, max)
  {
    var out, ss := ItemsFor(r.itt, data, AskFor(r), max), TransferFor(data, AskFor(r), max).segments;
    InsideIsOk(data, r.bufferOffset, 0, r.desired, max, 0);
    RestIsWellCut(data, r.bufferOffset, 0, r.desired, max, 0);
    RequestIsSmall(data, r.bufferOffset, 0, r.desired, max, 0);
    SegmentsCover(data, r.bufferOffset, 0, r.desired, max, 0, 0);
    if r.desired > 0 {
      RestEnds(data, r.bufferOffset, 0, r.desired, max, 0);
    }
    PartsOf(r, data, max, ss, out);
  }

  /** Well-cut slices of the data that end where the request does make the parts. */
  lemma PartsOf(r: Message, data: seq<byte>, max: nat, ss: seq<Segment>, out: seq<Item>)
    requires r.Ready? && WellCut(ss, 0, r.bufferOffset, max) && Small(ss) && SlicesOf(Patches(ss), data)
    requires ss == [] <==> r.desired == 0
    requires ss != [] ==> ss[|ss| - 1].at + |ss[|ss| - 1].data| == r.bufferOffset + r.desired
    requires out == ItemsOf(r.itt, AskFor(r), ss)
    ensures AnswerRequest(out, r, data, max)
  {
    forall k | 0 <= k < |ss|
      ensures IsPart(out[k], r, k, k == |out| - 1, data, max)
      ensures out[k].m.bufferOffset == ss[k].at && out[k].m.len == |ss[k].data|
    {
      assert Patches(ss)[k].SliceOf(data);
      SegmentIsPart(r, data, max, ss[k]);
    }
  }

  lemma SegmentIsPart(r: Message, data: seq<byte>, max: nat, s: Segment)
    requires r.Ready? && s.dataSn < TWO32 && s.at < TWO32 && 0 < |s.data| < 0x100_0000 && |s.data| <= max
    requires s.AsPatch().SliceOf(data)
    ensures var x := DataOutItem(r.itt, AskFor(r), s);
      IsPart(x, r, s.dataSn, s.final, data, max) && x.m.bufferOffset == s.at && x.m.len == |s.data|
  {
  }

  /** What the handler of an R2T writes, whoever made its header: Data-Outs that answer it if data is registered for its
      tag, and nothing if not. */
  lemma RequestIsAnswered(ctx: Context, p: Pdu, r: Message, max: nat)
    requires Read(p.bhs) == Some(r) && r.Ready? && 0 < max < 0x100_0000
    requires r.itt in ctx.data ==> r.bufferOffset + r.desired <= Min(|ctx.data[r.itt]|, TWO32)
    ensures OutputOk(ctx, p, max)
    ensures r.itt in ctx.data ==> AnswerRequest(Output(ctx, p, max), r, ctx.data[r.itt], max)
    ensures r.itt !in ctx.data ==> Output(ctx, p, max) == []
  {
    OutputForReady(ctx, p, r, max);
    if r.itt in ctx.data {
      SegmentsAnswer(r, ctx.data[r.itt], max);
    }
  }

  lemma OutputForReady(ctx: Context, p: Pdu, r: Message, max: nat)
    requires Read(p.bhs) == Some(r) && r.Ready? && max > 0
    ensures r.itt in ctx.data ==>
      && Output(ctx, p, max) == ItemsFor(r.itt, ctx.data[r.itt], AskFor(r), max)
      && OutputOk(ctx, p, max) == TransferFor(ctx.data[r.itt], AskFor(r), max).ok
    ensures r.itt !in ctx.data ==> Output(ctx, p, max) == [] && OutputOk(ctx, p, max)
  {
    ReadyTells(p, r);
    if r.itt in ctx.data {
      OutputOfAsk(ctx, p, max, AskFor(r).request, ctx.data[r.itt]);
    } else {
      OutputOfOther(ctx, p, max);
    }
  }

  lemma ReadyTells(p: Pdu, r: Message)
    requires Read(p.bhs) == Some(r) && r.Ready?
    ensures p.bhs.opcode == R2t && p.bhs.itt == r.itt && p.bhs.Ttt() == r.ttt && NextStatSn(p) == (r.statSn + 1) % TWO32
    ensures p.bhs.R2tBufferOffset() == r.bufferOffset && p.bhs.R2tDesiredLength() == r.desired
  {
  }

  /** What is written for any other PDU: for a ping of the target a NOP-Out with the reserved tag, the ping's transfer
      tag, the command number of that moment and the next status number; for an answer to our own ping, and for
      anything else, nothing. */
  lemma PingIsAnswered(ctx: Context, p: Pdu, m: Message, max: nat)
    requires Read(p.bhs) == Some(m) && !m.Ready? && max > 0
    ensures OutputOk(ctx, p, max)
    ensures Output(ctx, p, max) ==
      if m.Pong? && m.ttt != 0xFFFF_FFFF
      then [Item(Ping(0xFFFF_FFFF, m.ttt, ctx.cmdSn, (m.statSn + 1) % TWO32), None)]
      else []
  {
    ReadTells(p.bhs, m);
    if m.Pong? {
      PongTells(p, m);
    }
    if m.Pong? && m.ttt != 0xFFFF_FFFF {
      OutputOfPing(ctx, p, max);
    } else {
      OutputOfOther(ctx, p, max);
    }
  }

  lemma PongTells(p: Pdu, m: Message)
    requires Read(p.bhs) == Some(m) && m.Pong?
    ensures p.bhs.opcode == NopIn && p.bhs.Ttt() == m.ttt && NextStatSn(p) == (m.statSn + 1) % TWO32
  {
  }
}
