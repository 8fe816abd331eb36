/** Write data on its way to the target: immediate data and the Data-Out PDUs that answer an R2T
    (iscsi/pipeline.rs, iscsi/session.rs; RFC 7143 sections 11.7 and 11.8). */
module WriteTransfer {
  import opened Arithmetic
  import opened Bytes
  import opened Overlay
  import opened Pdu
  import opened Streams
  import opened Transport
  import opened Wrappers

  const DEFAULT_SEGMENT := 262144

  /** The longest data segment to send: the target's limit wherever it has set one, and never nothing. */
  function MaxSegment(send: u32, recv: u32): (r: nat)
    ensures r > 0
    ensures r == send <==> send > 0
    ensures send == 0 ==> r == if recv > 0 then recv else 262144
  {
    if send > 0 then send else if recv > 0 then recv else DEFAULT_SEGMENT
  }

  /** What goes with the command PDU: if allowed, as much of the data as the first burst has room for. The length
      of the data is cut to 32 bits. */
  function Immediate(data: seq<byte>, enabled: bool, firstBurst: u32): (r: Option<seq<byte>>)
    ensures r.Some? ==> 0 < |r.value| <= firstBurst && |r.value| <= |data| && r.value == data[..|r.value|]
    ensures |data| < TWO32 ==> (r.Some? <==> enabled && data != [] && firstBurst > 0)
    ensures |data| < TWO32 && r.Some? ==> |r.value| == |data| || |r.value| == firstBurst
  {
    var n := Min(|data| % TWO32, firstBurst);
    if enabled && data != [] && n > 0 then Some(data[..n]) else None
  }

  // -- Segments --------------------------------------------------------------

  datatype Segment = Segment(dataSn: nat, at: nat, data: seq<byte>, final: bool) {
    function AsPatch(): Patch {
      Patch(at, data)
    }
  }

  /** The segments sent, and whether the loop ran to its end rather than off the end of the data. */
  datatype Transfer = Transfer(segments: seq<Segment>, ok: bool)

  function SegmentAt(data: seq<byte>, base: nat, sent: nat, desired: nat, max: nat, sn: nat): Segment
    requires base + sent <= |data| && sent < desired
  {
    var n, at := Min(desired - sent, max), base + sent;
    Segment(sn, at, data[at..Min(at + n, |data|)], sent + n >= desired)
  }

  /** What is sent for the rest of a request once `sent` bytes of it have gone out in `sn` segments. */
  ghost function Rest(data: seq<byte>, base: nat, sent: nat, desired: nat, max: nat, sn: nat): Transfer
    requires max > 0
    decreases desired - sent
  {
    if sent >= desired then Transfer([], true)
    else if base + sent > |data| then Transfer([], false)
    else
      var rest := Rest(data, base, sent + Min(desired - sent, max), desired, max, sn + 1);
      Transfer([SegmentAt(data, base, sent, desired, max, sn)] + rest.segments, rest.ok)
  }

  lemma RestStep(data: seq<byte>, base: nat, sent: nat, desired: nat, max: nat, sn: nat, done: seq<Segment>, all: Transfer)
    returns (next: Transfer)
    requires max > 0 && sent < desired && base + sent <= |data|
    requires var now := Rest(data, base, sent, desired, max, sn);
      all.ok == now.ok && all.segments == done + now.segments
    ensures next == Rest(data, base, sent + Min(desired - sent, max), desired, max, sn + 1)
    ensures all.ok == next.ok
    ensures all.segments == (done + [SegmentAt(data, base, sent, desired, max, sn)]) + next.segments
  {
    next := Rest(data, base, sent + Min(desired - sent, max), desired, max, sn + 1);
  }

  ghost function Answered(data: seq<byte>, base: nat, desired: nat, max: nat): Transfer
    requires max > 0
  {
    Rest(data, base, 0, desired, max, 0)
  }

  ghost function Joined(segments: seq<Segment>): seq<byte> {
    if segments == [] then [] else segments[0].data + Joined(segments[1..])
  }

  lemma JoinedCons(first: Segment, rest: seq<Segment>)
    ensures Joined([first] + rest) == first.data + Joined(rest)
  {
    assert ([first] + rest)[1..] == rest;
  }

  lemma SlicesMeet(s: seq<byte>, a: nat, b: nat, c: nat)
    requires a <= b <= c <= |s|
    ensures s[a..b] + s[b..c] == s[a..c]
  {
  }

  /** The segments together are as much of the request as the data holds. */
  lemma {:induction false} JoinedIsSlice(data: seq<byte>, base: nat, sent: nat, desired: nat, max: nat, sn: nat)
    requires max > 0 && sent < desired && Rest(data, base, sent, desired, max, sn).ok
    ensures base + sent <= |data|
    ensures Joined(Rest(data, base, sent, desired, max, sn).segments)
         == data[base + sent..Min(base + desired, |data|)]
    decreases desired - sent
  {
    var n := Min(desired - sent, max);
    var first, rest := SegmentAt(data, base, sent, desired, max, sn), Rest(data, base, sent + n, desired, max, sn + 1);
    JoinedCons(first, rest.segments);
    if sent + n < desired {
      JoinedIsSlice(data, base, sent + n, desired, max, sn + 1);
      SlicesMeet(data, base + sent, base + sent + n, Min(base + desired, |data|));
    } else {
      assert Joined(rest.segments) == [];
    }
  }

  /** A request is answered in full exactly when it lies inside the data. */
  lemma AnsweredInFullIff(data: seq<byte>, base: nat, desired: nat, max: nat)
    requires max > 0 && desired > 0
    ensures var r := Answered(data, base, desired, max);
      r.ok && |Joined(r.segments)| == desired <==> base + desired <= |data|
    ensures var r := Answered(data, base, desired, max);
      base + desired <= |data| ==> Joined(r.segments) == data[base..base + desired]
  {
    var r := Answered(data, base, desired, max);
    if base + desired <= |data| {
      InsideIsOk(data, base, 0, desired, max, 0);
    }
    if r.ok {
      JoinedIsSlice(data, base, 0, desired, max, 0);
    }
  }

  lemma {:induction false} InsideIsOk(data: seq<byte>, base: nat, sent: nat, desired: nat, max: nat, sn: nat)
    requires max > 0 && base + desired <= |data|
    ensures Rest(data, base, sent, desired, max, sn).ok
    decreases desired - sent
  {
    if sent < desired {
      InsideIsOk(data, base, sent + Min(desired - sent, max), desired, max, sn + 1);
    }
  }

  /** Where the last segment of the rest of a request starts, counted from the request's start. */
  function LastStart(sent: nat, desired: nat, max: nat): (r: nat)
    requires max > 0 && sent < desired
    ensures sent <= r < desired && desired <= r + max
    decreases desired - sent
  {
    if desired - sent <= max then sent else LastStart(sent + max, desired, max)
  }

  lemma {:induction false} LastStartByDivision(desired: nat, max: nat, sent: nat, q: nat)
    requires max > 0 && sent < desired && sent == q * max
    ensures LastStart(sent, desired, max) == (desired - 1) / max * max
    decreases desired - sent
  {
    MulSucc(q, max);
    if desired - sent <= max {
      DivUnique(desired - 1, max, q);
    } else {
      LastStartByDivision(desired, max, sent + max, q + 1);
    }
  }

  lemma {:induction false} OkIff(data: seq<byte>, base: nat, sent: nat, desired: nat, max: nat, sn: nat)
    requires max > 0 && sent < desired
    ensures Rest(data, base, sent, desired, max, sn).ok <==> base + LastStart(sent, desired, max) <= |data|
    decreases desired - sent
  {
    if desired - sent > max {
      OkIff(data, base, sent + max, desired, max, sn + 1);
    }
  }

  /** The handler slices past the end of the data, and its task ends there, exactly when the last
      segment of the request would start beyond it. */
  lemma RunsOffTheEndIff(data: seq<byte>, base: nat, desired: nat, max: nat)
    requires max > 0 && desired > 0
    ensures !Answered(data, base, desired, max).ok <==> base + (desired - 1) / max * max > |data|
  {
    OkIff(data, base, 0, desired, max, 0);
    LastStartByDivision(desired, max, 0, 0);
  }

  /** Numbered from `sn`, one after another from `at` on, none empty or longer than `max`, only the last one final. */
  ghost predicate WellCut(segments: seq<Segment>, sn: nat, at: nat, max: nat) {
    && (segments != [] ==> segments[0].at == at)
    && (forall i :: 0 <= i < |segments| ==>
          && segments[i].dataSn == sn + i
          && 0 < |segments[i].data| <= max
          && (segments[i].final <==> i == |segments| - 1))
    && (forall i :: 0 <= i < |segments| - 1 ==> segments[i + 1].at == segments[i].at + |segments[i].data|)
  }

  lemma WellCutCons(s: Segment, rest: seq<Segment>, max: nat)
    requires WellCut(rest, s.dataSn + 1, s.at + |s.data|, max)
    requires 0 < |s.data| <= max && (s.final <==> rest == [])
    ensures WellCut([s] + rest, s.dataSn, s.at, max)
  {
    var all := [s] + rest;
    forall i | 0 <= i < |all| - 1
      ensures all[i + 1].at == all[i].at + |all[i].data|
    {
      if i > 0 {
        assert all[i] == rest[i - 1] && rest[i - 1 + 1] == all[i + 1];
      }
    }
  }

  lemma {:induction false} RestIsWellCut(data: seq<byte>, base: nat, sent: nat, desired: nat, max: nat, sn: nat)
    requires max > 0 && base + desired <= |data|
    ensures WellCut(Rest(data, base, sent, desired, max, sn).segments, sn, base + sent, max)
    decreases desired - sent
  {
    if sent < desired {
      var n := Min(desired - sent, max);
      var first := SegmentAt(data, base, sent, desired, max, sn);
      RestIsWellCut(data, base, sent + n, desired, max, sn + 1);
      WellCutCons(first, Rest(data, base, sent + n, desired, max, sn + 1).segments, max);
    }
  }

  /** For any request inside the data: the segments concatenate to the requested slice, follow each other
      without gap from its start, are numbered from zero, are never empty nor longer than the limit, and
      only the last is final. */
  lemma SegmentsOfRequest(data: seq<byte>, base: nat, desired: nat, max: nat)
    requires max > 0 && desired > 0 && base + desired <= |data|
    ensures var r := Answered(data, base, desired, max);
      r.ok && Joined(r.segments) == data[base..base + desired] && WellCut(r.segments, 0, base, max)
  {
    AnsweredInFullIff(data, base, desired, max);
    RestIsWellCut(data, base, 0, desired, max, 0);
    InsideIsOk(data, base, 0, desired, max, 0);
  }

  /** The segments left end where the request does. */
  lemma {:induction false} RestEnds(data: seq<byte>, base: nat, sent: nat, desired: nat, max: nat, sn: nat)
    requires max > 0 && sent < desired && base + desired <= |data|
    ensures var ss := Rest(data, base, sent, desired, max, sn).segments;
      ss != [] && ss[|ss| - 1].at + |ss[|ss| - 1].data| == base + desired
    decreases desired - sent
  {
    var n := Min(desired - sent, max);
    if sent + n < desired {
      RestEnds(data, base, sent + n, desired, max, sn + 1);
    }
  }

  // -- What the target gathers -----------------------------------------------

  ghost function Patches(segments: seq<Segment>): (ps: seq<Patch>)
    ensures |ps| == |segments|
    ensures forall i :: 0 <= i < |ps| ==> ps[i] == segments[i].AsPatch()
  {
    seq(|segments|, i requires 0 <= i < |segments| => segments[i].AsPatch())
  }

  lemma CoveredCons(ps: seq<Patch>, a: nat)
    requires ps != []
    ensures Covered(ps, a) <==> ps[0].Covers(a) || Covered(ps[1..], a)
  {
    if Covered(ps[1..], a) {
      var i :| 0 <= i < |ps[1..]| && ps[1..][i].Covers(a);
      assert ps[i + 1].Covers(a);
    }
    if Covered(ps, a) && !ps[0].Covers(a) {
      var i :| 0 <= i < |ps| && ps[i].Covers(a);
      assert ps[1..][i - 1].Covers(a);
    }
  }

  lemma SlicesCons(ps: seq<Patch>, src: seq<byte>)
    requires ps != [] && ps[0].SliceOf(src) && SlicesOf(ps[1..], src)
    ensures SlicesOf(ps, src)
  {
    assert forall i :: 0 < i < |ps| ==> ps[i] == ps[1..][i - 1];
  }

  /** Each segment is the data's slice at its offset, and they cover the request to the byte. */
  lemma {:induction false} SegmentsCover(data: seq<byte>, base: nat, sent: nat, desired: nat, max: nat, sn: nat, a: nat)
    requires max > 0 && base + desired <= |data|
    ensures var ps := Patches(Rest(data, base, sent, desired, max, sn).segments);
      SlicesOf(ps, data) && (Covered(ps, a) <==> base + sent <= a < base + desired)
    decreases desired - sent
  {
    var ps := Patches(Rest(data, base, sent, desired, max, sn).segments);
    if sent < desired {
      var n := Min(desired - sent, max);
      var tail := Patches(Rest(data, base, sent + n, desired, max, sn + 1).segments);
      SegmentsCover(data, base, sent + n, desired, max, sn + 1, a);
      assert ps[1..] == tail;
      CoveredCons(ps, a);
      SlicesCons(ps, data);
    } else {
      assert ps == [];
    }
  }

  datatype Request = Request(at: nat, len: nat)

  ghost predicate Inside(reqs: seq<Request>, n: nat) {
    forall j :: 0 <= j < |reqs| ==> reqs[j].at + reqs[j].len <= n
  }

  /** Byte `a` is asked for. */
  ghost predicate Asked(reqs: seq<Request>, a: nat) {
    exists j :: 0 <= j < |reqs| && reqs[j].at <= a < reqs[j].at + reqs[j].len
  }

  ghost function DataOuts(data: seq<byte>, reqs: seq<Request>, max: nat): seq<Patch>
    requires max > 0
  {
    if reqs == [] then []
    else
      var last := reqs[|reqs| - 1];
      DataOuts(data, reqs[..|reqs| - 1], max) + Patches(Answered(data, last.at, last.len, max).segments)
  }

  /** Everything the target gets for one command: the immediate data and all Data-Outs. */
  ghost function AllSent(data: seq<byte>, immediate: Option<seq<byte>>, reqs: seq<Request>, max: nat): seq<Patch>
    requires max > 0
  {
    (if immediate.Some? then [Patch(0, immediate.value)] else []) + DataOuts(data, reqs, max)
  }

  lemma {:induction false} DataOutsCover(data: seq<byte>, reqs: seq<Request>, max: nat, a: nat)
    requires max > 0 && Inside(reqs, |data|)
    ensures SlicesOf(DataOuts(data, reqs, max), data)
    ensures Covered(DataOuts(data, reqs, max), a) <==> Asked(reqs, a)
  {
    if reqs != [] {
      var front, last := reqs[..|reqs| - 1], reqs[|reqs| - 1];
      DataOutsCover(data, front, max, a);
      SegmentsCover(data, last.at, 0, last.len, max, 0, a);
      CoveredConcat(DataOuts(data, front, max), Patches(Answered(data, last.at, last.len, max).segments), a);
      AskedSnoc(reqs, a);
    }
  }

  lemma AskedSnoc(reqs: seq<Request>, a: nat)
    requires reqs != []
    ensures var last := reqs[|reqs| - 1];
      Asked(reqs, a) <==> Asked(reqs[..|reqs| - 1], a) || last.at <= a < last.at + last.len
  {
    var front := reqs[..|reqs| - 1];
    if Asked(front, a) {
      var j :| 0 <= j < |front| && front[j].at <= a < front[j].at + front[j].len;
      assert reqs[j] == front[j];
    }
  }

  lemma SentCovers(data: seq<byte>, immediate: Option<seq<byte>>, reqs: seq<Request>, max: nat, a: nat)
    requires max > 0 && Inside(reqs, |data|)
    requires immediate.Some? ==> |immediate.value| <= |data| && immediate.value == data[..|immediate.value|]
    ensures SlicesOf(AllSent(data, immediate, reqs, max), data)
    ensures Covered(AllSent(data, immediate, reqs, max), a)
       <==> (immediate.Some? && a < |immediate.value|) || Asked(reqs, a)
  {
    var head := if immediate.Some? then [Patch(0, immediate.value)] else [];
    DataOutsCover(data, reqs, max, a);
    CoveredConcat(head, DataOuts(data, reqs, max), a);
    if immediate.Some? {
      assert head[0].Covers(a) <==> a < |immediate.value|;
    }
  }

  /** In whatever order the immediate data and the Data-Outs reach the target, its buffer is the write data
      exactly when every byte was sent immediately, was asked for by some R2T, or was right already. */
  lemma WriteArrivesIff(data: seq<byte>, enabled: bool, firstBurst: u32, reqs: seq<Request>, max: nat,
                        buffer: seq<byte>, order: seq<nat>)
    requires max > 0 && |buffer| == |data| && Inside(reqs, |data|)
    requires IsOrder(order, |AllSent(data, Immediate(data, enabled, firstBurst), reqs, max)|)
    ensures var immediate := Immediate(data, enabled, firstBurst);
      var sent := Reordered(AllSent(data, immediate, reqs, max), order);
      && Fit(sent, |buffer|)
      && (ApplyAll(buffer, sent) == data <==> forall a :: 0 <= a < |data| ==>
            (immediate.Some? && a < |immediate.value|) || Asked(reqs, a) || buffer[a] == data[a])
  {
    var immediate := Immediate(data, enabled, firstBurst);
    var ps := AllSent(data, immediate, reqs, max);
    var sent := Reordered(ps, order);
    SentCovers(data, immediate, reqs, max, 0);
    forall i | 0 <= i < |sent|
      ensures sent[i].End() <= |buffer|
    {
      assert ps[order[i]].SliceOf(data);
    }
    assert SlicesOf(sent, data);
    forall a | 0 <= a < |data|
      ensures Covered(sent, a) <==> (immediate.Some? && a < |immediate.value|) || Asked(reqs, a)
    {
      SentCovers(data, immediate, reqs, max, a);
      CoveredReordered(ps, order, a);
    }
    SlicesRebuild(buffer, sent, data);
  }

  // -- On the wire -----------------------------------------------------------

  /** The header fields of one segment; offset and length are cut to 32 bits. */
  function DataOutOf(itt: u32, ttt: u32, expStatSn: u32, s: Segment): Message {
    DataOut(0, itt, ttt, expStatSn, s.dataSn % TWO32, s.at % TWO32, s.final, |s.data| % TWO32)
  }

  function DataOutPdu(itt: u32, ttt: u32, expStatSn: u32, s: Segment): Pdu {
    Pdu(HeaderOf(DataOutOf(itt, ttt, expStatSn, s)), None, Some(s.data))
  }

  /** The bytes of a PDU with a message's rows for a header. */
  function MessageBytes(crc: Crc, digests: DigestConfig, m: Message, data: seq<byte>): seq<byte> {
    var b := Layout(Rows(m));
    b + (if digests.header then HeaderDigest(crc, b, None) else []) + DataPart(crc, digests, Some(data))
  }

  function DataOutEncoder(crc: Crc, digests: DigestConfig, itt: u32, ttt: u32, expStatSn: u32): Segment -> seq<byte> {
    s => MessageBytes(crc, digests, DataOutOf(itt, ttt, expStatSn, s), s.data)
  }

  lemma MessageEncoded(crc: Crc, digests: DigestConfig, h: Header, m: Message, data: seq<byte>)
    requires Wire(h) == Layout(Rows(m))
    ensures MessageBytes(crc, digests, m, data) == Encode(crc, digests, Pdu(h, None, Some(data)))
  {
  }

  lemma DataOutEncodes(crc: Crc, digests: DigestConfig, itt: u32, ttt: u32, expStatSn: u32, s: Segment)
    ensures DataOutEncoder(crc, digests, itt, ttt, expStatSn)(s)
         == Encode(crc, digests, DataOutPdu(itt, ttt, expStatSn, s))
  {
    var m := DataOutOf(itt, ttt, expStatSn, s);
    HeaderOfWire(m);
    MessageEncoded(crc, digests, HeaderOf(m), m, s.data);
  }

  lemma FitsLength(n: nat, len: u32)
    requires len == n % TWO32
    ensures n == Low24(Low24(len)) <==> n < 0x100_0000
  {
  }

  lemma FramedByLength(crc: Crc, digests: DigestConfig, h: Header, data: seq<byte>)
    ensures Framed(crc, digests, Pdu(h, None, Some(data))) <==> 0 < |data| == Low24(h.dataSegmentLength)
  {
  }

  lemma UnchangedByParsing(h: Header, data: Option<seq<byte>>)
    requires Parse(Wire(h)) == Some(h)
    ensures Arrived(Pdu(h, None, data)) == Pdu(h, None, data)
  {
  }

  /** A Data-Out arrives as it was meant exactly when its data is not empty and shorter than 2^24 bytes. */
  lemma DataOutArrivesIff(crc: Crc, digests: DigestConfig, itt: u32, ttt: u32, expStatSn: u32, s: Segment, suffix: seq<byte>)
    ensures var p := DataOutPdu(itt, ttt, expStatSn, s);
      var r := Decode(crc, digests, Encode(crc, digests, p) + suffix);
      && (0 < |s.data| < 0x100_0000 ==> r == Ok(p, suffix))
      && (r.Ok? && r.item == p ==> 0 < |s.data| < 0x100_0000)
  {
    var m := DataOutOf(itt, ttt, expStatSn, s);
    HeaderOfWire(m);
    FramedByLength(crc, digests, HeaderOf(m), s.data);
    UnchangedByParsing(HeaderOf(m), Some(s.data));
    FitsLength(|s.data|, m.len);
    RoundTripIff(crc, digests, DataOutPdu(itt, ttt, expStatSn, s), suffix);
  }

  /** The accessors find in a received Data-Out the offset, number, finality and length of its segment,
      and the tags of the request it answers, when these fit their fields. */
  lemma DataOutReads(itt: u32, ttt: u32, expStatSn: u32, s: Segment)
    requires s.dataSn < TWO32 && s.at < TWO32 && |s.data| < 0x100_0000
    ensures var m := DataOut(0, itt, ttt, expStatSn, s.dataSn, s.at, s.final, |s.data|);
      DataOutPdu(itt, ttt, expStatSn, s).bhs == HeaderOf(m) && Read(HeaderOf(m)) == Some(m)
  {
    var m := DataOut(0, itt, ttt, expStatSn, s.dataSn, s.at, s.final, |s.data|);
    assert DataOutOf(itt, ttt, expStatSn, s) == m;
    HeaderReads(m);
  }

  /** The Data-Outs of any segments arrive one after another, whatever follows on the stream, exactly
      when no segment is empty or of 2^24 bytes or more. */
  lemma DataOutsArriveIff(crc: Crc, digests: DigestConfig, itt: u32, ttt: u32, expStatSn: u32,
                          segments: seq<Segment>, suffix: seq<byte>)
    ensures DecodeMany(Decoder(crc, digests), |segments|,
                       EncodeAll(DataOutEncoder(crc, digests, itt, ttt, expStatSn), segments) + suffix)
         == Some((Map(s => DataOutPdu(itt, ttt, expStatSn, s), segments), suffix))
       <==> forall i :: 0 <= i < |segments| ==> 0 < |segments[i].data| < 0x100_0000
  {
    var encode, arrived := DataOutEncoder(crc, digests, itt, ttt, expStatSn), s => DataOutPdu(itt, ttt, expStatSn, s);
    var fit := (s: Segment) => 0 < |s.data| < 0x100_0000;
    forall s: Segment, rest: seq<byte>
      ensures var r := Decoder(crc, digests)(encode(s) + rest);
        (fit(s) ==> r == Ok(arrived(s), rest)) && (r.Ok? && r.item == arrived(s) ==> fit(s))
    {
      DataOutEncodes(crc, digests, itt, ttt, expStatSn, s);
      DataOutArrivesIff(crc, digests, itt, ttt, expStatSn, s, rest);
    }
    ManyArriveIff(encode, Decoder(crc, digests), arrived, fit, segments, suffix);
  }

  /** Segments that each fit their header fields. */
  ghost predicate Small(segments: seq<Segment>) {
    forall i :: 0 <= i < |segments| ==>
      segments[i].dataSn < TWO32 && segments[i].at < TWO32 && 0 < |segments[i].data| < 0x100_0000
  }

  /** The segments of a request inside the data, below 4 GB and with a limit below 2^24, are small. */
  lemma {:induction false} RequestIsSmall(data: seq<byte>, base: nat, sent: nat, desired: nat, max: nat, sn: nat)
    requires 0 < max < 0x100_0000 && sn <= sent && base + desired <= |data| && base + desired <= TWO32
    ensures Small(Rest(data, base, sent, desired, max, sn).segments)
    decreases desired - sent
  {
    if sent < desired {
      RequestIsSmall(data, base, sent + Min(desired - sent, max), desired, max, sn + 1);
    }
  }
}
