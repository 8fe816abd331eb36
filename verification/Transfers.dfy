/** The submission of single-command transfers (iscsi/pipeline.rs): the command block, the direction, the lengths and the
    immediate data go together. */
module Transfers {
  import opened Bytes
  import opened Pdu
  import opened Sealing
  import opened Transport
  import opened Streams
  import opened Wrappers
  import opened WriteTransfer
  import opened Session
  import Scsi = Command

  /** Whatever follows on the stream, what was sent is received as a command whose block decodes to the operation, whose
      direction is the operation's, and which brings just this data. */
  ghost predicate ReceivedAsTransfer(crc: Crc, digests: DigestConfig, sent: seq<byte>, op: Scsi.Operation, lun: u64,
                                     itt: u32, cmdSn: u32, expStatSn: u32, edtl: u32, immediate: Option<seq<byte>>)
  {
    forall l: nat {:trigger Look(l)} :: Look(l) ==>
      forall suffix: seq<byte> ::
        var r := Decode(crc, digests, sent + suffix);
        && r.Ok? && r.rest == suffix && r.item.data == immediate
        && IsTransfer(Read(r.item.bhs), op, lun, itt, cmdSn, expStatSn, edtl)
  }

  predicate IsTransfer(got: Option<Message>, op: Scsi.Operation, lun: u64, itt: u32, cmdSn: u32, expStatSn: u32, edtl: u32) {
    && got.Some? && got.value.Command?
    && Scsi.Decode(got.value.cdb) == Some(op)
    && (got.value.read <==> op.Read?) && (got.value.write <==> op.Write?)
    && got.value.lun == lun && got.value.itt == itt && got.value.edtl == edtl
    && got.value.cmdSn == cmdSn && got.value.expStatSn == expStatSn
  }

  /** A command whose block and direction belong together. */
  lemma ReceivedTogether(crc: Crc, digests: DigestConfig, sent: seq<byte>, cdb: Scsi.Cdb, op: Scsi.Operation, lun: u64,
                         itt: u32, cmdSn: u32, expStatSn: u32, edtl: u32, read: bool, write: bool,
                         immediate: Option<seq<byte>>)
    requires ReceivedAsCommand(crc, digests, sent, cdb, lun, itt, cmdSn, expStatSn, edtl, read, write, immediate)
    requires Scsi.Decode(cdb) == Some(op) && (read <==> op.Read?) && (write <==> op.Write?)
    ensures ReceivedAsTransfer(crc, digests, sent, op, lun, itt, cmdSn, expStatSn, edtl, immediate)
  {
    assert Look(0);
    forall suffix: seq<byte>
      ensures var r := Decode(crc, digests, sent + suffix);
        && r.Ok? && r.rest == suffix && r.item.data == immediate
        && IsTransfer(Read(r.item.bhs), op, lun, itt, cmdSn, expStatSn, edtl)
    {
      var r := Decode(crc, digests, sent + suffix);
      assert Read(r.item.bhs).Some?;
    }
  }

  /** A read of `blockCount` blocks: no data goes along. */
  method SubmitRead(session: Session, lun: u64, blockSize: u32, lba: u64, blockCount: u32, itt: u32, cmdSn: u32)
    returns (ghost sent: seq<byte>)
    modifies session.writer`written
    ensures session.writer.written == old(session.writer.written) + sent
    ensures ReceivedAsTransfer(session.writer.crc, session.writer.digests, sent, Scsi.Read(lba, blockCount),
                               lun, itt, cmdSn, session.state.expStatSn, blockCount * blockSize % TWO32, None)
  {
    var cdb := Scsi.BuildRead(lba, blockCount);
    var edtl := blockCount * blockSize % TWO32;
    Scsi.CdbDecodes(lba, blockCount);
    sent := session.SendCommand(cdb[..], lun, itt, cmdSn, edtl, true, false, None);
    ReceivedTogether(session.writer.crc, session.writer.digests, sent, cdb[..], Scsi.Read(lba, blockCount),
                     lun, itt, cmdSn, session.state.expStatSn, edtl, true, false, None);
  }

  /** What goes with a write: the first bytes of its data, up to the first burst, if that is allowed. */
  lemma FirstBytes(data: seq<byte>, enabled: bool, firstBurst: u32)
    ensures var n := Min(|data| % TWO32, firstBurst);
      Immediate(data, enabled, firstBurst) == if enabled && n > 0 then Some(data[..n]) else None
  {
  }

  lemma WriteIsReceived(crc: Crc, digests: DigestConfig, sent: seq<byte>, lun: u64, lba: u64, blockCount: u32,
                        edtl: u32, data: seq<byte>, enabled: bool, firstBurst: u32, itt: u32, cmdSn: u32, expStatSn: u32)
    requires var immediate := Immediate(data, enabled, firstBurst);
      ReceivedAsCommand(crc, digests, sent, Scsi.WriteCdb(lba, blockCount), lun, itt, cmdSn, expStatSn, edtl, false, true,
                        immediate)
      <==> immediate.None? || 0 < |immediate.value| < 0x100_0000
    requires firstBurst < 0x100_0000
    ensures var n := Min(|data| % TWO32, firstBurst);
      ReceivedAsTransfer(crc, digests, sent, Scsi.Write(lba, blockCount), lun, itt, cmdSn, expStatSn, edtl,
                         if enabled && n > 0 then Some(data[..n]) else None)
  {
    Scsi.CdbDecodes(lba, blockCount);
    FirstBytes(data, enabled, firstBurst);
    ReceivedTogether(crc, digests, sent, Scsi.WriteCdb(lba, blockCount), Scsi.Write(lba, blockCount),
                     lun, itt, cmdSn, expStatSn, edtl, false, true, Immediate(data, enabled, firstBurst));
  }

  method SendWrite(session: Session, lun: u64, lba: u64, blockCount: u32, edtl: u32, immediateData: Option<seq<byte>>,
                   itt: u32, cmdSn: u32)
    returns (ghost sent: seq<byte>)
    modifies session.writer`written
    ensures session.writer.written == old(session.writer.written) + sent
    ensures ReceivedAsCommand(session.writer.crc, session.writer.digests, sent, Scsi.WriteCdb(lba, blockCount),
                              lun, itt, cmdSn, session.state.expStatSn, edtl, false, true, immediateData)
       <==> immediateData.None? || 0 < |immediateData.value| < 0x100_0000
  {
    var cdb := Scsi.BuildWrite(lba, blockCount);
    sent := session.SendCommand(cdb[..], lun, itt, cmdSn, edtl, false, true, immediateData);
  }

  /** A write: if immediate data is allowed, as much of the data as the first burst has room for goes along; all of it
      is registered for the target's requests. */
  method SubmitWrite(session: Session, lun: u64, blockSize: u32, lba: u64, blockCount: u32, data: seq<byte>,
                     immediateDataEnabled: bool, firstBurstLength: u32, itt: u32, cmdSn: u32)
    returns (ghost sent: seq<byte>)
    modifies session.writer`written, session.pool`writeData
    ensures session.writer.written == old(session.writer.written) + sent
    ensures session.pool.writeData == old(session.pool.writeData)[itt := data]
    ensures firstBurstLength < 0x100_0000 ==>
      var n := Min(|data| % TWO32, firstBurstLength);
      ReceivedAsTransfer(session.writer.crc, session.writer.digests, sent, Scsi.Write(lba, blockCount),
                         lun, itt, cmdSn, session.state.expStatSn, blockCount * blockSize % TWO32,
                         if immediateDataEnabled && n > 0 then Some(data[..n]) else None)
  {
    var edtl := blockCount * blockSize % TWO32;
    var immediateData := Immediate(data, immediateDataEnabled, firstBurstLength);
    sent := SendWrite(session, lun, lba, blockCount, edtl, immediateData, itt, cmdSn);
    if firstBurstLength < 0x100_0000 {
      WriteIsReceived(session.writer.crc, session.writer.digests, sent, lun, lba, blockCount, edtl, data,
                      immediateDataEnabled, firstBurstLength, itt, cmdSn, session.state.expStatSn);
    }
    session.pool.writeData := session.pool.writeData[itt := data];
  }
}
