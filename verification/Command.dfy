/** SCSI command blocks (iscsi/command.rs) and how a target reads them (SBC-4, the READ, WRITE and
    SYNCHRONIZE CACHE commands). */
module Command {
  import opened Arithmetic
  import opened Bytes
  import opened Wrappers
  import Pdu
  import opened Pipeline

  type Cdb = Pdu.Cdb

  datatype Operation =
    | Read(lba: nat, count: nat)
    | Write(lba: nat, count: nat)
    | SynchronizeCache(lba: nat, count: nat)

  // -- The target's side -----------------------------------------------------

  /** A 10-byte command has a 32-bit address in bytes 2 to 5 and a 16-bit length in bytes 7 and 8; a 16-byte
      one has a 64-bit address in bytes 2 to 9 and a 32-bit length in bytes 10 to 13. The other bytes are protection,
      caching, group and control fields, of which nothing is asked, and padding: they have to be zero. */
  function Decode(s: Cdb): Option<Operation> {
    var lba10, count10 := FromBe32(s[2..6]), FromBe16(s[7..9]);
    var lba16, count16 := FromBe64(s[2..10]), FromBe32(s[10..14]);
    var plain10 := s[1] == 0 && s[6] == 0 && s[9..] == Zeros(7);
    var plain16 := s[1] == 0 && s[14..] == Zeros(2);
    match s[0]
    case 0x28 => if plain10 then Some(Read(lba10, count10)) else None
    case 0x2A => if plain10 then Some(Write(lba10, count10)) else None
    case 0x35 => if plain10 then Some(SynchronizeCache(lba10, count10)) else None
    case 0x88 => if plain16 then Some(Read(lba16, count16)) else None
    case 0x8A => if plain16 then Some(Write(lba16, count16)) else None
    case _ => None
  }

  // -- The initiator's side --------------------------------------------------

  function Layout10(op: byte, lba: u32, count: u16): Cdb {
    [op, 0] + Be32(lba) + [0] + Be16(count) + Zeros(7)
  }

  function Layout16(op: byte, lba: u64, count: u32): Cdb {
    [op, 0] + Be64(lba) + Be32(count) + Zeros(2)
  }

  /** The short form where it has room, else the long one. */
  function Chosen(op10: byte, op16: byte, lba: u64, count: u32): Cdb {
    if lba <= 0xFFFF_FFFF && count <= 0xFFFF then Layout10(op10, lba, count) else Layout16(op16, lba, count)
  }

  function ReadCdb(lba: u64, count: u32): Cdb {
    Chosen(0x28, 0x88, lba, count)
  }

  function WriteCdb(lba: u64, count: u32): Cdb {
    Chosen(0x2A, 0x8A, lba, count)
  }

  method Build10(op: byte, lba: u32, blockCount: u16) returns (cdb: array<byte>)
    ensures fresh(cdb) && cdb[..] == Layout10(op, lba, blockCount)
  {
    cdb := new byte[16](_ => 0);
    cdb[0] := op;
    var lbaBytes := Be32(lba);
    cdb[2], cdb[3], cdb[4], cdb[5] := lbaBytes[0], lbaBytes[1], lbaBytes[2], lbaBytes[3];
    var countBytes := Be16(blockCount);
    cdb[7], cdb[8] := countBytes[0], countBytes[1];
    assert cdb[..] == Layout10(op, lba, blockCount);
  }

  method Build16(op: byte, lba: u64, blockCount: u32) returns (cdb: array<byte>)
    ensures fresh(cdb) && cdb[..] == Layout16(op, lba, blockCount)
  {
    cdb := new byte[16](_ => 0);
    cdb[0] := op;
    var lbaBytes := Be64(lba);
    forall i | 0 <= i < 8 {
      cdb[2 + i] := lbaBytes[i];
    }
    var countBytes := Be32(blockCount);
    forall i | 0 <= i < 4 {
      cdb[10 + i] := countBytes[i];
    }
    assert cdb[..] == Layout16(op, lba, blockCount);
  }

  method BuildRead(lba: u64, blockCount: u32) returns (cdb: array<byte>)
    ensures fresh(cdb) && cdb[..] == ReadCdb(lba, blockCount)
  {
    if lba <= 0xFFFF_FFFF && blockCount <= 0xFFFF {
      cdb := Build10(0x28, lba, blockCount);
    } else {
      cdb := Build16(0x88, lba, blockCount);
    }
  }

  method BuildWrite(lba: u64, blockCount: u32) returns (cdb: array<byte>)
    ensures fresh(cdb) && cdb[..] == WriteCdb(lba, blockCount)
  {
    if lba <= 0xFFFF_FFFF && blockCount <= 0xFFFF {
      cdb := Build10(0x2A, lba, blockCount);
    } else {
      cdb := Build16(0x8A, lba, blockCount);
    }
  }

  method BuildSynchronizeCache10(lba: u32, blockCount: u16) returns (cdb: array<byte>)
    ensures fresh(cdb) && cdb[..] == Layout10(0x35, lba, blockCount)
  {
    cdb := Build10(0x35, lba, blockCount);
  }

  // -- The two sides agree ---------------------------------------------------

  lemma Layout10Decodes(op: byte, lba: u32, count: u16)
    ensures var s := Layout10(op, lba, count);
      && s[0] == op && FromBe32(s[2..6]) == lba && FromBe16(s[7..9]) == count
      && s[1] == 0 && s[6] == 0 && s[9..] == Zeros(7)
  {
    var s := Layout10(op, lba, count);
    assert s[2..6] == Be32(lba) && s[7..9] == Be16(count);
    Be32RoundTrip(lba);
  }

  lemma Layout16Decodes(op: byte, lba: u64, count: u32)
    ensures var s := Layout16(op, lba, count);
      && s[0] == op && FromBe64(s[2..10]) == lba && FromBe32(s[10..14]) == count
      && s[1] == 0 && s[14..] == Zeros(2)
  {
    var s := Layout16(op, lba, count);
    assert s[2..10] == Be64(lba) && s[10..14] == Be32(count);
    Be64RoundTrip(lba);
    Be32RoundTrip(count);
  }

  /** For every address and length, in whichever form is chosen, the target decodes what was asked for. */
  lemma CdbDecodes(lba: u64, count: u32)
    ensures Decode(ReadCdb(lba, count)) == Some(Read(lba, count))
    ensures Decode(WriteCdb(lba, count)) == Some(Write(lba, count))
    ensures lba <= 0xFFFF_FFFF && count <= 0xFFFF ==>
      Decode(Layout10(0x35, lba, count)) == Some(SynchronizeCache(lba, count))
  {
    if lba <= 0xFFFF_FFFF && count <= 0xFFFF {
      Layout10Decodes(0x28, lba, count);
      Layout10Decodes(0x2A, lba, count);
      Layout10Decodes(0x35, lba, count);
    } else {
      Layout16Decodes(0x88, lba, count);
      Layout16Decodes(0x8A, lba, count);
    }
  }

  /** The command blocks of one large transfer, in order. */
  ghost function Cdbs(chunks: seq<Chunk>, write: bool): (r: seq<Cdb>)
    requires forall i :: 0 <= i < |chunks| ==> chunks[i].lba < 0x1_0000_0000_0000_0000 && chunks[i].count < TWO32
    ensures |r| == |chunks|
  {
    seq(|chunks|, i requires 0 <= i < |chunks| =>
      if write then WriteCdb(chunks[i].lba, chunks[i].count) else ReadCdb(chunks[i].lba, chunks[i].count))
  }

  lemma {:induction false} TilesInside(chunks: seq<Chunk>, lba: nat, count: nat, i: nat)
    requires Tiles(chunks, lba, count) && i < |chunks|
    ensures lba <= chunks[i].lba && chunks[i].lba + chunks[i].count <= lba + count
  {
    if i > 0 {
      TilesInside(chunks[1..], lba + chunks[0].count, count - chunks[0].count, i - 1);
    }
  }

  /** The command blocks of a transfer decode to pieces that tile its blocks in order, each moving at least a
      block and no more bytes than the negotiated burst, so that its byte count fits 32 bits. */
  lemma ChunkCdbsTile(lba: nat, count: u32, maxBurst: u32, bs: nat, write: bool)
    requires bs > 0 && maxBurst >= bs && lba + count <= 0x1_0000_0000_0000_0000
    ensures MaxReadBlocksFor(maxBurst, bs) > 0
    ensures var chunks := ChunkList(lba, count, MaxReadBlocksFor(maxBurst, bs));
      && Tiles(chunks, lba, count)
      && (forall i :: 0 <= i < |chunks| ==> chunks[i].lba < 0x1_0000_0000_0000_0000 && chunks[i].count < TWO32)
      && forall i :: 0 <= i < |chunks| ==>
           && Decode(Cdbs(chunks, write)[i])
              == Some(if write then Write(chunks[i].lba, chunks[i].count) else Read(chunks[i].lba, chunks[i].count))
           && 0 < chunks[i].count * bs <= maxBurst
  {
    ChunksWithinBurst(lba, count, maxBurst, bs);
    var max := MaxReadBlocksFor(maxBurst, bs);
    var chunks := ChunkList(lba, count, max);
    ChunkListTiles(lba, count, max);
    forall i | 0 <= i < |chunks|
      ensures chunks[i].lba < 0x1_0000_0000_0000_0000 && chunks[i].count < TWO32
      ensures Decode(ReadCdb(chunks[i].lba, chunks[i].count)) == Some(Read(chunks[i].lba, chunks[i].count))
      ensures Decode(WriteCdb(chunks[i].lba, chunks[i].count)) == Some(Write(chunks[i].lba, chunks[i].count))
    {
      TilesInside(chunks, lba, count, i);
      CdbDecodes(chunks[i].lba, chunks[i].count);
    }
  }

  /** The header of a command, built, serialised and parsed again, still carries the block that decodes to the
      transfer, with its tag, number and direction, while immediate data is shorter than 2^24 bytes. */
  lemma CommandOnWire(lun: u64, itt: u32, cmdSn: u32, expStatSn: u32, edtl: u32, write: bool, len: u32,
                      lba: u64, count: u32)
    requires len < 0x100_0000
    ensures var cdb := if write then WriteCdb(lba, count) else ReadCdb(lba, count);
      var sent := Pdu.Command(lun, itt, cmdSn, expStatSn, cdb, edtl, !write, write, len);
      && Pdu.Parse(Pdu.Layout(Pdu.Rows(sent))).Some?
      && var got := Pdu.Read(Pdu.Parse(Pdu.Layout(Pdu.Rows(sent))).value);
         && got == Some(sent)
         && Decode(got.value.cdb) == Some(if write then Write(lba, count) else Read(lba, count))
  {
    var cdb := if write then WriteCdb(lba, count) else ReadCdb(lba, count);
    Pdu.BuiltReadsBack(Pdu.Command(lun, itt, cmdSn, expStatSn, cdb, edtl, !write, write, len));
    CdbDecodes(lba, count);
  }

  // -- Unit numbers ----------------------------------------------------------

  function EncodeLun(n: u64): u64 {
    n % 0x100 * 0x1_0000_0000_0000
  }

  /** The number is in the second of eight bytes, and the others are zero. */
  lemma LunBytes(n: u64)
    ensures Be64(EncodeLun(n)) == [0, n % 0x100, 0, 0, 0, 0, 0, 0]
  {
    assert EncodeLun(n) / 0x1_0000_0000 == n % 0x100 * 0x1_0000 && EncodeLun(n) % 0x1_0000_0000 == 0;
  }

  function DecodeLun(encoded: u64): u64 {
    encoded / 0x1_0000_0000_0000 % 0x100
  }

  /** Unit numbers survive exactly up to 255, the most that peripheral device addressing has room for. */
  lemma LunRoundTripIff(n: u64)
    ensures DecodeLun(EncodeLun(n)) == n <==> n < 0x100
  {
    DivOfMultiple(n % 0x100, 0x1_0000_0000_0000);
  }
}
