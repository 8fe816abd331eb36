/** The headers that are sent and received, byte by byte as RFC 7143 draws them. */
module HeaderBytes {
  import opened Bytes
  import opened Pdu

  /** Row `i` of a header. */
  lemma RowIs(w: Words12, i: nat)
    requires i < 12
    ensures Layout(w)[4 * i..4 * i + 4] == Be32(w[i])
  {
    RowBytes(w, i);
  }

  /** The rows of a header as slices of it. */
  ghost predicate HasRows(s: Wire48, r0: seq<byte>, r1: u32, r2: u32, r3: u32, r4: u32, r5: u32, r6: u32, r7: u32,
                          r8: u32, r9: u32, r10: u32, r11: u32)
  {
    && s[0..4] == r0 && s[4..8] == Be32(r1) && s[8..12] == Be32(r2) && s[12..16] == Be32(r3)
    && s[16..20] == Be32(r4) && s[20..24] == Be32(r5) && s[24..28] == Be32(r6) && s[28..32] == Be32(r7)
    && s[32..36] == Be32(r8) && s[36..40] == Be32(r9) && s[40..44] == Be32(r10) && s[44..48] == Be32(r11)
  }

  lemma RowsAre(w: Words12, a: byte, b: byte, c: byte, d: byte)
    requires w[0] == Row(a, b, c, d)
    ensures HasRows(Layout(w), [a, b, c, d], w[1], w[2], w[3], w[4], w[5], w[6], w[7], w[8], w[9], w[10], w[11])
  {
    BytesOfRow(a, b, c, d);
    FirstRows(w);
    MiddleRows(w);
    LastRows(w);
  }

  lemma FirstRows(w: Words12)
    ensures var s := Layout(w);
      s[0..4] == Be32(w[0]) && s[4..8] == Be32(w[1]) && s[8..12] == Be32(w[2]) && s[12..16] == Be32(w[3])
  {
    RowIs(w, 0);
    RowIs(w, 1);
    RowIs(w, 2);
    RowIs(w, 3);
  }

  lemma MiddleRows(w: Words12)
    ensures var s := Layout(w);
      s[16..20] == Be32(w[4]) && s[20..24] == Be32(w[5]) && s[24..28] == Be32(w[6]) && s[28..32] == Be32(w[7])
  {
    RowIs(w, 4);
    RowIs(w, 5);
    RowIs(w, 6);
    RowIs(w, 7);
  }

  lemma LastRows(w: Words12)
    ensures var s := Layout(w);
      s[32..36] == Be32(w[8]) && s[36..40] == Be32(w[9]) && s[40..44] == Be32(w[10]) && s[44..48] == Be32(w[11])
  {
    RowIs(w, 8);
    RowIs(w, 9);
    RowIs(w, 10);
    RowIs(w, 11);
  }

  lemma TwoRows(s: seq<byte>, at: nat, v: u64)
    requires at + 8 <= |s| && s[at..at + 4] == Be32(v / 0x1_0000_0000) && s[at + 4..at + 8] == Be32(v % 0x1_0000_0000)
    ensures s[at..at + 8] == Be64(v)
  {
    assert s[at..at + 8] == s[at..at + 4] + s[at + 4..at + 8];
  }

  /** Four bytes make a row. */
  lemma RowOf(s: seq<byte>, at: nat)
    requires at + 4 <= |s|
    ensures Be32(U32At(s, at)) == s[at..at + 4]
  {
    BytesOfRow(s[at], s[at + 1], s[at + 2], s[at + 3]);
  }

  lemma CdbRows(s: Wire48, cdb: Cdb)
    requires s[32..36] == Be32(U32At(cdb, 0)) && s[36..40] == Be32(U32At(cdb, 4))
    requires s[40..44] == Be32(U32At(cdb, 8)) && s[44..48] == Be32(U32At(cdb, 12))
    ensures s[32..48] == cdb
  {
    RowOf(cdb, 0);
    RowOf(cdb, 4);
    RowOf(cdb, 8);
    RowOf(cdb, 12);
    assert cdb == cdb[0..4] + cdb[4..8] + cdb[8..12] + cdb[12..16];
    assert s[32..48] == s[32..36] + s[36..40] + s[40..44] + s[44..48];
  }

  /** SCSI Command, section 11.3: final, read and write bits in byte 1, the block in the last sixteen bytes. */
  lemma CommandBytes(lun: u64, itt: u32, cmdSn: u32, expStatSn: u32, cdb: Cdb, edtl: u32, read: bool, write: bool, len: u32)
    ensures var s := Layout(Rows(Command(lun, itt, cmdSn, expStatSn, cdb, edtl, read, write, len)));
      && s[0..4] == [0x01, 0x80 + (if read then 0x40 else 0) + (if write then 0x20 else 0), 0, 0]
      && s[4..8] == Be32(len % 0x100_0000) && s[8..16] == Be64(lun) && s[16..20] == Be32(itt)
      && s[20..24] == Be32(edtl) && s[24..28] == Be32(cmdSn) && s[28..32] == Be32(expStatSn) && s[32..48] == cdb
  {
    var w := Rows(Command(lun, itt, cmdSn, expStatSn, cdb, edtl, read, write, len));
    CommandRowsSplit(lun, itt, cmdSn, expStatSn, cdb, edtl, read, write, len);
    assert w == [w[0], w[1]] + w[2..];
    RowsAre(w, 0x01, 0x80 + FlagBit(read, 0x40) + FlagBit(write, 0x20), 0, 0);
    TwoRows(Layout(w), 8, lun);
    CdbRows(Layout(w), cdb);
  }

  /** SCSI Data-Out, section 11.7. */
  lemma DataOutBytes(lun: u64, itt: u32, ttt: u32, expStatSn: u32, dataSn: u32, bufferOffset: u32, final: bool, len: u32)
    ensures var s := Layout(Rows(DataOut(lun, itt, ttt, expStatSn, dataSn, bufferOffset, final, len)));
      && HasRows(s, [0x05, if final then 0x80 else 0, 0, 0], len % 0x100_0000, lun / 0x1_0000_0000, lun % 0x1_0000_0000,
                 itt, ttt, 0, expStatSn, 0, dataSn, bufferOffset, 0)
  {
    RowsAre(Rows(DataOut(lun, itt, ttt, expStatSn, dataSn, bufferOffset, final, len)), 0x05, FlagBit(final, 0x80), 0, 0);
  }

  /** Login Request, section 11.12: immediate, with the session's name in bytes 8 to 15 and the connection's in 20 and 21. */
  lemma LoginBytes(isid: Isid, tsih: u16, cid: u16, itt: u32, cmdSn: u32, expStatSn: u32, csg: byte, nsg: byte,
                   transit: bool, len: u32)
    ensures var s := Layout(Rows(Login(isid, tsih, cid, itt, cmdSn, expStatSn, csg, nsg, transit, len)));
      && s[0..4] == [0x43, (if transit then 0x80 else 0) + 4 * (csg % 4) + nsg % 4, 0, 0]
      && s[4..8] == Be32(len % 0x100_0000) && s[8..14] == isid && s[14..16] == Be16(tsih) && s[16..20] == Be32(itt)
      && s[20..22] == Be16(cid) && s[22..24] == [0, 0] && s[24..28] == Be32(cmdSn) && s[28..32] == Be32(expStatSn)
      && s[32..48] == Zeros(16)
  {
    var m := Login(isid, tsih, cid, itt, cmdSn, expStatSn, csg, nsg, transit, len);
    var w, s := Rows(m), Layout(Rows(m));
    RowsAre(w, 0x43, LoginFlags(csg, nsg, transit), 0, 0);
    NameRows(s, isid, tsih);
    HalfRows(s, 20, cid, 0);
    ZeroRest(s);
  }

  lemma NameRows(s: Wire48, isid: Isid, tsih: u16)
    requires s[8..12] == Be32(U32At(isid, 0)) && s[12..16] == Be32(Halves(U16At(isid, 4), tsih))
    ensures s[8..14] == isid && s[14..16] == Be16(tsih)
  {
    RowOf(isid, 0);
    HalfRows(s, 12, U16At(isid, 4), tsih);
    BytesOfHalf(isid[4], isid[5]);
    assert s[8..14] == s[8..12] + s[12..14] && isid == isid[0..4] + isid[4..6];
  }

  lemma BytesOfHalf(a: byte, b: byte)
    ensures Be16(0x100 * (a as int) + b as int) == [a, b]
  {
  }

  lemma HalfRows(s: Wire48, at: nat, hi: u16, lo: u16)
    requires at + 4 <= 48 && s[at..at + 4] == Be32(Halves(hi, lo))
    ensures s[at..at + 2] == Be16(hi) && s[at + 2..at + 4] == Be16(lo)
  {
    HalvesApart(hi, lo);
    assert s[at..at + 2] == s[at..at + 4][..2] && s[at + 2..at + 4] == s[at..at + 4][2..];
  }

  lemma HalvesApart(hi: u16, lo: u16)
    ensures Be32(Halves(hi, lo)) == Be16(hi) + Be16(lo)
  {
    assert Halves(hi, lo) / 0x1_0000 == hi && Halves(hi, lo) % 0x1_0000 == lo;
  }

  lemma ZeroRest(s: Wire48)
    requires s[32..36] == Be32(0) && s[36..40] == Be32(0) && s[40..44] == Be32(0) && s[44..48] == Be32(0)
    ensures s[32..48] == Zeros(16)
  {
    assert s[32..48] == s[32..36] + s[36..40] + s[40..44] + s[44..48];
  }

  /** NOP-Out, section 11.18: immediate, with the tag and the transfer tag. */
  lemma PingBytes(itt: u32, ttt: u32, cmdSn: u32, expStatSn: u32)
    ensures HasRows(Layout(Rows(Ping(itt, ttt, cmdSn, expStatSn))), [0x40, 0x80, 0, 0], 0, 0, 0,
                    itt, ttt, cmdSn, expStatSn, 0, 0, 0, 0)
  {
    RowsAre(Rows(Ping(itt, ttt, cmdSn, expStatSn)), 0x40, 0x80, 0, 0);
  }

  /** Logout Request, section 11.14: immediate, closing the session. */
  lemma LogoutBytes(itt: u32, cmdSn: u32, expStatSn: u32, cid: u16)
    ensures HasRows(Layout(Rows(Logout(itt, cmdSn, expStatSn, cid))), [0x46, 0x80, 0, 0], 0, 0, 0,
                    itt, 0x1_0000 * (cid as int), cmdSn, expStatSn, 0, 0, 0, 0)
  {
    RowsAre(Rows(Logout(itt, cmdSn, expStatSn, cid)), 0x46, 0x80, 0, 0);
  }

  /** SCSI Response, section 11.4: the status in byte 3. */
  lemma ResponseBytes(itt: u32, status: byte, statSn: u32, expCmdSn: u32, maxCmdSn: u32)
    ensures HasRows(Layout(Rows(Response(itt, status, statSn, expCmdSn, maxCmdSn))), [0x21, 0x80, 0, status], 0, 0, 0,
                    itt, 0, statSn, expCmdSn, maxCmdSn, 0, 0, 0)
  {
    RowsAre(Rows(Response(itt, status, statSn, expCmdSn, maxCmdSn)), 0x21, 0x80, 0, status);
  }

  /** SCSI Data-In, section 11.7: status and its number only with the S bit, the lowest of byte 1. */
  lemma DataInBytes(itt: u32, dataSn: u32, bufferOffset: u32, len: u32, hasStatus: bool, status: byte, statSn: u32,
                    expCmdSn: u32, maxCmdSn: u32)
    ensures HasRows(
      Layout(Rows(DataIn(itt, dataSn, bufferOffset, len, hasStatus, status, statSn, expCmdSn, maxCmdSn))),
      if hasStatus then [0x25, 0x81, 0, status] else [0x25, 0x80, 0, 0], len % 0x100_0000, 0, 0,
      itt, 0, if hasStatus then statSn else 0, expCmdSn, maxCmdSn, dataSn, bufferOffset, 0)
  {
    RowsAre(Rows(DataIn(itt, dataSn, bufferOffset, len, hasStatus, status, statSn, expCmdSn, maxCmdSn)),
            0x25, 0x80 + FlagBit(hasStatus, 0x01), 0, if hasStatus then status else 0);
  }

  /** NOP-In, section 11.19. */
  lemma PongBytes(itt: u32, ttt: u32, statSn: u32, expCmdSn: u32, maxCmdSn: u32)
    ensures HasRows(Layout(Rows(Pong(itt, ttt, statSn, expCmdSn, maxCmdSn))), [0x20, 0x80, 0, 0], 0, 0, 0,
                    itt, ttt, statSn, expCmdSn, maxCmdSn, 0, 0, 0)
  {
    RowsAre(Rows(Pong(itt, ttt, statSn, expCmdSn, maxCmdSn)), 0x20, 0x80, 0, 0);
  }

  /** Ready To Transfer, section 11.8. */
  lemma ReadyBytes(itt: u32, ttt: u32, statSn: u32, expCmdSn: u32, maxCmdSn: u32, r2tSn: u32, bufferOffset: u32, desired: u32)
    ensures HasRows(Layout(Rows(Ready(itt, ttt, statSn, expCmdSn, maxCmdSn, r2tSn, bufferOffset, desired))),
                    [0x31, 0x80, 0, 0], 0, 0, 0, itt, ttt, statSn, expCmdSn, maxCmdSn, r2tSn, bufferOffset, desired)
  {
    RowsAre(Rows(Ready(itt, ttt, statSn, expCmdSn, maxCmdSn, r2tSn, bufferOffset, desired)), 0x31, 0x80, 0, 0);
  }
}
