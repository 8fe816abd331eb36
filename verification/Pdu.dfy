/** The 48-byte header of an iSCSI PDU (iscsi/pdu.rs; RFC 7143 section 11). */
module Pdu {
  import opened Bytes
  import opened Sealing
  import opened Wrappers

  datatype Opcode =
    | NopOut | ScsiCommand | TaskMgmt | LoginRequest | TextRequest | ScsiDataOut | LogoutRequest | SnackRequest
    | NopIn | ScsiResponse | TaskMgmtResp | LoginResponse | TextResponse | ScsiDataIn | LogoutResponse
    | R2t | AsyncMessage | Reject
  {
    function Code(): (c: byte)
      ensures c < 0x40
    {
      match this
      case NopOut => 0x00
      case ScsiCommand => 0x01
      case TaskMgmt => 0x02
      case LoginRequest => 0x03
      case TextRequest => 0x04
      case ScsiDataOut => 0x05
      case LogoutRequest => 0x06
      case SnackRequest => 0x10
      case NopIn => 0x20
      case ScsiResponse => 0x21
      case TaskMgmtResp => 0x22
      case LoginResponse => 0x23
      case TextResponse => 0x24
      case ScsiDataIn => 0x25
      case LogoutResponse => 0x26
      case R2t => 0x31
      case AsyncMessage => 0x32
      case Reject => 0x3f
    }
  }

  /** An opcode is recognised exactly when it is the code of some opcode, and then it is that one. */
  function TryFrom(v: byte): (r: Option<Opcode>)
    ensures forall op: Opcode :: r == Some(op) <==> op.Code() == v
  {
    match v
    case 0x00 => Some(NopOut)
    case 0x01 => Some(ScsiCommand)
    case 0x02 => Some(TaskMgmt)
    case 0x03 => Some(LoginRequest)
    case 0x04 => Some(TextRequest)
    case 0x05 => Some(ScsiDataOut)
    case 0x06 => Some(LogoutRequest)
    case 0x10 => Some(SnackRequest)
    case 0x20 => Some(NopIn)
    case 0x21 => Some(ScsiResponse)
    case 0x22 => Some(TaskMgmtResp)
    case 0x23 => Some(LoginResponse)
    case 0x24 => Some(TextResponse)
    case 0x25 => Some(ScsiDataIn)
    case 0x26 => Some(LogoutResponse)
    case 0x31 => Some(R2t)
    case 0x32 => Some(AsyncMessage)
    case 0x3f => Some(Reject)
    case _ => None
  }

  // -- Headers as twelve words -----------------------------------------------

  type Wire48 = s: seq<byte> | |s| == 48 witness Zeros(48)
  type Words12 = w: seq<u32> | |w| == 12 witness seq(12, _ => 0)

  function U16At(s: seq<byte>, at: nat): u16
    requires at + 2 <= |s|
  {
    0x100 * (s[at] as int) + s[at + 1] as int
  }

  function U32At(s: seq<byte>, at: nat): u32
    requires at + 4 <= |s|
  {
    0x1_0000 * (U16At(s, at) as int) + U16At(s, at + 2) as int
  }

  function WordsOf(s: Wire48): (w: Words12) {
    seq(12, i requires 0 <= i < 12 => U32At(s, 4 * i))
  }

  /** The rows of the header, 32 bits each, most significant byte first. */
  function Layout(w: Words12): (s: Wire48) {
    seq(48, i requires 0 <= i < 48 => Be32(w[i / 4])[i % 4])
  }

  lemma WordBytes(v: u32)
    ensures var b := Be32(v);
      v == 0x1_0000 * (0x100 * (b[0] as int) + b[1] as int) + 0x100 * (b[2] as int) + b[3] as int
  {
    Be32RoundTrip(v);
  }

  lemma LayoutHasWords(w: Words12)
    ensures WordsOf(Layout(w)) == w
  {
    forall i | 0 <= i < 12
      ensures U32At(Layout(w), 4 * i) == w[i]
    {
      RowBytes(w, i);
      WordBytes(w[i]);
    }
  }

  lemma RowBytes(w: Words12, i: nat)
    requires i < 12
    ensures var s, b := Layout(w), Be32(w[i]);
      s[4 * i] == b[0] && s[4 * i + 1] == b[1] && s[4 * i + 2] == b[2] && s[4 * i + 3] == b[3]
  {
  }

  function Row(a: byte, b: byte, c: byte, d: byte): u32 {
    0x1_0000 * (0x100 * (a as int) + b as int) + (0x100 * (c as int) + d as int)
  }

  lemma BytesOfRow(a: byte, b: byte, c: byte, d: byte)
    ensures Be32(Row(a, b, c, d)) == [a, b, c, d]
  {
    var hi, lo := 0x100 * (a as int) + b as int, 0x100 * (c as int) + d as int;
    assert Row(a, b, c, d) / 0x1_0000 == hi && Row(a, b, c, d) % 0x1_0000 == lo;
    assert hi / 0x100 == a && hi % 0x100 == b && lo / 0x100 == c && lo % 0x100 == d;
  }

  lemma WordsHaveLayout(s: Wire48)
    ensures Layout(WordsOf(s)) == s
  {
    forall i | 0 <= i < 48
      ensures Layout(WordsOf(s))[i] == s[i]
    {
      var j := i / 4;
      RowOfBytes(s, 4 * j);
      assert WordsOf(s)[j] == U32At(s, 4 * j) && i == 4 * j + i % 4;
    }
  }

  lemma RowOfBytes(s: Wire48, at: nat)
    requires at + 4 <= 48
    ensures Be32(U32At(s, at)) == [s[at], s[at + 1], s[at + 2], s[at + 3]]
  {
    BytesOfRow(s[at], s[at + 1], s[at + 2], s[at + 3]);
  }

  /** Writing one aligned word changes that row and no other. */
  lemma WordWritten(s: Wire48, i: nat, v: u32)
    requires i < 12
    ensures WordsOf(Splice(s, 4 * i, Be32(v))) == WordsOf(s)[i := v]
  {
    var t := Splice(s, 4 * i, Be32(v));
    WordBytes(v);
    forall j | 0 <= j < 12
      ensures U32At(t, 4 * j) == WordsOf(s)[i := v][j]
    {
    }
  }

  // -- Parsed headers --------------------------------------------------------

  datatype Header = Header(raw: Wire48, opcode: Opcode, immediate: bool, flags: byte, dataSegmentLength: u32,
                           lun: u64, itt: u32)
  {
    function ScsiStatus(): byte { raw[3] }
    function StatusFlag(): bool { raw[1] % 2 == 1 }
    function FinalFlag(): bool { raw[1] >= 0x80 }
    function Tsih(): u16 { U16At(raw, 14) }
    function Ttt(): u32 { U32At(raw, 20) }
    function StatSn(): u32 { U32At(raw, 24) }
    function CmdSn(): u32 { U32At(raw, 24) }
    function ExpCmdSn(): u32 { U32At(raw, 28) }
    function ExpStatSn(): u32 { U32At(raw, 28) }
    function MaxCmdSn(): u32 { U32At(raw, 32) }
    function DataSn(): u32 { U32At(raw, 36) }
    function R2tSn(): u32 { U32At(raw, 36) }
    function BufferOffset(): u32 { U32At(raw, 40) }
    function R2tBufferOffset(): u32 { U32At(raw, 40) }
    function R2tDesiredLength(): u32 { U32At(raw, 44) }
  }

  function Byte0(opcode: Opcode, immediate: bool): byte {
    (if immediate then 0x40 else 0) + opcode.Code()
  }

  /** The wire form: the parsed fields where there are any, the raw bytes elsewhere. */
  function Wire(h: Header): (s: Wire48) {
    var d := h.dataSegmentLength;
    [Byte0(h.opcode, h.immediate), h.flags, h.raw[2], h.raw[3], 0, d / 0x1_0000 % 0x100, d / 0x100 % 0x100, d % 0x100]
    + h.raw[8..]
  }

  function Parse(s: Wire48): Option<Header> {
    match TryFrom(s[0] % 0x40)
    case None => None
    case Some(op) =>
      Some(Header(s, op, s[0] / 0x40 % 2 == 1, s[1],
                  0x1_0000 * (s[5] as int) + 0x100 * (s[6] as int) + s[7] as int,
                  0x1_0000_0000 * (U32At(s, 8) as int) + U32At(s, 12) as int, U32At(s, 16)))
  }

  lemma ThreeBytes(a: byte, b: byte, c: byte)
    ensures var d := 0x1_0000 * (a as int) + 0x100 * (b as int) + c as int;
      d / 0x1_0000 % 0x100 == a && d / 0x100 % 0x100 == b && d % 0x100 == c
  {
    TwoBytes(0x100 * (a as int) + b as int, c);
    TwoBytes(a, b);
    var q := 0x100 * (a as int) + b as int;
    assert q / 0x100 == (0x100 * q + c as int) / 0x1_0000;
  }

  lemma TwoBytes(hi: nat, lo: byte)
    ensures (0x100 * hi + lo as int) / 0x100 == hi && (0x100 * hi + lo as int) % 0x100 == lo
  {
  }

  /** Re-serialising what parses clears byte 4 and bit 7 of byte 0 and changes nothing else;
      what comes out parses again, to a header with the same fields. */
  lemma Reserialised(s: Wire48)
    requires Parse(s).Some?
    ensures var t := Wire(Parse(s).value);
      && t == s[0 := s[0] % 0x80][4 := 0]
      && Parse(t) == Some(Parse(s).value.(raw := t))
  {
    var t := Wire(Parse(s).value);
    ThreeBytes(s[5], s[6], s[7]);
    LowSeven(s[0], TryFrom(s[0] % 0x40).value);
    assert t == s[0 := s[0] % 0x80][4 := 0];
    SameFrom8(s, t);
  }

  /** A second pass changes nothing, and the first one only bytes that were reserved. */
  lemma ReserialisedTwice(s: Wire48)
    requires Parse(s).Some?
    ensures var t := Wire(Parse(s).value); Parse(t).Some? && Wire(Parse(t).value) == t
    ensures Wire(Parse(s).value) == s <==> s[0] < 0x80 && s[4] == 0
  {
    Reserialised(s);
    var t := Wire(Parse(s).value);
    Reserialised(t);
    ClearedIsSame(s);
    ClearedIsSame(t);
  }

  lemma ClearedIsSame(s: Wire48)
    ensures s[0 := s[0] % 0x80][4 := 0] == s <==> s[0] < 0x80 && s[4] == 0
  {
    var t := s[0 := s[0] % 0x80][4 := 0];
    assert t[0] == s[0] % 0x80 && t[4] == 0;
  }

  lemma LowSeven(b: byte, op: Opcode)
    requires op.Code() == b % 0x40
    ensures Byte0(op, b / 0x40 % 2 == 1) == b % 0x80
    ensures b % 0x80 % 0x40 == b % 0x40 && b % 0x80 / 0x40 % 2 == b / 0x40 % 2 && b % 0x80 % 0x80 == b % 0x80
  {
    SevenBits(b);
  }

  lemma SevenBits(b: byte)
    ensures b % 0x80 == 0x40 * (b / 0x40 % 2) + b % 0x40
  {
  }

  lemma SameFrom8(s: Wire48, t: Wire48)
    requires t == s[0 := s[0] % 0x80][4 := 0]
    ensures U32At(t, 8) == U32At(s, 8) && U32At(t, 12) == U32At(s, 12) && U32At(t, 16) == U32At(s, 16)
  {
  }

  /** A whole PDU; additional header segments are never put on the wire. */
  datatype Pdu = Pdu(bhs: Header, ahs: Option<seq<byte>>, data: Option<seq<byte>>)

  // -- Messages --------------------------------------------------------------

  type Cdb = s: seq<byte> | |s| == 16 witness Zeros(16)
  type Isid = s: seq<byte> | |s| == 6 witness Zeros(6)

  /** What each builder is asked to put in a header. */
  datatype Message =
    | Command(lun: u64, itt: u32, cmdSn: u32, expStatSn: u32, cdb: Cdb, edtl: u32, read: bool, write: bool, len: u32)
    | DataOut(lun: u64, itt: u32, ttt: u32, expStatSn: u32, dataSn: u32, bufferOffset: u32, final: bool, len: u32)
    | Login(isid: Isid, tsih: u16, cid: u16, itt: u32, cmdSn: u32, expStatSn: u32, csg: byte, nsg: byte,
            transit: bool, len: u32)
    | Ping(itt: u32, ttt: u32, cmdSn: u32, expStatSn: u32)
    | Logout(itt: u32, cmdSn: u32, expStatSn: u32, cid: u16)
    | Response(itt: u32, status: byte, statSn: u32, expCmdSn: u32, maxCmdSn: u32)
    | DataIn(itt: u32, dataSn: u32, bufferOffset: u32, len: u32, hasStatus: bool, status: byte,
             statSn: u32, expCmdSn: u32, maxCmdSn: u32)
    | Pong(itt: u32, ttt: u32, statSn: u32, expCmdSn: u32, maxCmdSn: u32)
    | Ready(itt: u32, ttt: u32, statSn: u32, expCmdSn: u32, maxCmdSn: u32, r2tSn: u32, bufferOffset: u32, desired: u32)

  function Halves(hi: u16, lo: u16): u32 {
    0x1_0000 * (hi as int) + lo as int
  }

  function Hi(v: u64): u32 {
    v / TWO32
  }

  function Lo(v: u64): u32 {
    v % TWO32
  }

  function Low24(v: u32): u32 {
    v % 0x100_0000
  }

  function LoginFlags(csg: byte, nsg: byte, transit: bool): byte {
    FlagBit(transit, 0x80) + 4 * (csg % 4) + nsg % 4
  }

  function FlagBit(b: bool, weight: byte): byte {
    if b then weight else 0
  }

  predicate IsRequest(m: Message) {
    m.Command? || m.DataOut? || m.Login? || m.Ping? || m.Logout?
  }

  function RequestRows(m: Message): Words12
    requires IsRequest(m)
  {
    match m
    case Command(lun, itt, cmdSn, expStatSn, cdb, edtl, read, write, len) =>
      [Row(0x01, 0x80 + FlagBit(read, 0x40) + FlagBit(write, 0x20), 0, 0), Low24(len), Hi(lun), Lo(lun), itt,
       edtl, cmdSn, expStatSn, U32At(cdb, 0), U32At(cdb, 4), U32At(cdb, 8), U32At(cdb, 12)]
    case DataOut(lun, itt, ttt, expStatSn, dataSn, bufferOffset, final, len) =>
      [Row(0x05, FlagBit(final, 0x80), 0, 0), Low24(len), Hi(lun), Lo(lun), itt,
       ttt, 0, expStatSn, 0, dataSn, bufferOffset, 0]
    case Login(isid, tsih, cid, itt, cmdSn, expStatSn, csg, nsg, transit, len) =>
      [Row(0x43, LoginFlags(csg, nsg, transit), 0, 0), Low24(len), U32At(isid, 0),
       Halves(U16At(isid, 4), tsih), itt,
       Halves(cid, 0), cmdSn, expStatSn, 0, 0, 0, 0]
    case Ping(itt, ttt, cmdSn, expStatSn) =>
      [Row(0x40, 0x80, 0, 0), 0, 0, 0, itt, ttt, cmdSn, expStatSn, 0, 0, 0, 0]
    case Logout(itt, cmdSn, expStatSn, cid) =>
      [Row(0x46, 0x80, 0, 0), 0, 0, 0, itt, Halves(cid, 0), cmdSn, expStatSn, 0, 0, 0, 0]
  }

  function AnswerRows(m: Message): Words12
    requires !IsRequest(m)
  {
    match m
    case Response(itt, status, statSn, expCmdSn, maxCmdSn) =>
      [Row(0x21, 0x80, 0, status), 0, 0, 0, itt, 0, statSn, expCmdSn, maxCmdSn, 0, 0, 0]
    case DataIn(itt, dataSn, bufferOffset, len, hasStatus, status, statSn, expCmdSn, maxCmdSn) =>
      [Row(0x25, 0x80 + FlagBit(hasStatus, 0x01), 0, if hasStatus then status else 0), Low24(len), 0, 0, itt,
       0, if hasStatus then statSn else 0, expCmdSn, maxCmdSn, dataSn, bufferOffset, 0]
    case Pong(itt, ttt, statSn, expCmdSn, maxCmdSn) =>
      [Row(0x20, 0x80, 0, 0), 0, 0, 0, itt, ttt, statSn, expCmdSn, maxCmdSn, 0, 0, 0]
    case Ready(itt, ttt, statSn, expCmdSn, maxCmdSn, r2tSn, bufferOffset, desired) =>
      [Row(0x31, 0x80, 0, 0), 0, 0, 0, itt, ttt, statSn, expCmdSn, maxCmdSn, r2tSn, bufferOffset, desired]
  }

  /** The rows that RFC 7143 sections 11.3 to 11.20 draw for each PDU. */
  function Rows(m: Message): Words12 {
    if IsRequest(m) then RequestRows(m) else AnswerRows(m)
  }

  /** Reads a parsed header back with the accessors. */
  function Read(h: Header): Option<Message> {
    match h.opcode
    case ScsiCommand =>
      Some(Command(h.lun, h.itt, h.CmdSn(), h.ExpStatSn(), h.raw[32..48], U32At(h.raw, 20),
                   h.flags / 0x40 % 2 == 1, h.flags / 0x20 % 2 == 1, h.dataSegmentLength))
    case ScsiDataOut =>
      Some(DataOut(h.lun, h.itt, h.Ttt(), h.ExpStatSn(), h.DataSn(), h.BufferOffset(), h.FinalFlag(),
                   h.dataSegmentLength))
    case LoginRequest =>
      Some(Login(h.raw[8..14], h.Tsih(), U16At(h.raw, 20), h.itt, h.CmdSn(), h.ExpStatSn(),
                 h.flags / 4 % 4, h.flags % 4, h.FinalFlag(), h.dataSegmentLength))
    case NopOut => Some(Ping(h.itt, h.Ttt(), h.CmdSn(), h.ExpStatSn()))
    case LogoutRequest => Some(Logout(h.itt, h.CmdSn(), h.ExpStatSn(), U16At(h.raw, 20)))
    case ScsiResponse => Some(Response(h.itt, h.ScsiStatus(), h.StatSn(), h.ExpCmdSn(), h.MaxCmdSn()))
    case ScsiDataIn =>
      Some(DataIn(h.itt, h.DataSn(), h.BufferOffset(), h.dataSegmentLength, h.StatusFlag(), h.ScsiStatus(),
                  h.StatSn(), h.ExpCmdSn(), h.MaxCmdSn()))
    case NopIn => Some(Pong(h.itt, h.Ttt(), h.StatSn(), h.ExpCmdSn(), h.MaxCmdSn()))
    case R2t =>
      Some(Ready(h.itt, h.Ttt(), h.StatSn(), h.ExpCmdSn(), h.MaxCmdSn(), h.R2tSn(), h.R2tBufferOffset(),
                 h.R2tDesiredLength()))
    case _ => None
  }

  /** What a header has room for: 24 bits of length, 2 bits for each login stage, and a status only with the S bit. */
  predicate Representable(m: Message) {
    match m
    case Command(_, _, _, _, _, _, _, _, len) => len < 0x100_0000
    case DataOut(_, _, _, _, _, _, _, len) => len < 0x100_0000
    case Login(_, _, _, _, _, _, csg, nsg, _, len) => csg < 4 && nsg < 4 && len < 0x100_0000
    case DataIn(_, _, _, len, hasStatus, status, statSn, _, _) =>
      len < 0x100_0000 && (!hasStatus ==> status == 0 && statSn == 0)
    case _ => true
  }

  lemma FirstRow(s: Wire48, a: byte, b: byte, c: byte, d: byte)
    requires U32At(s, 0) == Row(a, b, c, d)
    ensures s[0] == a && s[1] == b && s[2] == c && s[3] == d
  {
    HalvesOfWord(s, 0, U16At([a, b], 0), U16At([c, d], 0));
  }

  lemma SecondRow(s: Wire48)
    ensures 0x1_0000 * (s[5] as int) + 0x100 * (s[6] as int) + s[7] as int == Low24(U32At(s, 4))
  {
    assert U32At(s, 4) == 0x100_0000 * (s[4] as int)
                          + (0x1_0000 * (s[5] as int) + 0x100 * (s[6] as int) + s[7] as int);
  }

  lemma LowBits(op: Opcode, immediate: bool)
    ensures Byte0(op, immediate) % 0x40 == op.Code() && (Byte0(op, immediate) / 0x40 % 2 == 1 <==> immediate)
  {
  }

  /** What parsing finds in a header with these first rows. */
  lemma ParsedRows(s: Wire48, op: Opcode, immediate: bool, flags: byte, status: byte)
    requires U32At(s, 0) == Row(Byte0(op, immediate), flags, 0, status)
    ensures Parse(s) == Some(Header(s, op, immediate, flags, Low24(U32At(s, 4)),
                                    0x1_0000_0000 * (U32At(s, 8) as int) + U32At(s, 12) as int, U32At(s, 16)))
    ensures s[1] == flags && s[3] == status
  {
    FirstRow(s, Byte0(op, immediate), flags, 0, status);
    SecondRow(s);
    LowBits(op, immediate);
  }

  lemma RowsOf(s: Wire48, w: Words12)
    requires WordsOf(s) == w
    ensures U32At(s, 0) == w[0] && U32At(s, 4) == w[1] && U32At(s, 8) == w[2] && U32At(s, 12) == w[3]
    ensures U32At(s, 16) == w[4] && U32At(s, 20) == w[5] && U32At(s, 24) == w[6] && U32At(s, 28) == w[7]
    ensures U32At(s, 32) == w[8] && U32At(s, 36) == w[9] && U32At(s, 40) == w[10] && U32At(s, 44) == w[11]
  {
    assert forall i :: 0 <= i < 12 ==> WordsOf(s)[i] == U32At(s, 4 * i);
  }

  lemma HalvesOfWord(s: seq<byte>, at: nat, hi: u16, lo: u16)
    requires at + 4 <= |s| && U32At(s, at) == Halves(hi, lo)
    ensures U16At(s, at) == hi && U16At(s, at + 2) == lo
  {
  }

  lemma SameWord(s: seq<byte>, at: nat, t: seq<byte>, k: nat)
    requires at + 4 <= |s| && k + 4 <= |t| && U32At(s, at) == U32At(t, k)
    ensures s[at..at + 4] == t[k..k + 4]
  {
    HalvesOfWord(s, at, U16At(t, k), U16At(t, k + 2));
    SameHalf(s, at, t, k);
    SameHalf(s, at + 2, t, k + 2);
  }

  lemma SameHalf(s: seq<byte>, at: nat, t: seq<byte>, k: nat)
    requires at + 2 <= |s| && k + 2 <= |t| && U16At(s, at) == U16At(t, k)
    ensures s[at] == t[k] && s[at + 1] == t[k + 1]
  {
  }

  lemma CdbBack(s: Wire48, cdb: Cdb)
    requires U32At(s, 32) == U32At(cdb, 0) && U32At(s, 36) == U32At(cdb, 4)
    requires U32At(s, 40) == U32At(cdb, 8) && U32At(s, 44) == U32At(cdb, 12)
    ensures s[32..48] == cdb
  {
    SameWord(s, 32, cdb, 0);
    SameWord(s, 36, cdb, 4);
    SameWord(s, 40, cdb, 8);
    SameWord(s, 44, cdb, 12);
    assert s[32..48] == s[32..36] + s[36..40] + s[40..44] + s[44..48];
    assert cdb == cdb[0..4] + cdb[4..8] + cdb[8..12] + cdb[12..16];
  }

  lemma IsidBack(s: Wire48, isid: Isid, tsih: u16)
    requires U32At(s, 8) == U32At(isid, 0) && U32At(s, 12) == Halves(U16At(isid, 4), tsih)
    ensures s[8..14] == isid && U16At(s, 14) == tsih
  {
    SameWord(s, 8, isid, 0);
    HalvesOfWord(s, 12, U16At(isid, 4), tsih);
    assert s[8..14] == s[8..12] + [s[12], s[13]];
    assert isid == isid[0..4] + [isid[4], isid[5]];
  }

  lemma CommandFlags(read: bool, write: bool)
    ensures var f := 0x80 + FlagBit(read, 0x40) + FlagBit(write, 0x20);
      (f / 0x40 % 2 == 1 <==> read) && (f / 0x20 % 2 == 1 <==> write)
  {
  }

  lemma LoginFlagsBack(csg: byte, nsg: byte, transit: bool)
    ensures var f := LoginFlags(csg, nsg, transit);
      (f >= 0x80 <==> transit) && f / 4 % 4 == csg % 4 && f % 4 == nsg % 4
  {
  }

  lemma LunBack(lun: u64)
    ensures 0x1_0000_0000 * (Hi(lun) as int) + Lo(lun) as int == lun
  {
  }

  /** The accessors read from the wire form with the message's rows what was put in,
      exactly when the header has room for it. */
  ghost predicate ReadsBack(s: Wire48, m: Message) {
    Parse(s).Some? && (Read(Parse(s).value) == Some(m) <==> Representable(m))
  }

  lemma CommandRead(s: Wire48, lun: u64, itt: u32, cmdSn: u32, expStatSn: u32, cdb: Cdb, edtl: u32, flags: byte, len: u32)
    requires U32At(s, 0) == Row(0x01, flags, 0, 0) && U32At(s, 4) == Low24(len)
    requires U32At(s, 8) == Hi(lun) && U32At(s, 12) == Lo(lun) && U32At(s, 16) == itt
    requires U32At(s, 20) == edtl && U32At(s, 24) == cmdSn && U32At(s, 28) == expStatSn && s[32..48] == cdb
    ensures Parse(s).Some? && Read(Parse(s).value) == Some(
      Command(lun, itt, cmdSn, expStatSn, cdb, edtl, flags / 0x40 % 2 == 1, flags / 0x20 % 2 == 1, Low24(len)))
  {
    ParsedRows(s, ScsiCommand, false, flags, 0);
    LunBack(lun);
  }

  lemma CommandBack(s: Wire48, lun: u64, itt: u32, cmdSn: u32, expStatSn: u32, cdb: Cdb, edtl: u32,
                    read: bool, write: bool, len: u32)
    requires U32At(s, 0) == Row(0x01, 0x80 + FlagBit(read, 0x40) + FlagBit(write, 0x20), 0, 0) && U32At(s, 4) == Low24(len)
    requires U32At(s, 8) == Hi(lun) && U32At(s, 12) == Lo(lun) && U32At(s, 16) == itt
    requires U32At(s, 20) == edtl && U32At(s, 24) == cmdSn && U32At(s, 28) == expStatSn
    requires U32At(s, 32) == U32At(cdb, 0) && U32At(s, 36) == U32At(cdb, 4)
    requires U32At(s, 40) == U32At(cdb, 8) && U32At(s, 44) == U32At(cdb, 12)
    ensures ReadsBack(s, Command(lun, itt, cmdSn, expStatSn, cdb, edtl, read, write, len))
  {
    CdbBack(s, cdb);
    CommandRead(s, lun, itt, cmdSn, expStatSn, cdb, edtl, 0x80 + FlagBit(read, 0x40) + FlagBit(write, 0x20), len);
    CommandFlags(read, write);
    LengthFits(len);
  }

  lemma LengthFits(len: u32)
    ensures Low24(len) == len <==> len < 0x100_0000
  {
  }

  lemma DataOutBack(s: Wire48, lun: u64, itt: u32, ttt: u32, expStatSn: u32, dataSn: u32, bufferOffset: u32,
                    final: bool, len: u32)
    requires U32At(s, 0) == Row(0x05, FlagBit(final, 0x80), 0, 0) && U32At(s, 4) == Low24(len)
    requires U32At(s, 8) == Hi(lun) && U32At(s, 12) == Lo(lun) && U32At(s, 16) == itt
    requires U32At(s, 20) == ttt && U32At(s, 28) == expStatSn
    requires U32At(s, 36) == dataSn && U32At(s, 40) == bufferOffset
    ensures ReadsBack(s, DataOut(lun, itt, ttt, expStatSn, dataSn, bufferOffset, final, len))
  {
    ParsedRows(s, ScsiDataOut, false, FlagBit(final, 0x80), 0);
    LunBack(lun);
  }

  lemma LoginRead(s: Wire48, isid: Isid, tsih: u16, cid: u16, itt: u32, cmdSn: u32, expStatSn: u32, flags: byte, len: u32)
    requires U32At(s, 0) == Row(0x43, flags, 0, 0) && U32At(s, 4) == Low24(len)
    requires U32At(s, 8) == U32At(isid, 0) && U32At(s, 12) == Halves(U16At(isid, 4), tsih) && U32At(s, 16) == itt
    requires U32At(s, 20) == Halves(cid, 0) && U32At(s, 24) == cmdSn && U32At(s, 28) == expStatSn
    ensures Parse(s).Some? && Read(Parse(s).value)
      == Some(Login(isid, tsih, cid, itt, cmdSn, expStatSn, flags / 4 % 4, flags % 4, flags >= 0x80, Low24(len)))
  {
    ParsedRows(s, LoginRequest, true, flags, 0);
    IsidBack(s, isid, tsih);
    HalvesOfWord(s, 20, cid, 0);
  }

  lemma LoginBack(s: Wire48, isid: Isid, tsih: u16, cid: u16, itt: u32, cmdSn: u32, expStatSn: u32,
                  csg: byte, nsg: byte, transit: bool, len: u32)
    requires U32At(s, 0) == Row(0x43, LoginFlags(csg, nsg, transit), 0, 0) && U32At(s, 4) == Low24(len)
    requires U32At(s, 8) == U32At(isid, 0) && U32At(s, 12) == Halves(U16At(isid, 4), tsih) && U32At(s, 16) == itt
    requires U32At(s, 20) == Halves(cid, 0) && U32At(s, 24) == cmdSn && U32At(s, 28) == expStatSn
    ensures ReadsBack(s, Login(isid, tsih, cid, itt, cmdSn, expStatSn, csg, nsg, transit, len))
  {
    LoginRead(s, isid, tsih, cid, itt, cmdSn, expStatSn, LoginFlags(csg, nsg, transit), len);
    LoginFlagsBack(csg, nsg, transit);
    LoginFits(csg, nsg, len);
  }

  lemma LoginFits(csg: byte, nsg: byte, len: u32)
    ensures csg % 4 == csg && nsg % 4 == nsg && Low24(len) == len <==> csg < 4 && nsg < 4 && len < 0x100_0000
  {
  }

  lemma DataInBack(s: Wire48, itt: u32, dataSn: u32, bufferOffset: u32, len: u32, hasStatus: bool, status: byte,
                   statSn: u32, expCmdSn: u32, maxCmdSn: u32)
    requires U32At(s, 0) == Row(0x25, 0x80 + FlagBit(hasStatus, 0x01), 0, if hasStatus then status else 0)
    requires U32At(s, 4) == Low24(len) && U32At(s, 16) == itt
    requires U32At(s, 24) == (if hasStatus then statSn else 0)
    requires U32At(s, 28) == expCmdSn && U32At(s, 32) == maxCmdSn
    requires U32At(s, 36) == dataSn && U32At(s, 40) == bufferOffset
    ensures ReadsBack(s, DataIn(itt, dataSn, bufferOffset, len, hasStatus, status, statSn, expCmdSn, maxCmdSn))
  {
    ParsedRows(s, ScsiDataIn, false, 0x80 + FlagBit(hasStatus, 0x01), if hasStatus then status else 0);
  }

  lemma ShortBack(s: Wire48, m: Message)
    requires m.Ping? || m.Logout? || m.Response? || m.Pong? || m.Ready?
    requires WordsOf(s) == Rows(m)
    ensures ReadsBack(s, m)
  {
    RowsOf(s, Rows(m));
    match m
    case Ping(_, _, _, _) => ParsedRows(s, NopOut, true, 0x80, 0);
    case Logout(_, _, _, cid) =>
      ParsedRows(s, LogoutRequest, true, 0x80, 0);
      HalvesOfWord(s, 20, cid, 0);
    case Response(_, status, _, _, _) => ParsedRows(s, ScsiResponse, false, 0x80, status);
    case Pong(_, _, _, _, _) => ParsedRows(s, NopIn, false, 0x80, 0);
    case Ready(_, _, _, _, _, _, _, _) => ParsedRows(s, R2t, false, 0x80, 0);
  }

  /** For every builder, the accessors of the parsed wire form give the builder's arguments back
      exactly when the header has room for them. */
  lemma BuiltReadsBack(m: Message)
    ensures ReadsBack(Layout(Rows(m)), m)
  {
    var s := Layout(Rows(m));
    LayoutHasWords(Rows(m));
    if m.Command? || m.Login? {
      LongBack(s, m);
    } else if m.DataOut? || m.DataIn? {
      TransferBack(s, m);
    } else {
      ShortBack(s, m);
    }
  }

  lemma LongBack(s: Wire48, m: Message)
    requires (m.Command? || m.Login?) && WordsOf(s) == Rows(m)
    ensures ReadsBack(s, m)
  {
    RowsOf(s, Rows(m));
    match m
    case Command(lun, itt, cmdSn, expStatSn, cdb, edtl, read, write, len) =>
      CommandBack(s, lun, itt, cmdSn, expStatSn, cdb, edtl, read, write, len);
    case Login(isid, tsih, cid, itt, cmdSn, expStatSn, csg, nsg, transit, len) =>
      LoginBack(s, isid, tsih, cid, itt, cmdSn, expStatSn, csg, nsg, transit, len);
  }

  lemma TransferBack(s: Wire48, m: Message)
    requires (m.DataOut? || m.DataIn?) && WordsOf(s) == Rows(m)
    ensures ReadsBack(s, m)
  {
    RowsOf(s, Rows(m));
    match m
    case DataOut(lun, itt, ttt, expStatSn, dataSn, bufferOffset, final, len) =>
      DataOutBack(s, lun, itt, ttt, expStatSn, dataSn, bufferOffset, final, len);
    case DataIn(itt, dataSn, bufferOffset, len, hasStatus, status, statSn, expCmdSn, maxCmdSn) =>
      DataInBack(s, itt, dataSn, bufferOffset, len, hasStatus, status, statSn, expCmdSn, maxCmdSn);
  }

  /** The header with a message's rows, as parsing gives it. */
  function HeaderOf(m: Message): (h: Header)
    ensures Parse(Layout(Rows(m))) == Some(h)
  {
    BuiltReadsBack(m);
    Parse(Layout(Rows(m))).value
  }

  function LengthOf(m: Message): u32 {
    if m.Command? || m.DataOut? || m.Login? || m.DataIn? then m.len else 0
  }

  lemma RowsAreTidy(m: Message)
    ensures Rows(m)[0] < 0x8000_0000 && Rows(m)[1] == Low24(LengthOf(m))
  {
  }

  lemma FrontRows(m: Message)
    ensures U32At(Layout(Rows(m)), 0) < 0x8000_0000 && U32At(Layout(Rows(m)), 4) == Low24(LengthOf(m))
  {
    LayoutHasWords(Rows(m));
    RowsOf(Layout(Rows(m)), Rows(m));
    RowsAreTidy(m);
  }

  lemma TopBytes(s: Wire48)
    requires U32At(s, 0) < 0x8000_0000 && U32At(s, 4) < 0x100_0000
    ensures s[0] < 0x80 && s[4] == 0
  {
  }

  /** The header of a message is a fixed point of serialising and parsing. */
  lemma HeaderOfWire(m: Message)
    ensures var h := HeaderOf(m);
      && Wire(h) == Layout(Rows(m))
      && Parse(Wire(h)) == Some(h)
      && h.dataSegmentLength == Low24(LengthOf(m))
  {
    FrontRows(m);
    TopBytes(Layout(Rows(m)));
    TidyHeader(Layout(Rows(m)), HeaderOf(m));
    Low24Twice(LengthOf(m));
  }

  lemma Low24Twice(v: u32)
    ensures Low24(Low24(v)) == Low24(v)
  {
  }

  lemma TidyHeader(s: Wire48, h: Header)
    requires Parse(s) == Some(h) && s[0] < 0x80 && s[4] == 0
    ensures Wire(h) == s && Parse(Wire(h)) == Some(h) && h.dataSegmentLength == Low24(U32At(s, 4))
  {
    TidyWire(s);
  }

  lemma HeaderReads(m: Message)
    requires Representable(m)
    ensures Read(HeaderOf(m)) == Some(m)
  {
    BuiltReadsBack(m);
  }

  lemma TidyWire(s: Wire48)
    requires Parse(s).Some? && s[0] < 0x80 && s[4] == 0
    ensures Wire(Parse(s).value) == s && Parse(s).value.dataSegmentLength == Low24(U32At(s, 4))
  {
    SecondRow(s);
    ReserialisedTwice(s);
  }

  // -- Building in place -----------------------------------------------------

  /** Rows of the wire form: the parsed fields in the first two, the raw rows after them. */
  lemma WireRows(h: Header)
    ensures WordsOf(Wire(h)) == [Row(Byte0(h.opcode, h.immediate), h.flags, h.raw[2], h.raw[3]),
                                 Low24(h.dataSegmentLength)] + WordsOf(h.raw)[2..]
  {
    var s := Wire(h);
    SecondRow(s);
    LengthBytes(h.dataSegmentLength);
    forall i | 2 <= i < 12
      ensures U32At(s, 4 * i) == U32At(h.raw, 4 * i)
    {
    }
  }

  lemma LengthBytes(d: u32)
    ensures 0x1_0000 * (d / 0x1_0000 % 0x100) + 0x100 * (d / 0x100 % 0x100) + d % 0x100 == Low24(d)
  {
    TopByte(d);
    LowBytes(d);
  }

  lemma TopByte(d: u32)
    ensures d % 0x100_0000 == 0x1_0000 * (d / 0x1_0000 % 0x100) + d % 0x1_0000
  {
  }

  lemma LowBytes(d: u32)
    ensures d % 0x1_0000 == 0x100 * (d / 0x100 % 0x100) + d % 0x100
  {
  }

  /** `s` with the elements from `at` on replaced by `values`. */
  ghost function Replaced(s: seq<u32>, at: nat, values: seq<u32>): (r: seq<u32>)
    requires at + |values| <= |s|
    ensures |r| == |s|
    ensures forall j :: 0 <= j < |s| ==> r[j] == if at <= j < at + |values| then values[j - at] else s[j]
  {
    s[..at] + values + s[at + |values|..]
  }

  lemma BuiltAsRows(h: Header, w: Words12)
    requires w[0] == Row(Byte0(h.opcode, h.immediate), h.flags, h.raw[2], h.raw[3])
    requires w[1] == Low24(h.dataSegmentLength) && WordsOf(h.raw)[2..] == w[2..]
    ensures Wire(h) == Layout(w)
  {
    WireRows(h);
    assert w == [w[0], w[1]] + w[2..];
    WordsHaveLayout(Wire(h));
  }

  /** The first two rows hold the parsed fields, but for byte 4. */
  ghost predicate IsSynced(front: seq<byte>, h: Header, byte4: byte) {
    forall n: nat {:trigger Look(n)} :: Look(n) ==> front == Wire(h)[..4] + [byte4] + Wire(h)[5..8]
  }

  lemma SyncedIs(front: seq<byte>, h: Header, byte4: byte)
    requires |front| == 8
    ensures IsSynced(front, h, byte4) <==> front == Wire(h)[..4] + [byte4] + Wire(h)[5..8]
  {
    assert Look(0);
  }

  lemma TailBegun(a: u32, b: u32, c: u32, zeros: seq<u32>)
    requires zeros == [0, 0, 0, 0, 0, 0, 0, 0, 0, 0]
    ensures [a, b, c] + zeros[3..] == [a, b, c, 0, 0, 0, 0, 0, 0, 0]
  {
  }

  class Bhs {
    const raw: array<byte>
    var opcode: Opcode
    var immediate: bool
    var flags: byte
    var dataSegmentLength: u32
    var lun: u64
    var itt: u32

    predicate Valid() {
      raw.Length == 48
    }

    function Value(): Header
      requires Valid()
      reads this, raw
    {
      Header(raw[..], opcode, immediate, flags, dataSegmentLength, lun, itt)
    }

    /** The rows after the first two. */
    ghost function Tail(): (r: seq<u32>)
      requires Valid()
      reads raw
      ensures |r| == 10
    {
      WordsOf(raw[..])[2..]
    }

    /** A zeroed header with the common fields set and copied into the raw bytes. */
    constructor Synced(opcode: Opcode, immediate: bool, flags: byte, len: u32, lun: u64, itt: u32)
      ensures Valid() && fresh(raw)
      ensures Value() == Header(raw[..], opcode, immediate, flags, len, lun, itt)
      ensures raw[2] == 0 && raw[3] == 0
      ensures Tail() == [Hi(lun), Lo(lun), itt, 0, 0, 0, 0, 0, 0, 0]
    {
      raw := new byte[48](_ => 0);
      this.opcode, this.immediate, this.flags := opcode, immediate, flags;
      this.dataSegmentLength, this.lun, this.itt := len, lun, itt;
      new;
      ZeroRows(raw[..]);
      TailBegun(Hi(lun), Lo(lun), itt, Tail());
      SyncRawFromFields();
    }

    method SyncRawFromFields()
      requires Valid()
      modifies raw
      ensures raw[2] == old(raw[2]) && raw[3] == old(raw[3]) && raw[4] == old(raw[4])
      ensures Tail() == [Hi(lun), Lo(lun), itt] + old(Tail())[3..]
      ensures IsSynced(raw[..8], Value(), old(raw[4]))
    {
      SyncFront();
      ghost var before := Tail();
      SetRawU32(8, Hi(lun));
      SetRawU32(12, Lo(lun));
      SetRawU32(16, itt);
      assert Tail() == [Hi(lun), Lo(lun), itt] + before[3..];
    }

    /** The fields of the first two rows. */
    method SyncFront()
      requires Valid()
      modifies raw
      ensures raw[2] == old(raw[2]) && raw[3] == old(raw[3]) && raw[4] == old(raw[4])
      ensures Tail() == old(Tail()) && IsSynced(raw[..8], Value(), old(raw[4]))
    {
      ghost var was := raw[..];
      raw[0] := Byte0(opcode, immediate);
      raw[1] := flags;
      raw[5] := dataSegmentLength / 0x1_0000 % 0x100;
      raw[6] := dataSegmentLength / 0x100 % 0x100;
      raw[7] := dataSegmentLength % 0x100;
      FrontWritten(was, raw[..]);
      SyncedIs(raw[..8], Value(), was[4]);
    }

    method SetRawU32(offset: nat, value: u32)
      requires Valid() && 8 <= offset && offset % 4 == 0 && offset < 48
      modifies raw
      ensures raw[..8] == old(raw[..8]) && raw[2] == old(raw[2]) && raw[3] == old(raw[3])
      ensures Tail() == old(Tail())[offset / 4 - 2 := value]
    {
      ghost var was := raw[..];
      var b := Be32(value);
      raw[offset], raw[offset + 1], raw[offset + 2], raw[offset + 3] := b[0], b[1], b[2], b[3];
      assert raw[..] == Splice(was, 4 * (offset / 4), b);
      WordWritten(was, offset / 4, value);
    }

    /** Consecutive rows, one after the other. */
    method SetRawRows(offset: nat, values: seq<u32>)
      requires Valid() && 8 <= offset && offset % 4 == 0 && offset + 4 * |values| <= 48
      modifies raw
      ensures raw[..8] == old(raw[..8]) && raw[2] == old(raw[2]) && raw[3] == old(raw[3])
      ensures Tail() == Replaced(old(Tail()), offset / 4 - 2, values)
    {
      ghost var was, at := Tail(), offset / 4 - 2;
      for i := 0 to |values|
        invariant raw[..8] == old(raw[..8]) && raw[2] == old(raw[2]) && raw[3] == old(raw[3])
        invariant Tail() == Replaced(was, at, values[..i])
      {
        NextRow(was, at, values, i);
        SetRawU32(offset + 4 * i, values[i]);
      }
    }

    method SetRawCdb(cdb: Cdb)
      requires Valid()
      modifies raw
      ensures raw[..8] == old(raw[..8]) && raw[2] == old(raw[2]) && raw[3] == old(raw[3])
      ensures Tail() == old(Tail())[..6] + [U32At(cdb, 0), U32At(cdb, 4), U32At(cdb, 8), U32At(cdb, 12)]
    {
      ghost var was := raw[..];
      forall i | 32 <= i < 48 {
        raw[i] := cdb[i - 32];
      }
      CdbWritten(was, raw[..], cdb);
    }

    method SetStatus(status: byte, statSn: u32)
      requires Valid()
      modifies raw
      ensures raw[2] == old(raw[2]) && raw[3] == status
      ensures Tail() == old(Tail())[4 := statSn]
    {
      ghost var was := raw[..];
      raw[3] := status;
      FrontWritten(was, raw[..]);
      SetRawU32(24, statSn);
    }

    method Serialize() returns (buf: array<byte>)
      requires Valid()
      ensures fresh(buf) && buf[..] == Wire(Value())
    {
      var d := dataSegmentLength;
      buf := new byte[48](_ => 0);
      buf[0] := Byte0(opcode, immediate);
      buf[1] := flags;
      buf[2] := raw[2];
      buf[3] := raw[3];
      buf[5] := d / 0x1_0000 % 0x100;
      buf[6] := d / 0x100 % 0x100;
      buf[7] := d % 0x100;
      forall i | 8 <= i < 48 {
        buf[i] := raw[i];
      }
      FilledIsWire(buf[..], Value());
    }
  }

  lemma FilledIsWire(s: Wire48, h: Header)
    requires s[0] == Byte0(h.opcode, h.immediate) && s[1] == h.flags && s[2] == h.raw[2] && s[3] == h.raw[3] && s[4] == 0
    requires s[5] == h.dataSegmentLength / 0x1_0000 % 0x100 && s[6] == h.dataSegmentLength / 0x100 % 0x100
    requires s[7] == h.dataSegmentLength % 0x100 && forall i :: 8 <= i < 48 ==> s[i] == h.raw[i]
    ensures s == Wire(h)
  {
  }

  lemma NextRow(was: seq<u32>, at: nat, values: seq<u32>, i: nat)
    requires i < |values| && at + |values| <= |was|
    ensures Replaced(was, at, values[..i])[at + i := values[i]] == Replaced(was, at, values[..i + 1])
  {
  }

  lemma CdbWritten(s: Wire48, t: Wire48, cdb: Cdb)
    requires t[..32] == s[..32] && t[32..48] == cdb
    ensures WordsOf(t)[2..] == WordsOf(s)[2..][..6] + [U32At(cdb, 0), U32At(cdb, 4), U32At(cdb, 8), U32At(cdb, 12)]
  {
    forall i | 0 <= i < 32
      ensures s[i] == t[i]
    {
      assert s[..32][i] == t[..32][i];
    }
    forall k | 0 <= k < 16
      ensures t[32 + k] == cdb[k]
    {
      assert t[32..48][k] == t[32 + k];
    }
  }

  // Every builder's header serialises to the rows drawn for its PDU.

  lemma CommandTail(lun: u64, itt: u32, edtl: u32, cmdSn: u32, expStatSn: u32, cdb: Cdb)
    ensures var words := [U32At(cdb, 0), U32At(cdb, 4), U32At(cdb, 8), U32At(cdb, 12)];
      Replaced([Hi(lun), Lo(lun), itt, 0, 0, 0, 0, 0, 0, 0], 3, [edtl, cmdSn, expStatSn])[..6] + words
        == [Hi(lun), Lo(lun), itt, edtl, cmdSn, expStatSn, words[0], words[1], words[2], words[3]]
  {
  }

  lemma DataOutRows(lun: u64, itt: u32, ttt: u32, expStatSn: u32, dataSn: u32, bufferOffset: u32)
    ensures Replaced([Hi(lun), Lo(lun), itt, 0, 0, 0, 0, 0, 0, 0][3 := ttt][5 := expStatSn], 7, [dataSn, bufferOffset])
         == [Hi(lun), Lo(lun), itt, ttt, 0, expStatSn, 0, dataSn, bufferOffset, 0]
  {
  }

  /** Three rows after the tag. */
  lemma ShortTail(itt: u32, a: u32, b: u32, c: u32)
    ensures Replaced([0, 0, itt, 0, 0, 0, 0, 0, 0, 0], 3, [a, b, c]) == [0, 0, itt, a, b, c, 0, 0, 0, 0]
  {
  }

  lemma PongTail(itt: u32, a: u32, b: u32, c: u32, d: u32)
    ensures Replaced([0, 0, itt, 0, 0, 0, 0, 0, 0, 0], 3, [a, b, c, d]) == [0, 0, itt, a, b, c, d, 0, 0, 0]
  {
  }

  lemma ReadyTail(itt: u32, a: u32, b: u32, c: u32, d: u32, e: u32, f: u32, g: u32)
    ensures Replaced([0, 0, itt, 0, 0, 0, 0, 0, 0, 0], 3, [a, b, c, d, e, f, g]) == [0, 0, itt, a, b, c, d, e, f, g]
  {
  }

  lemma ResponseTail(itt: u32, statSn: u32, expCmdSn: u32, maxCmdSn: u32)
    ensures Replaced([0, 0, itt, 0, 0, 0, 0, 0, 0, 0][4 := statSn], 5, [expCmdSn, maxCmdSn])
         == [0, 0, itt, 0, statSn, expCmdSn, maxCmdSn, 0, 0, 0]
  {
  }

  method CommandRows(flags: byte, lun: u64, itt: u32, cmdSn: u32, expStatSn: u32, cdb: Cdb, edtl: u32) returns (bhs: Bhs)
    ensures fresh(bhs) && bhs.Valid() && fresh(bhs.raw) && bhs.raw[2] == 0 && bhs.raw[3] == 0
    ensures bhs.opcode == ScsiCommand && !bhs.immediate && bhs.flags == flags && bhs.dataSegmentLength == 0
    ensures bhs.Tail() == [Hi(lun), Lo(lun), itt, edtl, cmdSn, expStatSn,
                           U32At(cdb, 0), U32At(cdb, 4), U32At(cdb, 8), U32At(cdb, 12)]
  {
    bhs := new Bhs.Synced(ScsiCommand, false, flags, 0, lun, itt);
    bhs.SetRawRows(20, [edtl, cmdSn, expStatSn]);
    bhs.SetRawCdb(cdb);
    CommandTail(lun, itt, edtl, cmdSn, expStatSn, cdb);
  }

  method BuildScsiCommand(lun: u64, itt: u32, cmdSn: u32, expStatSn: u32, cdb: Cdb, edtl: u32, read: bool, write: bool)
    returns (bhs: Bhs)
    ensures fresh(bhs) && bhs.Valid() && fresh(bhs.raw)
    ensures Wire(bhs.Value()) == Layout(Rows(Command(lun, itt, cmdSn, expStatSn, cdb, edtl, read, write, 0)))
    ensures bhs.opcode == ScsiCommand && !bhs.immediate && bhs.raw[2] == 0 && bhs.raw[3] == 0
    ensures bhs.flags == 0x80 + FlagBit(read, 0x40) + FlagBit(write, 0x20) && bhs.dataSegmentLength == 0
    ensures bhs.Tail() == Rows(Command(lun, itt, cmdSn, expStatSn, cdb, edtl, read, write, 0))[2..]
  {
    bhs := CommandRows(0x80 + FlagBit(read, 0x40) + FlagBit(write, 0x20), lun, itt, cmdSn, expStatSn, cdb, edtl);
    BuiltAsRows(bhs.Value(), Rows(Command(lun, itt, cmdSn, expStatSn, cdb, edtl, read, write, 0)));
  }

  method BuildDataOut(lun: u64, itt: u32, ttt: u32, expStatSn: u32, dataSn: u32, bufferOffset: u32) returns (bhs: Bhs)
    ensures fresh(bhs) && bhs.Valid() && fresh(bhs.raw)
    ensures Wire(bhs.Value()) == Layout(Rows(DataOut(lun, itt, ttt, expStatSn, dataSn, bufferOffset, true, 0)))
    ensures bhs.opcode == ScsiDataOut && !bhs.immediate && bhs.raw[2] == 0 && bhs.raw[3] == 0
    ensures bhs.Tail() == Rows(DataOut(lun, itt, ttt, expStatSn, dataSn, bufferOffset, true, 0))[2..]
  {
    bhs := new Bhs.Synced(ScsiDataOut, false, 0x80, 0, lun, itt);
    bhs.SetRawU32(20, ttt);
    bhs.SetRawU32(28, expStatSn);
    bhs.SetRawRows(36, [dataSn, bufferOffset]);
    DataOutRows(lun, itt, ttt, expStatSn, dataSn, bufferOffset);
    BuiltAsRows(bhs.Value(), Rows(DataOut(lun, itt, ttt, expStatSn, dataSn, bufferOffset, true, 0)));
  }

  lemma LoginTail(isid: u32, isidTsih: u32, itt: u32, cid: u32, cmdSn: u32, expStatSn: u32)
    ensures Replaced(Replaced([0, 0, itt, 0, 0, 0, 0, 0, 0, 0], 0, [isid, isidTsih]), 3, [cid, cmdSn, expStatSn])
         == [isid, isidTsih, itt, cid, cmdSn, expStatSn, 0, 0, 0, 0]
  {
  }

  /** The final bit and the length are in the first two rows only. */
  lemma DataOutTail(lun: u64, itt: u32, ttt: u32, expStatSn: u32, dataSn: u32, bufferOffset: u32, final: bool, len: u32)
    ensures Rows(DataOut(lun, itt, ttt, expStatSn, dataSn, bufferOffset, final, len))[2..]
         == Rows(DataOut(lun, itt, ttt, expStatSn, dataSn, bufferOffset, true, 0))[2..]
  {
  }

  lemma DataOutBuilt(h: Header, lun: u64, itt: u32, ttt: u32, expStatSn: u32, dataSn: u32, bufferOffset: u32, final: bool)
    requires h.opcode == ScsiDataOut && !h.immediate && h.flags == FlagBit(final, 0x80) && h.raw[2] == 0 && h.raw[3] == 0
    requires WordsOf(h.raw)[2..] == Rows(DataOut(lun, itt, ttt, expStatSn, dataSn, bufferOffset, true, 0))[2..]
    ensures Wire(h) == Layout(Rows(DataOut(lun, itt, ttt, expStatSn, dataSn, bufferOffset, final, h.dataSegmentLength)))
  {
    DataOutTail(lun, itt, ttt, expStatSn, dataSn, bufferOffset, final, h.dataSegmentLength);
    BuiltAsRows(h, Rows(DataOut(lun, itt, ttt, expStatSn, dataSn, bufferOffset, final, h.dataSegmentLength)));
  }

  lemma CommandBuilt(h: Header, cdb: Cdb, lun: u64, itt: u32, cmdSn: u32, expStatSn: u32, edtl: u32, read: bool, write: bool)
    requires h.opcode == ScsiCommand && !h.immediate && h.raw[2] == 0 && h.raw[3] == 0
    requires h.flags == 0x80 + FlagBit(read, 0x40) + FlagBit(write, 0x20)
    requires WordsOf(h.raw)[2..] == Rows(Command(lun, itt, cmdSn, expStatSn, cdb, edtl, read, write, 0))[2..]
    ensures Wire(h)
      == Layout(Rows(Command(lun, itt, cmdSn, expStatSn, cdb, edtl, read, write, h.dataSegmentLength)))
  {
    CommandRowsSplit(lun, itt, cmdSn, expStatSn, cdb, edtl, read, write, 0);
    CommandRowsSplit(lun, itt, cmdSn, expStatSn, cdb, edtl, read, write, h.dataSegmentLength);
    BuiltAsRows(h, Rows(Command(lun, itt, cmdSn, expStatSn, cdb, edtl, read, write, h.dataSegmentLength)));
  }

  /** The length is in the second row only. */
  lemma CommandRowsSplit(lun: u64, itt: u32, cmdSn: u32, expStatSn: u32, cdb: Cdb, edtl: u32, read: bool, write: bool,
                         len: u32)
    ensures var w := Rows(Command(lun, itt, cmdSn, expStatSn, cdb, edtl, read, write, len));
      && w[0] == Row(Byte0(ScsiCommand, false), 0x80 + FlagBit(read, 0x40) + FlagBit(write, 0x20), 0, 0)
      && w[1] == Low24(len)
      && w[2..] == [Hi(lun), Lo(lun), itt, edtl, cmdSn, expStatSn,
                    U32At(cdb, 0), U32At(cdb, 4), U32At(cdb, 8), U32At(cdb, 12)]
  {
  }

  /** The session's and the connection's names take the place of the unit number and the row after the tag. */
  method LoginRows(flags: byte, itt: u32, isid: u32, isidTsih: u32, cid: u32, cmdSn: u32, expStatSn: u32)
    returns (bhs: Bhs)
    ensures fresh(bhs) && bhs.Valid() && fresh(bhs.raw) && bhs.raw[2] == 0 && bhs.raw[3] == 0
    ensures bhs.opcode == LoginRequest && bhs.immediate && bhs.flags == flags && bhs.dataSegmentLength == 0
    ensures bhs.Tail() == [isid, isidTsih, itt, cid, cmdSn, expStatSn, 0, 0, 0, 0]
  {
    bhs := new Bhs.Synced(LoginRequest, true, flags, 0, 0, itt);
    bhs.SetRawRows(8, [isid, isidTsih]);
    LoginTail(isid, isidTsih, itt, cid, cmdSn, expStatSn);
    bhs.SetRawRows(20, [cid, cmdSn, expStatSn]);
  }

  method BuildLoginRequest(isid: Isid, tsih: u16, cid: u16, itt: u32, cmdSn: u32, expStatSn: u32, csg: byte, nsg: byte,
                           transit: bool) returns (bhs: Bhs)
    ensures fresh(bhs) && bhs.Valid() && fresh(bhs.raw)
    ensures Wire(bhs.Value()) == Layout(Rows(Login(isid, tsih, cid, itt, cmdSn, expStatSn, csg, nsg, transit, 0)))
  {
    bhs := LoginRows(LoginFlags(csg, nsg, transit), itt, U32At(isid, 0), Halves(U16At(isid, 4), tsih), Halves(cid, 0),
                     cmdSn, expStatSn);
    BuiltAsRows(bhs.Value(), Rows(Login(isid, tsih, cid, itt, cmdSn, expStatSn, csg, nsg, transit, 0)));
  }

  method BuildNopOut(itt: u32, ttt: u32, cmdSn: u32, expStatSn: u32) returns (bhs: Bhs)
    ensures fresh(bhs) && bhs.Valid() && fresh(bhs.raw)
    ensures Wire(bhs.Value()) == Layout(Rows(Ping(itt, ttt, cmdSn, expStatSn)))
  {
    bhs := new Bhs.Synced(NopOut, true, 0x80, 0, 0, itt);
    bhs.SetRawRows(20, [ttt, cmdSn, expStatSn]);
    ShortTail(itt, ttt, cmdSn, expStatSn);
    BuiltAsRows(bhs.Value(), Rows(Ping(itt, ttt, cmdSn, expStatSn)));
  }

  method BuildLogoutRequest(itt: u32, cmdSn: u32, expStatSn: u32, cid: u16) returns (bhs: Bhs)
    ensures fresh(bhs) && bhs.Valid() && fresh(bhs.raw)
    ensures Wire(bhs.Value()) == Layout(Rows(Logout(itt, cmdSn, expStatSn, cid)))
  {
    bhs := new Bhs.Synced(LogoutRequest, true, 0x80, 0, 0, itt);
    bhs.SetRawRows(20, [Halves(cid, 0), cmdSn, expStatSn]);
    ShortTail(itt, Halves(cid, 0), cmdSn, expStatSn);
    BuiltAsRows(bhs.Value(), Rows(Logout(itt, cmdSn, expStatSn, cid)));
  }

  method BuildScsiResponse(itt: u32, scsiStatus: byte, statSn: u32, expCmdSn: u32, maxCmdSn: u32) returns (bhs: Bhs)
    ensures fresh(bhs) && bhs.Valid() && fresh(bhs.raw)
    ensures Wire(bhs.Value()) == Layout(Rows(Response(itt, scsiStatus, statSn, expCmdSn, maxCmdSn)))
  {
    bhs := new Bhs.Synced(ScsiResponse, false, 0x80, 0, 0, itt);
    bhs.SetStatus(scsiStatus, statSn);
    bhs.SetRawRows(28, [expCmdSn, maxCmdSn]);
    ResponseTail(itt, statSn, expCmdSn, maxCmdSn);
    BuiltAsRows(bhs.Value(), Rows(Response(itt, scsiStatus, statSn, expCmdSn, maxCmdSn)));
  }

  /** Only with the S bit does the header carry a status and its number. */
  method DataInStatus(itt: u32, dataLen: u32, statusFlag: bool, scsiStatus: byte, statSn: u32) returns (bhs: Bhs)
    ensures fresh(bhs) && bhs.Valid() && fresh(bhs.raw) && bhs.dataSegmentLength == dataLen
    ensures bhs.opcode == ScsiDataIn && !bhs.immediate && bhs.flags == 0x80 + FlagBit(statusFlag, 0x01)
    ensures bhs.raw[2] == 0 && bhs.raw[3] == (if statusFlag then scsiStatus else 0)
    ensures bhs.Tail() == [0, 0, itt, 0, if statusFlag then statSn else 0, 0, 0, 0, 0, 0]
  {
    bhs := new Bhs.Synced(ScsiDataIn, false, 0x80 + FlagBit(statusFlag, 0x01), dataLen, 0, itt);
    if statusFlag {
      bhs.SetStatus(scsiStatus, statSn);
    }
  }

  lemma DataInBuilt(h: Header, tail: seq<u32>, itt: u32, dataSn: u32, bufferOffset: u32, statusFlag: bool,
                    scsiStatus: byte, statSn: u32, expCmdSn: u32, maxCmdSn: u32)
    requires h.opcode == ScsiDataIn && !h.immediate && h.flags == 0x80 + FlagBit(statusFlag, 0x01)
    requires h.raw[2] == 0 && h.raw[3] == (if statusFlag then scsiStatus else 0)
    requires tail == [0, 0, itt, 0, if statusFlag then statSn else 0, 0, 0, 0, 0, 0]
    requires WordsOf(h.raw)[2..] == Replaced(tail, 5, [expCmdSn, maxCmdSn, dataSn, bufferOffset])
    ensures Wire(h) == Layout(Rows(DataIn(itt, dataSn, bufferOffset, h.dataSegmentLength, statusFlag, scsiStatus,
                                          statSn, expCmdSn, maxCmdSn)))
  {
    assert WordsOf(h.raw)[2..] == [0, 0, itt, 0, if statusFlag then statSn else 0,
                                   expCmdSn, maxCmdSn, dataSn, bufferOffset, 0];
    BuiltAsRows(h, Rows(DataIn(itt, dataSn, bufferOffset, h.dataSegmentLength, statusFlag, scsiStatus,
                               statSn, expCmdSn, maxCmdSn)));
  }

  method BuildDataIn(itt: u32, dataSn: u32, bufferOffset: u32, dataLen: u32, statusFlag: bool, scsiStatus: byte,
                     statSn: u32, expCmdSn: u32, maxCmdSn: u32) returns (bhs: Bhs)
    ensures fresh(bhs) && bhs.Valid() && fresh(bhs.raw)
    ensures Wire(bhs.Value()) == Layout(Rows(
      DataIn(itt, dataSn, bufferOffset, dataLen, statusFlag, scsiStatus, statSn, expCmdSn, maxCmdSn)))
  {
    bhs := DataInStatus(itt, dataLen, statusFlag, scsiStatus, statSn);
    ghost var tail := bhs.Tail();
    bhs.SetRawRows(28, [expCmdSn, maxCmdSn, dataSn, bufferOffset]);
    DataInBuilt(bhs.Value(), tail, itt, dataSn, bufferOffset, statusFlag, scsiStatus, statSn, expCmdSn, maxCmdSn);
  }

  method BuildNopIn(itt: u32, ttt: u32, statSn: u32, expCmdSn: u32, maxCmdSn: u32) returns (bhs: Bhs)
    ensures fresh(bhs) && bhs.Valid() && fresh(bhs.raw)
    ensures Wire(bhs.Value()) == Layout(Rows(Pong(itt, ttt, statSn, expCmdSn, maxCmdSn)))
  {
    bhs := new Bhs.Synced(NopIn, false, 0x80, 0, 0, itt);
    bhs.SetRawRows(20, [ttt, statSn, expCmdSn, maxCmdSn]);
    PongBuilt(bhs.Value(), itt, ttt, statSn, expCmdSn, maxCmdSn);
  }

  lemma PongBuilt(h: Header, itt: u32, ttt: u32, statSn: u32, expCmdSn: u32, maxCmdSn: u32)
    requires h.opcode == NopIn && !h.immediate && h.flags == 0x80 && h.dataSegmentLength == 0
    requires h.raw[2] == 0 && h.raw[3] == 0
    requires WordsOf(h.raw)[2..] == Replaced([0, 0, itt, 0, 0, 0, 0, 0, 0, 0], 3, [ttt, statSn, expCmdSn, maxCmdSn])
    ensures Wire(h) == Layout(Rows(Pong(itt, ttt, statSn, expCmdSn, maxCmdSn)))
  {
    PongTail(itt, ttt, statSn, expCmdSn, maxCmdSn);
    BuiltAsRows(h, Rows(Pong(itt, ttt, statSn, expCmdSn, maxCmdSn)));
  }

  method BuildR2t(itt: u32, ttt: u32, statSn: u32, expCmdSn: u32, maxCmdSn: u32, r2tSn: u32, bufferOffset: u32,
                  desiredLength: u32) returns (bhs: Bhs)
    ensures fresh(bhs) && bhs.Valid() && fresh(bhs.raw)
    ensures Wire(bhs.Value()) == Layout(Rows(
      Ready(itt, ttt, statSn, expCmdSn, maxCmdSn, r2tSn, bufferOffset, desiredLength)))
  {
    bhs := new Bhs.Synced(R2t, false, 0x80, 0, 0, itt);
    bhs.SetRawRows(20, [ttt, statSn, expCmdSn, maxCmdSn, r2tSn, bufferOffset, desiredLength]);
    ReadyBuilt(bhs.Value(), itt, ttt, statSn, expCmdSn, maxCmdSn, r2tSn, bufferOffset, desiredLength);
  }

  lemma ReadyBuilt(h: Header, itt: u32, ttt: u32, statSn: u32, expCmdSn: u32, maxCmdSn: u32, r2tSn: u32,
                   bufferOffset: u32, desired: u32)
    requires h.opcode == R2t && !h.immediate && h.flags == 0x80 && h.dataSegmentLength == 0
    requires h.raw[2] == 0 && h.raw[3] == 0
    requires WordsOf(h.raw)[2..] == Replaced([0, 0, itt, 0, 0, 0, 0, 0, 0, 0], 3,
      [ttt, statSn, expCmdSn, maxCmdSn, r2tSn, bufferOffset, desired])
    ensures Wire(h) == Layout(Rows(Ready(itt, ttt, statSn, expCmdSn, maxCmdSn, r2tSn, bufferOffset, desired)))
  {
    ReadyTail(itt, ttt, statSn, expCmdSn, maxCmdSn, r2tSn, bufferOffset, desired);
    BuiltAsRows(h, Rows(Ready(itt, ttt, statSn, expCmdSn, maxCmdSn, r2tSn, bufferOffset, desired)));
  }

  lemma ZeroRows(s: Wire48)
    requires forall i :: 0 <= i < 48 ==> s[i] == 0
    ensures WordsOf(s)[2..] == [0, 0, 0, 0, 0, 0, 0, 0, 0, 0]
  {
  }

  lemma FrontWritten(s: Wire48, t: Wire48)
    requires s[8..] == t[8..]
    ensures WordsOf(s)[2..] == WordsOf(t)[2..]
  {
    forall i | 8 <= i < 48
      ensures s[i] == t[i]
    {
      assert s[8..][i - 8] == t[8..][i - 8];
    }
  }
}
