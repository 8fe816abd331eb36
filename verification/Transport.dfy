/** PDUs on a byte stream: padding and optional CRC32C digests (iscsi/transport.rs). */
module Transport {
  import opened Bytes
  import opened Wrappers
  import opened Pdu
  import opened Streams

  /** The checksum comes from another crate; nothing is known of it but that it is a function of the bytes. */
  type Crc = seq<byte> -> u32

  datatype DigestConfig = DigestConfig(header: bool, data: bool)

  datatype RecvError = UnexpectedEof | HeaderMismatch | UnknownOpcode | DataMismatch

  type Reply = Received<Pdu, RecvError>

  /** The least multiple of four that is not below `len`. */
  function PadTo4(len: nat): (r: nat)
    ensures len <= r < len + 4 && r % 4 == 0
  {
    (len + 3) / 4 * 4
  }

  function Digest(crc: Crc, s: seq<byte>): (d: seq<byte>)
    ensures |d| == 4
  {
    Be32(crc(s))
  }

  // -- One PDU as bytes ------------------------------------------------------

  function HeaderDigest(crc: Crc, bhs: Wire48, ahs: Option<seq<byte>>): (d: seq<byte>)
    ensures |d| == 4
  {
    Digest(crc, bhs + if ahs.Some? then ahs.value else [])
  }

  function Padded(data: seq<byte>): (r: seq<byte>)
    ensures |r| == PadTo4(|data|) && r[..|data|] == data
  {
    data + Zeros(PadTo4(|data|) - |data|)
  }

  function DataPart(crc: Crc, digests: DigestConfig, data: Option<seq<byte>>): seq<byte> {
    match data
    case None => []
    case Some(x) => Padded(x) + if digests.data then Digest(crc, x) else []
  }

  /** The bytes of one PDU. */
  function Encode(crc: Crc, digests: DigestConfig, p: Pdu): seq<byte> {
    var b := Wire(p.bhs);
    b + (if digests.header then HeaderDigest(crc, b, p.ahs) else []) + DataPart(crc, digests, p.data)
  }

  // -- What is on the wire ---------------------------------------------------

  /** The data, zeros up to the next multiple of four bytes, and with data digests the checksum of the data. */
  ghost predicate DataOnWire(crc: Crc, digests: DigestConfig, data: Option<seq<byte>>, t: seq<byte>) {
    match data
    case None => t == []
    case Some(x) =>
      var end := |t| - if digests.data then 4 else 0;
      && |x| <= end < |x| + 4 && end % 4 == 0
      && t[..|x|] == x
      && (forall i :: |x| <= i < end ==> t[i] == 0)
      && (digests.data ==> FromBe32(t[end..]) == crc(x))
  }

  /** The header, with header digests the checksum of the header and the additional segments, then the data. */
  ghost predicate OnWire(crc: Crc, digests: DigestConfig, p: Pdu, s: seq<byte>) {
    var front := if digests.header then 52 else 48;
    && front <= |s|
    && s[..48] == Wire(p.bhs)
    && (digests.header ==> FromBe32(s[48..52]) == crc(s[..48] + if p.ahs.Some? then p.ahs.value else []))
    && DataOnWire(crc, digests, p.data, s[front..])
  }

  lemma DataPartOnWire(crc: Crc, digests: DigestConfig, data: Option<seq<byte>>)
    ensures DataOnWire(crc, digests, data, DataPart(crc, digests, data))
  {
    if data.Some? {
      var x, t := data.value, DataPart(crc, digests, data);
      assert t[..|x|] == Padded(x)[..|x|];
      assert forall i :: |x| <= i < |Padded(x)| ==> Padded(x)[i] == 0;
      if digests.data {
        assert t[|Padded(x)|..] == Digest(crc, x);
        Be32RoundTrip(crc(x));
      }
    }
  }

  lemma OnlyPadding(len: nat, end: nat)
    requires len <= end < len + 4 && end % 4 == 0
    ensures end == PadTo4(len)
  {
  }

  lemma DataPartIs(crc: Crc, digests: DigestConfig, data: Option<seq<byte>>, t: seq<byte>)
    requires DataOnWire(crc, digests, data, t)
    ensures t == DataPart(crc, digests, data)
  {
    if data.Some? {
      var x, end := data.value, |t| - if digests.data then 4 else 0;
      OnlyPadding(|x|, end);
      assert t[..end] == Padded(x);
      if digests.data {
        Be32Of(t[end..]);
        assert t == t[..end] + t[end..];
      }
    }
  }

  lemma HeaderDigestOnWire(crc: Crc, bhs: Wire48, ahs: Option<seq<byte>>, d: seq<byte>)
    requires |d| == 4
    ensures d == HeaderDigest(crc, bhs, ahs) <==> FromBe32(d) == crc(bhs + if ahs.Some? then ahs.value else [])
  {
    Be32Of(d);
    Be32RoundTrip(crc(bhs + if ahs.Some? then ahs.value else []));
  }

  /** The bytes of a PDU are these and no others. */
  lemma EncodedIff(crc: Crc, digests: DigestConfig, p: Pdu, s: seq<byte>)
    ensures s == Encode(crc, digests, p) <==> OnWire(crc, digests, p, s)
  {
    var b, part, front := Wire(p.bhs), DataPart(crc, digests, p.data), if digests.header then 52 else 48;
    EncodedParts(crc, digests, p);
    if s == Encode(crc, digests, p) {
      EncodedApart(crc, digests, p);
      HeaderDigestOnWire(crc, b, p.ahs, HeaderDigest(crc, b, p.ahs));
      DataPartOnWire(crc, digests, p.data);
    }
    if OnWire(crc, digests, p, s) {
      DataPartIs(crc, digests, p.data, s[front..]);
      assert s == s[..48] + s[48..];
      if digests.header {
        HeaderDigestOnWire(crc, b, p.ahs, s[48..52]);
        assert s[48..] == s[48..52] + s[52..];
      }
    }
  }

  lemma EncodedApart(crc: Crc, digests: DigestConfig, p: Pdu)
    ensures var s, front := Encode(crc, digests, p), if digests.header then 52 else 48;
      && front <= |s| && s[..48] == Wire(p.bhs) && s[front..] == DataPart(crc, digests, p.data)
      && (digests.header ==> s[48..52] == HeaderDigest(crc, Wire(p.bhs), p.ahs))
  {
    var b, part := Wire(p.bhs), DataPart(crc, digests, p.data);
    EncodedParts(crc, digests, p);
    if digests.header {
      var hd := HeaderDigest(crc, b, p.ahs);
      Parted(b, hd + part);
      Parted(hd, part);
      assert Encode(crc, digests, p)[48..][..4] == Encode(crc, digests, p)[48..52];
      assert Encode(crc, digests, p)[48..][4..] == Encode(crc, digests, p)[52..];
    } else {
      Parted(b, part);
    }
  }

  // -- One PDU out of a stream -----------------------------------------------

  function DecodeData(crc: Crc, digests: DigestConfig, h: Header, s: seq<byte>): Reply {
    var len := h.dataSegmentLength;
    if len == 0 then Ok(Pdu(h, None, None), s)
    else
      var padded := PadTo4(len);
      if |s| < padded then Err(UnexpectedEof)
      else
        var data, rest := s[..len], s[padded..];
        if !digests.data then Ok(Pdu(h, None, Some(data)), rest)
        else if |rest| < 4 then Err(UnexpectedEof)
        else if rest[..4] != Digest(crc, data) then Err(DataMismatch)
        else Ok(Pdu(h, None, Some(data)), rest[4..])
  }

  function DecodeHeader(crc: Crc, digests: DigestConfig, b: Wire48, s: seq<byte>): Reply {
    match Parse(b)
    case None => Err(UnknownOpcode)
    case Some(h) => DecodeData(crc, digests, h, s)
  }

  function Decode(crc: Crc, digests: DigestConfig, s: seq<byte>): Reply {
    if |s| < 48 then Err(UnexpectedEof)
    else
      var b, rest := s[..48], s[48..];
      if !digests.header then DecodeHeader(crc, digests, b, rest)
      else if |rest| < 4 then Err(UnexpectedEof)
      else if rest[..4] != HeaderDigest(crc, b, None) then Err(HeaderMismatch)
      else DecodeHeader(crc, digests, b, rest[4..])
  }

  // -- Round trip ------------------------------------------------------------

  /** The header announces what follows it: nothing, or the data, which is not empty. A PDU with additional
      segments passes a header digest only if the digest does not notice them. */
  predicate Framed(crc: Crc, digests: DigestConfig, p: Pdu) {
    var len, b := Low24(p.bhs.dataSegmentLength), Wire(p.bhs);
    && (match p.data case None => len == 0 case Some(x) => 0 < |x| == len)
    && (digests.header && p.ahs.Some? ==> crc(b + p.ahs.value) == crc(b))
  }

  /** Equal digests are those of equal checksums. */
  lemma DigestTells(crc: Crc, bhs: Wire48, ahs: Option<seq<byte>>)
    ensures HeaderDigest(crc, bhs, ahs) == HeaderDigest(crc, bhs, None)
       <==> (ahs.Some? ==> crc(bhs + ahs.value) == crc(bhs))
  {
    assert bhs + [] == bhs;
    if ahs.Some? {
      Be32RoundTrip(crc(bhs + ahs.value));
      Be32RoundTrip(crc(bhs));
    }
  }

  /** What the other end makes of a PDU: the header as parsed from its wire form, and the data. */
  function Arrived(p: Pdu): Pdu {
    WireParses(p.bhs);
    Pdu(Parse(Wire(p.bhs)).value, None, p.data)
  }

  lemma WireParses(h: Header)
    ensures var r := Parse(Wire(h));
      r.Some? && r.value.dataSegmentLength == Low24(h.dataSegmentLength)
  {
    var s := Wire(h);
    LowBits(h.opcode, h.immediate);
    LengthBytes(h.dataSegmentLength);
  }

  lemma DataRoundTripIff(crc: Crc, digests: DigestConfig, h: Header, data: Option<seq<byte>>, suffix: seq<byte>)
    ensures var r := DecodeData(crc, digests, h, DataPart(crc, digests, data) + suffix);
      var fits := match data case None => h.dataSegmentLength == 0 case Some(x) => 0 < |x| == h.dataSegmentLength;
      && (fits ==> r == Ok(Pdu(h, None, data), suffix))
      && (r.Ok? && r.item == Pdu(h, None, data) ==> fits)
  {
    var part := DataPart(crc, digests, data);
    var s := part + suffix;
    match data
    case None =>
      assert s == suffix;
    case Some(x) =>
      if 0 < |x| == h.dataSegmentLength {
        var p := PadTo4(|x|);
        assert s[..|x|] == Padded(x)[..|x|];
        if digests.data {
          assert s[p..][..4] == Digest(crc, x) && s[p..][4..] == suffix;
        } else {
          assert s[p..] == suffix;
        }
      }
  }

  /** What is sent arrives as it was, with whatever follows it left unread, exactly when it is framed;
      if it is not, nothing that could follow it helps. */
  lemma RoundTripIff(crc: Crc, digests: DigestConfig, p: Pdu, suffix: seq<byte>)
    ensures var r := Decode(crc, digests, Encode(crc, digests, p) + suffix);
      && (Framed(crc, digests, p) ==> r == Ok(Arrived(p), suffix))
      && (r.Ok? && r.item == Arrived(p) ==> Framed(crc, digests, p))
  {
    WireParses(p.bhs);
    DigestTells(crc, Wire(p.bhs), p.ahs);
    HeaderSkipped(crc, digests, p, suffix);
    DataRoundTripIff(crc, digests, Parse(Wire(p.bhs)).value, p.data, suffix);
  }

  /** Up to the data segment the reader finds the header that was sent, or stops at the digest. */
  lemma HeaderSkipped(crc: Crc, digests: DigestConfig, p: Pdu, suffix: seq<byte>)
    ensures var b := Wire(p.bhs);
      Decode(crc, digests, Encode(crc, digests, p) + suffix) ==
        if digests.header && HeaderDigest(crc, b, p.ahs) != HeaderDigest(crc, b, None) then Err(HeaderMismatch)
        else DecodeHeader(crc, digests, b, DataPart(crc, digests, p.data) + suffix)
  {
    var b, part := Wire(p.bhs), DataPart(crc, digests, p.data);
    var s := Encode(crc, digests, p) + suffix;
    var head := if digests.header then HeaderDigest(crc, b, p.ahs) else [];
    assert s == b + (head + (part + suffix));
    Parted(b, head + (part + suffix));
    Parted(head, part + suffix);
    assert [] + (part + suffix) == part + suffix;
  }

  // -- Broken streams --------------------------------------------------------

  /** A framed PDU with no additional segments as it goes on the wire, with other digests in place of its own. */
  function EncodeWith(digests: DigestConfig, p: Pdu, hd: seq<byte>, dd: seq<byte>): seq<byte> {
    Wire(p.bhs) + (if digests.header then hd else []) + DataWith(digests, p.data, dd)
  }

  function DataWith(digests: DigestConfig, data: Option<seq<byte>>, dd: seq<byte>): seq<byte> {
    match data
    case None => []
    case Some(x) => Padded(x) + if digests.data then dd else []
  }

  /** A PDU is refused for its header exactly when header digests are on and its digest is not the checksum of its
      header, and otherwise for its data exactly when data digests are on, it has data, and its digest is not
      the checksum of the data; only with right digests does it arrive. */
  lemma DigestsAreChecked(crc: Crc, digests: DigestConfig, p: Pdu, hd: seq<byte>, dd: seq<byte>, suffix: seq<byte>)
    requires Framed(crc, DigestConfig(false, false), p) && |hd| == 4 && |dd| == 4
    ensures Decode(crc, digests, EncodeWith(digests, p, hd, dd) + suffix) ==
      if digests.header && FromBe32(hd) != crc(Wire(p.bhs)) then Err(HeaderMismatch)
      else if digests.data && p.data.Some? && FromBe32(dd) != crc(p.data.value) then Err(DataMismatch)
      else Ok(Arrived(p), suffix)
  {
    WireParses(p.bhs);
    DigestIsChecksum(crc, Wire(p.bhs), hd);
    assert Wire(p.bhs) + [] == Wire(p.bhs);
    if p.data.Some? {
      DigestIsChecksum(crc, p.data.value, dd);
    }
    HeaderChecked(crc, digests, p, hd, dd, suffix);
    DataChecked(crc, digests, Parse(Wire(p.bhs)).value, p.data, dd, suffix);
  }

  lemma DigestIsChecksum(crc: Crc, s: seq<byte>, d: seq<byte>)
    requires |d| == 4
    ensures d == Digest(crc, s) <==> FromBe32(d) == crc(s)
  {
    Be32Of(d);
    Be32RoundTrip(crc(s));
  }

  /** Data altered on the way so that its checksum is another one never arrives. */
  lemma AlteredDataIsRefused(crc: Crc, digests: DigestConfig, p: Pdu, y: seq<byte>, suffix: seq<byte>)
    requires digests.data && p.data.Some? && Framed(crc, digests, p)
    requires |y| == |p.data.value| && crc(y) != crc(p.data.value)
    ensures var s, front := Encode(crc, digests, p), if digests.header then 52 else 48;
      front + |y| <= |s| && Decode(crc, digests, Splice(s, front, y) + suffix) == Err(DataMismatch)
  {
    var x, b, front := p.data.value, Wire(p.bhs), if digests.header then 52 else 48;
    var hd, dd, q := HeaderDigest(crc, b, p.ahs), Digest(crc, x), Pdu(p.bhs, None, Some(y));
    EncodedParts(crc, digests, p);
    DataReplaced(crc, digests, x, y);
    SpliceAfter(if digests.header then b + hd else b, DataPart(crc, digests, p.data), y);
    assert digests.header ==> b + (hd + DataPart(crc, digests, p.data)) == b + hd + DataPart(crc, digests, p.data);
    DigestTells(crc, b, p.ahs);
    DigestIsChecksum(crc, b, hd);
    assert b + [] == b;
    DigestIsChecksum(crc, x, dd);
    assert b + [] + DataWith(digests, Some(y), dd) == b + DataWith(digests, Some(y), dd);
    DigestsAreChecked(crc, digests, q, hd, dd, suffix);
  }

  lemma DataReplaced(crc: Crc, digests: DigestConfig, x: seq<byte>, y: seq<byte>)
    requires |x| == |y|
    ensures var part := DataPart(crc, digests, Some(x));
      |y| <= |part| && Splice(part, 0, y) == DataWith(digests, Some(y), Digest(crc, x))
  {
    var d := if digests.data then Digest(crc, x) else [];
    assert Padded(y) + d == y + (Zeros(PadTo4(|x|) - |x|) + d);
    assert (Padded(x) + d)[|x|..] == Zeros(PadTo4(|x|) - |x|) + d;
  }

  lemma SpliceAfter(a: seq<byte>, b: seq<byte>, d: seq<byte>)
    requires |d| <= |b|
    ensures Splice(a + b, |a|, d) == a + Splice(b, 0, d)
  {
  }

  /** A header altered on the way so that its checksum is another one never arrives. */
  lemma AlteredHeaderIsRefused(crc: Crc, digests: DigestConfig, p: Pdu, b: Wire48, suffix: seq<byte>)
    requires digests.header && Framed(crc, digests, p) && crc(b) != crc(Wire(p.bhs))
    ensures Decode(crc, digests, b + Encode(crc, digests, p)[48..] + suffix) == Err(HeaderMismatch)
  {
    var hd, part := HeaderDigest(crc, Wire(p.bhs), p.ahs), DataPart(crc, digests, p.data);
    DigestFirst(crc, digests, p);
    FramedChecksum(crc, digests, p);
    Regroup(hd, part, suffix);
    Regroup(b, hd + part, suffix);
    HeaderRefused(crc, digests, b, hd, part + suffix);
  }

  lemma DigestFirst(crc: Crc, digests: DigestConfig, p: Pdu)
    requires digests.header
    ensures Encode(crc, digests, p)[48..] == HeaderDigest(crc, Wire(p.bhs), p.ahs) + DataPart(crc, digests, p.data)
  {
    EncodedParts(crc, digests, p);
    Parted(Wire(p.bhs), HeaderDigest(crc, Wire(p.bhs), p.ahs) + DataPart(crc, digests, p.data));
  }

  lemma FramedChecksum(crc: Crc, digests: DigestConfig, p: Pdu)
    requires digests.header && Framed(crc, digests, p)
    ensures FromBe32(HeaderDigest(crc, Wire(p.bhs), p.ahs)) == crc(Wire(p.bhs))
  {
    HeaderDigestOnWire(crc, Wire(p.bhs), p.ahs, HeaderDigest(crc, Wire(p.bhs), p.ahs));
    assert Wire(p.bhs) + [] == Wire(p.bhs);
  }

  lemma HeaderRefused(crc: Crc, digests: DigestConfig, b: Wire48, hd: seq<byte>, rest: seq<byte>)
    requires digests.header && |hd| == 4 && FromBe32(hd) != crc(b)
    ensures Decode(crc, digests, b + (hd + rest)) == Err(HeaderMismatch)
  {
    Parted(b, hd + rest);
    Parted(hd, rest);
    DigestIsChecksum(crc, b, hd);
    assert b + [] == b;
  }

  lemma HeaderChecked(crc: Crc, digests: DigestConfig, p: Pdu, hd: seq<byte>, dd: seq<byte>, suffix: seq<byte>)
    requires |hd| == 4
    ensures Decode(crc, digests, EncodeWith(digests, p, hd, dd) + suffix) ==
      if digests.header && hd != HeaderDigest(crc, Wire(p.bhs), None) then Err(HeaderMismatch)
      else DecodeHeader(crc, digests, Wire(p.bhs), DataWith(digests, p.data, dd) + suffix)
  {
    var b, head, part := Wire(p.bhs), if digests.header then hd else [], DataWith(digests, p.data, dd);
    assert b + head + part + suffix == b + (head + (part + suffix));
    Parted(b, head + (part + suffix));
    Parted(head, part + suffix);
    assert [] + (part + suffix) == part + suffix;
  }

  lemma DataChecked(crc: Crc, digests: DigestConfig, h: Header, data: Option<seq<byte>>, dd: seq<byte>, suffix: seq<byte>)
    requires |dd| == 4 && match data case None => h.dataSegmentLength == 0 case Some(x) => 0 < |x| == h.dataSegmentLength
    ensures DecodeData(crc, digests, h, DataWith(digests, data, dd) + suffix) ==
      if digests.data && data.Some? && dd != Digest(crc, data.value) then Err(DataMismatch)
      else Ok(Pdu(h, None, data), suffix)
  {
    match data
    case None => assert [] + suffix == suffix;
    case Some(x) =>
      var s := (Padded(x) + if digests.data then dd else []) + suffix;
      var p := PadTo4(|x|);
      assert s[..|x|] == Padded(x)[..|x|];
      if digests.data {
        assert s[p..][..4] == dd && s[p..][4..] == suffix;
      } else {
        assert s[p..] == suffix;
      }
  }

  /** A header whose opcode is none of those known is refused, once its digest, if there is one, is right. */
  lemma UnknownIsRefused(crc: Crc, digests: DigestConfig, b: Wire48, hd: seq<byte>, rest: seq<byte>)
    requires TryFrom(b[0] % 0x40).None? && (digests.header ==> |hd| == 4 && FromBe32(hd) == crc(b))
    ensures Decode(crc, digests, b + (if digests.header then hd else []) + rest) == Err(UnknownOpcode)
  {
    if digests.header {
      DigestIsChecksum(crc, b, hd);
      assert b + [] == b && b + hd + rest == b + (hd + rest);
      Parted(b, hd + rest);
      Parted(hd, rest);
    } else {
      assert b + [] + rest == b + rest;
      Parted(b, rest);
    }
  }

  /** However a stream is cut inside a framed PDU, reading it comes to the end too early and nothing arrives. */
  lemma CutIsEof(crc: Crc, digests: DigestConfig, p: Pdu, n: nat)
    requires Framed(crc, digests, p) && n < |Encode(crc, digests, p)|
    ensures Decode(crc, digests, Encode(crc, digests, p)[..n]) == Err(UnexpectedEof)
  {
    WireParses(p.bhs);
    DigestTells(crc, Wire(p.bhs), p.ahs);
    var front := if digests.header then 52 else 48;
    if n >= front {
      EncodedParts(crc, digests, p);
      CutPastHeader(crc, digests, Wire(p.bhs), HeaderDigest(crc, Wire(p.bhs), p.ahs), DataPart(crc, digests, p.data),
                    n - front);
      CutData(crc, digests, Parse(Wire(p.bhs)).value, p.data, n - front);
    } else if n >= 48 {
      CutAfter(Wire(p.bhs), Encode(crc, digests, p)[48..], n);
    }
  }

  lemma EncodedParts(crc: Crc, digests: DigestConfig, p: Pdu)
    ensures var b, part := Wire(p.bhs), DataPart(crc, digests, p.data);
      Encode(crc, digests, p) == if digests.header then b + (HeaderDigest(crc, b, p.ahs) + part) else b + part
  {
    if digests.header {
      Regroup(Wire(p.bhs), HeaderDigest(crc, Wire(p.bhs), p.ahs), DataPart(crc, digests, p.data));
    }
  }

  lemma HeaderPassed(crc: Crc, digests: DigestConfig, b: Wire48, hd: seq<byte>, rest: seq<byte>)
    requires digests.header ==> hd == HeaderDigest(crc, b, None)
    ensures Decode(crc, digests, if digests.header then b + (hd + rest) else b + rest) == DecodeHeader(crc, digests, b, rest)
  {
    if digests.header {
      Parted(b, hd + rest);
      Parted(hd, rest);
    } else {
      Parted(b, rest);
    }
  }

  lemma CutPastHeader(crc: Crc, digests: DigestConfig, b: Wire48, hd: seq<byte>, part: seq<byte>, k: nat)
    requires |hd| == 4 && (digests.header ==> hd == HeaderDigest(crc, b, None)) && k <= |part|
    ensures var s, n := if digests.header then b + (hd + part) else b + part, k + if digests.header then 52 else 48;
      n <= |s| && Decode(crc, digests, s[..n]) == DecodeHeader(crc, digests, b, part[..k])
  {
    if digests.header {
      CutAfter(b, hd + part, k + 52);
      CutAfter(hd, part, k + 4);
    } else {
      CutAfter(b, part, k + 48);
    }
    HeaderPassed(crc, digests, b, hd, part[..k]);
  }

  /** What is cut after the first part begins with that part. */
  lemma CutAfter(a: seq<byte>, b: seq<byte>, n: nat)
    requires |a| <= n <= |a + b|
    ensures (a + b)[..n] == a + b[..n - |a|]
  {
  }

  lemma CutData(crc: Crc, digests: DigestConfig, h: Header, data: Option<seq<byte>>, n: nat)
    requires n < |DataPart(crc, digests, data)|
    requires match data case None => true case Some(x) => 0 < |x| == h.dataSegmentLength
    ensures DecodeData(crc, digests, h, DataPart(crc, digests, data)[..n]) == Err(UnexpectedEof)
  {
    var x := data.value;
    var part, p := DataPart(crc, digests, data), PadTo4(|x|);
    if n >= p {
      assert part[..n][..|x|] == Padded(x)[..|x|];
    }
  }

  function Encoder(crc: Crc, digests: DigestConfig): Pdu -> seq<byte> {
    p => Encode(crc, digests, p)
  }

  function Decoder(crc: Crc, digests: DigestConfig): seq<byte> -> Reply {
    s => Decode(crc, digests, s)
  }

  /** Any list of PDUs sent one after another arrives, PDU by PDU and with just their bytes consumed,
      whatever follows on the stream, exactly when each of them is framed. */
  lemma StreamRoundTripIff(crc: Crc, digests: DigestConfig, ps: seq<Pdu>, suffix: seq<byte>)
    ensures DecodeMany(Decoder(crc, digests), |ps|, EncodeAll(Encoder(crc, digests), ps) + suffix)
         == Some((Map(Arrived, ps), suffix))
       <==> forall i :: 0 <= i < |ps| ==> Framed(crc, digests, ps[i])
  {
    var fit := p => Framed(crc, digests, p);
    forall p: Pdu, rest: seq<byte>
      ensures var r := Decoder(crc, digests)(Encoder(crc, digests)(p) + rest);
        (fit(p) ==> r == Ok(Arrived(p), rest)) && (r.Ok? && r.item == Arrived(p) ==> fit(p))
    {
      RoundTripIff(crc, digests, p, rest);
    }
    ManyArriveIff(Encoder(crc, digests), Decoder(crc, digests), Arrived, fit, ps, suffix);
  }

  // -- The two ends ----------------------------------------------------------

  lemma AppendedOnWire(crc: Crc, digests: DigestConfig, p: Pdu, before: seq<byte>, after: seq<byte>)
    requires after == before + Encode(crc, digests, p)
    ensures OnWire(crc, digests, p, after[|before|..])
  {
    Parted(before, Encode(crc, digests, p));
    EncodedIff(crc, digests, p, Encode(crc, digests, p));
  }

  class TransportWriter {
    const crc: Crc
    const digests: DigestConfig
    /** All bytes written so far. */
    var written: seq<byte>

    constructor (crc: Crc, digests: DigestConfig)
      ensures this.crc == crc && this.digests == digests && written == []
    {
      this.crc, this.digests, written := crc, digests, [];
    }

    method SendPdu(pdu: Pdu)
      modifies this`written
      ensures written == old(written) + Encode(crc, digests, pdu)
      ensures OnWire(crc, digests, pdu, written[|old(written)|..])
    {
      var bhsBytes := Wire(pdu.bhs);
      written := written + bhsBytes;
      if digests.header {
        written := written + HeaderDigest(crc, bhsBytes, pdu.ahs);
      }
      if pdu.data.Some? {
        SendData(pdu.data.value);
      }
      AppendedOnWire(crc, digests, pdu, old(written), written);
    }

    method SendData(data: seq<byte>)
      modifies this`written
      ensures written == old(written) + DataPart(crc, digests, Some(data))
    {
      written := written + data;
      var padLen := PadTo4(|data|) - |data|;
      if padLen > 0 {
        written := written + Zeros(padLen);
      }
      if digests.data {
        written := written + Digest(crc, data);
      }
    }
  }

  class TransportReader {
    const crc: Crc
    const bhsBuf: array<byte>
    const digests: DigestConfig
    /** The bytes that have arrived and are not read yet. */
    var unread: seq<byte>

    predicate Valid() {
      bhsBuf.Length == 48
    }

    constructor (crc: Crc, digests: DigestConfig, stream: seq<byte>)
      ensures Valid() && fresh(bhsBuf)
      ensures this.crc == crc && this.digests == digests && unread == stream
    {
      this.crc, this.digests, unread := crc, digests, stream;
      bhsBuf := new byte[48](_ => 0);
    }

    method ReadExact(n: nat) returns (buf: Option<seq<byte>>)
      modifies this`unread
      ensures buf.Some? <==> n <= |old(unread)|
      ensures buf.Some? ==> |buf.value| == n && buf.value == old(unread)[..n] && unread == old(unread)[n..]
    {
      buf := None;
      if n <= |unread| {
        buf := Some(unread[..n]);
        unread := unread[n..];
      }
    }

    method ReadHeader() returns (ok: bool)
      requires Valid()
      modifies this`unread, bhsBuf
      ensures ok <==> 48 <= |old(unread)|
      ensures ok ==> bhsBuf[..] == old(unread)[..48] && unread == old(unread)[48..]
    {
      var buf := ReadExact(48);
      ok := buf.Some?;
      if ok {
        forall i | 0 <= i < 48 {
          bhsBuf[i] := buf.value[i];
        }
        assert bhsBuf[..] == buf.value;
      }
    }

    method RecvPdu() returns (r: Reply)
      requires Valid()
      modifies this`unread, bhsBuf
      ensures r == Decode(crc, digests, old(unread))
      ensures r.Ok? ==> unread == r.rest
    {
      var ok := ReadHeader();
      if !ok {
        return Err(UnexpectedEof);
      }
      if digests.header {
        var hd := ReadExact(4);
        if hd.None? {
          return Err(UnexpectedEof);
        }
        if hd.value != HeaderDigest(crc, bhsBuf[..], None) {
          return Err(HeaderMismatch);
        }
      }
      var bhs := Parse(bhsBuf[..]);
      if bhs.None? {
        return Err(UnknownOpcode);
      }
      r := ReadData(bhs.value);
    }

    method ReadData(bhs: Header) returns (r: Reply)
      modifies this`unread
      ensures r == DecodeData(crc, digests, bhs, old(unread))
      ensures r.Ok? ==> unread == r.rest
    {
      var rawLen := bhs.dataSegmentLength;
      if rawLen == 0 {
        return Ok(Pdu(bhs, None, None), unread);
      }
      var buf := ReadExact(PadTo4(rawLen));
      if buf.None? {
        return Err(UnexpectedEof);
      }
      var data := buf.value[..rawLen];
      assert data == old(unread)[..rawLen];
      if digests.data {
        var dd := ReadExact(4);
        if dd.None? {
          return Err(UnexpectedEof);
        }
        if dd.value != Digest(crc, data) {
          return Err(DataMismatch);
        }
      }
      r := Ok(Pdu(bhs, None, Some(data)), unread);
    }
  }
}
