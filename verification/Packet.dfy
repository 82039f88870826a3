/** PFCP packets: the header written around a message body, and the header read back. */
module Packet {
  import opened Prelude
  import Codec

  const PFCP_HEADER_LEN := 16
  const PFCP_SEID_LEN := 8
  const PFCP_VERSION := 1
  const PFCP_SESSION_ESTABLISHMENT_REQUEST := 50

  type u24 = x: int | 0 <= x < 0x100_0000

  /** The fields of a header that are read back from a packet. */
  datatype Header = Header(version: int, seidP: bool, msgType: octet, length: u16, seid: u64, transactionId: u24)

  /** Messages of sessions carry the session endpoint identifier. */
  predicate WithSeid(msgType: octet) {
    msgType >= PFCP_SESSION_ESTABLISHMENT_REQUEST
  }

  function HeaderLen(seidP: bool): nat {
    if seidP then PFCP_HEADER_LEN else PFCP_HEADER_LEN - PFCP_SEID_LEN
  }

  /** `n` in `k` octets in network byte order, cut to its low octets. */
  function Put(n: nat, k: nat): (b: octets)
    ensures |b| == k
  {
    if k == 0 then [] else Put(n / 256, k - 1) + [n % 256]
  }

  function Get(b: octets): nat {
    if b == [] then 0 else Get(b[..|b| - 1]) * 256 + b[|b| - 1]
  }

  function Power(k: nat): (p: nat)
    ensures p >= 1
  {
    if k == 0 then 1 else 256 * Power(k - 1)
  }

  lemma {:induction false} GetOfPut(n: nat, k: nat)
    requires n < Power(k)
    ensures Get(Put(n, k)) == n
  {
    if k > 0 {
      GetOfPut(n / 256, k - 1);
      assert Put(n, k)[..k - 1] == Put(n / 256, k - 1);
    }
  }

  /** Three octets hold the low 24 bits. */
  lemma PutThree(n: nat)
    ensures Put(n, 3) == [n / 256 / 256 % 256, n / 256 % 256, n % 256] == Put(n % 0x100_0000, 3)
  {
    hide Put;
    var h, m := n / 0x100_0000, n % 0x100_0000;
    PutOut(n);
    PutOut(m);
    assert n == 256 * (0x1_0000 * h + m / 256) + m % 256;
    assert n / 256 == 0x1_0000 * h + m / 256 && n % 256 == m % 256;
    assert n / 256 == 256 * (256 * h + m / 256 / 256) + m / 256 % 256;
    assert n / 256 / 256 == 256 * h + m / 256 / 256 && n / 256 % 256 == m / 256 % 256;
  }

  lemma PutOut(n: nat)
    ensures Put(n, 3) == [n / 256 / 256 % 256, n / 256 % 256, n % 256]
  {
    assert Put(n / 256 / 256, 1) == [n / 256 / 256 % 256];
    assert Put(n / 256, 2) == [n / 256 / 256 % 256, n / 256 % 256];
  }

  lemma {:induction false} GetBound(b: octets)
    ensures Get(b) < Power(|b|)
  {
    if b != [] {
      GetBound(b[..|b| - 1]);
    }
  }

  lemma Powers()
    ensures Power(3) == 0x100_0000 && Power(8) == 0x1_0000_0000_0000_0000
  {
    assert Power(1) == 256 && Power(2) == 0x1_0000;
    assert Power(4) == 0x1_0000_0000 && Power(5) == 0x100_0000_0000 && Power(6) == 0x1_0000_0000_0000;
    assert Power(7) == 0x100_0000_0000_0000;
  }

  /** `PfcpTransactionId2Sqn`: the identifier shifted left by eight bits, which drops its high octet. */
  function Sqn(transactionId: u32): octets {
    Put(transactionId, 3) + [0]
  }

  /** The packet that is stored for a message with the given body. */
  function MakePacket(msgType: octet, seid: u64, transactionId: u32, body: octets): (p: octets)
    ensures |p| == HeaderLen(WithSeid(msgType)) + |body|
  {
    var seidP := WithSeid(msgType);
    [PFCP_VERSION * 32 + if seidP then 1 else 0, msgType]
    + PutU16((|body| + HeaderLen(seidP) - 4) % 0x1_0000)
    + (if seidP then Put(seid, 8) else [])
    + Sqn(transactionId) + body
  }

  /** The start of `PfcpParseMessage`: the header, sized by its flag, and the body behind it. */
  function ParseHeader(p: octets): (r: Option<(Header, octets)>)
  {
    if p == [] || |p| < HeaderLen(p[0] % 2 == 1) then None else
      var seidP := p[0] % 2 == 1;
      var size := HeaderLen(seidP);
      GetBound(p[size - 4..size - 1]);
      Powers();
      var seid := if seidP then (GetBound(p[4..12]); Get(p[4..12])) else 0;
      Some((Header(p[0] / 32, seidP, p[1], GetU16(p[2..4]), seid, Get(p[size - 4..size - 1])), Cut(p[size..])))
  }

  /** The length of a body is kept in 16 bits. */
  function Cut(body: octets): octets {
    body[..|body| % 0x1_0000]
  }

  /** What is read back of a stored packet: everything but the high octet of the identifier and of the length. */
  lemma PacketRoundTrip(msgType: octet, seid: u64, transactionId: u32, body: octets)
    ensures var seidP := WithSeid(msgType);
      ParseHeader(MakePacket(msgType, seid, transactionId, body)) == Some((
        Header(PFCP_VERSION, seidP, msgType, (|body| + HeaderLen(seidP) - 4) % 0x1_0000,
               if seidP then seid else 0, transactionId % 0x100_0000), Cut(body)))
  {
    var p := MakePacket(msgType, seid, transactionId, body);
    var seidP := WithSeid(msgType);
    var size := HeaderLen(seidP);
    var length := (|body| + size - 4) % 0x1_0000;
    hide Put, Get, Power, Cut;
    Powers();
    GetOfPut(seid, 8);
    PutThree(transactionId);
    GetOfPut(transactionId % 0x100_0000, 3);
    assert p[0] / 32 == PFCP_VERSION && (p[0] % 2 == 1 <==> seidP);
    assert p[2..4] == PutU16(length);
    assert seidP ==> p[4..12] == Put(seid, 8);
    assert p[size - 4..size - 1] == Put(transactionId, 3);
    assert p[size..] == body;
  }

  /** The number of eight octets in network byte order. */
  lemma GetEight(b: octets)
    requires |b| == 8
    ensures Get(b) ==
      (b[0] as int) * 0x100_0000_0000_0000 + (b[1] as int) * 0x1_0000_0000_0000
      + (b[2] as int) * 0x100_0000_0000 + (b[3] as int) * 0x1_0000_0000 + (b[4] as int) * 0x100_0000
      + (b[5] as int) * 0x1_0000 + (b[6] as int) * 256 + b[7]
  {
    GetThree(b[..3]);
    assert b[..4][..3] == b[..3] && Get(b[..4]) == Get(b[..3]) * 256 + b[3];
    assert b[..5][..4] == b[..4] && Get(b[..5]) == Get(b[..4]) * 256 + b[4];
    assert b[..6][..5] == b[..5] && Get(b[..6]) == Get(b[..5]) * 256 + b[5];
    assert b[..7][..6] == b[..6] && Get(b[..7]) == Get(b[..6]) * 256 + b[6];
  }

  lemma GetThree(b: octets)
    requires |b| == 3
    ensures Get(b) == (b[0] as int) * 0x1_0000 + (b[1] as int) * 256 + b[2]
  {
    assert b[..1][..0] == [] && Get(b[..1]) == b[0];
    assert b[..2][..1] == b[..1] && Get(b[..2]) == Get(b[..1]) * 256 + b[1];
  }

  /**
   * The octets of a stored packet (section 7.2.2 of 3GPP TS 29.244): version and flag, message type, length
   * behind the first four octets, the session identifier from type 50 on, and the sequence number.
   */
  lemma PacketLayout(msgType: octet, seid: u64, transactionId: u32, body: octets)
    ensures var p := MakePacket(msgType, seid, transactionId, body);
      var size := if msgType < 50 then 8 else 16;
      && |p| == size + |body| && p[0] == (if msgType < 50 then 0x20 else 0x21) && p[1] == msgType
      && (p[2] as int) * 256 + p[3] == (size + |body| - 4) % 0x1_0000
      && (p[size - 4] as int) * 0x1_0000 + (p[size - 3] as int) * 256 + p[size - 2] == transactionId % 0x100_0000
      && p[size - 1] == 0 && p[size..] == body
  {
    hide Put;
    PutThree(transactionId);
  }

  lemma SeidLayout(msgType: octet, seid: u64, transactionId: u32, body: octets)
    requires msgType >= 50
    ensures var p := MakePacket(msgType, seid, transactionId, body);
      (p[4] as int) * 0x100_0000_0000_0000 + (p[5] as int) * 0x1_0000_0000_0000
      + (p[6] as int) * 0x100_0000_0000 + (p[7] as int) * 0x1_0000_0000 + (p[8] as int) * 0x100_0000
      + (p[9] as int) * 0x1_0000 + (p[10] as int) * 256 + p[11] == seid
  {
    var p := MakePacket(msgType, seid, transactionId, body);
    hide Get, Power;
    Powers();
    GetOfPut(seid, 8);
    assert p[4..12] == Put(seid, 8);
    GetEight(p[4..12]);
  }

  /** The fields of any received packet are the numbers at their places; a packet that lacks octets has none. */
  lemma HeaderFields(p: octets)
    ensures var r := ParseHeader(p);
      && (r == None <==> |p| < 8 || (p[0] % 2 == 1 && |p| < 16))
      && (r.Some? ==>
            var size := if p[0] % 2 == 1 then 16 else 8;
            && size <= |p|
            && r.value.0.version == p[0] / 32 && (r.value.0.seidP <==> size == 16) && r.value.0.msgType == p[1]
            && r.value.0.length == (p[2] as int) * 256 + p[3]
            && r.value.0.transactionId == (p[size - 4] as int) * 0x1_0000 + (p[size - 3] as int) * 256 + p[size - 2]
            && r.value.1 == p[size..][..(|p| - size) % 0x1_0000])
  {
    hide Get, Power;
    if ParseHeader(p).Some? {
      var size := HeaderLen(p[0] % 2 == 1);
      GetThree(p[size - 4..size - 1]);
    }
  }

  /** The identifier, the length and the body are read back exactly when they fit their fields. */
  lemma PacketExactIff(msgType: octet, seid: u64, transactionId: u32, body: octets)
    ensures var r := ParseHeader(MakePacket(msgType, seid, transactionId, body));
      && r.Some? && (r.value.0.transactionId == transactionId <==> transactionId < 0x100_0000)
      && (r.value.0.length == |body| + HeaderLen(WithSeid(msgType)) - 4 <==>
            |body| + HeaderLen(WithSeid(msgType)) - 4 < 0x1_0000)
      && (r.value.1 == body <==> |body| < 0x1_0000)
  {
    hide MakePacket, ParseHeader;
    PacketRoundTrip(msgType, seid, transactionId, body);
  }

  /** A message built from a message structure is read back as the same structure. */
  lemma MessageRoundTrip(msgType: octet, seid: u64, transactionId: u32, slots: seq<Codec.Ie>, vs: seq<Codec.Value>)
    requires Codec.Conforms(slots, vs) && Codec.Fits(slots, vs) && Codec.Packed(slots, vs)
    requires |Codec.BuildSlots(slots, vs)| < 0x1_0000
    ensures var body := Codec.BuildSlots(slots, vs);
      var r := ParseHeader(MakePacket(msgType, seid, transactionId, body));
      r.Some? && r.value.0.msgType == msgType && (WithSeid(msgType) ==> r.value.0.seid == seid)
      && Codec.ParseSlots(slots, r.value.1, |r.value.1|) == Some(Codec.Parsed(vs, |body|))
  {
    hide MakePacket, ParseHeader, Codec.BuildSlots, Codec.ParseSlots;
    var body := Codec.BuildSlots(slots, vs);
    PacketRoundTrip(msgType, seid, transactionId, body);
    Codec.RoundTrip(slots, vs, []);
    assert body + [] == body;
  }
}
