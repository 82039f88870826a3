/** Downlink packet buffering: framed packets in a growing buffer, drained into GTP-U datagrams. */
module PacketFifo {
  import opened Prelude
  import opened Pool
  import opened Buffers

  const MAX_SIZE_OF_PACKET := 1600
  const SEND_BUFFER_SIZE := 0x40
  const GTPV1_HEADER_LEN := 8
  const GTPV1_T_PDU := 255
  const APPLY_ACTION_BUFF := 4
  const APPLY_ACTION_NOCP := 8

  /** A packet, whose length fits 16 bits. */
  type packet = p: octets | |p| < 0x1_0000 witness []

  /** A 16-bit number in host order, low octet first. */
  function PutLength(n: u16): (b: octets)
    ensures |b| == 2 && b[0] + 256 * (b[1] as int) == n
  {
    [n % 256, n / 256]
  }

  function GetLength(b: octets): u16
    requires |b| >= 2
  {
    (b[0] as int) + 256 * (b[1] as int)
  }

  function Frame(p: packet): octets {
    PutLength(|p|) + p
  }

  function Frames(ps: seq<packet>): octets {
    if ps == [] then [] else Frame(ps[0]) + Frames(ps[1..])
  }

  lemma {:induction false} FramesAppend(ps: seq<packet>, p: packet)
    ensures Frames(ps + [p]) == Frames(ps) + Frame(p)
  {
    if ps == [] {
      assert [] + [p] == [p] && [p][1..] == [];
      assert Frames([p]) == Frame(p) + [];
    } else {
      hide Frame;
      FramesAppend(ps[1..], p);
      assert (ps + [p])[0] == ps[0] && (ps + [p])[1..] == ps[1..] + [p];
      Associate(Frame(ps[0]), Frames(ps[1..]), Frame(p));
    }
  }

  /** The first frame of a nonempty stretch, read back from its octets. */
  lemma FirstFrame(b: octets, at: nat, ps: seq<packet>)
    requires at <= |b| && b[at..] == Frames(ps) && ps != []
    ensures var n := |ps[0]|;
      && at + 2 + n <= |b| && GetLength(b[at..]) == n
      && b[at + 2..at + 2 + n] == ps[0] && b[at + 2 + n..] == Frames(ps[1..])
  {
    var n, rest := |ps[0]|, Frames(ps[1..]);
    assert b[at..] == Frame(ps[0]) + rest;
    assert Frame(ps[0])[2..] == ps[0];
    assert b[at..][..2] == PutLength(n);
    assert b[at..][2..2 + n] == ps[0];
    assert b[at..][2 + n..] == rest;
  }

  // ----- Datagrams -----------------------------------------------------------

  /** The GTP-U header for a packet of `n` octets, its numbers in network order. */
  function GtpHeader(teid: u32, n: u16): (h: octets)
    ensures |h| == GTPV1_HEADER_LEN
  {
    [0x30, GTPV1_T_PDU] + PutU16(n) + [teid / 256 / 256 / 256, teid / 256 / 256 % 256, teid / 256 % 256, teid % 256]
  }

  /**
   * The header read back (section 5.1 of 3GPP TS 29.281): version 1, a packet for the user, the number of
   * octets behind the header, and the tunnel, highest octet first.
   */
  lemma GtpHeaderReads(teid: u32, n: u16)
    ensures var h := GtpHeader(teid, n);
      && h[0] == 0x30 && h[1] == 255 && (h[2] as int) * 256 + h[3] == n
      && (h[4] as int) * 0x100_0000 + (h[5] as int) * 0x1_0000 + (h[6] as int) * 256 + h[7] == teid
  {
  }

  /** A datagram is a header for its packet followed by the packet. */
  lemma DatagramReads(teid: u32, p: packet)
    ensures var d := Datagram(teid, p);
      && |d| == 8 + |p| && d[8..] == p && d[0] == 0x30 && d[1] == 255 && (d[2] as int) * 256 + d[3] == |d| - 8
      && (d[4] as int) * 0x100_0000 + (d[5] as int) * 0x1_0000 + (d[6] as int) * 256 + d[7] == teid
  {
    GtpHeaderReads(teid, |p|);
    hide GtpHeader;
  }

  function Datagram(teid: u32, p: packet): octets {
    GtpHeader(teid, |p|) + p
  }

  function Datagrams(teid: u32, ps: seq<packet>): (ds: seq<octets>)
    ensures |ds| == |ps| && forall i :: 0 <= i < |ps| ==> ds[i] == Datagram(teid, ps[i])
  {
    if ps == [] then [] else [Datagram(teid, ps[0])] + Datagrams(teid, ps[1..])
  }

  /** Whether a send buffer of `size` that holds a header takes `n` octets more. */
  predicate Takes(pools: seq<PoolState>, size: int, n: nat)
    requires |pools| == CLASSES
  {
    GTPV1_HEADER_LEN + n <= size || HasRoom(pools, size + n)
  }

  /** The size of the send buffer after a packet of `n` octets. */
  function SizeAfter(pools: seq<PoolState>, size: int, n: nat): int
    requires |pools| == CLASSES
  {
    if GTPV1_HEADER_LEN + n <= size || !HasRoom(pools, size + n) then size else Nominal(SelectClass(size + n).value)
  }

  /** What goes out for one packet: a bare header if the send buffer cannot take the packet. */
  function SentFor(pools: seq<PoolState>, size: int, teid: u32, p: packet): octets
    requires |pools| == CLASSES
  {
    GtpHeader(teid, |p|) + if Takes(pools, size, |p|) then p else []
  }

  /** What is handed to the socket for the packets in turn. */
  function Sent(pools: seq<PoolState>, size: int, teid: u32, ps: seq<packet>): (ds: seq<octets>)
    requires |pools| == CLASSES
    ensures |ds| == |ps|
    decreases |ps|
  {
    if ps == [] then [] else
      [SentFor(pools, size, teid, ps[0])] + Sent(pools, SizeAfter(pools, size, |ps[0]|), teid, ps[1..])
  }

  /** The send buffer takes every packet. */
  predicate TakesAll(pools: seq<PoolState>, size: int, ps: seq<packet>)
    requires |pools| == CLASSES
    decreases |ps|
  {
    ps == [] || (Takes(pools, size, |ps[0]|) && TakesAll(pools, SizeAfter(pools, size, |ps[0]|), ps[1..]))
  }

  /** Every stored packet goes out whole exactly when the send buffer takes them all. */
  lemma {:induction false} WholeIffTakesAll(pools: seq<PoolState>, size: int, teid: u32, ps: seq<packet>)
    requires |pools| == CLASSES && size >= SEND_BUFFER_SIZE
    ensures Sent(pools, size, teid, ps) == Datagrams(teid, ps) <==> TakesAll(pools, size, ps)
    decreases |ps|
  {
    if ps != [] {
      var size' := SizeAfter(pools, size, |ps[0]|);
      WholeIffTakesAll(pools, size', teid, ps[1..]);
      var a, b := Sent(pools, size, teid, ps), Datagrams(teid, ps);
      assert a[1..] == Sent(pools, size', teid, ps[1..]) && b[1..] == Datagrams(teid, ps[1..]);
      hide Sent, Datagrams, GtpHeader, HasRoom;
      assert a == [a[0]] + a[1..] && b == [b[0]] + b[1..];
      assert GtpHeader(teid, |ps[0]|) + [] != Datagram(teid, ps[0]) || |ps[0]| == 0;
    }
  }

  /** Packets of the usual size all go out whole when the classes up to 4096 have a free block. */
  lemma {:induction false} UsualPacketsWhole(pools: seq<PoolState>, size: int, ps: seq<packet>)
    requires |pools| == CLASSES && SEND_BUFFER_SIZE <= size <= 4096
    requires forall c :: 0 < c <= 6 ==> pools[c].free != []
    requires forall p :: p in ps ==> |p| <= MAX_SIZE_OF_PACKET
    ensures TakesAll(pools, size, ps)
    decreases |ps|
  {
    if ps != [] {
      var n := |ps[0]|;
      assert ps[0] in ps;
      UsualStep(pools, size, n);
      UsualPacketsWhole(pools, SizeAfter(pools, size, n), ps[1..]);
    }
  }

  lemma UsualStep(pools: seq<PoolState>, size: int, n: nat)
    requires |pools| == CLASSES && SEND_BUFFER_SIZE <= size <= 4096 && n <= MAX_SIZE_OF_PACKET
    requires forall c :: 0 < c <= 6 ==> pools[c].free != []
    ensures Takes(pools, size, n) && SEND_BUFFER_SIZE <= SizeAfter(pools, size, n) <= 4096
  {
  }

  // ----- The buffering slot of a rule ---------------------------------------

  /** Whether a slot takes a packet, given its buffer if it has one. */
  predicate Accepts(pools: seq<PoolState>, blkPool: PoolState, blks: map<nat, Bufblk>, buffer: Option<nat>, n: nat)
    requires |pools| == CLASSES && (buffer.Some? ==> buffer.value in blks)
  {
    match buffer
    case Some(d) => CanHold(pools, blks[d], 2 + n)
    case None =>
      && blkPool.free != [] && HasRoom(pools, MAX_SIZE_OF_PACKET)
      && CanHold(AllocBlock(pools, 5), Bufblk(Some(NextBlock(pools, 5)), 2048, 0), 2 + n)
  }

  /**
   * A first packet is accepted exactly when a descriptor and a block of 2048 octets are free, and for a packet
   * that does not fit behind its length a block of the class for the enlarged size.
   */
  lemma AcceptsFirstIff(pools: seq<PoolState>, blkPool: PoolState, blks: map<nat, Bufblk>, n: nat)
    requires |pools| == CLASSES
    ensures Accepts(pools, blkPool, blks, None, n) <==> (
      && blkPool.free != [] && pools[5].free != []
      && (n <= 2046 || exists c: Class :: c > 5 && Nominal(c - 1) < 2050 + n <= Nominal(c) && pools[c].free != []))
    ensures n <= MAX_SIZE_OF_PACKET ==>
      (Accepts(pools, blkPool, blks, None, n) <==> blkPool.free != [] && pools[5].free != [])
  {
    FirstSize();
    if pools[5].free != [] {
      var blk := Bufblk(Some(NextBlock(pools, 5)), 2048, 0);
      CanHoldIff(AllocBlock(pools, 5), blk, 2 + n);
      assert forall c: Class :: 2050 + n <= Nominal(c) ==> c > 5;
    }
  }

  /** A further packet is accepted exactly when it fits or the class for the enlarged size has a free block. */
  lemma AcceptsNextIff(pools: seq<PoolState>, blkPool: PoolState, blks: map<nat, Bufblk>, d: nat, n: nat)
    requires |pools| == CLASSES && d in blks && blks[d].len <= blks[d].size && 64 <= blks[d].size
    ensures Accepts(pools, blkPool, blks, Some(d), n) <==> (
      || blks[d].len + 2 + n <= blks[d].size
      || exists c: Class :: c > 0 && Nominal(c - 1) < blks[d].size + 2 + n <= Nominal(c) && pools[c].free != [])
  {
    CanHoldIff(pools, blks[d], 2 + n);
  }

  lemma FirstSize()
    ensures AskedSize(1, MAX_SIZE_OF_PACKET) == MAX_SIZE_OF_PACKET && SelectClass(MAX_SIZE_OF_PACKET) == Some(5)
    ensures AskedSize(1, SEND_BUFFER_SIZE) == SEND_BUFFER_SIZE && SelectClass(SEND_BUFFER_SIZE) == Some(0)
    ensures Nominal(5) == 2048 && Nominal(0) == SEND_BUFFER_SIZE
  {
  }

  lemma PoolCount(bufs: BufferPools)
    requires bufs.Valid()
    ensures |bufs.pools| == CLASSES
  {
  }

  lemma KeptAlso(buffer: Option<nat>, blks: map<nat, Bufblk>, memory: map<Block, octets>,
                 blks1: map<nat, Bufblk>, memory1: map<Block, octets>, d: nat,
                 blks2: map<nat, Bufblk>, memory2: map<Block, octets>)
    requires OthersKept(buffer, blks, memory, blks1, memory1) && (buffer == Some(d) || d !in blks)
    requires OthersKept(Some(d), blks1, memory1, blks2, memory2)
    ensures OthersKept(buffer, blks, memory, blks2, memory2)
  {
    hide Text;
  }

  lemma KeptSame(buffer: Option<nat>, blks: map<nat, Bufblk>, memory: map<Block, octets>)
    ensures OthersKept(buffer, blks, memory, blks, memory)
  {
    hide Text;
  }

  lemma KeptInTurn(d: nat, blks: map<nat, Bufblk>, memory: map<Block, octets>, blks1: map<nat, Bufblk>,
                   memory1: map<Block, octets>, blks2: map<nat, Bufblk>, memory2: map<Block, octets>)
    requires OthersKept(Some(d), blks, memory, blks1, memory1) && OthersKept(Some(d), blks1, memory1, blks2, memory2)
    ensures OthersKept(Some(d), blks, memory, blks2, memory2)
  {
    hide Text;
  }

  /** A packet and its length, or its header, can be copied into any buffer that is granted. */
  lemma RoomForPacket(bufs: BufferPools, d: nat, n: u32)
    requires bufs.Valid() && d in bufs.blks && n <= 0x1_0000 + 2
    ensures Copyable(bufs.blks[d], n)
  {
    hide PoolsOk, Accounted, MemoryOk, OwnersOk, HeadersOk, Recorded, Copyable;
    bufs.At(d);
    CopyableMeans(bufs.blks[d], n);
  }

  lemma RoomThere(bufs: BufferPools, d: nat, n: nat)
    requires bufs.Valid() && d in bufs.blks && bufs.blks[d].len + n <= bufs.blks[d].size
    ensures n <= 65536 && Copyable(bufs.blks[d], n)
  {
    hide PoolsOk, Accounted, MemoryOk, OwnersOk, HeadersOk, Recorded;
    bufs.At(d);
  }

  /** Appends a frame to a buffer, or leaves everything as it was. */
  method AppendFrame(bufs: BufferPools, d: nat, pkt: packet) returns (ok: bool)
    requires bufs.Valid() && d in bufs.blks
    modifies bufs`pools, bufs`owner, bufs`memory, bufs`blks
    ensures bufs.Valid() && d in bufs.blks && |old(bufs.pools)| == CLASSES
    ensures ok <==> CanHold(old(bufs.pools), old(bufs.blks)[d], 2 + |pkt|)
    ensures !ok ==> unchanged(bufs)
    ensures ok ==> bufs.Contents(d) == old(bufs.Contents(d)) + Frame(pkt)
    ensures OthersKept(Some(d), old(bufs.blks), old(bufs.memory), bufs.blks, bufs.memory)
  {
    hide PoolsOk, Accounted, MemoryOk, OwnersOk, HeadersOk, Recorded, AllocBlock, Nominal, SelectClass, AskedSize;
    hide OthersKept, Text, BlocksKept, MoveBlock, HasRoom, BuffersKept, Copyable;
    PoolCount(bufs);
    KeptSame(Some(d), bufs.blks, bufs.memory);
    RoomForPacket(bufs, d, 2 + |pkt|);
    ghost var text := bufs.Contents(d);
    ghost var pools0, owner0, blks0, memory0 := bufs.pools, bufs.owner, bufs.blks, bufs.memory;
    var status := bufs.Reserve(d, 2 + |pkt|);
    if status != Ok {
      return false;
    }
    OthersUntouched(d, pools0, owner0, memory0, blks0, bufs.owner, bufs.memory, bufs.blks);
    ghost var blks1, memory1 := bufs.blks, bufs.memory;
    status := AppendBytes(bufs, d, PutLength(|pkt|));
    ghost var blks2, memory2 := bufs.blks, bufs.memory;
    KeptInTurn(d, old(bufs.blks), old(bufs.memory), blks1, memory1, blks2, memory2);
    status := AppendBytes(bufs, d, pkt);
    KeptInTurn(d, old(bufs.blks), old(bufs.memory), blks2, memory2, bufs.blks, bufs.memory);
    Associate(text, PutLength(|pkt|), pkt);
    ok := true;
  }

  /** `BufblkBytes` where there is room: the octets are appended in place. */
  method AppendBytes(bufs: BufferPools, d: nat, data: octets) returns (status: Status)
    requires bufs.Valid() && d in bufs.blks
    requires bufs.blks[d].len + |data| <= bufs.blks[d].size
    modifies bufs`pools, bufs`owner, bufs`memory, bufs`blks
    ensures bufs.Valid() && d in bufs.blks && status == Ok && bufs.pools == old(bufs.pools)
    ensures bufs.Contents(d) == old(bufs.Contents(d)) + data
    ensures bufs.blks[d] == old(bufs.blks)[d].(len := old(bufs.blks)[d].len + |data|)
    ensures OthersKept(Some(d), old(bufs.blks), old(bufs.memory), bufs.blks, bufs.memory)
  {
    hide PoolsOk, Accounted, MemoryOk, OwnersOk, HeadersOk, Recorded, AllocBlock, Nominal, SelectClass, AskedSize;
    hide OthersKept, Text, BlocksKept, MoveBlock, HasRoom, BuffersKept, Copyable;
    PoolCount(bufs);
    RoomThere(bufs, d, |data|);
    ghost var pools0, owner0, blks0, memory0 := bufs.pools, bufs.owner, bufs.blks, bufs.memory;
    status := bufs.BufblkBytes(d, data);
    OthersUntouched(d, pools0, owner0, memory0, blks0, bufs.owner, bufs.memory, bufs.blks);
  }

  lemma NoFrames(memory: map<Block, octets>, buf: Option<Block>, size: int)
    ensures Text(memory, Bufblk(buf, size, 0)) == Frames([])
  {
  }

  // ----- Draining ------------------------------------------------------------

  /** Above class `c` the same classes have a free block. */
  ghost predicate SameAbove(pools: seq<PoolState>, pools': seq<PoolState>, c: Class) {
    |pools| == CLASSES && |pools'| == CLASSES &&
    forall k: Class :: c < k ==> (pools'[k].free == [] <==> pools[k].free == [])
  }

  lemma NothingSent(pools: seq<PoolState>, size: int, teid: u32)
    requires |pools| == CLASSES
    ensures Sent(pools, size, teid, []) == []
  {
  }

  lemma SentCons(pools: seq<PoolState>, size: int, teid: u32, ps: seq<packet>)
    requires |pools| == CLASSES && ps != []
    ensures Sent(pools, size, teid, ps) ==
      [SentFor(pools, size, teid, ps[0])] + Sent(pools, SizeAfter(pools, size, |ps[0]|), teid, ps[1..])
  {
    hide GtpHeader, Takes, SizeAfter;
  }

  /** Room above the class of a send buffer is what it was before the buffer was taken. */
  lemma SameRoom(pools: seq<PoolState>, pools': seq<PoolState>, c: Class, n: nat)
    requires SameAbove(pools, pools', c) && Nominal(c) < n
    ensures HasRoom(pools', n) <==> HasRoom(pools, n)
    ensures HasRoom(pools, n) ==> SelectClass(n).value > c
  {
    if n <= 65536 {
      ClassRises(c, n);
    }
  }

  lemma MoveKeepsAbove(pools: seq<PoolState>, pools': seq<PoolState>, c: Class, pos: nat, next: Class)
    requires SameAbove(pools, pools', c) && c < next
    ensures SameAbove(pools, MoveBlock(pools', Block(c, pos), next), next)
  {
    hide Capacity;
  }

  lemma TakeKeepsAbove(pools: seq<PoolState>, c: Class)
    requires |pools| == CLASSES
    ensures SameAbove(pools, AllocBlock(pools, c), c)
  {
    hide Capacity;
  }

  /** The send buffer `s`: its class, and what it can still grow to. */
  ghost predicate SendBuffer(bufs: BufferPools, s: nat, pools: seq<PoolState>)
    reads bufs
  {
    && bufs.Valid() && s in bufs.blks && bufs.blks[s].buf.Some?
    && bufs.blks[s].size == Nominal(bufs.blks[s].buf.value.cls)
    && SameAbove(pools, bufs.pools, bufs.blks[s].buf.value.cls)
  }

  lemma SizeNamesClass(c: Class, d: Class)
    requires Nominal(c) == Nominal(d)
    ensures c == d
  {
  }

  /** The send buffer after a packet was appended behind its header. */
  lemma AfterAppend(pools: seq<PoolState>, pools1: seq<PoolState>, blk1: Bufblk, n: nat, pools2: seq<PoolState>,
                    blk2: Bufblk)
    requires blk1.buf.Some? && blk1.size == Nominal(blk1.buf.value.cls) && blk1.len == GTPV1_HEADER_LEN
    requires blk2.buf.Some? && blk2.size == Nominal(blk2.buf.value.cls)
    requires SameAbove(pools, pools1, blk1.buf.value.cls) && AppendedIn(pools1, blk1, n, pools2, blk2)
    ensures SameAbove(pools, pools2, blk2.buf.value.cls)
    ensures Takes(pools, blk1.size, n) && blk2.size == SizeAfter(pools, blk1.size, n)
  {
    hide SameAbove, MoveBlock, Nominal, SelectClass, HasRoom;
    var b := blk1.buf.value;
    AboveCount(pools, pools1, b.cls);
    if blk1.len + n > blk1.size {
      SameRoom(pools, pools1, b.cls, blk1.size + n);
      assert HasRoom(pools, blk1.size + n);
      RoomNeedsClass(pools, blk1.size + n);
      MoveKeepsAbove(pools, pools1, b.cls, b.pos, SelectClass(blk1.size + n).value);
      SizeNamesClass(SelectClass(blk1.size + n).value, blk2.buf.value.cls);
    }
  }

  lemma AboveCount(pools: seq<PoolState>, pools': seq<PoolState>, c: Class)
    requires SameAbove(pools, pools', c)
    ensures |pools| == |pools'| == CLASSES
  {
  }

  lemma RoomNeedsClass(pools: seq<PoolState>, n: int)
    requires |pools| == CLASSES && HasRoom(pools, n)
    ensures SelectClass(n).Some?
  {
  }

  /** A packet that the send buffer cannot take leaves it as it was. */
  lemma NotTaken(pools: seq<PoolState>, pools1: seq<PoolState>, blk1: Bufblk, n: nat)
    requires blk1.buf.Some? && blk1.size == Nominal(blk1.buf.value.cls) && blk1.len == GTPV1_HEADER_LEN
    requires SameAbove(pools, pools1, blk1.buf.value.cls) && !CanHold(pools1, blk1, n)
    ensures !Takes(pools, blk1.size, n) && SizeAfter(pools, blk1.size, n) == blk1.size
  {
    hide SameAbove, Nominal, SelectClass, HasRoom;
    AboveCount(pools, pools1, blk1.buf.value.cls);
    SameRoom(pools, pools1, blk1.buf.value.cls, blk1.size + n);
  }

  /** The socket, as the record of what was handed to it. */
  class Sock {
    var sent: seq<octets>

    constructor ()
      ensures sent == []
    {
      sent := [];
    }

    method UdpSendTo(data: octets)
      modifies this
      ensures sent == old(sent) + [data]
    {
      sent := sent + [data];
    }
  }

  /** Builds one datagram in the send buffer, hands it to the socket, and clears the buffer. */
  method SendOne(bufs: BufferPools, sock: Sock, s: nat, teid: u32, pkt: packet, ghost pools: seq<PoolState>)
    requires |pools| == CLASSES && SendBuffer(bufs, s, pools) && bufs.blks[s].len == 0
    modifies bufs`pools, bufs`owner, bufs`memory, bufs`blks, sock
    ensures SendBuffer(bufs, s, pools) && bufs.blks[s].len == 0
    ensures bufs.blks[s].size == SizeAfter(pools, old(bufs.blks)[s].size, |pkt|)
    ensures sock.sent == old(sock.sent) + [SentFor(pools, old(bufs.blks)[s].size, teid, pkt)]
    ensures OthersKept(Some(s), old(bufs.blks), old(bufs.memory), bufs.blks, bufs.memory)
  {
    hide PoolsOk, Accounted, MemoryOk, OwnersOk, HeadersOk, Recorded, AllocBlock, Nominal, SelectClass, AskedSize;
    hide OthersKept, BlocksKept, MoveBlock, HasRoom, BuffersKept, SameAbove, GtpHeader, Takes, SizeAfter, CanHold;
    hide AppendedIn, Copyable;
    PoolCount(bufs);
    bufs.LengthOf(s);
    ghost var text0 := bufs.Contents(s);
    var status := AppendBytes(bufs, s, GtpHeader(teid, |pkt|));
    ghost var pools1, owner1, blks1, memory1 := bufs.pools, bufs.owner, bufs.blks, bufs.memory;
    SameBuffers(s, blks1);
    RoomForPacket(bufs, s, |pkt|);
    status := bufs.BufblkBytes(s, pkt);
    OthersUntouched(s, pools1, owner1, memory1, blks1, bufs.owner, bufs.memory, bufs.blks);
    KeptInTurn(s, old(bufs.blks), old(bufs.memory), blks1, memory1, bufs.blks, bufs.memory);
    bufs.At(s);
    bufs.LengthOf(s);
    if status == Ok {
      AfterAppend(pools, pools1, blks1[s], |pkt|, bufs.pools, bufs.blks[s]);
    } else {
      NotTaken(pools, pools1, blks1[s], |pkt|);
    }
    assert text0 == [];
    var datagram := bufs.memory[bufs.blks[s].buf.value][..bufs.blks[s].len];
    assert datagram == SentFor(pools, blks1[s].size, teid, pkt);
    sock.UdpSendTo(datagram);
    ghost var blks2, memory2 := bufs.blks, bufs.memory;
    ClearBuffer(bufs, s);
    KeptInTurn(s, old(bufs.blks), old(bufs.memory), blks2, memory2, bufs.blks, bufs.memory);
  }

  /** `BufblkClear`, seen from the other buffers. */
  method ClearBuffer(bufs: BufferPools, s: nat)
    requires bufs.Valid() && s in bufs.blks
    modifies bufs`memory, bufs`blks
    ensures bufs.Valid() && s in bufs.blks && bufs.blks[s] == old(bufs.blks)[s].(len := 0)
    ensures OthersKept(Some(s), old(bufs.blks), old(bufs.memory), bufs.blks, bufs.memory)
  {
    hide PoolsOk, Accounted, MemoryOk, OwnersOk, HeadersOk, Recorded, BlocksKept, OthersKept, Text;
    ghost var pools0, owner0, blks0, memory0 := bufs.pools, bufs.owner, bufs.blks, bufs.memory;
    var status := bufs.BufblkClear(s);
    OthersUntouched(s, pools0, owner0, memory0, blks0, bufs.owner, bufs.memory, bufs.blks);
  }

  lemma KeptWithout(d: nat, blks: map<nat, Bufblk>, memory: map<Block, octets>,
                    blks1: map<nat, Bufblk>, memory1: map<Block, octets>)
    requires OthersKept(Some(d), blks, memory, blks1, memory1)
    ensures OthersKept(Some(d), blks, memory, blks1 - {d}, memory1)
  {
    hide Text;
  }

  /** A buffer that was not there before may come and go. */
  lemma KeptAround(s: nat, blks: map<nat, Bufblk>, memory: map<Block, octets>, blk: Bufblk,
                   blks1: map<nat, Bufblk>, memory1: map<Block, octets>)
    requires s !in blks && OthersKept(Some(s), blks[s := blk], memory, blks1, memory1)
    ensures OthersKept(None, blks, memory, blks1 - {s}, memory1)
  {
    hide Text;
  }

  lemma KeptFor(d: nat, blks: map<nat, Bufblk>, memory: map<Block, octets>,
                blks1: map<nat, Bufblk>, memory1: map<Block, octets>)
    requires OthersKept(None, blks, memory, blks1, memory1)
    ensures OthersKept(Some(d), blks, memory, blks1, memory1)
    ensures d in blks ==> d in blks1 && blks1[d] == blks[d] && Text(memory1, blks[d]) == Text(memory, blks[d])
  {
    hide Text;
  }

  lemma KeptOne(s: nat, d: nat, blks: map<nat, Bufblk>, memory: map<Block, octets>,
                blks1: map<nat, Bufblk>, memory1: map<Block, octets>)
    requires OthersKept(Some(s), blks, memory, blks1, memory1) && d in blks && d != s
    ensures d in blks1 && blks1[d] == blks[d] && Text(memory1, blks[d]) == Text(memory, blks[d])
  {
    hide Text;
  }

  /** Whether the send buffer can be had. */
  predicate CanSend(pools: seq<PoolState>, blkPool: PoolState)
    requires |pools| == CLASSES
  {
    blkPool.free != [] && HasRoom(pools, SEND_BUFFER_SIZE)
  }

  /** The send buffer takes a descriptor and a block of 64 octets. */
  lemma CanSendIff(pools: seq<PoolState>, blkPool: PoolState)
    requires |pools| == CLASSES
    ensures CanSend(pools, blkPool) <==> blkPool.free != [] && pools[0].free != []
  {
  }

  /** The send buffer takes a packet exactly when there is space or the class for the enlarged size has a block. */
  lemma TakesIff(pools: seq<PoolState>, size: int, n: nat)
    requires |pools| == CLASSES && size >= SEND_BUFFER_SIZE
    ensures Takes(pools, size, n) <==> (
      || 8 + n <= size
      || exists c: Class :: c > 0 && Nominal(c - 1) < size + n <= Nominal(c) && pools[c].free != [])
  {
    CanHoldIff(pools, Bufblk(None, size, 8), n);
  }

  /** Takes the send buffer, if it can be had. */
  method TakeSendBuffer(bufs: BufferPools) returns (s: Option<nat>)
    requires bufs.Valid()
    modifies bufs`pools, bufs`owner, bufs`blkPool, bufs`blks
    ensures bufs.Valid() && |old(bufs.pools)| == CLASSES
    ensures s.Some? <==> CanSend(old(bufs.pools), old(bufs.blkPool))
    ensures s.None? ==> bufs.blks == old(bufs.blks)
    ensures s.Some? ==> SendBuffer(bufs, s.value, old(bufs.pools))
    ensures s.Some? ==> bufs.blks[s.value].size == SEND_BUFFER_SIZE && bufs.blks[s.value].len == 0
    ensures s.Some? ==> s.value !in old(bufs.blks) && bufs.blks == old(bufs.blks)[s.value := bufs.blks[s.value]]
  {
    hide PoolsOk, Accounted, MemoryOk, OwnersOk, HeadersOk, Recorded, AllocBlock, Nominal, SelectClass, AskedSize;
    hide SameAbove;
    PoolCount(bufs);
    FirstSize();
    TakeKeepsAbove(bufs.pools, 0);
    s := bufs.BufblkAlloc(1, SEND_BUFFER_SIZE);
  }

  /**
   * The loop over the frames of a packet buffer; `ps` are the packets framed in it.  Without a send
   * buffer the program writes through a null pointer.
   */
  method SendAll(bufs: BufferPools, sock: Sock, d: nat, teid: u32, ghost ps: seq<packet>) returns (faulted: bool)
    requires bufs.Valid() && d in bufs.blks && bufs.Contents(d) == Frames(ps)
    modifies bufs, sock
    ensures bufs.Valid() && |old(bufs.pools)| == CLASSES
    ensures faulted <==> !CanSend(old(bufs.pools), old(bufs.blkPool))
    ensures faulted ==> sock.sent == old(sock.sent)
    ensures !faulted ==> sock.sent == old(sock.sent) + Sent(old(bufs.pools), SEND_BUFFER_SIZE, teid, ps)
    ensures OthersKept(None, old(bufs.blks), old(bufs.memory), bufs.blks, bufs.memory)
  {
    hide PoolsOk, Accounted, MemoryOk, OwnersOk, HeadersOk, Recorded, Nominal, AskedSize, SameAbove, OthersKept, Text;
    hide Sent, SentFor, SizeAfter, Frames, GetLength, SendBuffer, HasRoom, CanSend;
    ghost var pools0, sent0 := bufs.pools, sock.sent;
    PoolCount(bufs);
    bufs.LengthOf(d);
    KeptSame(None, bufs.blks, bufs.memory);
    var taken := TakeSendBuffer(bufs);
    if taken.None? {
      return true;
    }
    faulted := false;
    var s := taken.value;
    ghost var blks1, memory1, text := bufs.blks, bufs.memory, bufs.Contents(d);
    KeptSame(Some(s), blks1, memory1);
    Sendable(bufs, s, pools0);
    var pktBuf := bufs.blks[d];
    var pos := 0;
    ghost var i := 0;
    assert ps[0..] == ps && text[0..] == text;
    while pos < pktBuf.len
      invariant SendBuffer(bufs, s, pools0) && bufs.Valid() && s in bufs.blks && bufs.blks[s].len == 0
      invariant d in bufs.blks && bufs.blks[d] == pktBuf && bufs.Contents(d) == text && |text| == pktBuf.len
      invariant i <= |ps| && pos <= |text| && text[pos..] == Frames(ps[i..])
      invariant sock.sent + Sent(pools0, bufs.blks[s].size, teid, ps[i..])
             == sent0 + Sent(pools0, SEND_BUFFER_SIZE, teid, ps)
      invariant OthersKept(Some(s), blks1, memory1, bufs.blks, bufs.memory)
      decreases pktBuf.len - pos
    {
      ghost var size, sent, blks2, memory2 := bufs.blks[s].size, sock.sent, bufs.blks, bufs.memory;
      FramesLeft(ps, i);
      FirstFrame(text, pos, ps[i..]);
      SentCons(pools0, size, teid, ps[i..]);
      bufs.LengthOf(d);
      var data := bufs.memory[pktBuf.buf.value][..pktBuf.len];
      var pktlen := GetLength(data[pos..]);
      pos := pos + 2;
      SendOne(bufs, sock, s, teid, data[pos..pos + pktlen], pools0);
      KeptInTurn(s, blks1, memory1, blks2, memory2, bufs.blks, bufs.memory);
      KeptOne(s, d, blks1, memory1, bufs.blks, bufs.memory);
      Sendable(bufs, s, pools0);
      Associate(sent, [SentFor(pools0, size, teid, ps[i])], Sent(pools0, bufs.blks[s].size, teid, ps[i..][1..]));
      pos := pos + pktlen;
      i := i + 1;
    }
    FramesDone(ps, i, text, pos);
    NothingSent(pools0, bufs.blks[s].size, teid);
    KeptAround(s, old(bufs.blks), old(bufs.memory), blks1[s], bufs.blks, bufs.memory);
    var status := bufs.BufblkFree(s);
  }

  lemma Sendable(bufs: BufferPools, s: nat, pools: seq<PoolState>)
    requires SendBuffer(bufs, s, pools)
    ensures bufs.Valid() && s in bufs.blks
  {
  }

  /** Octets left over are the frames of packets left over. */
  lemma FramesLeft(ps: seq<packet>, i: nat)
    requires i <= |ps|
    ensures Frames(ps[i..]) != [] ==> i < |ps| && ps[i..][1..] == ps[i + 1..]
  {
  }

  lemma FramesDone(ps: seq<packet>, i: nat, text: octets, pos: nat)
    requires i <= |ps| && pos == |text| && text[pos..] == Frames(ps[i..])
    ensures i == |ps| && ps[i..] == []
  {
    FramesShow(ps[i..]);
  }

  /** No packet is framed into nothing. */
  lemma FramesShow(ps: seq<packet>)
    ensures Frames(ps) == [] <==> ps == []
  {
    assert ps != [] ==> |Frame(ps[0])| >= 2;
  }

  // ----- What reached the socket ---------------------------------------------

  function Times<T>(x: T, n: nat): (s: seq<T>)
    ensures |s| == n && forall i :: 0 <= i < n ==> s[i] == x
  {
    seq(n, _ => x)
  }

  /** Datagram `i` is the header for packet `i` under its tunnel, followed by the packet or by nothing. */
  ghost predicate Delivered(log: seq<octets>, teids: seq<u32>, ps: seq<packet>) {
    && |log| == |teids| == |ps|
    && forall i :: 0 <= i < |ps| ==>
      log[i] == Datagram(teids[i], ps[i]) || log[i] == GtpHeader(teids[i], |ps[i]|)
  }

  /** Datagram `i` is packet `i`, whole, behind its header. */
  ghost predicate DeliveredWhole(log: seq<octets>, teids: seq<u32>, ps: seq<packet>) {
    |log| == |teids| == |ps| && forall i :: 0 <= i < |ps| ==> log[i] == Datagram(teids[i], ps[i])
  }

  /** A delivered packet reached the socket behind its header, or as a bare header. */
  lemma DeliveredAt(log: seq<octets>, teids: seq<u32>, ps: seq<packet>, i: nat)
    requires Delivered(log, teids, ps)
    ensures |log| == |teids| == |ps|
    ensures i < |ps| ==> log[i] == GtpHeader(teids[i], |ps[i]|) + ps[i] || log[i] == GtpHeader(teids[i], |ps[i]|)
    ensures i < |ps| && DeliveredWhole(log, teids, ps) ==> log[i] == GtpHeader(teids[i], |ps[i]|) + ps[i]
  {
    hide GtpHeader;
  }

  lemma {:induction false} SentAt(pools: seq<PoolState>, size: int, teid: u32, ps: seq<packet>, i: nat)
    requires |pools| == CLASSES && i < |ps|
    ensures Sent(pools, size, teid, ps)[i] in {Datagram(teid, ps[i]), GtpHeader(teid, |ps[i]|)}
    decreases i
  {
    hide GtpHeader, Takes, SizeAfter;
    NothingMore(GtpHeader(teid, |ps[0]|));
    if i > 0 {
      SentAt(pools, SizeAfter(pools, size, |ps[0]|), teid, ps[1..], i - 1);
    }
  }

  lemma NothingMore(s: octets)
    ensures s + [] == s
  {
  }

  /** A drain adds to the log what belongs to the packets it takes. */
  lemma DrainDelivers(log: seq<octets>, teids: seq<u32>, ps: seq<packet>,
                      pools: seq<PoolState>, teid: u32, qs: seq<packet>)
    requires Delivered(log, teids, ps) && |pools| == CLASSES
    ensures Delivered(log + Sent(pools, SEND_BUFFER_SIZE, teid, qs), teids + Times(teid, |qs|), ps + qs)
  {
    hide Sent, Datagram, GtpHeader, Times;
    forall i | 0 <= i < |qs|
      ensures Sent(pools, SEND_BUFFER_SIZE, teid, qs)[i] in {Datagram(teid, qs[i]), GtpHeader(teid, |qs[i]|)}
    {
      SentAt(pools, SEND_BUFFER_SIZE, teid, qs, i);
    }
  }

  /** The packets of all drains are whole exactly when those of the earlier ones are and this one's all fit. */
  lemma DrainWholeIff(log: seq<octets>, teids: seq<u32>, ps: seq<packet>,
                      pools: seq<PoolState>, teid: u32, qs: seq<packet>)
    requires Delivered(log, teids, ps) && |pools| == CLASSES
    ensures DeliveredWhole(log + Sent(pools, SEND_BUFFER_SIZE, teid, qs), teids + Times(teid, |qs|), ps + qs)
       <==> DeliveredWhole(log, teids, ps) && TakesAll(pools, SEND_BUFFER_SIZE, qs)
  {
    hide Sent, Times, TakesAll, Datagrams, Delivered, DeliveredWhole;
    WholeIffTakesAll(pools, SEND_BUFFER_SIZE, teid, qs);
    DeliveredCount(log, teids, ps);
    WholeTogether(log, teids, ps, Sent(pools, SEND_BUFFER_SIZE, teid, qs), Times(teid, |qs|), qs);
    WholeIffDatagrams(Sent(pools, SEND_BUFFER_SIZE, teid, qs), teid, qs);
  }

  lemma DeliveredCount(log: seq<octets>, teids: seq<u32>, ps: seq<packet>)
    requires Delivered(log, teids, ps)
    ensures |log| == |teids| == |ps|
  {
  }

  lemma WholeIffDatagrams(ds: seq<octets>, teid: u32, ps: seq<packet>)
    requires |ds| == |ps|
    ensures DeliveredWhole(ds, Times(teid, |ps|), ps) <==> ds == Datagrams(teid, ps)
  {
    hide Datagram;
  }

  lemma WholeTogether(log: seq<octets>, teids: seq<u32>, ps: seq<packet>,
                      log': seq<octets>, teids': seq<u32>, ps': seq<packet>)
    requires |log| == |teids| == |ps| && |log'| == |teids'| == |ps'|
    ensures DeliveredWhole(log + log', teids + teids', ps + ps')
       <==> DeliveredWhole(log, teids, ps) && DeliveredWhole(log', teids', ps')
  {
    hide Datagram;
    var l, t, p := log + log', teids + teids', ps + ps';
    if DeliveredWhole(l, t, p) {
      forall i | 0 <= i < |ps|
        ensures log[i] == Datagram(teids[i], ps[i])
      {
        assert l[i] == Datagram(t[i], p[i]);
      }
      forall i | 0 <= i < |ps'|
        ensures log'[i] == Datagram(teids'[i], ps'[i])
      {
        assert l[|ps| + i] == Datagram(t[|ps| + i], p[|ps| + i]);
      }
    }
  }

  // ----- The slot ------------------------------------------------------------

  /** The slot's buffer holds the frames of the stored packets. */
  ghost predicate Holds(blks: map<nat, Bufblk>, memory: map<Block, octets>, buffer: Option<nat>, stored: seq<packet>) {
    match buffer
    case None => stored == []
    case Some(d) => d in blks && Text(memory, blks[d]) == Frames(stored)
  }

  /** What keeps the other buffers keeps what another slot holds. */
  lemma HoldsStill(buffer: Option<nat>, blks: map<nat, Bufblk>, memory: map<Block, octets>,
                   blks': map<nat, Bufblk>, memory': map<Block, octets>, other: Option<nat>, stored: seq<packet>)
    requires OthersKept(buffer, blks, memory, blks', memory') && Holds(blks, memory, other, stored)
    requires other.None? || other != buffer
    ensures Holds(blks', memory', other, stored)
  {
    hide Text, Frames;
  }

  /**
   * The packet store of one PDR.  The ghost fields record its history: the packets taken in, those drained,
   * the datagrams that reached the socket for them with their tunnels, and whether every drain had a send
   * buffer that took all its packets.
   */
  class UpfBufPacket {
    var packetBuffer: Option<nat>
    ghost var stored: seq<packet>
    ghost var accepted: seq<packet>
    ghost var drained: seq<packet>
    ghost var log: seq<octets>
    ghost var teids: seq<u32>
    ghost var allTaken: bool

    /** Every accepted packet is drained or stored, and what reached the socket are the drained ones, in order. */
    ghost predicate History()
      reads this
    {
      && accepted == drained + stored && Delivered(log, teids, drained)
      && (allTaken <==> DeliveredWhole(log, teids, drained))
    }

    ghost predicate Valid(bufs: BufferPools)
      reads this, bufs
    {
      bufs.Valid() && History() && Holds(bufs.blks, bufs.memory, packetBuffer, stored)
    }

    /** What holds of a slot over every run. */
    lemma SlotMeans(bufs: BufferPools, i: nat)
      requires Valid(bufs)
      ensures accepted == drained + stored && |log| == |teids| == |drained|
      ensures i < |drained| ==>
        log[i] == GtpHeader(teids[i], |drained[i]|) + drained[i] || log[i] == GtpHeader(teids[i], |drained[i]|)
      ensures allTaken && i < |drained| ==> log[i] == GtpHeader(teids[i], |drained[i]|) + drained[i]
      ensures packetBuffer.Some? ==>
        packetBuffer.value in bufs.blks && bufs.Contents(packetBuffer.value) == Frames(stored)
      ensures packetBuffer.None? ==> stored == []
    {
      DeliveredAt(log, teids, drained, i);
    }

    constructor (bufs: BufferPools)
      requires bufs.Valid()
      ensures Valid(bufs) && packetBuffer == None && accepted == [] && allTaken
    {
      packetBuffer := None;
      stored, accepted, drained, log, teids, allTaken := [], [], [], [], [], true;
    }

    /** Gives the slot a buffer if it has none. */
    method Open(bufs: BufferPools) returns (ready: bool)
      requires Valid(bufs)
      modifies `packetBuffer, bufs`pools, bufs`owner, bufs`blkPool, bufs`blks
      ensures Valid(bufs) && (ready <==> packetBuffer.Some?) && |old(bufs.pools)| == CLASSES
      ensures old(packetBuffer).Some? ==> ready && packetBuffer == old(packetBuffer) && unchanged(bufs)
      ensures old(packetBuffer).None? ==>
        (ready <==> old(bufs.blkPool).free != [] && HasRoom(old(bufs.pools), MAX_SIZE_OF_PACKET))
      ensures old(packetBuffer).None? && ready ==>
        var d := packetBuffer.value;
        && old(bufs.pools)[5].free != [] && bufs.pools == AllocBlock(old(bufs.pools), 5)
        && d !in old(bufs.blks)
        && bufs.blks == old(bufs.blks)[d := Bufblk(Some(NextBlock(old(bufs.pools), 5)), 2048, 0)]
      ensures OthersKept(old(packetBuffer), old(bufs.blks), old(bufs.memory), bufs.blks, bufs.memory)
    {
      hide PoolsOk, Accounted, MemoryOk, OwnersOk, HeadersOk, Recorded, AllocBlock, Nominal, SelectClass, AskedSize;
      hide Frames, Delivered, DeliveredWhole;
      FirstSize();
      PoolCount(bufs);
      ready := true;
      if packetBuffer.None? {
        packetBuffer := bufs.BufblkAlloc(1, MAX_SIZE_OF_PACKET);
        ready := packetBuffer.Some?;
        if ready {
          var blk := bufs.blks[packetBuffer.value];
          NoFrames(bufs.memory, blk.buf, blk.size);
        }
      }
    }

    /** Appends the packet behind its length, or stores nothing. */
    method Store(bufs: BufferPools, pkt: packet) returns (ok: bool)
      requires Valid(bufs)
      modifies this, bufs
      ensures Valid(bufs) && |old(bufs.pools)| == CLASSES
      ensures old(packetBuffer).Some? ==> old(packetBuffer).value in old(bufs.blks)
      ensures ok <==> Accepts(old(bufs.pools), old(bufs.blkPool), old(bufs.blks), old(packetBuffer), |pkt|)
      ensures stored == old(stored) + (if ok then [pkt] else []) && unchanged(`drained, `log, `teids, `allTaken)
      ensures accepted == old(accepted) + (if ok then [pkt] else [])
      ensures NewOrKept(old(packetBuffer), old(bufs.blks), packetBuffer)
      ensures OthersKept(old(packetBuffer), old(bufs.blks), old(bufs.memory), bufs.blks, bufs.memory)
    {
      hide PoolsOk, Accounted, MemoryOk, OwnersOk, HeadersOk, Recorded, AllocBlock, Nominal, SelectClass, AskedSize;
      hide Frames, Frame, OthersKept, Text, HasRoom, Delivered, DeliveredWhole;
      PoolCount(bufs);
      FramesAppend(stored, pkt);
      Associate(drained, stored, [pkt]);
      ok := Open(bufs);
      if !ok {
        return;
      }
      ghost var blks1, memory1 := bufs.blks, bufs.memory;
      ok := AppendFrame(bufs, packetBuffer.value, pkt);
      KeptAlso(old(packetBuffer), old(bufs.blks), old(bufs.memory), blks1, memory1, packetBuffer.value,
               bufs.blks, bufs.memory);
      if ok {
        stored := stored + [pkt];
        accepted := accepted + [pkt];
      }
    }

    /** The draining part of `UpSendPacketByPdrFar`: stored packets go to the socket and the slot is emptied. */
    method Drain(bufs: BufferPools, sock: Sock, teid: u32) returns (faulted: bool)
      requires Valid(bufs)
      modifies this, bufs, sock
      ensures Valid(bufs) && |old(bufs.pools)| == CLASSES && accepted == old(accepted)
      ensures faulted <==> old(packetBuffer).Some? && !CanSend(old(bufs.pools), old(bufs.blkPool))
      ensures faulted ==> sock.sent == old(sock.sent) && unchanged(this)
      ensures !faulted ==> sock.sent == old(sock.sent) + Sent(old(bufs.pools), SEND_BUFFER_SIZE, teid, old(stored))
      ensures !faulted ==> log == old(log) + sock.sent[|old(sock.sent)|..]
      ensures !faulted ==> teids == old(teids) + Times(teid, |old(stored)|)
      ensures !faulted ==> stored == [] && packetBuffer == None && drained == accepted
      ensures !faulted ==> allTaken == (old(allTaken) && TakesAll(old(bufs.pools), SEND_BUFFER_SIZE, old(stored)))
      ensures OthersKept(old(packetBuffer), old(bufs.blks), old(bufs.memory), bufs.blks, bufs.memory)
    {
      hide PoolsOk, Accounted, MemoryOk, OwnersOk, HeadersOk, Recorded, AllocBlock, Nominal, SelectClass, AskedSize;
      hide Frames, OthersKept, Text, HasRoom, Sent, SameAbove, Delivered, DeliveredWhole, TakesAll, Times, CanSend;
      PoolCount(bufs);
      KeptSame(packetBuffer, bufs.blks, bufs.memory);
      NothingSent(bufs.pools, SEND_BUFFER_SIZE, teid);
      DrainDelivers(log, teids, drained, bufs.pools, teid, stored);
      DrainWholeIff(log, teids, drained, bufs.pools, teid, stored);
      faulted := false;
      ghost var sent0, pools0 := sock.sent, bufs.pools;
      if packetBuffer.Some? {
        faulted := SendAll(bufs, sock, packetBuffer.value, teid, stored);
        KeptFor(packetBuffer.value, old(bufs.blks), old(bufs.memory), bufs.blks, bufs.memory);
        if faulted {
          return;
        }
        KeptWithout(packetBuffer.value, old(bufs.blks), old(bufs.memory), bufs.blks, bufs.memory);
        var status := bufs.BufblkFree(packetBuffer.value);
        packetBuffer := None;
      }
      allTaken := allTaken && TakesAll(pools0, SEND_BUFFER_SIZE, stored);
      log, teids := log + sock.sent[|sent0|..], teids + Times(teid, |stored|);
      drained := drained + stored;
      stored := [];
    }
  }

  /** The slot has the buffer it had, or one that was not in use. */
  predicate NewOrKept(before: Option<nat>, blks: map<nat, Bufblk>, after: Option<nat>) {
    after == before || after.None? || after.value !in blks
  }

  // ----- Handlers ------------------------------------------------------------

  /** Slots that share the pools: each is valid, and no two have the same buffer. */
  ghost predicate SlotsOk(slots: set<UpfBufPacket>, bufs: BufferPools)
    reads slots, bufs
  {
    && bufs.Valid() && (forall o :: o in slots ==> o.Valid(bufs))
    && (forall o, q :: o in slots && q in slots && o != q && o.packetBuffer.Some? ==> q.packetBuffer != o.packetBuffer)
  }

  lemma SlotAt(slots: set<UpfBufPacket>, bufs: BufferPools, o: UpfBufPacket)
    requires SlotsOk(slots, bufs) && o in slots
    ensures o.Valid(bufs) && (o.packetBuffer.Some? ==> o.packetBuffer.value in bufs.blks)
  {
  }

  lemma SlotsAre(slots: set<UpfBufPacket>, bufs: BufferPools)
    requires bufs.Valid() && forall o :: o in slots ==> o.Valid(bufs)
    requires forall o, q :: o in slots && q in slots && o != q && o.packetBuffer.Some? ==>
      q.packetBuffer != o.packetBuffer
    ensures SlotsOk(slots, bufs)
  {
  }

  /** Storing a packet in one slot leaves every other slot valid. */
  method StoreAmong(ghost slots: set<UpfBufPacket>, slot: UpfBufPacket, bufs: BufferPools, pkt: packet)
      returns (ok: bool)
    requires SlotsOk(slots, bufs) && slot in slots
    modifies slot, bufs
    ensures SlotsOk(slots, bufs) && |old(bufs.pools)| == CLASSES
    ensures old(slot.packetBuffer).Some? ==> old(slot.packetBuffer).value in old(bufs.blks)
    ensures ok <==> Accepts(old(bufs.pools), old(bufs.blkPool), old(bufs.blks), old(slot.packetBuffer), |pkt|)
    ensures slot.stored == old(slot.stored) + (if ok then [pkt] else [])
    ensures slot.accepted == old(slot.accepted) + (if ok then [pkt] else [])
    ensures unchanged(slot`drained, slot`log, slot`teids, slot`allTaken)
    ensures OthersKept(old(slot.packetBuffer), old(bufs.blks), old(bufs.memory), bufs.blks, bufs.memory)
  {
    hide PoolsOk, Accounted, MemoryOk, OwnersOk, HeadersOk, Recorded, Accepts, OthersKept, Holds;
    hide UpfBufPacket.History;
    ok := slot.Store(bufs, pkt);
    forall o | o in slots && o != slot
      ensures o.Valid(bufs)
    {
      HoldsStill(old(slot.packetBuffer), old(bufs.blks), old(bufs.memory), bufs.blks, bufs.memory,
                 o.packetBuffer, o.stored);
    }
    forall o | o in slots
      ensures old(o.packetBuffer).Some? ==> old(o.packetBuffer).value in old(bufs.blks)
    {
      BufferInUse(old(bufs.blks), old(bufs.memory), old(o.packetBuffer), old(o.stored));
    }
    SlotsAre(slots, bufs);
  }

  lemma BufferInUse(blks: map<nat, Bufblk>, memory: map<Block, octets>, buffer: Option<nat>, stored: seq<packet>)
    requires Holds(blks, memory, buffer, stored)
    ensures buffer.Some? ==> buffer.value in blks
  {
  }

  /** Draining one slot leaves every other slot valid. */
  method DrainAmong(ghost slots: set<UpfBufPacket>, slot: UpfBufPacket, bufs: BufferPools, sock: Sock, teid: u32)
      returns (faulted: bool)
    requires SlotsOk(slots, bufs) && slot in slots
    modifies slot, bufs, sock
    ensures SlotsOk(slots, bufs) && |old(bufs.pools)| == CLASSES && slot.accepted == old(slot.accepted)
    ensures faulted <==> old(slot.packetBuffer).Some? && !CanSend(old(bufs.pools), old(bufs.blkPool))
    ensures faulted ==> sock.sent == old(sock.sent) && unchanged(slot)
    ensures !faulted ==>
      sock.sent == old(sock.sent) + Sent(old(bufs.pools), SEND_BUFFER_SIZE, teid, old(slot.stored))
    ensures !faulted ==> slot.log == old(slot.log) + sock.sent[|old(sock.sent)|..] && slot.drained == slot.accepted
    ensures !faulted ==>
      slot.allTaken == (old(slot.allTaken) && TakesAll(old(bufs.pools), SEND_BUFFER_SIZE, old(slot.stored)))
    ensures OthersKept(old(slot.packetBuffer), old(bufs.blks), old(bufs.memory), bufs.blks, bufs.memory)
  {
    hide PoolsOk, Accounted, MemoryOk, OwnersOk, HeadersOk, Recorded, OthersKept, Holds, Sent, TakesAll, CanSend;
    hide UpfBufPacket.History;
    faulted := slot.Drain(bufs, sock, teid);
    forall o | o in slots && o != slot
      ensures o.Valid(bufs)
    {
      HoldsStill(old(slot.packetBuffer), old(bufs.blks), old(bufs.memory), bufs.blks, bufs.memory,
                 o.packetBuffer, o.stored);
    }
    SlotsAre(slots, bufs);
  }

  predicate HasBit(n: octet, bit: octet)
    requires bit > 0
  {
    n / bit % 2 == 1
  }

  /** In every combination of actions each one is seen on its own. */
  lemma ActionSeen(drop: bool, forw: bool, buff: bool, nocp: bool, dupl: bool)
    ensures var n := (if drop then 1 else 0) + (if forw then 2 else 0) + (if buff then 4 else 0)
        + (if nocp then 8 else 0) + (if dupl then 16 else 0);
      && (HasBit(n, APPLY_ACTION_BUFF) <==> buff) && (HasBit(n, APPLY_ACTION_NOCP) <==> nocp)
  {
  }

  /** What a handler may change. */
  function Touched(slot: UpfBufPacket?, bufs: BufferPools): set<object> {
    if slot == null then {} else {slot, bufs}
  }

  /**
   * `PacketInBufferHandle`: 1 when the packet was stored, 0 when the action is not to buffer, -1 on failure.
   * `action` is the apply action of the rule, if the rule was found; `notify` tells whether the session
   * report event is sent.  `slots` are the slots of all PDRs.
   */
  method PacketInBufferHandle(action: Option<octet>, slot: UpfBufPacket?, bufs: BufferPools, pkt: packet,
                              ghost slots: set<UpfBufPacket>)
      returns (code: int, notify: bool)
    requires SlotsOk(slots, bufs) && (slot != null ==> slot in slots)
    modifies Touched(slot, bufs)
    ensures SlotsOk(slots, bufs) && code in {-1, 0, 1} && |old(bufs.pools)| == CLASSES
    ensures code == 0 <==> action.Some? && action.value % 8 < 4
    ensures slot == null || action.None? ==> code != 1
    ensures slot != null ==> slot.accepted == old(slot.accepted) + if code == 1 then [pkt] else []
    ensures slot != null ==> unchanged(slot`drained, slot`log, slot`teids, slot`allTaken)
    ensures slot != null && old(slot.packetBuffer).Some? ==> old(slot.packetBuffer).value in old(bufs.blks)
    ensures slot != null && action.Some? && code != 0 ==>
      (code == 1 <==> Accepts(old(bufs.pools), old(bufs.blkPool), old(bufs.blks), old(slot.packetBuffer), |pkt|))
    ensures OthersKept(if slot == null then None else old(slot.packetBuffer),
                       old(bufs.blks), old(bufs.memory), bufs.blks, bufs.memory)
    ensures notify <==> code == 1 && action.value % 16 >= 8
  {
    hide PoolsOk, Accounted, MemoryOk, OwnersOk, HeadersOk, Recorded, Accepts, OthersKept, SlotsOk;
    SlotsCount(slots, bufs);
    KeptSame(if slot == null then None else slot.packetBuffer, bufs.blks, bufs.memory);
    if slot != null {
      SlotAt(slots, bufs, slot);
    }
    notify := false;
    if action.None? {
      return -1, false;
    }
    if HasBit(action.value, APPLY_ACTION_BUFF) {
      if slot == null {
        return -1, false;
      }
      var ok := StoreAmong(slots, slot, bufs, pkt);
      if !ok {
        return -1, false;
      }
      return 1, HasBit(action.value, APPLY_ACTION_NOCP);
    }
    code := 0;
  }

  lemma SlotsCount(slots: set<UpfBufPacket>, bufs: BufferPools)
    requires SlotsOk(slots, bufs)
    ensures bufs.Valid() && |bufs.pools| == CLASSES
  {
    PoolCount(bufs);
  }

  const OUTER_HEADER_GTPU_UDP_IPV4 := 1

  /**
   * `UpSendPacketByPdrFar`; `description` is the outer header description, if the action forwards with one.
   * The program faults on a PDR without a slot, and on packets to send without a send buffer.
   */
  method UpSendPacketByPdrFar(slot: UpfBufPacket?, bufs: BufferPools, sock: Sock, description: Option<octet>, teid: u32,
                              ghost slots: set<UpfBufPacket>)
      returns (status: Status, faulted: bool)
    requires SlotsOk(slots, bufs) && (slot != null ==> slot in slots)
    modifies Touched(slot, bufs), sock
    ensures SlotsOk(slots, bufs) && |old(bufs.pools)| == CLASSES
    ensures status == if description.None? then Error else Ok
    ensures slot == null ==> (faulted <==> Drains(description))
    ensures slot != null ==>
      (faulted <==> Drains(description) && old(slot.packetBuffer).Some? && !CanSend(old(bufs.pools), old(bufs.blkPool)))
    ensures slot != null ==> slot.accepted == old(slot.accepted)
    ensures slot == null || faulted || !Drains(description) ==> sock.sent == old(sock.sent)
    ensures slot != null && (faulted || !Drains(description)) ==> unchanged(slot)
    ensures slot != null && !faulted && Drains(description) ==>
      && sock.sent == old(sock.sent) + Sent(old(bufs.pools), SEND_BUFFER_SIZE, teid, old(slot.stored))
      && slot.log == old(slot.log) + sock.sent[|old(sock.sent)|..] && slot.drained == slot.accepted
    ensures slot != null && !faulted && Drains(description) ==>
      slot.allTaken == (old(slot.allTaken) && TakesAll(old(bufs.pools), SEND_BUFFER_SIZE, old(slot.stored)))
    ensures OthersKept(if slot == null then None else old(slot.packetBuffer),
                       old(bufs.blks), old(bufs.memory), bufs.blks, bufs.memory)
  {
    hide PoolsOk, Accounted, MemoryOk, OwnersOk, HeadersOk, Recorded, OthersKept, SlotsOk, Sent, TakesAll, CanSend;
    SlotsCount(slots, bufs);
    KeptSame(if slot == null then None else slot.packetBuffer, bufs.blks, bufs.memory);
    if description.None? {
      return Error, false;
    }
    status, faulted := Ok, false;
    if HasBit(description.value, OUTER_HEADER_GTPU_UDP_IPV4) {
      if slot == null {
        return Ok, true;
      }
      faulted := DrainAmong(slots, slot, bufs, sock, teid);
    }
  }

  /** Packets are drained for a forwarding action whose outer header is GTP-U over UDP and IPv4. */
  predicate Drains(description: Option<octet>) {
    description.Some? && HasBit(description.value, OUTER_HEADER_GTPU_UDP_IPV4)
  }

  /** A set lowest bit of the description, whatever the others say. */
  lemma DrainsIff(description: Option<octet>)
    ensures Drains(description) <==> description.Some? && description.value % 2 == 1
  {
  }

  /** A concrete bare header: without a free 2048-octet block a packet over 960 octets is lost. */
  lemma BareHeader(pools: seq<PoolState>, teid: u32, p: packet)
    requires |pools| == CLASSES && pools[5].free == [] && 960 < |p| <= MAX_SIZE_OF_PACKET
    ensures Sent(pools, SEND_BUFFER_SIZE, teid, [p]) == [GtpHeader(teid, |p|)] != Datagrams(teid, [p])
  {
    hide GtpHeader;
    SentCons(pools, SEND_BUFFER_SIZE, teid, [p]);
    NothingMore(GtpHeader(teid, |p|));
    assert Datagrams(teid, [p])[0] == GtpHeader(teid, |p|) + p;
  }
}
