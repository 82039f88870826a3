/** Buffers: blocks of eleven size classes, the pools they come from, and byte buffers that grow. */
module Buffers {
  import opened Prelude
  import opened Pool

  const SIZE_OF_BUF_RESERVED := 4
  const MAX_NUM_OF_BUFBLK_POOL := 256
  const CLASSES := 11

  type Class = c: nat | c < CLASSES

  /** The size that a buffer of a class is said to have. */
  function Nominal(c: Class): (n: nat)
    ensures 64 <= n <= 65536
  {
    if c == 0 then 64
    else if c == 1 then 128
    else if c == 2 then 256
    else if c == 3 then 512
    else if c == 4 then 1024
    else if c == 5 then 2048
    else if c == 6 then 4096
    else if c == 7 then 8192
    else if c == 8 then 16384
    else if c == 9 then 32768
    else 65536
  }

  /** The octets a block of a class has, with the reserved ones. */
  function Physical(c: Class): (n: nat)
    ensures n >= Nominal(c) + SIZE_OF_BUF_RESERVED
  {
    (if c == 9 then 36728 else Nominal(c)) + SIZE_OF_BUF_RESERVED
  }

  function Capacity(c: Class): nat {
    if c == 0 then 4096
    else if c == 1 then 128
    else if c == 2 then 128
    else if c == 3 then 64
    else if c == 4 then 64
    else if c == 5 then 32
    else if c == 6 then 32
    else if c == 7 then 16
    else if c == 8 then 8
    else if c == 9 then 8
    else 4
  }

  /** `SelectBufblkOption`: the class of a size, which is a signed number. */
  function SelectClass(size: int): (c: Option<Class>)
    ensures size <= 65536 <==> c.Some?
    ensures c.Some? ==> size <= Nominal(c.value)
    ensures c.Some? && c.value > 0 ==> Nominal(c.value - 1) < size
  {
    if size <= 64 then Some(0)
    else if size <= 128 then Some(1)
    else if size <= 256 then Some(2)
    else if size <= 512 then Some(3)
    else if size <= 1024 then Some(4)
    else if size <= 2048 then Some(5)
    else if size <= 4096 then Some(6)
    else if size <= 8192 then Some(7)
    else if size <= 16384 then Some(8)
    else if size <= 32768 then Some(9)
    else if size <= 65536 then Some(10)
    else None
  }

  /** A size chosen from a class leads back to the class. */
  lemma ClassOfNominal(c: Class)
    ensures SelectClass(Nominal(c)) == Some(c)
    ensures SelectClass(2 * Nominal(c)) == if c < CLASSES - 1 then Some(c + 1) else None
  {
  }

  /** The sizes double from class to class; a block has four octets more, and one class has larger blocks. */
  lemma ClassSizes(c: Class)
    ensures Nominal(0) == 64 && Nominal(10) == 65536
    ensures c > 0 ==> Nominal(c) == 2 * Nominal(c - 1)
    ensures Physical(c) == if c == 9 then 36732 else Nominal(c) + 4
  {
  }

  // ----- Sizes in 32 bits --------------------------------------------------

  function U32(n: int): u32 {
    n % 0x1_0000_0000
  }

  /** A 32-bit number stored in a signed field. */
  function Signed(n: u32): int {
    if n < 0x8000_0000 then n else n - 0x1_0000_0000
  }

  /** The size that `BufAlloc` asks its class for. */
  function AskedSize(num: u32, size: u32): int {
    Signed(U32(num * size))
  }

  /** The size asked for is the product as a signed 32-bit number. */
  lemma AskedWraps(num: u32, size: u32)
    ensures -0x8000_0000 <= AskedSize(num, size) < 0x8000_0000
    ensures (num * size - AskedSize(num, size)) % 0x1_0000_0000 == 0
  {
    SignedWraps(num * size);
  }

  lemma SignedWraps(n: nat)
    ensures -0x8000_0000 <= Signed(U32(n)) < 0x8000_0000 && (n - Signed(U32(n))) % 0x1_0000_0000 == 0
  {
    assert n - U32(n) == 0x1_0000_0000 * (n / 0x1_0000_0000);
    assert n - U32(n) + 0x1_0000_0000 == 0x1_0000_0000 * (n / 0x1_0000_0000 + 1);
  }

  /** Whether a block that is granted for `num * size` octets has that many. */
  predicate Serves(num: u32, size: u32) {
    SelectClass(AskedSize(num, size)).Some? ==> num * size <= Nominal(SelectClass(AskedSize(num, size)).value)
  }

  /**
   * A granted block is large enough exactly when the request is at most the largest size or is
   * still seen as too large after it is cut to 32 bits.
   */
  lemma ServesIff(num: u32, size: u32)
    ensures Serves(num, size) <==> num * size <= 65536 || AskedSize(num, size) > 65536
  {
    var n: nat := num * size;
    if n <= 65536 {
      assert U32(n) == n;
    }
  }

  /** Half the 32-bit range is served with the smallest block. */
  lemma WrappedRequest()
    ensures SelectClass(AskedSize(1, 0x8000_0000)) == Some(0) && !Serves(1, 0x8000_0000)
  {
  }

  /** Whether a buffer of `size` that grows for `n` more octets gets room for them, if it is granted a block. */
  predicate GrowthServes(size: int, n: u32)
    requires size >= 0
  {
    var asked := AskedSize(1, U32(size + n));
    SelectClass(asked).Some? ==> size + n <= Nominal(SelectClass(asked).value)
  }

  /**
   * A granted block is large enough exactly when the new size is at most the largest one or is still
   * seen as too large after it is cut to 32 bits, which is when it stays below the sign bit.
   */
  lemma GrowthServesIff(size: int, n: u32)
    requires 0 <= size <= 65536
    ensures GrowthServes(size, n) <==> size + n <= 65536 || AskedSize(1, U32(size + n)) > 65536
    ensures GrowthServes(size, n) <==> size + n < 0x8000_0000
  {
    AskedForOne(U32(size + n));
    var asked := AskedSize(1, U32(size + n));
    if size + n < 0x1_0000_0000 {
      assert U32(size + n) == size + n;
    } else {
      assert U32(size + n) == size + n - 0x1_0000_0000;
    }
  }

  /** A block from `UTLT_Malloc` has room for the size and its header exactly for sizes that a class has. */
  lemma MallocServesIff(size: u32)
    requires SelectClass(Signed(U32(size + 4))).Some?
    ensures size + 4 <= Nominal(SelectClass(Signed(U32(size + 4))).value) <==> size <= 65532
  {
  }

  // ----- State -------------------------------------------------------------

  /** A block: its class and its position in the pool of the class. */
  datatype Block = Block(cls: Class, pos: nat)

  datatype Bufblk = Bufblk(buf: Option<Block>, size: int, len: int)

  /** Who answers for a block in use: a buffer, a caller of `UTLT_Malloc`, or an operation under way. */
  datatype Owner = Buffer(d: nat) | Malloced | Loose

  ghost predicate Held(pools: seq<PoolState>, b: Block) {
    b.cls < |pools| && b.pos in pools[b.cls].held
  }

  ghost predicate PoolsOk(pools: seq<PoolState>) {
    |pools| == CLASSES && forall c: Class :: Conserved(pools[c], Capacity(c))
  }

  /** Every block in use has one owner, and blocks without one are free. */
  ghost predicate Accounted(pools: seq<PoolState>, owner: map<Block, Owner>) {
    forall b: Block :: Held(pools, b) <==> b in owner
  }

  ghost predicate MemoryOk(memory: map<Block, octets>) {
    forall b: Block :: b.pos < Capacity(b.cls) ==> b in memory && |memory[b]| == Physical(b.cls)
  }

  /** A buffer has a block of its own, of the class that its size names. */
  ghost predicate BufferOk(blk: Bufblk, d: nat, owner: map<Block, Owner>) {
    && blk.buf.Some? && blk.buf.value in owner && owner[blk.buf.value] == Buffer(d)
    && blk.size == Nominal(blk.buf.value.cls) && 0 <= blk.len <= blk.size
  }

  ghost predicate OwnersOk(blks: map<nat, Bufblk>, owner: map<Block, Owner>) {
    && (forall d :: d in blks ==> BufferOk(blks[d], d, owner))
    && (forall b :: b in owner ==> owner[b] != Loose)
    && (forall b :: b in owner && owner[b].Buffer? ==> owner[b].d in blks && blks[owner[b].d].buf == Some(b))
  }

  /** The descriptors in use are those of the buffers. */
  ghost predicate Recorded(blkPool: PoolState, blks: map<nat, Bufblk>) {
    Conserved(blkPool, MAX_NUM_OF_BUFBLK_POOL) && forall d: nat :: d in blkPool.held <==> d in blks
  }

  /** Four octets in the order of the host, low octet first. */
  function PutU32(n: u32): (b: octets)
    ensures |b| == 4
  {
    [n % 256, n / 256 % 256, n / 256 / 256 % 256, n / 256 / 256 / 256]
  }

  function GetU32(b: octets): u32
    requires |b| >= 4
  {
    (b[0] as int) + 256 * ((b[1] as int) + 256 * ((b[2] as int) + 256 * (b[3] as int)))
  }

  lemma GetOfPutU32(n: u32, rest: octets)
    ensures GetU32(PutU32(n) + rest) == n
  {
    var b := PutU32(n) + rest;
    assert b[..4] == PutU32(n);
    assert GetU32(b) == GetU32(b[..4]);
  }

  /** The header of a block handed out by `UTLT_Malloc` names its class. */
  ghost predicate HeadersOk(memory: map<Block, octets>, owner: map<Block, Owner>) {
    forall b :: b in owner && owner[b] == Malloced ==>
      b in memory && |memory[b]| >= 4 && SelectClass(Signed(GetU32(memory[b]))) == Some(b.cls)
  }

  /** `memcpy` into a block. */
  function Write(m: octets, at: nat, data: octets): (r: octets)
    requires at + |data| <= |m|
    ensures |r| == |m| && r[..at] == m[..at] && r[at..at + |data|] == data && r[at + |data|..] == m[at + |data|..]
  {
    m[..at] + data + m[at + |data|..]
  }

  function Min(a: int, b: int): int {
    if a < b then a else b
  }

  // ----- Moving a block in or out of use -----------------------------------

  predicate HasRoom(pools: seq<PoolState>, size: int)
    requires |pools| == CLASSES
  {
    SelectClass(size).Some? && pools[SelectClass(size).value].free != []
  }

  /** There is room exactly when the class whose size is next, and no other, has a free block. */
  lemma HasRoomIff(pools: seq<PoolState>, size: int, c: Class)
    requires |pools| == CLASSES
    requires size <= Nominal(c) && (c > 0 ==> Nominal(c - 1) < size)
    ensures HasRoom(pools, size) <==> pools[c].free != []
  {
  }

  lemma NoRoomAbove(pools: seq<PoolState>, size: int)
    requires |pools| == CLASSES && size > 65536
    ensures !HasRoom(pools, size)
  {
  }

  function AllocBlock(pools: seq<PoolState>, c: Class): (r: seq<PoolState>)
    requires |pools| == CLASSES
    ensures |r| == CLASSES
  {
    pools[c := Apply(pools[c], Alloc, Capacity(c))]
  }

  function FreeBlock(pools: seq<PoolState>, b: Block): (r: seq<PoolState>)
    requires |pools| == CLASSES
    ensures |r| == CLASSES
  {
    pools[b.cls := Apply(pools[b.cls], Free(b.pos), Capacity(b.cls))]
  }

  /** The block that the next allocation in a class hands out. */
  function NextBlock(pools: seq<PoolState>, c: Class): Block
    requires |pools| == CLASSES && pools[c].free != []
  {
    Block(c, pools[c].free[0])
  }

  lemma AllocAccounted(pools: seq<PoolState>, owner: map<Block, Owner>, c: Class)
    requires PoolsOk(pools) && Accounted(pools, owner) && pools[c].free != []
    ensures var b := NextBlock(pools, c);
      && b !in owner && b.pos < Capacity(c)
      && PoolsOk(AllocBlock(pools, c)) && Accounted(AllocBlock(pools, c), owner[b := Loose])
  {
    AllocConserves(pools[c], Capacity(c));
    var b := NextBlock(pools, c);
    assert b.pos in pools[c].free && b.pos !in pools[c].held;
    assert !Held(pools, b);
    hide Conserved, Capacity;
  }

  lemma FreeAccounted(pools: seq<PoolState>, owner: map<Block, Owner>, b: Block)
    requires PoolsOk(pools) && Accounted(pools, owner) && b in owner
    ensures b.pos < Capacity(b.cls) && |pools[b.cls].free| < Capacity(b.cls)
    ensures PoolsOk(FreeBlock(pools, b)) && Accounted(FreeBlock(pools, b), owner - {b})
  {
    assert Held(pools, b);
    FreeConservesIffHeld(pools[b.cls], b.pos, Capacity(b.cls));
    hide Conserved, Capacity;
  }

  /** In every class the free blocks and the owned blocks together are all blocks of the class. */
  lemma FreePlusOwned(pools: seq<PoolState>, owner: map<Block, Owner>, c: Class)
    requires PoolsOk(pools) && Accounted(pools, owner)
    ensures |pools[c].free| + |set b | b in owner && b.cls == c :: b.pos| == Capacity(c)
  {
    Count(pools[c], Capacity(c));
    hide Conserved, Capacity;
    var owned := set b | b in owner && b.cls == c :: b.pos;
    forall p
      ensures p in owned <==> p in pools[c].held
    {
      if p in pools[c].held {
        assert Held(pools, Block(c, p));
        assert Block(c, p) in owner;
      }
    }
    assert owned == pools[c].held;
  }

  // ----- What an operation leaves alone ------------------------------------

  /** The pools after a buffer moved from block `b` to a new block of class `c`. */
  function MoveBlock(pools: seq<PoolState>, b: Block, c: Class): seq<PoolState>
    requires |pools| == CLASSES
  {
    FreeBlock(AllocBlock(pools, c), b)
  }

  /** Every block that is not buffer `d`'s keeps its owner and its octets. */
  ghost predicate BlocksKept(d: nat, owner: map<Block, Owner>, memory: map<Block, octets>,
                             owner': map<Block, Owner>, memory': map<Block, octets>) {
    forall b :: b in owner && owner[b] != Buffer(d) ==>
      && b in owner' && owner'[b] == owner[b]
      && (b in memory ==> b in memory' && memory'[b] == memory[b])
  }

  lemma KeptAsIs(d: nat, owner: map<Block, Owner>, memory: map<Block, octets>)
    ensures BlocksKept(d, owner, memory, owner, memory)
  {
  }

  /** Every buffer but `d` keeps its description. */
  ghost predicate BuffersKept(d: nat, blks: map<nat, Bufblk>, blks': map<nat, Bufblk>) {
    forall e :: e != d ==> (e in blks <==> e in blks') && (e in blks ==> blks'[e] == blks[e])
  }

  lemma SameBuffers(d: nat, blks: map<nat, Bufblk>)
    ensures BuffersKept(d, blks, blks)
  {
  }

  lemma RelabelAccounted(pools: seq<PoolState>, owner: map<Block, Owner>, b: Block, o: Owner)
    requires Accounted(pools, owner) && b in owner
    ensures Accounted(pools, owner[b := o])
  {
    hide Held;
  }

  lemma GrantOwners(blks: map<nat, Bufblk>, owner: map<Block, Owner>, memory: map<Block, octets>, d: nat, b: Block)
    requires OwnersOk(blks, owner) && HeadersOk(memory, owner) && d !in blks && b !in owner
    ensures OwnersOk(blks[d := Bufblk(Some(b), Nominal(b.cls), 0)], owner[b := Buffer(d)])
    ensures HeadersOk(memory, owner[b := Buffer(d)])
  {
    hide Nominal, SelectClass, GetU32;
  }

  lemma MoveOwners(blks: map<nat, Bufblk>, owner: map<Block, Owner>, memory: map<Block, octets>,
                   d: nat, b: Block, len: nat, m: octets)
    requires OwnersOk(blks, owner) && HeadersOk(memory, owner)
    requires d in blks && b !in owner && len <= Nominal(b.cls)
    ensures var owner' := (owner - {blks[d].buf.value})[b := Buffer(d)];
      && OwnersOk(blks[d := Bufblk(Some(b), Nominal(b.cls), len)], owner') && HeadersOk(memory[b := m], owner')
      && BlocksKept(d, owner, memory, owner', memory[b := m])
  {
    hide Nominal, SelectClass, GetU32;
  }

  lemma DropOwners(blks: map<nat, Bufblk>, owner: map<Block, Owner>, memory: map<Block, octets>, d: nat)
    requires OwnersOk(blks, owner) && HeadersOk(memory, owner) && d in blks
    ensures OwnersOk(blks - {d}, owner - {blks[d].buf.value}) && HeadersOk(memory, owner - {blks[d].buf.value})
    ensures BlocksKept(d, owner, memory, owner - {blks[d].buf.value}, memory)
  {
    hide Nominal, SelectClass, GetU32;
  }

  /** The first free descriptor, taken, may be recorded with any description. */
  lemma TakeDescriptor(blkPool: PoolState, blks: map<nat, Bufblk>, blk: Bufblk)
    requires Recorded(blkPool, blks) && blkPool.free != []
    ensures blkPool.free[0] !in blks
    ensures Recorded(Apply(blkPool, Alloc, MAX_NUM_OF_BUFBLK_POOL), blks[blkPool.free[0] := blk])
  {
    AllocConserves(blkPool, MAX_NUM_OF_BUFBLK_POOL);
    FirstIsFree(blkPool, MAX_NUM_OF_BUFBLK_POOL);
    hide Conserved;
  }

  /** Taken and given back, the first descriptor is free again, behind the others. */
  lemma ReturnDescriptor(blkPool: PoolState, blks: map<nat, Bufblk>)
    requires Recorded(blkPool, blks) && blkPool.free != []
    ensures var taken := Apply(blkPool, Alloc, MAX_NUM_OF_BUFBLK_POOL);
      var back := Apply(taken, Free(blkPool.free[0]), MAX_NUM_OF_BUFBLK_POOL);
      Recorded(back, blks) && back.held == blkPool.held && multiset(back.free) == multiset(blkPool.free)
  {
    AllocConserves(blkPool, MAX_NUM_OF_BUFBLK_POOL);
    FreeConservesIffHeld(Apply(blkPool, Alloc, MAX_NUM_OF_BUFBLK_POOL), blkPool.free[0], MAX_NUM_OF_BUFBLK_POOL);
    hide Conserved;
    Rotated(blkPool, MAX_NUM_OF_BUFBLK_POOL);
  }

  lemma SameDescriptors(blkPool: PoolState, blks: map<nat, Bufblk>, d: nat, blk: Bufblk)
    requires Recorded(blkPool, blks) && d in blks
    ensures Recorded(blkPool, blks[d := blk])
  {
    hide Conserved;
  }

  lemma DropDescriptor(blkPool: PoolState, blks: map<nat, Bufblk>, d: nat)
    requires Recorded(blkPool, blks) && d in blks
    ensures Recorded(Apply(blkPool, Free(d), MAX_NUM_OF_BUFBLK_POOL), blks - {d})
  {
    FreeConservesIffHeld(blkPool, d, MAX_NUM_OF_BUFBLK_POOL);
    hide Conserved;
  }

  lemma MemoryWrite(memory: map<Block, octets>, b: Block, m: octets)
    requires MemoryOk(memory) && b in memory && |m| == |memory[b]|
    ensures MemoryOk(memory[b := m])
  {
    hide Capacity, Physical;
  }

  lemma BufferAt(blks: map<nat, Bufblk>, owner: map<Block, Owner>, d: nat)
    requires OwnersOk(blks, owner) && d in blks
    ensures BufferOk(blks[d], d, owner)
  {
    hide BufferOk;
  }

  /** Taking the first object and giving it back leaves the same objects free, in another order. */
  lemma Rotated(st: PoolState, cap: nat)
    requires Conserved(st, cap) && st.free != []
    ensures var st' := Apply(Apply(st, Alloc, cap), Free(st.free[0]), cap);
      st'.held == st.held && multiset(st'.free) == multiset(st.free)
  {
    FirstIsFree(st, cap);
    Count(st, cap);
    hide Conserved;
    assert st.free == [st.free[0]] + st.free[1..];
  }

  /** A block in use has its octets. */
  lemma OwnedAt(pools: seq<PoolState>, owner: map<Block, Owner>, memory: map<Block, octets>, b: Block)
    requires PoolsOk(pools) && Accounted(pools, owner) && MemoryOk(memory) && b in owner
    ensures b in memory && |memory[b]| == Physical(b.cls)
  {
    assert Held(pools, b);
    hide Physical, Capacity;
  }

  /** A change inside a buffer's own block keeps everything else. */
  lemma WriteOwners(blks: map<nat, Bufblk>, owner: map<Block, Owner>, memory: map<Block, octets>,
                    d: nat, len: nat, m: octets)
    requires OwnersOk(blks, owner) && HeadersOk(memory, owner) && d in blks && len <= blks[d].size
    ensures var b := blks[d].buf.value;
      && OwnersOk(blks[d := blks[d].(len := len)], owner) && HeadersOk(memory[b := m], owner)
      && BlocksKept(d, owner, memory, owner, memory[b := m])
  {
    hide Nominal, SelectClass, GetU32;
  }

  lemma KeptTwice(d: nat, owner: map<Block, Owner>, memory: map<Block, octets>,
                  owner1: map<Block, Owner>, memory1: map<Block, octets>,
                  owner2: map<Block, Owner>, memory2: map<Block, octets>)
    requires BlocksKept(d, owner, memory, owner1, memory1) && BlocksKept(d, owner1, memory1, owner2, memory2)
    ensures BlocksKept(d, owner, memory, owner2, memory2)
  {
  }

  /** Octets and a terminator written behind the first `len`. */
  lemma WriteBehind(m: octets, len: nat, data: octets)
    requires len + |data| < |m|
    ensures var r := Write(Write(m, len, data), len + |data|, [0]);
      r[..len + |data|] == m[..len] + data && r[len + |data|] == 0
  {
  }

  lemma TakeAll(s: octets)
    ensures s[..|s|] == s
  {
  }

  /** A size below the sign bit is asked for as it is. */
  lemma AskedAsIs(n: nat)
    requires n < 0x8000_0000
    ensures AskedSize(1, n) == n
  {
  }

  /** Whether a buffer of `size` with `len` octets lacks room for `n` more. */
  predicate BufIsNotEnough(size: int, len: int, n: u32) {
    size - len < n
  }

  /** Whether `n` octets more are copied inside the buffer's block: without growing, or into room that serves. */
  predicate Copyable(blk: Bufblk, n: u32) {
    blk.len + n <= blk.size || (blk.size >= 0 && GrowthServes(blk.size, n))
  }

  lemma CopyableMeans(blk: Bufblk, n: u32)
    requires 0 <= blk.len <= blk.size <= 65536
    ensures Copyable(blk, n) <==> blk.size + n < 0x8000_0000
    ensures blk.size + n < 0x8000_0000 ==> U32(blk.size + n) == blk.size + n
  {
    GrowthServesIff(blk.size, n);
  }

  lemma ClassRises(c: Class, n: nat)
    requires Nominal(c) < n <= 65536
    ensures SelectClass(n).value > c && Nominal(SelectClass(n).value) > Nominal(c)
  {
  }

  /** The octets in use of a buffer's block. */
  function Text(memory: map<Block, octets>, blk: Bufblk): octets {
    if blk.buf.Some? && blk.buf.value in memory && 0 <= blk.len <= |memory[blk.buf.value]|
      then memory[blk.buf.value][..blk.len] else []
  }

  predicate Ended(memory: map<Block, octets>, blk: Bufblk) {
    blk.buf.Some? && blk.buf.value in memory && 0 <= blk.len < |memory[blk.buf.value]|
    && memory[blk.buf.value][blk.len] == 0
  }

  predicate CanHold(pools: seq<PoolState>, blk: Bufblk, n: nat)
    requires |pools| == CLASSES
  {
    blk.len + n <= blk.size || HasRoom(pools, blk.size + n)
  }

  /** A buffer can hold `n` octets more exactly when they fit or the class for the enlarged size has a free block. */
  lemma CanHoldIff(pools: seq<PoolState>, blk: Bufblk, n: nat)
    requires |pools| == CLASSES && blk.len <= blk.size && 64 <= blk.size
    ensures CanHold(pools, blk, n) <==> (
      || blk.len + n <= blk.size
      || exists c: Class :: c > 0 && Nominal(c - 1) < blk.size + n <= Nominal(c) && pools[c].free != [])
  {
    if 0 < n && blk.size + n <= 65536 {
      var c := SelectClass(blk.size + n).value;
      assert c > 0 && Nominal(c - 1) < blk.size + n <= Nominal(c);
      ClassAlone(blk.size + n, c);
    }
  }

  lemma ClassAlone(size: int, c: Class)
    requires c > 0 && Nominal(c - 1) < size <= Nominal(c)
    ensures forall d: Class :: d > 0 && Nominal(d - 1) < size <= Nominal(d) ==> d == c
  {
  }

  /** What making room does: nothing if there is room, else the buffer moves to a larger block. */
  ghost predicate RoomMade(pools: seq<PoolState>, blk: Bufblk, n: nat, pools': seq<PoolState>, blk': Bufblk)
    requires |pools| == CLASSES
  {
    && blk'.len == blk.len && blk.len + n <= blk'.size
    && (blk.len + n <= blk.size ==> pools' == pools && blk' == blk)
    && (blk.len + n > blk.size ==>
          HasRoom(pools, blk.size + n) && blk.buf.Some? && blk'.size == Nominal(SelectClass(blk.size + n).value)
          && pools' == MoveBlock(pools, blk.buf.value, SelectClass(blk.size + n).value))
  }

  lemma RoomIs(pools: seq<PoolState>, blk: Bufblk, n: nat, pools': seq<PoolState>, blk': Bufblk)
    requires |pools| == CLASSES && RoomMade(pools, blk, n, pools', blk')
    ensures blk'.len == blk.len && blk.len + n <= blk'.size
    ensures AppendedIn(pools, blk, n, pools', blk'.(len := blk.len + n))
  {
    hide HasRoom, MoveBlock, Nominal, SelectClass;
  }

  /** How a buffer ends up after `n` octets were appended to it. */
  ghost predicate AppendedIn(pools: seq<PoolState>, blk: Bufblk, n: nat, pools': seq<PoolState>, blk': Bufblk)
    requires |pools| == CLASSES
  {
    && blk'.len == blk.len + n <= blk'.size
    && (blk.len + n <= blk.size ==> pools' == pools && blk' == blk.(len := blk.len + n))
    && (blk.len + n > blk.size ==>
          HasRoom(pools, blk.size + n) && blk.buf.Some? && blk'.size == Nominal(SelectClass(blk.size + n).value)
          && pools' == MoveBlock(pools, blk.buf.value, SelectClass(blk.size + n).value))
  }

  function Zeros(n: nat): (r: octets)
    ensures |r| == n && forall i :: 0 <= i < n ==> r[i] == 0
  {
    seq(n, _ => 0)
  }

  /** Printing and ending the text: kept behind the first `len` octets if it fits, and cut off otherwise. */
  lemma PrintedFront(m: octets, len: nat, size: nat, text: octets)
    requires len <= size && size + SIZE_OF_BUF_RESERVED <= |m|
    ensures var printed := text[..Min(|text|, size + SIZE_OF_BUF_RESERVED - len - 1)] + [0];
      var end := if |text| + len < size then len + |text| else len;
      var r := Write(Write(m, len, printed), end, [0]);
      r[..end] == m[..len] + (if |text| + len < size then text else []) && r[end] == 0
  {
    var printed := text[..Min(|text|, size + SIZE_OF_BUF_RESERVED - len - 1)] + [0];
    if |text| + len < size {
      assert printed == text + [0];
    }
  }

  lemma NoneMore(s: octets)
    ensures s + [] == s
  {
  }

  /** Twice the size of a class is the next class, if there is one. */
  lemma DoubleSize(c: Class)
    ensures AskedSize(1, 2 * Nominal(c)) == 2 * Nominal(c)
    ensures var next := SelectClass(2 * Nominal(c)); next.Some? ==> Nominal(next.value) == 2 * Nominal(c) <= 65536
  {
  }

  lemma AskedForOne(n: u32)
    ensures AskedSize(1, n) == Signed(n)
  {
  }

  lemma HeaderWritten(m: octets, n: u32)
    requires |m| >= 4
    ensures GetU32(Write(m, 0, PutU32(n))) == n
  {
    GetOfPutU32(n, m[4..]);
    assert Write(m, 0, PutU32(n)) == PutU32(n) + m[4..];
  }

  lemma MallocOwners(blks: map<nat, Bufblk>, owner: map<Block, Owner>, memory: map<Block, octets>, b: Block, m: octets)
    requires OwnersOk(blks, owner) && HeadersOk(memory, owner) && b !in owner
    requires |m| >= 4 && SelectClass(Signed(GetU32(m))) == Some(b.cls)
    ensures OwnersOk(blks, owner[b := Malloced]) && HeadersOk(memory[b := m], owner[b := Malloced])
  {
    hide Nominal, SelectClass, GetU32;
  }

  lemma FreeOwners(blks: map<nat, Bufblk>, owner: map<Block, Owner>, memory: map<Block, octets>, b: Block)
    requires OwnersOk(blks, owner) && HeadersOk(memory, owner) && b in owner && owner[b] == Malloced
    ensures OwnersOk(blks, owner - {b}) && HeadersOk(memory, owner - {b})
    ensures b in memory && |memory[b]| >= 4 && SelectClass(Signed(GetU32(memory[b]))) == Some(b.cls)
  {
    hide Nominal, SelectClass, GetU32;
  }

  /** Every buffer but the given one keeps its description and its text. */
  ghost predicate OthersKept(buffer: Option<nat>, blks: map<nat, Bufblk>, memory: map<Block, octets>,
                             blks': map<nat, Bufblk>, memory': map<Block, octets>) {
    forall e :: e in blks && buffer != Some(e) ==>
      e in blks' && blks'[e] == blks[e] && Text(memory', blks[e]) == Text(memory, blks[e])
  }

  /** What keeps the blocks and the descriptions of the other buffers keeps their text. */
  lemma OthersUntouched(d: nat, pools: seq<PoolState>, owner: map<Block, Owner>, memory: map<Block, octets>,
                        blks: map<nat, Bufblk>, owner': map<Block, Owner>, memory': map<Block, octets>,
                        blks': map<nat, Bufblk>)
    requires PoolsOk(pools) && Accounted(pools, owner) && MemoryOk(memory) && OwnersOk(blks, owner)
    requires BlocksKept(d, owner, memory, owner', memory') && BuffersKept(d, blks, blks')
    ensures OthersKept(Some(d), blks, memory, blks', memory')
  {
    hide PoolsOk, Accounted, MemoryOk, Nominal, Physical, Capacity;
    forall e | e in blks && e != d
      ensures Text(memory', blks[e]) == Text(memory, blks[e])
    {
      OwnedAt(pools, owner, memory, blks[e].buf.value);
    }
  }

  class BufferPools {
    var pools: seq<PoolState>
    var memory: map<Block, octets>
    var blkPool: PoolState
    var blks: map<nat, Bufblk>
    ghost var owner: map<Block, Owner>

    /** The blocks in use are the owned ones. */
    ghost predicate Balanced()
      reads this
    {
      PoolsOk(pools) && Accounted(pools, owner) && MemoryOk(memory)
    }

    ghost predicate Valid()
      reads this
    {
      Balanced() && OwnersOk(blks, owner) && HeadersOk(memory, owner) && Recorded(blkPool, blks)
    }

    /** The octets a buffer holds. */
    ghost function Contents(d: nat): octets
      requires d in blks
      reads `memory, `blks
    {
      Text(memory, blks[d])
    }

    /** The octet behind the last one of a buffer, among the reserved ones at the latest, is zero. */
    ghost predicate Terminated(d: nat)
      requires d in blks
      reads `memory, `blks
    {
      Ended(memory, blks[d])
    }

    /** `BufblkPoolInit`, over memory with any contents. */
    constructor (memory: map<Block, octets>)
      requires forall b: Block :: b.pos < Capacity(b.cls) ==> b in memory && |memory[b]| == Physical(b.cls)
      ensures Valid() && blks == map[] && owner == map[] && this.memory == memory && |blkPool.free| == 256
      ensures |pools| == 11 && forall c :: 0 <= c < 11 ==>
        |pools[c].free| == [4096, 128, 128, 64, 64, 32, 32, 16, 8, 8, 4][c] && pools[c].held == {}
    {
      this.memory := memory;
      pools := seq(CLASSES, c requires 0 <= c < CLASSES => AllFree(Capacity(c)));
      blkPool := AllFree(MAX_NUM_OF_BUFBLK_POOL);
      blks := map[];
      owner := map[];
      new;
      forall c: Class
        ensures Conserved(pools[c], Capacity(c))
      {
        AllFreeConserved(Capacity(c));
      }
      AllFreeConserved(MAX_NUM_OF_BUFBLK_POOL);
    }

    /** Takes a block of the class that `num * size` selects. */
    method BufAlloc(num: u32, size: u32) returns (status: Status, blk: Bufblk)
      requires Balanced()
      modifies `pools, `owner
      ensures Balanced()
      ensures status == if HasRoom(old(pools), AskedSize(num, size)) then Ok else Error
      ensures status == Error ==> pools == old(pools) && owner == old(owner) && blk == Bufblk(None, 0, 0)
      ensures status == Ok ==> Granted(old(pools), old(owner), SelectClass(AskedSize(num, size)).value, blk)
    {
      hide Conserved, Accounted, MemoryOk, AskedSize;
      var c := SelectClass(AskedSize(num, size));
      if c.None? || pools[c.value].free == [] {
        return Error, Bufblk(None, 0, 0);
      }
      AllocAccounted(pools, owner, c.value);
      blk := Bufblk(Some(NextBlock(pools, c.value)), Nominal(c.value), 0);
      owner := owner[NextBlock(pools, c.value) := Loose];
      pools := AllocBlock(pools, c.value);
      status := Ok;
    }

    /** A block of class `c` was handed out and has no owner yet. */
    ghost predicate Granted(pools0: seq<PoolState>, owner0: map<Block, Owner>, c: Class, blk: Bufblk)
      requires |pools0| == CLASSES && pools0[c].free != []
      reads this
    {
      var b := NextBlock(pools0, c);
      && blk == Bufblk(Some(b), Nominal(c), 0) && b !in owner0
      && pools == AllocBlock(pools0, c) && owner == owner0[b := Loose]
    }

    /** Returns the block to the pool that the size selects. */
    method BufFree(blk: Bufblk) returns (status: Status)
      requires Balanced()
      requires blk.buf.Some? ==> blk.buf.value in owner
      requires blk.buf.Some? && SelectClass(blk.size).Some? ==> SelectClass(blk.size).value == blk.buf.value.cls
      modifies `pools, `owner
      ensures Balanced()
      ensures status == if blk.buf.Some? && blk.size > 65536 then Error else Ok
      ensures blk.buf.None? || status == Error ==> pools == old(pools) && owner == old(owner)
      ensures blk.buf.Some? && status == Ok ==>
        pools == FreeBlock(old(pools), blk.buf.value) && owner == old(owner) - {blk.buf.value}
    {
      hide Conserved, Accounted, MemoryOk;
      if blk.buf.Some? {
        var c := SelectClass(blk.size);
        if c.None? {
          return Error;
        }
        FreeAccounted(pools, owner, blk.buf.value);
        pools := pools[c.value := Apply(pools[c.value], Free(blk.buf.value.pos), Capacity(c.value))];
        owner := owner - {blk.buf.value};
      }
      status := Ok;
    }

    // ----- Buffers with a descriptor ---------------------------------------

    /** Buffer `d` is new and has the next block of class `c`. */
    ghost predicate Opened(d: nat, c: Class, pools0: seq<PoolState>, blks0: map<nat, Bufblk>, owner0: map<Block, Owner>)
      requires |pools0| == CLASSES && pools0[c].free != []
      reads this
    {
      var b := NextBlock(pools0, c);
      && b !in owner0 && owner == owner0[b := Buffer(d)]
      && blks == blks0[d := Bufblk(Some(b), Nominal(c), 0)] && pools == AllocBlock(pools0, c)
    }

    /** Buffer `d` moved to the next block of class `c`, with as much of its text as fits. */
    ghost predicate Moved(d: nat, c: Class, pools0: seq<PoolState>, blks0: map<nat, Bufblk>, text: octets)
      requires |pools0| == CLASSES && pools0[c].free != [] && d in blks0 && blks0[d].buf.Some?
      reads `pools, `blks, `memory
    {
      var len := Min(|text|, Nominal(c));
      && pools == MoveBlock(pools0, blks0[d].buf.value, c)
      && blks == blks0[d := Bufblk(Some(NextBlock(pools0, c)), Nominal(c), len)]
      && Contents(d) == text[..len]
    }

    method BufblkAlloc(num: u32, size: u32) returns (d: Option<nat>)
      requires Valid()
      modifies `pools, `owner, `blkPool, `blks
      ensures Valid()
      ensures d.Some? <==> old(blkPool).free != [] && HasRoom(old(pools), AskedSize(num, size))
      ensures d.None? ==> pools == old(pools) && owner == old(owner) && blks == old(blks)
      ensures d.None? ==> blkPool.held == old(blkPool).held && multiset(blkPool.free) == multiset(old(blkPool).free)
      ensures d.Some? ==> d.value == old(blkPool).free[0] && d.value !in old(blks)
      ensures d.Some? ==> blkPool == Apply(old(blkPool), Alloc, MAX_NUM_OF_BUFBLK_POOL)
      ensures d.Some? ==> Opened(d.value, SelectClass(AskedSize(num, size)).value, old(pools), old(blks), old(owner))
    {
      hide Conserved, Accounted, MemoryOk, OwnersOk, PoolsOk, HeadersOk, Recorded, AskedSize, SelectClass, Nominal;
      if blkPool.free == [] {
        return None;
      }
      var x := blkPool.free[0];
      ReturnDescriptor(blkPool, blks);
      blkPool := Apply(blkPool, Alloc, MAX_NUM_OF_BUFBLK_POOL);
      var status, blk := BufAlloc(num, size);
      if status != Ok {
        blkPool := Apply(blkPool, Free(x), MAX_NUM_OF_BUFBLK_POOL);
        return None;
      }
      TakeDescriptor(old(blkPool), blks, blk);
      GrantOwners(blks, old(owner), memory, x, blk.buf.value);
      RelabelAccounted(pools, owner, blk.buf.value, Buffer(x));
      owner := owner[blk.buf.value := Buffer(x)];
      blks := blks[x := blk];
      assert owner == old(owner)[blk.buf.value := Buffer(x)];
      d := Some(x);
    }

    /** Moves the buffer to a block for `num * size` octets, or leaves everything as it was. */
    method BufblkResize(d: nat, num: u32, size: u32) returns (status: Status)
      requires Valid() && d in blks
      modifies `pools, `owner, `memory, `blks
      ensures Valid() && d in blks
      ensures status == if HasRoom(old(pools), AskedSize(num, size)) then Ok else Error
      ensures status == Error ==> unchanged(this)
      ensures status == Ok ==>
        Moved(d, SelectClass(AskedSize(num, size)).value, old(pools), old(blks), old(Contents(d)))
      ensures BlocksKept(d, old(owner), old(memory), owner, memory)
    {
      hide Conserved, Accounted, MemoryOk, OwnersOk, PoolsOk, HeadersOk, Recorded, BlocksKept, AskedSize, SelectClass,
           Nominal;
      ghost var text, owner0 := Contents(d), owner;
      var blk := blks[d];
      BufferAt(blks, owner, d);
      ClassOfNominal(blk.buf.value.cls);
      OwnedAt(pools, owner, memory, blk.buf.value);
      var tmp;
      status, tmp := BufAlloc(num, size);
      if status != Ok {
        KeptAsIs(d, owner, memory);
        return;
      }
      var b := tmp.buf.value;
      OwnedAt(pools, owner, memory, b);
      var len := Min(blk.len, tmp.size);
      var m := Write(memory[b], 0, memory[blk.buf.value][..len]);
      MemoryWrite(memory, b, m);
      MoveOwners(blks, owner0, memory, d, b, len, m);
      memory := memory[b := m];
      status := BufFree(blk);
      RelabelAccounted(pools, owner, b, Buffer(d));
      owner := owner[b := Buffer(d)];
      SameDescriptors(blkPool, blks, d, blk.(size := tmp.size, len := len, buf := tmp.buf));
      blks := blks[d := blk.(size := tmp.size, len := len, buf := tmp.buf)];
      assert owner == (owner0 - {blk.buf.value})[b := Buffer(d)];
      assert Contents(d) == text[..len];
    }

    /** `BufblkFree`: block and descriptor go back to their pools. */
    method BufblkFree(d: nat) returns (status: Status)
      requires Valid() && d in blks
      modifies `pools, `owner, `blkPool, `blks
      ensures Valid() && status == Ok && blks == old(blks) - {d}
      ensures pools == FreeBlock(old(pools), old(blks[d].buf.value)) && owner == old(owner) - {old(blks[d].buf.value)}
      ensures blkPool == Apply(old(blkPool), Free(d), MAX_NUM_OF_BUFBLK_POOL)
    {
      hide Conserved, Accounted, MemoryOk, OwnersOk, PoolsOk, HeadersOk, Recorded, SelectClass, Nominal;
      BufferAt(blks, owner, d);
      ClassOfNominal(blks[d].buf.value.cls);
      DropOwners(blks, owner, memory, d);
      DropDescriptor(blkPool, blks, d);
      status := BufFree(blks[d]);
      blkPool := Apply(blkPool, Free(d), MAX_NUM_OF_BUFBLK_POOL);
      blks := blks - {d};
    }

    /** Behind the text of a terminated buffer, inside its block, there is a zero. */
    lemma TerminatedMeans(d: nat)
      requires Valid() && d in blks && Terminated(d)
      ensures blks[d].buf.Some? && blks[d].buf.value in memory && 0 <= blks[d].len
      ensures memory[blks[d].buf.value][blks[d].len..][..1] == [0]
    {
    }

    // ----- Bytes -------------------------------------------------------------

    /** The number of octets a buffer holds is its length. */
    lemma LengthOf(d: nat)
      requires Valid() && d in blks
      ensures |Contents(d)| == blks[d].len
      ensures blks[d].buf.Some? && blks[d].buf.value in memory && 0 <= blks[d].len <= |memory[blks[d].buf.value]|
      ensures Contents(d) == memory[blks[d].buf.value][..blks[d].len]
    {
      At(d);
    }

    lemma At(d: nat)
      requires Valid() && d in blks
      ensures |pools| == CLASSES
      ensures blks[d].buf.Some? && blks[d].buf.value in memory && blks[d].buf.value in owner
      ensures |memory[blks[d].buf.value]| >= blks[d].size + SIZE_OF_BUF_RESERVED
      ensures blks[d].size == Nominal(blks[d].buf.value.cls) && 0 <= blks[d].len <= blks[d].size
    {
      OwnedAt(pools, owner, memory, blks[d].buf.value);
    }

    /** The buffer's block holds what it held, with `data` written at `at`. */
    ghost predicate Written(d: nat, at: nat, data: octets, memory0: map<Block, octets>)
      reads `blks, `memory
    {
      && d in blks && blks[d].buf.Some? && blks[d].buf.value in memory0 && blks[d].buf.value in memory
      && at + |data| <= |memory0[blks[d].buf.value]|
      && memory[blks[d].buf.value] == Write(memory0[blks[d].buf.value], at, data)
    }

    /** Writes into the buffer's block and sets its length. */
    method Put(d: nat, at: nat, data: octets, len: nat)
      requires Valid() && d in blks && at + |data| <= blks[d].size + SIZE_OF_BUF_RESERVED && len <= blks[d].size
      modifies `memory, `blks
      ensures Valid() && BlocksKept(d, owner, old(memory), owner, memory)
      ensures blks == old(blks)[d := old(blks[d]).(len := len)]
      ensures Written(d, at, data, old(memory))
    {
      hide PoolsOk, Accounted, MemoryOk, OwnersOk, HeadersOk, Recorded, BlocksKept, Nominal, Write, Physical,
           Capacity, BufferOk;
      At(d);
      var blk := blks[d];
      var b := blk.buf.value;
      var m := Write(memory[b], at, data);
      WriteOwners(blks, owner, memory, d, len, m);
      MemoryWrite(memory, b, m);
      SameDescriptors(blkPool, blks, d, blk.(len := len));
      memory := memory[b := m];
      blks := blks[d := blk.(len := len)];
    }

    method BufblkClear(d: nat) returns (status: Status)
      requires Valid() && d in blks
      modifies `memory, `blks
      ensures Valid() && status == Ok && BlocksKept(d, owner, old(memory), owner, memory)
      ensures blks == old(blks)[d := old(blks[d]).(len := 0)] && Contents(d) == [] && Terminated(d)
    {
      hide PoolsOk, Accounted, MemoryOk, OwnersOk, HeadersOk, Recorded, BlocksKept, Nominal;
      At(d);
      Put(d, 0, [0], 0);
      status := Ok;
    }

    /** Makes room for `n` octets more, or leaves everything as it was. */
    method Reserve(d: nat, n: u32) returns (status: Status)
      requires Valid() && d in blks && Copyable(blks[d], n)
      modifies `pools, `owner, `memory, `blks
      ensures Valid() && d in blks && BlocksKept(d, old(owner), old(memory), owner, memory)
      ensures status == if CanHold(old(pools), old(blks)[d], n) then Ok else Error
      ensures status == Error ==> unchanged(this)
      ensures status == Ok ==> Contents(d) == old(Contents(d)) && BuffersKept(d, old(blks), blks)
      ensures status == Ok ==> RoomMade(old(pools), old(blks)[d], n, pools, blks[d])
    {
      hide PoolsOk, Accounted, MemoryOk, OwnersOk, HeadersOk, Recorded, BlocksKept, Nominal, Physical, Capacity,
           AskedSize;
      hide FreeBlock, AllocBlock, MoveBlock, SelectClass, Text, Write;
      At(d);
      LengthOf(d);
      KeptAsIs(d, owner, memory);
      CopyableMeans(blks[d], n);
      TakeAll(Contents(d));
      if 0 < n && blks[d].size + n <= 65536 {
        ClassRises(blks[d].buf.value.cls, blks[d].size + n);
      }
      status := Ok;
      if BufIsNotEnough(blks[d].size, blks[d].len, n) {
        AskedAsIs(blks[d].size + n);
        status := BufblkResize(d, 1, U32(blks[d].size + n));
      }
    }

    /** Writes octets and a terminator behind the contents. */
    method Append(d: nat, data: octets)
      requires Valid() && d in blks && blks[d].len + |data| <= blks[d].size
      modifies `memory, `blks
      ensures Valid() && BlocksKept(d, owner, old(memory), owner, memory)
      ensures blks == old(blks)[d := old(blks)[d].(len := old(blks)[d].len + |data|)]
      ensures Contents(d) == old(Contents(d)) + data && Terminated(d)
    {
      hide PoolsOk, Accounted, MemoryOk, OwnersOk, HeadersOk, Recorded, BlocksKept, Nominal, Physical, Capacity, Write;
      At(d);
      var len := blks[d].len;
      ghost var b, memory0 := blks[d].buf.value, memory;
      WriteBehind(memory[b], len, data);
      Put(d, len, data, len + |data|);
      ghost var memory1 := memory;
      Put(d, len + |data|, [0], len + |data|);
      KeptTwice(d, owner, memory0, owner, memory1, owner, memory);
    }

    /** `BufblkBytes`: appends octets, or leaves everything as it was. */
    method BufblkBytes(d: nat, data: octets) returns (status: Status)
      requires Valid() && d in blks && |data| < 0x1_0000_0000 && Copyable(blks[d], |data|)
      modifies `pools, `owner, `memory, `blks
      ensures Valid() && d in blks && BlocksKept(d, old(owner), old(memory), owner, memory)
      ensures status == if CanHold(old(pools), old(blks)[d], |data|) then Ok else Error
      ensures status == Error ==> unchanged(this)
      ensures status == Ok ==>
        Contents(d) == old(Contents(d)) + data && Terminated(d) && BuffersKept(d, old(blks), blks)
      ensures status == Ok ==> AppendedIn(old(pools), old(blks)[d], |data|, pools, blks[d])
    {
      hide PoolsOk, Accounted, MemoryOk, OwnersOk, HeadersOk, Recorded, BlocksKept, Nominal, Physical, Capacity;
      hide RoomMade, CanHold, Text, Write;
      At(d);
      ghost var pools0, blk0 := pools, blks[d];
      status := Reserve(d, |data|);
      if status != Ok {
        return;
      }
      ghost var owner1, memory1, blk1 := owner, memory, blks[d];
      RoomIs(pools0, blk0, |data|, pools, blk1);
      Append(d, data);
      KeptTwice(d, old(owner), old(memory), owner1, memory1, owner, memory);
    }

    /** `BufblkBuf`: appends the contents of a buffer, which may be the same one. */
    method BufblkBuf(d: nat, e: nat) returns (status: Status)
      requires Valid() && d in blks && e in blks
      modifies `pools, `owner, `memory, `blks
      ensures Valid() && d in blks && BlocksKept(d, old(owner), old(memory), owner, memory)
      ensures status == if CanHold(old(pools), old(blks)[d], |old(Contents(e))|) then Ok else Error
      ensures status == Error ==> unchanged(this)
      ensures status == Ok ==> Contents(d) == old(Contents(d)) + old(Contents(e)) && Terminated(d)
      ensures status == Ok ==> BuffersKept(d, old(blks), blks)
    {
      hide PoolsOk, Accounted, MemoryOk, OwnersOk, HeadersOk, Recorded, BlocksKept, Physical, Capacity, CanHold, Text,
           AppendedIn;
      At(e);
      LengthOf(e);
      At(d);
      GrowthServesIff(blks[d].size, blks[e].len);
      status := BufblkBytes(d, memory[blks[e].buf.value][..blks[e].len]);
    }

    /** `BufblkAppend`: appends zeros, or leaves everything as it was. */
    method BufblkAppend(d: nat, num: u32, size: u32) returns (status: Status)
      requires Valid() && d in blks && Copyable(blks[d], U32(num * size))
      modifies `pools, `owner, `memory, `blks
      ensures Valid() && d in blks && BlocksKept(d, old(owner), old(memory), owner, memory)
      ensures status == if CanHold(old(pools), old(blks)[d], U32(num * size)) then Ok else Error
      ensures status == Error ==> unchanged(this)
      ensures status == Ok ==> Contents(d) == old(Contents(d)) + Zeros(U32(num * size)) && Terminated(d)
      ensures status == Ok ==> BuffersKept(d, old(blks), blks)
    {
      hide PoolsOk, Accounted, MemoryOk, OwnersOk, HeadersOk, Recorded, BlocksKept, Nominal, Physical, Capacity;
      hide RoomMade, CanHold, Text, Write, Zeros;
      At(d);
      ghost var pools0, blk0 := pools, blks[d];
      var totalSize := U32(num * size);
      status := Reserve(d, totalSize);
      if status != Ok {
        return;
      }
      ghost var owner1, memory1, blk1 := owner, memory, blks[d];
      RoomIs(pools0, blk0, totalSize, pools, blk1);
      Append(d, Zeros(totalSize));
      KeptTwice(d, old(owner), old(memory), owner1, memory1, owner, memory);
    }

    /** One turn of `BufblkFmt`: the text is printed at the end, cut where the block ends, and kept if it fits. */
    method Print(d: nat, text: octets) returns (fits: bool)
      requires Valid() && d in blks
      modifies `memory, `blks
      ensures Valid() && d in blks && BlocksKept(d, owner, old(memory), owner, memory) && Terminated(d)
      ensures fits <==> |text| + old(blks)[d].len < old(blks)[d].size
      ensures blks == old(blks)[d := old(blks)[d].(len := old(blks)[d].len + if fits then |text| else 0)]
      ensures Contents(d) == old(Contents(d)) + if fits then text else []
    {
      hide PoolsOk, Accounted, MemoryOk, OwnersOk, HeadersOk, Recorded, BlocksKept, Nominal, Physical, Capacity, Write;
      At(d);
      var len, size := blks[d].len, blks[d].size;
      ghost var b, memory0 := blks[d].buf.value, memory;
      var printed := text[..Min(|text|, size + SIZE_OF_BUF_RESERVED - len - 1)] + [0];
      fits := |text| + len < size;
      var end := if fits then len + |text| else len;
      PrintedFront(memory[b], len, size, text);
      Put(d, len, printed, len);
      ghost var memory1 := memory;
      Put(d, end, [0], end);
      KeptTwice(d, owner, memory0, owner, memory1, owner, memory);
    }

    /** `BufblkFmt`: grows the buffer until the text fits; `text` is what the format gives, if it gives any. */
    method BufblkFmt(d: nat, text: Option<octets>) returns (status: Status)
      requires Valid() && d in blks && (text.Some? ==> blks[d].len + |text.value| < 0x8000_0000)
      modifies `pools, `owner, `memory, `blks
      ensures Valid() && d in blks && BlocksKept(d, old(owner), old(memory), owner, memory) && Terminated(d)
      ensures BuffersKept(d, old(blks), blks) && blks[d].size >= old(blks)[d].size
      ensures status == Ok ==> text.Some? && Contents(d) == old(Contents(d)) + text.value && blks[d].len < blks[d].size
      ensures status != Ok ==> status == Error && Contents(d) == old(Contents(d))
      ensures status == Error && text.Some? ==>
        |pools| == CLASSES && blks[d].len + |text.value| >= blks[d].size && !HasRoom(pools, 2 * blks[d].size)
    {
      hide PoolsOk, Accounted, MemoryOk, OwnersOk, HeadersOk, Recorded, BlocksKept, Nominal, Physical, Capacity;
      hide Write, Text, Ended, MoveBlock, SelectClass, AskedSize;
      ghost var text0 := Contents(d);
      KeptAsIs(d, owner, memory);
      At(d);
      NoneMore(text0);
      while true
        invariant Valid() && d in blks && BlocksKept(d, old(owner), old(memory), owner, memory)
        invariant BuffersKept(d, old(blks), blks) && Contents(d) == text0
        invariant old(blks)[d].size <= blks[d].size <= 65536
        decreases 65536 - blks[d].size
      {
        At(d);
        ghost var owner1, memory1 := owner, memory;
        var fits := Print(d, if text.Some? then text.value else []);
        KeptTwice(d, old(owner), old(memory), owner1, memory1, owner, memory);
        if text.None? {
          return Error;
        }
        if fits {
          return Ok;
        }
        At(d);
        LengthOf(d);
        DoubleSize(blks[d].buf.value.cls);
        TakeAll(text0);
        ghost var memory2 := memory;
        status := BufblkResize(d, 1, 2 * blks[d].size);
        KeptTwice(d, old(owner), old(memory), owner1, memory2, owner, memory);
        if status != Ok {
          return;
        }
      }
    }

    // ----- Blocks without a descriptor ---------------------------------------

    /** `UTLT_Malloc`: a block with its 32-bit size, four octets of it included, written at the front. */
    method Malloc(size: u32) returns (block: Option<Block>)
      requires Valid()
      modifies `pools, `owner, `memory
      ensures Valid() && (block.Some? <==> HasRoom(old(pools), Signed(U32(size + 4))))
      ensures block.None? ==> unchanged(this)
      ensures block.Some? ==> block.value !in old(owner) && owner == old(owner)[block.value := Malloced]
      ensures block.Some? ==> SelectClass(Signed(U32(size + 4))) == Some(block.value.cls)
      ensures block.Some? ==> pools == AllocBlock(old(pools), block.value.cls)
      ensures block.Some? ==> memory == old(memory)[block.value := memory[block.value]]
      ensures block.Some? && size <= 65532 ==> size + 4 <= Nominal(block.value.cls)
    {
      hide PoolsOk, Accounted, MemoryOk, OwnersOk, HeadersOk, Recorded, AllocBlock, Nominal, Physical, Capacity,
           Write, AskedSize;
      var realSize := U32(size + 4);
      AskedForOne(realSize);
      AskedAsIs(Min(size + 4, 65536));
      var status, tmp := BufAlloc(1, realSize);
      if status != Ok {
        return None;
      }
      var b := tmp.buf.value;
      OwnedAt(pools, owner, memory, b);
      var m := Write(memory[b], 0, PutU32(realSize));
      MemoryWrite(memory, b, m);
      HeaderWritten(memory[b], realSize);
      MallocOwners(blks, old(owner), memory, b, m);
      RelabelAccounted(pools, owner, b, Malloced);
      owner := owner[b := Malloced];
      memory := memory[b := m];
      assert owner == old(owner)[b := Malloced];
      block := Some(b);
    }

    /** `UTLT_Free`: the size at the front leads the block back to the pool it came from. */
    method FreeMalloced(block: Block) returns (status: Status)
      requires Valid() && block in owner && owner[block] == Malloced
      modifies `pools, `owner
      ensures Valid() && status == Ok
      ensures pools == FreeBlock(old(pools), block) && owner == old(owner) - {block}
    {
      hide PoolsOk, Accounted, MemoryOk, OwnersOk, Recorded, FreeBlock, Nominal, Physical, Capacity, GetU32;
      OwnedAt(pools, owner, memory, block);
      FreeOwners(blks, owner, memory, block);
      status := BufFree(Bufblk(Some(block), Signed(GetU32(memory[block])), 0));
    }
  }
}
