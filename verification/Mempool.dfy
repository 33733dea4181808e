/** The block pool: a ring of free block addresses, a ring of sent ones, and a counting semaphore. */
module Mempool {
  import opened MachineWords
  import opened UsbDefs
  import opened Wrappers
  import opened Memcpy
  import opened RingBuffer

  const MAX_BLOCK_COUNT: int := 16  // CONFIG_USB_MEMPOOL_MAX_BLOCK_COUNT
  const SIZEOF_PTR: int := 4        // sizeof(uintptr_t) on a 32-bit machine

  // ---------- specification ----------

  /** The addresses queued in the two rings, oldest first, and the semaphore count. */
  datatype PoolView = PoolView(free: seq<uint32>, sent: seq<uint32>, sem: nat)

  /** The address of block i. */
  function Address(block: nat, size: nat, i: nat): (x: nat)
    ensures x >= block
  {
    if i == 0 then block else Address(block, size, i - 1) + size
  }

  lemma {:induction false} AddressMono(block: nat, size: nat, i: nat, j: nat)
    requires i <= j
    ensures Address(block, size, i) <= Address(block, size, j)
  {
    if i < j {
      AddressMono(block, size, i, j - 1);
    }
  }

  /** The blocks end within a 32-bit address space. */
  predicate InMemory(block: nat, size: nat, count: nat) {
    Address(block, size, count) < 0x1_0000_0000
  }

  function BlockAddress(block: nat, size: nat, count: nat, i: nat): uint32
    requires InMemory(block, size, count) && i < count
  {
    AddressMono(block, size, i, count);
    Address(block, size, i)
  }

  /** The addresses of count blocks. */
  ghost function Blocks(block: nat, size: nat, count: nat): (s: seq<uint32>)
    requires InMemory(block, size, count)
    ensures |s| == count
  {
    seq(count, i requires 0 <= i < count => BlockAddress(block, size, count, i))
  }

  lemma {:induction false} AddressIs(block: nat, size: nat, i: nat)
    ensures Address(block, size, i) == block + i * size
  {
    if i > 0 {
      AddressIs(block, size, i - 1);
      assert (i - 1) * size + size == i * size;
    }
  }

  /** The value alloc returns is 0, the null pointer, when no block is free. */
  function AllocStep(v: PoolView): (PoolView, uint32) {
    if v.free == [] then (v, 0) else (v.(free := v.free[1..]), v.free[0])
  }

  function FreeStep(v: PoolView, count: nat, x: uint32): (PoolView, nat) {
    if |v.free| < count then (v.(free := v.free + [x]), SIZEOF_PTR) else (v, 0)
  }

  function SendStep(v: PoolView, count: nat, x: uint32): (PoolView, int) {
    var q := if |v.sent| < count then v.sent + [x] else v.sent;
    if v.sem < count then (PoolView(v.free, q, v.sem + 1), 0) else (PoolView(v.free, q, v.sem), TIMEOUT)
  }

  /** A receive that does not wait. */
  function RecvStep(v: PoolView): (PoolView, Option<uint32>) {
    if v.sem == 0 then (v, None)
    else if v.sent == [] then (v.(sem := v.sem - 1), None)
    else (PoolView(v.free, v.sent[1..], v.sem - 1), Some(v.sent[0]))
  }

  /** Reset requeues every block and leaves the semaphore alone. */
  function ResetStep(v: PoolView, blocks: seq<uint32>): PoolView {
    PoolView(blocks, [], v.sem)
  }

  // ---------- implementation ----------

  /** The bytes of a queue of addresses. */
  ghost function Bytes(items: seq<uint32>): (b: seq<byte>)
    ensures |b| == 4 * |items|
  {
    seq(4 * |items|, i requires 0 <= i < 4 * |items| => StoreLE(items[i / 4])[i % 4])
  }

  lemma BytesSnoc(items: seq<uint32>, x: uint32)
    ensures Bytes(items + [x]) == Bytes(items) + StoreLE(x)
  {
  }

  lemma BytesHead(items: seq<uint32>)
    requires items != []
    ensures Bytes(items)[..4] == StoreLE(items[0]) && Bytes(items)[4..] == Bytes(items[1..])
  {
  }

  /** usb_mempool_create succeeds, given memory for a semaphore, just for 1, 2, 4, 8 or 16 blocks of a
      multiple of four bytes. */
  predicate Creatable(size: nat, count: nat) {
    (count == 1 || count == 2 || count == 4 || count == 8 || count == 16) && size % 4 == 0
  }

  lemma {:induction false} Pow2Grows(k: nat)
    requires k >= 6
    ensures Pow2(k) >= 64
  {
    if k > 6 {
      Pow2Grows(k - 1);
    } else {
      assert Pow2(6) == 64;
    }
  }

  lemma CountTest(count: nat)
    requires count <= MAX_BLOCK_COUNT
    ensures (4 * count >= 2 && IsPow2(4 * count)) <==>
      (count == 1 || count == 2 || count == 4 || count == 8 || count == 16)
  {
    assert Pow2(2) == 4 && Pow2(3) == 8 && Pow2(4) == 16 && Pow2(5) == 32 && Pow2(6) == 64;
    if IsPow2(4 * count) {
      var k: nat :| 4 * count == Pow2(k);
      if k > 6 {
        Pow2Grows(k - 1);
      }
    }
  }

  /** usb_mempool. */
  class UsbMempool {
    const inRing: Ring
    const outRing: Ring
    var outSem: nat
    var block: uint32
    var blockSize: nat
    var blockCount: nat
    const inBuf: Buffer
    const outBuf: Buffer
    // the queues the rings hold
    ghost var free: seq<uint32>
    ghost var sent: seq<uint32>

    constructor (inAddr: nat, outAddr: nat)
      ensures Separate() && fresh(inRing) && fresh(outRing) && fresh(inBuf.bytes) && fresh(outBuf.bytes)
    {
      inRing := new Ring();
      outRing := new Ring();
      var a, b := new byte[64], new byte[64];
      inBuf, outBuf := Buffer(a, inAddr), Buffer(b, outAddr);
      outSem, block, blockSize, blockCount := 0, 0, 0, 0;
    }

    ghost predicate Separate() {
      && inRing != outRing && inBuf.bytes != outBuf.bytes
      && inBuf.bytes.Length == 64 && outBuf.bytes.Length == 64
    }

    /** Ring r has room for `room` addresses and holds `items`. */
    static ghost predicate RingHolds(r: Ring, room: nat, items: seq<uint32>)
      reads r, r.pool.bytes
    {
      r.Valid() && r.Capacity() == SIZEOF_PTR * room && r.Contents() == Bytes(items)
    }

    ghost predicate Valid()
      reads this`block, this`blockSize, this`blockCount, this`free, this`sent
      reads inRing, outRing, inRing.pool.bytes, outRing.pool.bytes
    {
      && Separate() && inRing.pool == inBuf && outRing.pool == outBuf
      && Creatable(blockSize, blockCount) && InMemory(block, blockSize, blockCount)
      && RingHolds(inRing, blockCount, free) && RingHolds(outRing, blockCount, sent)
    }

    ghost function View(): PoolView
      reads this
    {
      PoolView(free, sent, outSem)
    }

    /** usb_ringbuffer_write of one address: all four bytes or, when the ring is full, none. */
    static method PutItem(r: Ring, ghost room: nat, ghost items: seq<uint32>, x: uint32) returns (n: uint32)
      requires RingHolds(r, room, items)
      modifies r`wr, r.pool.bytes
      ensures n == if |items| < room then SIZEOF_PTR else 0
      ensures RingHolds(r, room, if |items| < room then items + [x] else items)
    {
      var addr := new byte[4](i requires 0 <= i < 4 => StoreLE(x)[i]);
      assert addr[..4] == StoreLE(x);
      BytesSnoc(items, x);
      n := r.Write(Buffer(addr, 0), 4);
    }

    /** usb_ringbuffer_read of one address: all four bytes or, when the ring is empty, none. */
    static method TakeItem(r: Ring, ghost room: nat, ghost items: seq<uint32>) returns (n: uint32, x: uint32)
      requires RingHolds(r, room, items)
      modifies r`rd
      ensures n == if items == [] then 0 else SIZEOF_PTR
      ensures items != [] ==> x == items[0]
      ensures RingHolds(r, room, if items == [] then items else items[1..])
    {
      var addr := new byte[4](_ => 0);
      ghost var c := r.Contents();
      n := r.Read(Buffer(addr, 0), 4);
      x := LoadLE(addr[..]);
      if items != [] {
        BytesHead(items);
        assert addr[..n] == addr[..];
        assert c[..4] == addr[..] && c[4..] == r.Contents();
        LoadStore(items[0]);
      }
    }

    /** The two ring initialisations of create. */
    method InitRings(blockCount: nat) returns (rc: int)
      requires Separate() && blockCount <= MAX_BLOCK_COUNT
      modifies inRing, outRing
      ensures rc == 0 || rc == -1
      ensures rc == 0 <==> 4 * blockCount >= 2 && IsPow2(4 * blockCount)
      ensures rc == 0 ==> inRing.pool == inBuf && RingHolds(inRing, blockCount, [])
      ensures rc == 0 ==> outRing.pool == outBuf && RingHolds(outRing, blockCount, [])
    {
      rc := inRing.Init(inBuf, SIZEOF_PTR * blockCount);
      if rc == -1 {
        return;
      }
      rc := outRing.Init(outBuf, SIZEOF_PTR * blockCount);
    }

    /** usb_mempool_create; semOk tells whether the semaphore could be allocated. */
    method Create(block: uint32, blockSize: nat, blockCount: nat, semOk: bool) returns (rc: int)
      requires Separate() && InMemory(block, blockSize, blockCount)
      modifies this, inRing, outRing, inBuf.bytes, outBuf.bytes
      ensures rc == 0 || rc == -1
      ensures rc == 0 <==> blockCount in {1, 2, 4, 8, 16} && blockSize % 4 == 0 && semOk
      ensures rc == 0 ==> Valid() && this.block == block && this.blockSize == blockSize && this.blockCount == blockCount
      ensures rc == 0 ==> View() == PoolView(Blocks(block, blockSize, blockCount), [], 0)
    {
      if blockCount > MAX_BLOCK_COUNT {
        return -1;
      }
      CountTest(blockCount);
      if blockSize % 4 != 0 {
        return -1;
      }
      rc := InitRings(blockCount);
      if rc == -1 {
        return;
      }
      if !semOk {
        return -1;
      }
      outSem := 0;
      Populate(block, blockSize, blockCount);
    }

    /** The end of create: the fields are set and every block is queued. */
    method Populate(block: uint32, blockSize: nat, blockCount: nat)
      requires Separate() && Creatable(blockSize, blockCount) && InMemory(block, blockSize, blockCount)
      requires inRing.pool == inBuf && RingHolds(inRing, blockCount, [])
      requires outRing.pool == outBuf && RingHolds(outRing, blockCount, [])
      modifies this`block, this`blockSize, this`blockCount, this`free, this`sent, inRing`wr, inBuf.bytes
      ensures Valid() && this.block == block && this.blockSize == blockSize && this.blockCount == blockCount
      ensures free == Blocks(block, blockSize, blockCount) && sent == []
    {
      this.block, this.blockSize, this.blockCount := block, blockSize, blockCount;
      free, sent := [], [];
      Fill();
    }

    /** The loop of create and reset that queues every block. */
    method Fill()
      requires Valid() && free == []
      modifies this`free, inRing`wr, inRing.pool.bytes
      ensures Valid() && free == Blocks(block, blockSize, blockCount)
    {
      ghost var all := Blocks(block, blockSize, blockCount);
      for i := 0 to blockCount
        invariant Valid() && free == all[..i]
      {
        QueueBlock(i, all);
      }
    }

    /** One pass of the loop: block i joins the free ring. */
    method QueueBlock(i: nat, ghost all: seq<uint32>)
      requires Valid() && i < blockCount && |all| == blockCount && free == all[..i]
      requires all == Blocks(block, blockSize, blockCount)
      modifies this`free, inRing`wr, inRing.pool.bytes
      ensures Valid() && free == all[..i + 1]
    {
      AddressIs(block, blockSize, i);
      assert all[i] == Address(block, blockSize, i);
      var item := block + i * blockSize;
      var _ := Free(item);
    }

    /** usb_mempool_alloc. */
    method Alloc() returns (item: uint32)
      requires Valid()
      modifies this`free, inRing`rd
      ensures Valid() && View() == AllocStep(old(View())).0 && item == AllocStep(old(View())).1
    {
      var n, x := TakeItem(inRing, blockCount, free);
      if n == 0 {
        item := 0;
      } else {
        item := x;
        free := free[1..];
      }
    }

    /** usb_mempool_free. */
    method Free(item: uint32) returns (n: uint32)
      requires Valid()
      modifies this`free, inRing`wr, inRing.pool.bytes
      ensures Valid() && View() == FreeStep(old(View()), blockCount, item).0
      ensures n == FreeStep(old(View()), blockCount, item).1
    {
      n := QueueFree(item);
    }

    /** The ring write of free. */
    method QueueFree(item: uint32) returns (n: uint32)
      requires Valid()
      modifies this`free, inRing`wr, inRing.pool.bytes
      ensures Valid() && free == (if |old(free)| < blockCount then old(free) + [item] else old(free))
      ensures n == if |old(free)| < blockCount then SIZEOF_PTR else 0
    {
      n := PutItem(inRing, blockCount, free, item);
      free := if |free| < blockCount then free + [item] else free;
    }

    /** usb_osal_sem_give on a semaphore of maximum count blockCount. */
    method Give() returns (ret: int)
      modifies this`outSem
      ensures outSem == (if old(outSem) < blockCount then old(outSem) + 1 else old(outSem))
      ensures ret == if old(outSem) < blockCount then 0 else TIMEOUT
    {
      if outSem < blockCount {
        outSem := outSem + 1;
        return 0;
      }
      return TIMEOUT;
    }

    /** usb_mempool_send. */
    method Send(item: uint32) returns (ret: int)
      requires Valid()
      modifies this`sent, this`outSem, outRing`wr, outRing.pool.bytes
      ensures Valid() && View() == SendStep(old(View()), blockCount, item).0
      ensures ret == SendStep(old(View()), blockCount, item).1
    {
      QueueSent(item);
      ret := Give();
    }

    /** The ring write of send, whose result the source ignores. */
    method QueueSent(item: uint32)
      requires Valid()
      modifies this`sent, outRing`wr, outRing.pool.bytes
      ensures Valid()
      ensures View() == old(View()).(sent := if |old(sent)| < blockCount then old(sent) + [item] else old(sent))
    {
      var _ := PutItem(outRing, blockCount, sent, item);
      sent := if |sent| < blockCount then sent + [item] else sent;
    }

    /** usb_mempool_recv without waiting. */
    method Recv() returns (rc: int, item: uint32)
      requires Valid()
      modifies this`sent, this`outSem, outRing`rd
      ensures Valid() && View() == RecvStep(old(View())).0
      ensures match RecvStep(old(View())).1 case Some(x) => rc == 0 && item == x case None => rc == -1
    {
      item := 0;
      if outSem == 0 {
        return -1, item;
      }
      outSem := outSem - 1;
      var n, x := TakeItem(outRing, blockCount, sent);
      if n == 0 {
        return -1, item;
      }
      sent := sent[1..];
      return 0, x;
    }

    /** usb_mempool_reset. */
    method Reset()
      requires Valid()
      modifies this`free, this`sent, inRing`wr, inRing`rd, outRing`wr, outRing`rd, inRing.pool.bytes
      ensures Valid() && View() == ResetStep(old(View()), Blocks(block, blockSize, blockCount))
    {
      inRing.Reset();
      outRing.Reset();
      free, sent := [], [];
      Fill();
    }
  }

  /** Block i lies i block sizes behind the first. */
  lemma BlocksAre(block: nat, size: nat, count: nat, i: nat)
    requires InMemory(block, size, count) && i < count
    ensures Blocks(block, size, count)[i] == block + i * size
  {
    AddressIs(block, size, i);
  }

  /** Queues are served oldest first; a receive takes the semaphore whether or not it then finds a block; nothing else
      changes. */
  lemma StepMeanings(v: PoolView, count: nat, x: uint32, blocks: seq<uint32>)
    ensures var (a, y) := AllocStep(v);
      && a.sent == v.sent && a.sem == v.sem
      && if v.free == [] then a.free == [] && y == 0 else v.free == [y] + a.free
    ensures var (f, n) := FreeStep(v, count, x);
      && f.sent == v.sent && f.sem == v.sem
      && if |v.free| < count then f.free == v.free + [x] && n == 4 else f.free == v.free && n == 0
    ensures var (s, ret) := SendStep(v, count, x);
      && s.free == v.free
      && s.sent == (if |v.sent| < count then v.sent + [x] else v.sent)
      && (ret == 0 <==> v.sem < count) && (ret == 0 || ret == -14) && s.sem == v.sem + if ret == 0 then 1 else 0
    ensures var (r, got) := RecvStep(v);
      && r.free == v.free
      && (v.sem == 0 ==> r == v && got == None)
      && (v.sem > 0 ==> r.sem == v.sem - 1)
      && (v.sem > 0 && v.sent == [] ==> r.sent == [] && got == None)
      && (v.sem > 0 && v.sent != [] ==> got.Some? && v.sent == [got.value] + r.sent)
    ensures ResetStep(v, blocks) == PoolView(blocks, [], v.sem)
  {
  }

  // ---------- runs of disciplined clients ----------

  datatype Event = AllocEvent | FreeEvent(x: uint32) | SendEvent(x: uint32) | RecvEvent | ResetEvent

  /** The pool and the blocks its clients hold. */
  datatype Sys = Sys(v: PoolView, held: multiset<uint32>)

  /** Clients free or send only blocks they hold, and reset only when nobody holds one. */
  ghost predicate Disciplined(s: Sys, e: Event) {
    match e
    case FreeEvent(x) => x in s.held
    case SendEvent(x) => x in s.held
    case ResetEvent => s.held == multiset{}
    case _ => true
  }

  ghost function Step(blocks: seq<uint32>, s: Sys, e: Event): Sys {
    match e
    case AllocEvent =>
      Sys(AllocStep(s.v).0, if s.v.free == [] then s.held else s.held + multiset{AllocStep(s.v).1})
    case FreeEvent(x) => Sys(FreeStep(s.v, |blocks|, x).0, s.held - multiset{x})
    case SendEvent(x) => Sys(SendStep(s.v, |blocks|, x).0, s.held - multiset{x})
    case RecvEvent =>
      var r := RecvStep(s.v);
      Sys(r.0, if r.1.Some? then s.held + multiset{r.1.value} else s.held)
    case ResetEvent => s.(v := ResetStep(s.v, blocks))
  }

  ghost predicate IsRun(blocks: seq<uint32>, s: Sys, events: seq<Event>)
    decreases |events|
  {
    events == [] || (Disciplined(s, events[0]) && IsRun(blocks, Step(blocks, s, events[0]), events[1..]))
  }

  ghost function Final(blocks: seq<uint32>, s: Sys, events: seq<Event>): Sys
    decreases |events|
  {
    if events == [] then s else Final(blocks, Step(blocks, s, events[0]), events[1..])
  }

  /** A pool just created. */
  ghost function Created(blocks: seq<uint32>): Sys {
    Sys(PoolView(blocks, [], 0), multiset{})
  }

  /** The free ring, the out ring and the clients' hands hold every block exactly as often as the pool has it. */
  ghost predicate Conserved(blocks: seq<uint32>, s: Sys) {
    multiset(s.v.free) + multiset(s.v.sent) + s.held == multiset(blocks)
  }

  ghost predicate Inv(blocks: seq<uint32>, s: Sys) {
    Conserved(blocks, s) && |s.v.sent| <= s.v.sem <= |blocks|
  }

  lemma Sizes(blocks: seq<uint32>, s: Sys)
    requires Conserved(blocks, s)
    ensures |s.v.free| + |s.v.sent| + |s.held| == |blocks|
  {
    assert |multiset(s.v.free) + multiset(s.v.sent) + s.held| == |multiset(blocks)|;
  }

  /** Taking the head of a queue moves one occurrence out of it. */
  lemma HeadOut(q: seq<uint32>)
    requires q != []
    ensures multiset(q) == multiset{q[0]} + multiset(q[1..])
  {
    assert q == [q[0]] + q[1..];
  }

  lemma QueueingInv(blocks: seq<uint32>, s: Sys, e: Event)
    requires Inv(blocks, s) && Disciplined(s, e) && (e.FreeEvent? || e.SendEvent?)
    ensures Inv(blocks, Step(blocks, s, e))
  {
    Sizes(blocks, s);
    var rest := s.held - multiset{e.x};
    assert s.held == rest + multiset{e.x};
    assert |s.held| == |rest| + 1;
    var q := if e.FreeEvent? then s.v.free else s.v.sent;
    assert multiset(q + [e.x]) == multiset(q) + multiset{e.x};
  }

  lemma TakingInv(blocks: seq<uint32>, s: Sys, e: Event)
    requires Inv(blocks, s) && (e.AllocEvent? || e.RecvEvent?)
    ensures Inv(blocks, Step(blocks, s, e))
  {
    if e.AllocEvent? && s.v.free != [] {
      HeadOut(s.v.free);
    }
    if e.RecvEvent? && s.v.sent != [] {
      HeadOut(s.v.sent);
    }
  }

  lemma StepInv(blocks: seq<uint32>, s: Sys, e: Event)
    requires Inv(blocks, s) && Disciplined(s, e)
    ensures Inv(blocks, Step(blocks, s, e))
  {
    if e.FreeEvent? || e.SendEvent? {
      QueueingInv(blocks, s, e);
    } else if e.AllocEvent? || e.RecvEvent? {
      TakingInv(blocks, s, e);
    }
  }

  /** A reset keeps the blocks conserved iff nobody holds one: otherwise a held block is also free again. */
  lemma ResetConservesExactly(blocks: seq<uint32>, s: Sys)
    requires Conserved(blocks, s)
    ensures Conserved(blocks, Step(blocks, s, ResetEvent)) <==> s.held == multiset{}
  {
    var t := Step(blocks, s, ResetEvent);
    assert multiset(t.v.free) + multiset(t.v.sent) + t.held == multiset(blocks) + s.held;
    assert |multiset(blocks) + s.held| == |multiset(blocks)| + |s.held|;
  }

  lemma {:induction false} RunInv(blocks: seq<uint32>, s: Sys, events: seq<Event>)
    requires Inv(blocks, s) && IsRun(blocks, s, events)
    ensures Inv(blocks, Final(blocks, s, events))
    decreases |events|
  {
    if events != [] {
      StepInv(blocks, s, events[0]);
      RunInv(blocks, Step(blocks, s, events[0]), events[1..]);
    }
  }

  /** Over every run of disciplined clients, resets included, the blocks are conserved, the semaphore never
      undercounts the sent blocks, and it stays within its maximum. */
  lemma {:induction false} BlocksConserved(blocks: seq<uint32>, events: seq<Event>)
    requires IsRun(blocks, Created(blocks), events)
    ensures Inv(blocks, Final(blocks, Created(blocks), events))
  {
    RunInv(blocks, Created(blocks), events);
  }

  /** So no free or send of a held block is ever cut short. */
  lemma {:induction false} NeverTruncated(blocks: seq<uint32>, events: seq<Event>, x: uint32)
    requires IsRun(blocks, Created(blocks), events)
    requires x in Final(blocks, Created(blocks), events).held
    ensures var v := Final(blocks, Created(blocks), events).v;
      && FreeStep(v, |blocks|, x) == (v.(free := v.free + [x]), SIZEOF_PTR)
      && SendStep(v, |blocks|, x).0.sent == v.sent + [x]
  {
    BlocksConserved(blocks, events);
    Sizes(blocks, Final(blocks, Created(blocks), events));
  }

  /** A receive that does not wait succeeds iff a block is queued, and takes the oldest. */
  lemma {:induction false} RecvOldest(blocks: seq<uint32>, events: seq<Event>)
    requires IsRun(blocks, Created(blocks), events)
    ensures var v := Final(blocks, Created(blocks), events).v;
      RecvStep(v).1 == if v.sent == [] then None else Some(v.sent[0])
  {
    BlocksConserved(blocks, events);
  }

  lemma {:induction false} AddressesDiffer(block: nat, size: nat, i: nat, j: nat)
    requires size > 0 && i < j
    ensures Address(block, size, i) < Address(block, size, j)
  {
    if i < j - 1 {
      AddressesDiffer(block, size, i, j - 1);
    }
  }

  /** No address is in two places, or twice in one. */
  ghost predicate Unshared(s: Sys) {
    forall x :: multiset(s.v.free)[x] + multiset(s.v.sent)[x] + s.held[x] <= 1
  }

  lemma ConservedCount(blocks: seq<uint32>, s: Sys, x: uint32)
    requires Conserved(blocks, s)
    ensures multiset(s.v.free)[x] + multiset(s.v.sent)[x] + s.held[x] == multiset(blocks)[x]
  {
    assert (multiset(s.v.free) + multiset(s.v.sent) + s.held)[x] == multiset(blocks)[x];
  }

  lemma DistinctBlocks(block: nat, size: nat, count: nat, x: uint32)
    requires InMemory(block, size, count) && (size > 0 || count <= 1)
    ensures multiset(Blocks(block, size, count))[x] <= 1
  {
    var blocks := Blocks(block, size, count);
    forall i, j | 0 <= i < j < count
      ensures blocks[i] != blocks[j]
    {
      AddressesDiffer(block, size, i, j);
    }
    DistinctCount(blocks, x);
  }

  lemma EmptyBlocks(block: nat, count: nat)
    requires InMemory(block, 0, count) && count > 1
    ensures multiset(Blocks(block, 0, count))[Blocks(block, 0, count)[0]] >= 2
  {
    var blocks := Blocks(block, 0, count);
    var x := blocks[0];
    AddressIs(block, 0, 0);
    AddressIs(block, 0, 1);
    assert blocks == [x, x] + blocks[2..];
  }

  /** Over every run, no address is ever in two places, or twice in one, iff the blocks have a size or there is only
      one: creation accepts blocks of size zero, which all have the same address. */
  lemma NoDuplicates(block: nat, size: nat, count: nat, events: seq<Event>)
    requires InMemory(block, size, count)
    requires IsRun(Blocks(block, size, count), Created(Blocks(block, size, count)), events)
    ensures Unshared(Final(Blocks(block, size, count), Created(Blocks(block, size, count)), events)) <==>
      size > 0 || count <= 1
  {
    var blocks := Blocks(block, size, count);
    var s := Final(blocks, Created(blocks), events);
    BlocksConserved(blocks, events);
    if size > 0 || count <= 1 {
      forall x
        ensures multiset(s.v.free)[x] + multiset(s.v.sent)[x] + s.held[x] <= 1
      {
        ConservedCount(blocks, s, x);
        DistinctBlocks(block, size, count, x);
      }
    } else {
      EmptyBlocks(block, count);
      ConservedCount(blocks, s, blocks[0]);
    }
  }

  lemma {:induction false} DistinctCount(s: seq<uint32>, x: uint32)
    requires forall i, j :: 0 <= i < j < |s| ==> s[i] != s[j]
    ensures multiset(s)[x] <= 1
    decreases |s|
  {
    if s != [] {
      var init, last := s[..|s| - 1], s[|s| - 1];
      assert s == init + [last];
      DistinctCount(init, x);
      if x == last {
        assert x !in init;
      }
    }
  }

  /** The semaphore counts the queued blocks exactly. */
  ghost predicate SemExact(s: Sys) {
    s.v.sem == |s.v.sent|
  }

  /** From an exact count, an event keeps it exact iff it is not a reset that finds a block queued. */
  lemma SemExactStep(blocks: seq<uint32>, s: Sys, e: Event)
    requires Inv(blocks, s) && SemExact(s) && Disciplined(s, e)
    ensures SemExact(Step(blocks, s, e)) <==> !(e.ResetEvent? && s.v.sent != [])
  {
    Sizes(blocks, s);
    if e.SendEvent? {
      assert s.held == s.held - multiset{e.x} + multiset{e.x};
      assert |s.held| >= 1;
    }
  }

  /** Every reset of the run finds the out ring empty. */
  ghost predicate QuietResets(blocks: seq<uint32>, s: Sys, events: seq<Event>)
    requires IsRun(blocks, s, events)
    decreases |events|
  {
    events == [] ||
    ((events[0].ResetEvent? ==> s.v.sent == []) && QuietResets(blocks, Step(blocks, s, events[0]), events[1..]))
  }

  /** The count is exact in every state of the run. */
  ghost predicate ExactThroughout(blocks: seq<uint32>, s: Sys, events: seq<Event>)
    requires IsRun(blocks, s, events)
    decreases |events|
  {
    SemExact(s) && (events == [] || ExactThroughout(blocks, Step(blocks, s, events[0]), events[1..]))
  }

  lemma {:induction false} ExactIffQuiet(blocks: seq<uint32>, s: Sys, events: seq<Event>)
    requires Inv(blocks, s) && SemExact(s) && IsRun(blocks, s, events)
    ensures ExactThroughout(blocks, s, events) <==> QuietResets(blocks, s, events)
    decreases |events|
  {
    if events != [] {
      var t := Step(blocks, s, events[0]);
      StepInv(blocks, s, events[0]);
      SemExactStep(blocks, s, events[0]);
      if SemExact(t) {
        ExactIffQuiet(blocks, t, events[1..]);
      }
    }
  }

  lemma {:induction false} ExactAtEnd(blocks: seq<uint32>, s: Sys, events: seq<Event>)
    requires IsRun(blocks, s, events) && ExactThroughout(blocks, s, events)
    ensures SemExact(Final(blocks, s, events))
    decreases |events|
  {
    if events != [] {
      ExactAtEnd(blocks, Step(blocks, s, events[0]), events[1..]);
    }
  }

  /** The semaphore counts the queued blocks exactly throughout a run from creation iff no reset finds a block
      queued, and then every send of a held block reports success. */
  lemma SemExactExactly(blocks: seq<uint32>, events: seq<Event>)
    requires IsRun(blocks, Created(blocks), events)
    ensures ExactThroughout(blocks, Created(blocks), events) <==> QuietResets(blocks, Created(blocks), events)
    ensures QuietResets(blocks, Created(blocks), events) ==>
      var f := Final(blocks, Created(blocks), events);
      SemExact(f) && forall x :: x in f.held ==> SendStep(f.v, |blocks|, x).1 == 0
  {
    ExactIffQuiet(blocks, Created(blocks), events);
    if QuietResets(blocks, Created(blocks), events) {
      ExactAtEnd(blocks, Created(blocks), events);
      BlocksConserved(blocks, events);
      Sizes(blocks, Final(blocks, Created(blocks), events));
    }
  }

  /** Over every run, a send of a held block queues it, and reports success iff the semaphore is below its
      maximum, which is iff fewer counts are left over from resets than there are blocks not queued. */
  lemma SendAnswer(blocks: seq<uint32>, events: seq<Event>, x: uint32)
    requires IsRun(blocks, Created(blocks), events)
    requires x in Final(blocks, Created(blocks), events).held
    ensures var s := Final(blocks, Created(blocks), events);
      var (v, ret) := SendStep(s.v, |blocks|, x);
      && v.sent == s.v.sent + [x]
      && (ret == 0 <==> s.v.sem < |blocks|)
      && (ret == 0 <==> s.v.sem - |s.v.sent| < |s.v.free| + |s.held|)
  {
    NeverTruncated(blocks, events, x);
    BlocksConserved(blocks, events);
    Sizes(blocks, Final(blocks, Created(blocks), events));
  }

  /** After a reset with a block queued, the semaphore keeps its count: a send can then queue its block and
      still report a failure. */
  lemma SendReportsFailure(x: uint32)
    ensures var blocks := [x];
      var events := [AllocEvent, SendEvent(x), ResetEvent, AllocEvent];
      && IsRun(blocks, Created(blocks), events)
      && var s := Final(blocks, Created(blocks), events);
         x in s.held && SendStep(s.v, 1, x) == (PoolView([], [x], 1), TIMEOUT)
  {
    var blocks := [x];
    var s0 := Created(blocks);
    assert [x][1..] == [] && [] + [x] == [x];
    var s1 := Sys(PoolView([], [], 0), multiset{x});
    var s2 := Sys(PoolView([], [x], 1), multiset{});
    var s3 := Sys(PoolView([x], [], 1), multiset{});
    var s4 := Sys(PoolView([], [], 1), multiset{x});
    assert Step(blocks, s0, AllocEvent) == s1 && Step(blocks, s1, SendEvent(x)) == s2;
    assert Step(blocks, s2, ResetEvent) == s3 && Step(blocks, s3, AllocEvent) == s4;
    var e3: seq<Event> := [AllocEvent];
    assert e3[1..] == [] && IsRun(blocks, s3, e3) && Final(blocks, s3, e3) == s4;
    var e2: seq<Event> := [ResetEvent, AllocEvent];
    assert e2[1..] == e3 && IsRun(blocks, s2, e2) && Final(blocks, s2, e2) == s4;
    var e1: seq<Event> := [SendEvent(x), ResetEvent, AllocEvent];
    assert e1[1..] == e2 && IsRun(blocks, s1, e1) && Final(blocks, s1, e1) == s4;
    var e0: seq<Event> := [AllocEvent, SendEvent(x), ResetEvent, AllocEvent];
    assert e0[1..] == e1 && IsRun(blocks, s0, e0) && Final(blocks, s0, e0) == s4;
  }
}
