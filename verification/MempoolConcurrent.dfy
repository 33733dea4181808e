/** The block pool used without a lock by four parties: one allocates, one frees, one sends and one receives, each
    from a context of its own. Every index load, byte copy and index store of the two rings, and every give and take
    of the semaphore, is a step; steps interleave arbitrarily. An interrupt that allocates and sends and a thread
    that receives and frees are a case of this. */
module MempoolConcurrent {
  import opened MachineWords
  import opened Wrappers
  import Pool = Mempool
  import Ring = RingConcurrent
  import Sequential = RingBuffer

  // ---------- one ring of block addresses ----------

  /** A ring, the block whose write is under way, every block ever queued, and how many of these were taken. */
  datatype Queue = Queue(ring: Ring.State, writing: Option<uint32>, items: seq<uint32>, taken: nat)
  {
    /** The blocks queued and not taken, oldest first. */
    ghost function Unread(): seq<uint32>
      requires taken <= |items|
    {
      items[taken..]
    }

    /** What a finishing read returns: nothing when it found the ring empty. */
    ghost function Result(): Option<uint32>
      requires ring.reader.RCopy?
    {
      if ring.reader.size == 4 then Some(LoadLE(Ring.Fetched(ring.reader))) else None
    }
  }

  /** The steps of writing one block address and of reading one. */
  datatype QueueStep = Put(x: uint32) | PutByte(i: nat) | Publish | Get | GetByte(i: nat) | Finish
  {
    function OnRing(): Ring.Step {
      match this
      case Put(x) => Ring.WriteLoad(StoreLE(x))
      case PutByte(i) => Ring.WriteByte(i)
      case Publish => Ring.WritePublish
      case Get => Ring.ReadLoad(Ring.Read, 4)
      case GetByte(i) => Ring.ReadByte(i)
      case Finish => Ring.ReadFinish
    }
  }

  ghost predicate CanStep(cap: uint32, q: Queue, e: QueueStep) {
    Ring.Enabled(cap, q.ring, e.OnRing())
  }

  ghost function StepQueue(cap: uint32, q: Queue, e: QueueStep): Queue
    requires cap > 0 && CanStep(cap, q, e)
  {
    var ring := Ring.Apply(cap, q.ring, e.OnRing());
    match e
    case Put(x) => q.(ring := ring, writing := Some(x))
    case Publish =>
      var queued := q.writing.Some? && q.ring.writer.size == 4;
      q.(ring := ring, writing := None, items := if queued then q.items + [q.writing.value] else q.items)
    case Finish => q.(ring := ring, taken := if q.ring.reader.size == 4 then q.taken + 1 else q.taken)
    case _ => q.(ring := ring)
  }

  /** The ring holds whole addresses, and the operations under way move whole ones. */
  ghost predicate ItemsOk(q: Queue) {
    && q.taken <= |q.items|
    && q.ring.accepted == Pool.Bytes(q.items) && |q.ring.consumed| == 4 * q.taken
    && (q.ring.writer.WCopy? <==> q.writing.Some?)
    && (q.writing.Some? ==> q.ring.writer.data == StoreLE(q.writing.value) && q.ring.writer.size == 4)
    && (q.ring.reader.RCopy? ==> q.ring.reader.op.Read? && (q.ring.reader.size == 0 || q.ring.reader.size == 4))
    && (q.ring.reader.RCopy? && q.ring.reader.size == 4 ==> q.taken < |q.items|)
  }

  ghost predicate QueueOk(cap: uint32, q: Queue) {
    Ring.Inv(cap, q.ring) && ItemsOk(q)
  }

  /** What the queue's steps need of the ring's invariant. */
  ghost predicate RingFacts(cap: uint32, s: Ring.State) {
    && 0 < cap && |s.consumed| <= |s.accepted| && |s.accepted| - |s.consumed| == Sub32(s.wr, s.rd) <= cap
    && (s.reader.RCopy? ==> forall i :: i in s.reader.got ==>
          i < s.reader.size && |s.consumed| + i < |s.accepted| && s.reader.got[i] == s.accepted[|s.consumed| + i])
  }

  lemma FactsHold(cap: uint32, s: Ring.State)
    requires Ring.Inv(cap, s)
    ensures RingFacts(cap, s)
  {
  }

  lemma PutItems(cap: uint32, q: Queue, x: uint32)
    requires ItemsOk(q) && RingFacts(cap, q.ring) && CanStep(cap, q, Put(x)) && 4 * |q.Unread()| + 4 <= cap
    ensures ItemsOk(StepQueue(cap, q, Put(x)))
  {
  }

  lemma PublishItems(cap: uint32, q: Queue)
    requires ItemsOk(q) && RingFacts(cap, q.ring) && CanStep(cap, q, Publish)
    ensures q.writing.Some?
    ensures ItemsOk(StepQueue(cap, q, Publish)) && StepQueue(cap, q, Publish).items == q.items + [q.writing.value]
  {
    Pool.BytesSnoc(q.items, q.writing.value);
    var data := q.ring.writer.data;
    assert data[..4] == data;
  }

  lemma GetItems(cap: uint32, q: Queue)
    requires ItemsOk(q) && RingFacts(cap, q.ring) && CanStep(cap, q, Get)
    ensures ItemsOk(StepQueue(cap, q, Get))
    ensures StepQueue(cap, q, Get).ring.reader.size == if q.Unread() == [] then 0 else 4
  {
  }

  lemma ByteItems(cap: uint32, q: Queue, e: QueueStep)
    requires ItemsOk(q) && cap > 0 && CanStep(cap, q, e) && (e.PutByte? || e.GetByte?)
    ensures ItemsOk(StepQueue(cap, q, e))
  {
  }

  lemma BytesAt(items: seq<uint32>, k: nat, i: nat)
    requires k < |items| && i < 4
    ensures 4 * k + i < 4 * |items| && Pool.Bytes(items)[4 * k + i] == StoreLE(items[k])[i]
  {
    assert (4 * k + i) / 4 == k && (4 * k + i) % 4 == i;
  }

  /** A finishing read returns the oldest block. */
  lemma ResultIsOldest(cap: uint32, q: Queue)
    requires ItemsOk(q) && RingFacts(cap, q.ring) && CanStep(cap, q, Finish)
    ensures q.Result() == if q.ring.reader.size == 4 then Some(q.items[q.taken]) else None
  {
    if q.ring.reader.size == 4 {
      var fetched, x := Ring.Fetched(q.ring.reader), q.items[q.taken];
      forall i | 0 <= i < 4
        ensures fetched[i] == StoreLE(x)[i]
      {
        assert i in q.ring.reader.got;
        BytesAt(q.items, q.taken, i);
      }
      assert fetched == StoreLE(x);
      LoadStore(x);
    }
  }

  lemma FinishItems(cap: uint32, q: Queue)
    requires ItemsOk(q) && cap > 0 && CanStep(cap, q, Finish)
    ensures ItemsOk(StepQueue(cap, q, Finish))
  {
  }

  lemma QueueStepOk(cap: uint32, q: Queue, e: QueueStep)
    requires QueueOk(cap, q) && CanStep(cap, q, e) && (e.Put? ==> 4 * |q.Unread()| + 4 <= cap)
    ensures QueueOk(cap, StepQueue(cap, q, e))
  {
    FactsHold(cap, q.ring);
    Ring.StepInv(cap, q.ring, e.OnRing());
    match e
    case Put(x) => PutItems(cap, q, x);
    case Publish => PublishItems(cap, q);
    case Get => GetItems(cap, q);
    case Finish => FinishItems(cap, q);
    case _ => ByteItems(cap, q, e);
  }

  // ---------- the pool ----------

  /** Both rings, the semaphore, the blocks in the parties' hands, and whether a send has yet to give the semaphore
      and a receive has taken it and not yet read. */
  datatype State = State(free: Queue, out: Queue, sem: nat, held: multiset<uint32>, giving: bool, taking: bool)

  /** A step of alloc or free on the free ring, one of send or recv on the out ring, or one on the semaphore. */
  datatype Step = OnFree(e: QueueStep) | OnOut(e: QueueStep) | Give | Take

  /** Clients free and send only blocks they hold. A send writes and then gives; a receive takes, waiting if it must,
      and then reads. */
  ghost predicate Enabled(cap: uint32, s: State, step: Step) {
    match step
    case OnFree(e) => CanStep(cap, s.free, e) && (e.Put? ==> e.x in s.held)
    case OnOut(e) => CanStep(cap, s.out, e) && (e.Put? ==> e.x in s.held && !s.giving) && (e.Get? ==> s.taking)
    case Give => s.giving
    case Take => s.sem > 0 && !s.taking
  }

  /** The block a step puts into a client's hands. */
  ghost function Gained(q: Queue, e: QueueStep): multiset<uint32>
    requires e.Finish? ==> q.ring.reader.RCopy?
  {
    if e.Finish? && q.Result().Some? then multiset{q.Result().value} else multiset{}
  }

  ghost function Lost(e: QueueStep): multiset<uint32> {
    if e.Put? then multiset{e.x} else multiset{}
  }

  /** The semaphore's maximum is the number of blocks. */
  ghost function Apply(cap: uint32, s: State, step: Step): State
    requires cap > 0 && Enabled(cap, s, step)
  {
    match step
    case OnFree(e) => s.(free := StepQueue(cap, s.free, e), held := s.held - Lost(e) + Gained(s.free, e))
    case OnOut(e) => s.(out := StepQueue(cap, s.out, e), held := s.held - Lost(e) + Gained(s.out, e),
                        giving := s.giving || e.Publish?, taking := s.taking && !e.Finish?)
    case Give => s.(sem := if 4 * s.sem < cap then s.sem + 1 else s.sem, giving := false)
    case Take => s.(sem := s.sem - 1, taking := true)
  }

  /** A block whose write is under way. */
  ghost function InFlight(q: Queue): multiset<uint32> {
    if q.writing.Some? then multiset{q.writing.value} else multiset{}
  }

  /** The blocks a queue accounts for. */
  ghost function Owned(q: Queue): multiset<uint32>
    requires q.taken <= |q.items|
  {
    multiset(q.Unread()) + InFlight(q)
  }

  /** Every block is in exactly one place: a ring, a write under way, or a client's hands. */
  ghost predicate Conserved(blocks: seq<uint32>, s: State)
    requires s.free.taken <= |s.free.items| && s.out.taken <= |s.out.items|
  {
    Owned(s.free) + Owned(s.out) + s.held == multiset(blocks)
  }

  function One(b: bool): nat {
    if b then 1 else 0
  }

  /** The semaphore, with a give to come and a take under way, counts the sent blocks. */
  ghost predicate SemOk(s: State)
    requires s.out.taken <= |s.out.items|
  {
    && |s.out.Unread()| == s.sem + One(s.giving) + One(s.taking)
    && (s.out.writing.Some? ==> !s.giving)
    && (s.out.ring.reader.RCopy? ==> s.taking && s.out.ring.reader.size == 4)
  }

  ghost predicate Inv(blocks: seq<uint32>, cap: uint32, s: State) {
    && cap == 4 * |blocks| && QueueOk(cap, s.free) && QueueOk(cap, s.out)
    && Conserved(blocks, s) && SemOk(s)
  }

  /** What a step e that makes q' of q does to the blocks the queue accounts for, to how many it holds, and to the
      operations under way. */
  ghost predicate Effect(q: Queue, e: QueueStep, q': Queue, gained: multiset<uint32>) {
    && q.taken <= |q.items| && q'.taken <= |q'.items|
    && Owned(q') + gained == Owned(q) + Lost(e)
    && |q'.Unread()| == |q.Unread()| + One(e.Publish?) - |gained|
    && (q'.writing.Some? ==> e.Put? || (q.writing.Some? && !e.Publish?))
    && (e.Publish? ==> q.writing.Some?)
    && (e.Finish? ==> q.ring.reader.RCopy? && |gained| == One(q.ring.reader.size == 4))
    && (!e.Finish? ==> gained == multiset{})
    && (q'.ring.reader.RCopy? && e.Get? ==> q'.ring.reader.size == if q.Unread() == [] then 0 else 4)
    && (q'.ring.reader.RCopy? && !e.Get? ==> q.ring.reader.RCopy? && q'.ring.reader.size == q.ring.reader.size)
    && (e.Finish? ==> !q'.ring.reader.RCopy?)
  }

  lemma PublishEffect(cap: uint32, q: Queue)
    requires ItemsOk(q) && RingFacts(cap, q.ring) && CanStep(cap, q, Publish)
    ensures Effect(q, Publish, StepQueue(cap, q, Publish), multiset{})
  {
    PublishItems(cap, q);
    var x := q.writing.value;
    assert (q.items + [x])[q.taken..] == q.Unread() + [x];
  }

  lemma TakeOwned(items: seq<uint32>, taken: nat)
    requires taken < |items|
    ensures multiset(items[taken + 1..]) + multiset{items[taken]} == multiset(items[taken..])
  {
    assert items[taken..] == [items[taken]] + items[taken + 1..];
  }

  /** A finished read, as fields. */
  lemma FinishFields(cap: uint32, q: Queue)
    requires ItemsOk(q) && RingFacts(cap, q.ring) && CanStep(cap, q, Finish)
    ensures var q', full := StepQueue(cap, q, Finish), q.ring.reader.size == 4;
      && q' == q.(ring := q'.ring, taken := q.taken + One(full)) && q'.ring.reader.RIdle?
      && Gained(q, Finish) == (if full then multiset{q.items[q.taken]} else multiset{})
  {
    ResultIsOldest(cap, q);
  }

  lemma FinishEffect(q: Queue, q': Queue, full: bool)
    requires q.taken <= |q.items| && (full ==> q.taken < |q.items|)
    requires q.ring.reader.RCopy? && full == (q.ring.reader.size == 4) && q'.ring.reader.RIdle?
    requires q' == q.(ring := q'.ring, taken := q.taken + One(full))
    ensures Effect(q, Finish, q', if full then multiset{q.items[q.taken]} else multiset{})
  {
    if full {
      TakeOwned(q.items, q.taken);
    }
  }

  lemma PutEffect(cap: uint32, q: Queue, x: uint32)
    requires ItemsOk(q) && cap > 0 && CanStep(cap, q, Put(x))
    ensures Effect(q, Put(x), StepQueue(cap, q, Put(x)), multiset{})
  {
  }

  lemma GetEffect(cap: uint32, q: Queue)
    requires ItemsOk(q) && RingFacts(cap, q.ring) && CanStep(cap, q, Get)
    ensures Effect(q, Get, StepQueue(cap, q, Get), multiset{})
  {
    GetItems(cap, q);
  }

  lemma ByteEffect(cap: uint32, q: Queue, e: QueueStep)
    requires ItemsOk(q) && cap > 0 && CanStep(cap, q, e) && (e.PutByte? || e.GetByte?)
    ensures Effect(q, e, StepQueue(cap, q, e), multiset{})
  {
  }

  lemma StepEffect(cap: uint32, q: Queue, e: QueueStep)
    requires QueueOk(cap, q) && CanStep(cap, q, e)
    ensures Effect(q, e, StepQueue(cap, q, e), Gained(q, e))
  {
    FactsHold(cap, q.ring);
    match e
    case Publish => PublishEffect(cap, q);
    case Finish =>
      FinishFields(cap, q);
      FinishEffect(q, StepQueue(cap, q, Finish), q.ring.reader.size == 4);
    case Put(x) => PutEffect(cap, q, x);
    case Get => GetEffect(cap, q);
    case _ => ByteEffect(cap, q, e);
  }

  lemma Sizes(blocks: seq<uint32>, s: State)
    requires s.free.taken <= |s.free.items| && s.out.taken <= |s.out.items| && Conserved(blocks, s)
    ensures |s.free.Unread()| + |s.out.Unread()| + |s.held| <= |blocks|
  {
    assert |Owned(s.free) + Owned(s.out) + s.held| == |multiset(blocks)|;
  }

  /** A held block leaves room for it in either ring. */
  lemma RoomForHeld(blocks: seq<uint32>, s: State, x: uint32)
    requires s.free.taken <= |s.free.items| && s.out.taken <= |s.out.items| && Conserved(blocks, s) && x in s.held
    ensures |s.free.Unread()| < |blocks| && |s.out.Unread()| < |blocks|
  {
    Sizes(blocks, s);
    var rest := s.held - multiset{x};
    assert s.held == rest + multiset{x};
    assert |s.held| == |rest| + 1;
  }

  lemma MovesConserve(all: multiset<uint32>, one: multiset<uint32>, one': multiset<uint32>, other: multiset<uint32>,
                      held: multiset<uint32>, lost: multiset<uint32>, gained: multiset<uint32>)
    requires one + other + held == all && lost <= held && one' + gained == one + lost
    ensures one' + other + (held - lost + gained) == all
  {
    forall x
      ensures (one' + other + (held - lost + gained))[x] == all[x]
    {
      assert (one + other + held)[x] == all[x];
      assert (one' + gained)[x] == (one + lost)[x];
    }
  }

  /** A step on the free ring that has this effect. */
  lemma FreeMoves(blocks: seq<uint32>, s: State, e: QueueStep, q: Queue, gained: multiset<uint32>)
    requires s.free.taken <= |s.free.items| && s.out.taken <= |s.out.items| && Conserved(blocks, s)
    requires Effect(s.free, e, q, gained) && Lost(e) <= s.held
    ensures Conserved(blocks, s.(free := q, held := s.held - Lost(e) + gained))
  {
    MovesConserve(multiset(blocks), Owned(s.free), Owned(q), Owned(s.out), s.held, Lost(e), gained);
  }

  lemma SemMoves(s: State, e: QueueStep, q: Queue, gained: multiset<uint32>)
    requires s.out.taken <= |s.out.items| && SemOk(s) && Effect(s.out, e, q, gained)
    requires (e.Put? ==> !s.giving) && (e.Get? ==> s.taking)
    ensures SemOk(s.(out := q, giving := s.giving || e.Publish?, taking := s.taking && !e.Finish?))
  {
  }

  /** A step on the out ring that has this effect. */
  lemma OutMoves(blocks: seq<uint32>, s: State, e: QueueStep, q: Queue, gained: multiset<uint32>)
    requires s.free.taken <= |s.free.items| && s.out.taken <= |s.out.items| && Conserved(blocks, s)
    requires Effect(s.out, e, q, gained) && Lost(e) <= s.held
    ensures Conserved(blocks, s.(out := q, held := s.held - Lost(e) + gained))
  {
    MovesConserve(multiset(blocks), Owned(s.out), Owned(q), Owned(s.free), s.held, Lost(e), gained);
  }

  lemma OnRingInv(blocks: seq<uint32>, cap: uint32, s: State, q: Queue, e: QueueStep)
    requires Inv(blocks, cap, s) && (q == s.free || q == s.out) && CanStep(cap, q, e) && (e.Put? ==> e.x in s.held)
    ensures QueueOk(cap, StepQueue(cap, q, e)) && Effect(q, e, StepQueue(cap, q, e), Gained(q, e))
  {
    StepEffect(cap, q, e);
    if e.Put? {
      RoomForHeld(blocks, s, e.x);
    }
    QueueStepOk(cap, q, e);
  }

  lemma OnFreeInv(blocks: seq<uint32>, cap: uint32, s: State, e: QueueStep)
    requires Inv(blocks, cap, s) && Enabled(cap, s, OnFree(e))
    ensures Inv(blocks, cap, Apply(cap, s, OnFree(e)))
  {
    OnRingInv(blocks, cap, s, s.free, e);
    FreeMoves(blocks, s, e, StepQueue(cap, s.free, e), Gained(s.free, e));
  }

  lemma OnOutInv(blocks: seq<uint32>, cap: uint32, s: State, e: QueueStep)
    requires Inv(blocks, cap, s) && Enabled(cap, s, OnOut(e))
    ensures Inv(blocks, cap, Apply(cap, s, OnOut(e)))
  {
    OnRingInv(blocks, cap, s, s.out, e);
    OutMoves(blocks, s, e, StepQueue(cap, s.out, e), Gained(s.out, e));
    SemMoves(s, e, StepQueue(cap, s.out, e), Gained(s.out, e));
  }

  /** Every step of any party keeps the invariant. */
  lemma StepInv(blocks: seq<uint32>, cap: uint32, s: State, step: Step)
    requires Inv(blocks, cap, s) && Enabled(cap, s, step) && cap > 0
    ensures Inv(blocks, cap, Apply(cap, s, step))
  {
    match step
    case OnFree(e) => OnFreeInv(blocks, cap, s, e);
    case OnOut(e) => OnOutInv(blocks, cap, s, e);
    case Give => Sizes(blocks, s);
    case Take =>
  }

  // ---------- runs ----------

  /** A run: the states that some steps, each enabled where it is taken, lead through. */
  ghost predicate IsRun(cap: uint32, run: seq<State>, steps: seq<Step>) {
    && cap > 0 && |run| == |steps| + 1
    && forall i :: 0 <= i < |steps| ==> Follows(cap, run[i], steps[i], run[i + 1])
  }

  ghost predicate Follows(cap: uint32, s: State, step: Step, s': State) {
    cap > 0 && Enabled(cap, s, step) && s' == Apply(cap, s, step)
  }

  /** A run of a pool just created. */
  ghost predicate PoolRun(blocks: seq<uint32>, cap: uint32, run: seq<State>, steps: seq<Step>) {
    IsRun(cap, run, steps) && Created(blocks, cap, run[0])
  }

  /** A ring at rest that holds some blocks, in the terms of the sequential model. */
  ghost predicate AtRest(cap: uint32, q: Queue, items: seq<uint32>) {
    && q.items == items && q.taken == 0 && q.writing.None?
    && q.ring.writer.WIdle? && q.ring.reader.RIdle?
    && q.ring.accepted == Pool.Bytes(items) && q.ring.consumed == [] && q.ring.peeks == []
    && IsPow2(cap) && 2 <= cap && |q.ring.pool| == cap && Sub32(q.ring.wr, q.ring.rd) <= cap
    && Sequential.Unread(q.ring.pool, cap, q.ring.wr, q.ring.rd) == Pool.Bytes(items)
  }

  /** A pool as usb_mempool_create leaves it. */
  ghost predicate Created(blocks: seq<uint32>, cap: uint32, s: State) {
    && cap == 4 * |blocks| && AtRest(cap, s.free, blocks) && AtRest(cap, s.out, [])
    && s.sem == 0 && s.held == multiset{} && !s.giving && !s.taking
  }

  lemma AtRestOk(cap: uint32, q: Queue, items: seq<uint32>)
    requires AtRest(cap, q, items)
    ensures QueueOk(cap, q)
  {
    var r := q.ring;
    var n := Sub32(r.wr, r.rd);
    assert r.wr == Add32(r.rd, n);
    SlotMoves(r.rd, n, cap);
    var unread := Sequential.Unread(r.pool, cap, r.wr, r.rd);
    forall i | 0 <= i < n
      ensures r.pool[Ring.Slot(r.rd, i, cap)] == r.accepted[i]
    {
      assert unread[i] == r.pool[Fold(SlotOf(r.rd, cap) + i, cap)];
    }
  }

  lemma {:induction false} CreatedInv(blocks: seq<uint32>, cap: uint32, s: State)
    requires Created(blocks, cap, s)
    ensures Inv(blocks, cap, s)
  {
    AtRestOk(cap, s.free, blocks);
    AtRestOk(cap, s.out, []);
    assert s.free.Unread() == blocks && s.out.Unread() == [];
  }

  lemma {:induction false} RunInv(blocks: seq<uint32>, cap: uint32, run: seq<State>, steps: seq<Step>, k: nat)
    requires PoolRun(blocks, cap, run, steps) && k < |run|
    ensures Inv(blocks, cap, run[k])
  {
    if k == 0 {
      CreatedInv(blocks, cap, run[0]);
    } else {
      RunInv(blocks, cap, run, steps, k - 1);
      assert Follows(cap, run[k - 1], steps[k - 1], run[k - 1 + 1]);
      StepInv(blocks, cap, run[k - 1], steps[k - 1]);
    }
  }

  // ---------- what holds of every run ----------

  /** Between any two steps of any interleaving, every block is in exactly one place, and the semaphore, with a give
      to come and a take under way, counts the sent blocks. */
  lemma BlocksConserved(blocks: seq<uint32>, cap: uint32, run: seq<State>, steps: seq<Step>, k: nat)
    requires PoolRun(blocks, cap, run, steps) && k < |run|
    ensures var f := run[k];
      && f.free.taken <= |f.free.items| && f.out.taken <= |f.out.items|
      && multiset(f.free.items[f.free.taken..]) + InFlight(f.free) +
         (multiset(f.out.items[f.out.taken..]) + InFlight(f.out)) + f.held == multiset(blocks)
      && |f.out.items| - f.out.taken == f.sem + One(f.giving) + One(f.taking)
  {
    RunInv(blocks, cap, run, steps, k);
  }

  /** In any interleaving, the write of a held block to either ring finds room for all four bytes, so what is then
      published is the block. */
  lemma WritesAreWhole(blocks: seq<uint32>, cap: uint32, run: seq<State>, steps: seq<Step>,
                       k: nat, e: QueueStep)
    requires PoolRun(blocks, cap, run, steps) && k < |run| && (e.Put? || e.Publish?)
    ensures var f := run[k];
      && (Enabled(cap, f, OnFree(e)) ==> Whole(cap, f.free, e))
      && (Enabled(cap, f, OnOut(e)) ==> Whole(cap, f.out, e))
  {
    RunInv(blocks, cap, run, steps, k);
    var f := run[k];
    if Enabled(cap, f, OnFree(e)) {
      WholeStep(blocks, cap, f, f.free, e);
    }
    if Enabled(cap, f, OnOut(e)) {
      WholeStep(blocks, cap, f, f.out, e);
    }
  }

  ghost predicate Whole(cap: uint32, q: Queue, e: QueueStep)
    requires cap > 0 && CanStep(cap, q, e)
  {
    if e.Put? then StepQueue(cap, q, e).ring.writer.size == 4
    else q.writing.Some? && StepQueue(cap, q, e).items == q.items + [q.writing.value]
  }

  lemma WholeStep(blocks: seq<uint32>, cap: uint32, s: State, q: Queue, e: QueueStep)
    requires Inv(blocks, cap, s) && (q == s.free || q == s.out) && CanStep(cap, q, e)
    requires e.Publish? || (e.Put? && e.x in s.held)
    ensures cap > 0 && Whole(cap, q, e)
  {
    FactsHold(cap, q.ring);
    if e.Put? {
      RoomForHeld(blocks, s, e.x);
      PutItems(cap, q, e.x);
    } else {
      PublishItems(cap, q);
    }
  }

  /** What a finishing read of a sound queue returns. */
  lemma FinishResult(cap: uint32, q: Queue)
    requires QueueOk(cap, q) && CanStep(cap, q, Finish)
    ensures q.ring.reader.size == 0 || (q.ring.reader.size == 4 && q.taken < |q.items|)
    ensures q.Result() == if q.ring.reader.size == 0 then None else Some(q.items[q.taken])
  {
    FactsHold(cap, q.ring);
    ResultIsOldest(cap, q);
  }

  lemma GetSize(cap: uint32, q: Queue)
    requires QueueOk(cap, q) && CanStep(cap, q, Get)
    ensures cap > 0 && q.taken <= |q.items|
    ensures StepQueue(cap, q, Get).ring.reader.size == if q.taken == |q.items| then 0 else 4
  {
    FactsHold(cap, q.ring);
    GetItems(cap, q);
  }

  /** In any interleaving, every receive that took the semaphore returns a block, the oldest not yet received. */
  lemma ReceivesOldest(blocks: seq<uint32>, cap: uint32, run: seq<State>, steps: seq<Step>, k: nat)
    requires PoolRun(blocks, cap, run, steps) && k < |run| && Enabled(cap, run[k], OnOut(Finish))
    ensures var q := run[k].out;
      q.taken < |q.items| && q.Result() == Some(q.items[q.taken])
  {
    RunInv(blocks, cap, run, steps, k);
    FinishResult(cap, run[k].out);
  }

  /** In any interleaving, an allocation looks for a block if it finds the free ring other than empty when it loads
      the write index. */
  lemma AllocationLooks(blocks: seq<uint32>, cap: uint32, run: seq<State>, steps: seq<Step>, k: nat)
    requires PoolRun(blocks, cap, run, steps) && k < |run| && Enabled(cap, run[k], OnFree(Get))
    ensures var q := run[k].free;
      && q.taken <= |q.items|
      && StepQueue(cap, q, Get).ring.reader.size == if q.taken == |q.items| then 0 else 4
  {
    RunInv(blocks, cap, run, steps, k);
    GetSize(cap, run[k].free);
  }

  /** In any interleaving, an allocation that looks for a block returns the oldest free one, and one that does not
      returns none. */
  lemma AllocatesOldest(blocks: seq<uint32>, cap: uint32, run: seq<State>, steps: seq<Step>, k: nat)
    requires PoolRun(blocks, cap, run, steps) && k < |run| && Enabled(cap, run[k], OnFree(Finish))
    ensures var q := run[k].free;
      && (q.ring.reader.size == 0 || q.taken < |q.items|)
      && q.Result() == if q.ring.reader.size == 0 then None else Some(q.items[q.taken])
  {
    RunInv(blocks, cap, run, steps, k);
    FinishResult(cap, run[k].free);
  }

  /** In any interleaving, every send reports success: its give finds the semaphore below its maximum. */
  lemma SendsSucceed(blocks: seq<uint32>, cap: uint32, run: seq<State>, steps: seq<Step>, k: nat)
    requires PoolRun(blocks, cap, run, steps) && k < |run| && Enabled(cap, run[k], Give)
    ensures run[k].sem < |blocks|
  {
    RunInv(blocks, cap, run, steps, k);
    Sizes(blocks, run[k]);
  }

  /** In any interleaving, with no send about to give, a receive can take the semaphore iff a block is queued that no
      receive has claimed; otherwise it waits. */
  lemma ReceiveWaits(blocks: seq<uint32>, cap: uint32, run: seq<State>, steps: seq<Step>, k: nat)
    requires PoolRun(blocks, cap, run, steps) && k < |run|
    requires !run[k].giving && !run[k].taking
    ensures var f := run[k];
      f.out.taken <= |f.out.items| && (Enabled(cap, f, Take) <==> f.out.taken < |f.out.items|)
  {
    RunInv(blocks, cap, run, steps, k);
  }
}
