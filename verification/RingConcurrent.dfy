/** The ring buffer shared, without a lock, by one writer thread and one reader thread.
    Each index load, byte copy and index store is a step; the threads' steps interleave
    arbitrarily over a sequentially consistent memory. The byte forms of the operations
    (write_byte, read_byte, peek_byte, drop_byte) make the same steps for a size of one. */
module RingConcurrent {
  import opened MachineWords
  import opened Wrappers
  import Sequential = RingBuffer

  /** The writer is outside write(), or has computed its size and copied the bytes in `done`. */
  datatype Writer = WIdle | WCopy(data: seq<byte>, size: uint32, done: set<nat>)

  datatype Op = Read | Peek | Drop

  /** The reader is outside its operations, or has computed its size and fetched the bytes in `got`. */
  datatype Reader = RIdle | RCopy(op: Op, size: uint32, got: map<nat, byte>)

  datatype PeekResult = PeekResult(at: nat, bytes: seq<byte>)

  /** The shared ring, both threads, and the history the clients have seen: every byte accepted
      by completed writes, every byte consumed by reads (None where a drop skipped one), and what peeks returned. */
  datatype State = State(
    wr: uint32, rd: uint32, pool: seq<byte>,
    writer: Writer, reader: Reader,
    accepted: seq<byte>, consumed: seq<Option<byte>>, peeks: seq<PeekResult>)

  /** One atomic step. Byte copies may happen in any order, so word-wise copies are covered. */
  datatype Step =
    | WriteLoad(data: seq<byte>)       // load out, compute size
    | WriteByte(i: nat)                // copy data[i]
    | WritePublish                     // store in + size
    | ReadLoad(op: Op, want: nat)      // load in, compute size
    | ReadByte(i: nat)                 // fetch byte i
    | ReadFinish                       // store out + size; a peek just returns

  /** The slot of byte i of a transfer that starts at index x. */
  function Slot(x: uint32, i: nat, cap: uint32): nat
    requires cap > 0
  {
    Fold(SlotOf(x, cap) + i, cap)
  }

  ghost predicate Enabled(cap: uint32, s: State, e: Step) {
    match e
    case WriteLoad(_) => s.writer.WIdle?
    case WriteByte(i) => s.writer.WCopy? && i < s.writer.size && i !in s.writer.done
    case WritePublish => s.writer.WCopy? && forall i: nat :: i < s.writer.size ==> i in s.writer.done
    case ReadLoad(_, _) => s.reader.RIdle?
    case ReadByte(i) => s.reader.RCopy? && !s.reader.op.Drop? && i < s.reader.size && i !in s.reader.got
    case ReadFinish =>
      s.reader.RCopy? && (s.reader.op.Drop? || forall i: nat :: i < s.reader.size ==> i in s.reader.got)
  }

  /** What a step does. Reads and writes of the pool outside its bounds have no effect here;
      NoSlotOutside shows that no reachable step attempts one. */
  ghost function Apply(cap: uint32, s: State, e: Step): State
    requires cap > 0 && Enabled(cap, s, e)
  {
    match e
    case WriteLoad(data) =>
      var unused := Sub32(cap, Sub32(s.wr, s.rd));
      s.(writer := WCopy(data, if |data| > unused then unused else |data|, {}))
    case WriteByte(i) =>
      var t := Slot(s.wr, i, cap);
      if t < |s.pool| && i < |s.writer.data| then
        s.(pool := s.pool[t := s.writer.data[i]], writer := s.writer.(done := s.writer.done + {i}))
      else s
    case WritePublish =>
      var n := s.writer.size;
      s.(wr := Add32(s.wr, n), writer := WIdle, accepted := s.accepted + s.writer.data[..Min(n, |s.writer.data|)])
    case ReadLoad(op, want) =>
      var used := Sub32(s.wr, s.rd);
      s.(reader := RCopy(op, if want > used then used else want, map[]))
    case ReadByte(i) =>
      var t := Slot(s.rd, i, cap);
      if t < |s.pool| then s.(reader := s.reader.(got := s.reader.got[i := s.pool[t]])) else s
    case ReadFinish =>
      if s.reader.op.Peek? then s.(reader := RIdle, peeks := s.peeks + [PeekResult(|s.consumed|, Fetched(s.reader))])
      else s.(rd := Add32(s.rd, s.reader.size), reader := RIdle, consumed := s.consumed + Taken(s.reader))
  }

  /** The bytes a finishing peek returns. */
  ghost function Fetched(r: Reader): (b: seq<byte>)
    requires r.RCopy?
    ensures |b| == r.size
  {
    seq(r.size, i requires 0 <= i < r.size => if i in r.got then r.got[i] else 0)
  }

  /** What a finishing read or drop adds to the consumed history. */
  ghost function Taken(r: Reader): (c: seq<Option<byte>>)
    requires r.RCopy?
    ensures |c| == r.size
  {
    seq(r.size, i requires 0 <= i < r.size => if r.op.Read? && i in r.got then Some(r.got[i]) else None)
  }

  /** A ring just initialised or reset, at any index: both threads idle, nothing in flight. */
  ghost predicate Init(cap: uint32, s: State) {
    && IsPow2(cap) && 2 <= cap && |s.pool| == cap
    && s.wr == s.rd && s.writer.WIdle? && s.reader.RIdle?
    && s.accepted == [] && s.consumed == [] && s.peeks == []
  }

  /** A run of the system: every step enabled where it is taken. */
  ghost predicate IsRun(cap: uint32, s: State, steps: seq<Step>)
    decreases |steps|
  {
    cap > 0 && (steps == [] || (Enabled(cap, s, steps[0]) && IsRun(cap, Apply(cap, s, steps[0]), steps[1..])))
  }

  ghost function Final(cap: uint32, s: State, steps: seq<Step>): State
    requires IsRun(cap, s, steps)
    decreases |steps|
  {
    if steps == [] then s else Final(cap, Apply(cap, s, steps[0]), steps[1..])
  }

  // ---------- the invariant ----------

  ghost function Pending(s: State): int {
    |s.accepted| - |s.consumed|
  }

  ghost predicate IndicesAgree(cap: uint32, s: State) {
    && IsPow2(cap) && 2 <= cap && |s.pool| == cap
    && 0 <= Pending(s) == Sub32(s.wr, s.rd) <= cap
    && SlotOf(s.wr, cap) == Slot(s.rd, Pending(s), cap)
  }

  ghost predicate UnreadStored(cap: uint32, s: State)
    requires IndicesAgree(cap, s)
  {
    forall i :: 0 <= i < Pending(s) ==> s.pool[Slot(s.rd, i, cap)] == s.accepted[|s.consumed| + i]
  }

  ghost predicate WriterOk(cap: uint32, s: State)
    requires IndicesAgree(cap, s)
  {
    s.writer.WCopy? ==>
      && s.writer.size <= |s.writer.data| && Pending(s) + s.writer.size <= cap
      && (forall i :: i in s.writer.done ==> i < s.writer.size && s.pool[Slot(s.wr, i, cap)] == s.writer.data[i])
  }

  ghost predicate ReaderOk(cap: uint32, s: State)
    requires IndicesAgree(cap, s)
  {
    s.reader.RCopy? ==>
      && s.reader.size <= Pending(s)
      && (forall i :: i in s.reader.got ==> i < s.reader.size && s.reader.got[i] == s.accepted[|s.consumed| + i])
  }

  /** What the clients were promised: reads return the accepted bytes in order, peeks look ahead correctly. */
  ghost predicate HistoryOk(s: State) {
    && |s.consumed| <= |s.accepted|
    && (forall j :: 0 <= j < |s.consumed| && s.consumed[j].Some? ==> s.consumed[j].value == s.accepted[j])
    && (forall p :: p in s.peeks ==> p.at + |p.bytes| <= |s.accepted| && p.bytes == s.accepted[p.at..p.at + |p.bytes|])
  }

  ghost predicate Inv(cap: uint32, s: State) {
    IndicesAgree(cap, s) && UnreadStored(cap, s) && WriterOk(cap, s) && ReaderOk(cap, s) && HistoryOk(s)
  }

  lemma InitInv(cap: uint32, s: State)
    requires Init(cap, s)
    ensures Inv(cap, s)
  {
  }

  lemma WriteByteInv(cap: uint32, s: State, i: nat)
    requires Inv(cap, s) && Enabled(cap, s, WriteByte(i))
    ensures Inv(cap, Apply(cap, s, WriteByte(i)))
  {
    var s' := Apply(cap, s, WriteByte(i));
    assert IndicesAgree(cap, s');
  }

  /** The writer's index, and its slot, after publishing n bytes. */
  lemma WriterMoves(cap: uint32, wr: uint32, rd: uint32, n: uint32)
    requires IsPow2(cap) && 2 <= cap && Sub32(wr, rd) + n <= cap
    requires SlotOf(wr, cap) == Slot(rd, Sub32(wr, rd), cap)
    ensures Sub32(Add32(wr, n), rd) == Sub32(wr, rd) + n
    ensures SlotOf(Add32(wr, n), cap) == Slot(rd, Sub32(wr, rd) + n, cap)
  {
    SlotMoves(wr, n, cap);
  }

  /** The reader's index, and the writer's slot seen from it, after consuming n bytes. */
  lemma ReaderMoves(cap: uint32, wr: uint32, rd: uint32, n: uint32)
    requires IsPow2(cap) && 2 <= cap && n <= Sub32(wr, rd) <= cap
    requires SlotOf(wr, cap) == Slot(rd, Sub32(wr, rd), cap)
    ensures Sub32(wr, Add32(rd, n)) == Sub32(wr, rd) - n
    ensures SlotOf(Add32(rd, n), cap) == Slot(rd, n, cap)
    ensures SlotOf(wr, cap) == Slot(Add32(rd, n), Sub32(wr, rd) - n, cap)
  {
    SlotMoves(rd, n, cap);
  }

  lemma PublishIndices(cap: uint32, s: State)
    requires IndicesAgree(cap, s) && Enabled(cap, s, WritePublish)
    requires s.writer.size <= |s.writer.data| && Pending(s) + s.writer.size <= cap
    ensures IndicesAgree(cap, Apply(cap, s, WritePublish))
  {
    WriterMoves(cap, s.wr, s.rd, s.writer.size);
  }

  lemma PublishUnread(cap: uint32, s: State)
    requires IndicesAgree(cap, s) && UnreadStored(cap, s) && WriterOk(cap, s) && Enabled(cap, s, WritePublish)
    ensures IndicesAgree(cap, Apply(cap, s, WritePublish)) && UnreadStored(cap, Apply(cap, s, WritePublish))
  {
    var s' := Apply(cap, s, WritePublish);
    PublishIndices(cap, s);
    forall i | 0 <= i < Pending(s')
      ensures s'.pool[Slot(s'.rd, i, cap)] == s'.accepted[|s'.consumed| + i]
    {
      if i >= Pending(s) {
        assert i - Pending(s) in s.writer.done;
        assert Slot(s.rd, i, cap) == Slot(s.wr, i - Pending(s), cap);
      }
    }
  }

  lemma WritePublishInv(cap: uint32, s: State)
    requires Inv(cap, s) && Enabled(cap, s, WritePublish)
    ensures Inv(cap, Apply(cap, s, WritePublish))
  {
    PublishUnread(cap, s);
    assert HistoryOk(Apply(cap, s, WritePublish));
  }

  lemma PeekFinishInv(cap: uint32, s: State)
    requires Inv(cap, s) && Enabled(cap, s, ReadFinish) && s.reader.op.Peek?
    ensures Inv(cap, Apply(cap, s, ReadFinish))
  {
    var s' := Apply(cap, s, ReadFinish);
    assert IndicesAgree(cap, s') && UnreadStored(cap, s') && WriterOk(cap, s');
    assert Fetched(s.reader) == s.accepted[|s.consumed|..|s.consumed| + s.reader.size];
  }

  lemma FinishIndices(cap: uint32, s: State)
    requires IndicesAgree(cap, s) && Enabled(cap, s, ReadFinish) && !s.reader.op.Peek?
    requires s.reader.size <= Pending(s)
    ensures IndicesAgree(cap, Apply(cap, s, ReadFinish))
  {
    ReaderMoves(cap, s.wr, s.rd, s.reader.size);
  }

  lemma FinishUnread(cap: uint32, s: State)
    requires IndicesAgree(cap, s) && UnreadStored(cap, s)
    requires Enabled(cap, s, ReadFinish) && !s.reader.op.Peek? && s.reader.size <= Pending(s)
    ensures IndicesAgree(cap, Apply(cap, s, ReadFinish)) && UnreadStored(cap, Apply(cap, s, ReadFinish))
  {
    var s' := Apply(cap, s, ReadFinish);
    var n := s.reader.size;
    FinishIndices(cap, s);
    ReaderMoves(cap, s.wr, s.rd, n);
    forall i | 0 <= i < Pending(s')
      ensures s'.pool[Slot(s'.rd, i, cap)] == s'.accepted[|s'.consumed| + i]
    {
      assert Slot(s'.rd, i, cap) == Slot(s.rd, n + i, cap);
    }
  }

  lemma FinishHistory(s: State, s': State)
    requires HistoryOk(s) && s.reader.RCopy? && |s.consumed| + s.reader.size <= |s.accepted|
    requires forall i :: i in s.reader.got ==>
      i < s.reader.size && s.reader.got[i] == s.accepted[|s.consumed| + i]
    requires s'.consumed == s.consumed + Taken(s.reader) && s'.accepted == s.accepted && s'.peeks == s.peeks
    ensures HistoryOk(s')
  {
  }

  lemma ReadFinishInv(cap: uint32, s: State)
    requires Inv(cap, s) && Enabled(cap, s, ReadFinish) && !s.reader.op.Peek?
    ensures Inv(cap, Apply(cap, s, ReadFinish))
  {
    FinishUnread(cap, s);
    FinishHistory(s, Apply(cap, s, ReadFinish));
  }

  /** Loads and fetches leave the shared ring alone. */
  lemma ReaderStepInv(cap: uint32, s: State, e: Step)
    requires Inv(cap, s) && Enabled(cap, s, e) && (e.ReadLoad? || e.ReadByte?)
    ensures Inv(cap, Apply(cap, s, e))
  {
    var s' := Apply(cap, s, e);
    assert IndicesAgree(cap, s') && UnreadStored(cap, s') && WriterOk(cap, s') && HistoryOk(s');
  }

  lemma WriteLoadInv(cap: uint32, s: State, data: seq<byte>)
    requires Inv(cap, s) && Enabled(cap, s, WriteLoad(data))
    ensures Inv(cap, Apply(cap, s, WriteLoad(data)))
  {
    var s' := Apply(cap, s, WriteLoad(data));
    assert IndicesAgree(cap, s') && UnreadStored(cap, s') && ReaderOk(cap, s') && HistoryOk(s');
  }

  /** Every step of either thread preserves the invariant. */
  lemma StepInv(cap: uint32, s: State, e: Step)
    requires Inv(cap, s) && Enabled(cap, s, e)
    ensures Inv(cap, Apply(cap, s, e))
  {
    if {
      case e.WriteLoad? => WriteLoadInv(cap, s, e.data);
      case e.WriteByte? => WriteByteInv(cap, s, e.i);
      case e.WritePublish? => WritePublishInv(cap, s);
      case e.ReadLoad? || e.ReadByte? => ReaderStepInv(cap, s, e);
      case e.ReadFinish? && s.reader.op.Peek? => PeekFinishInv(cap, s);
      case e.ReadFinish? && !s.reader.op.Peek? => ReadFinishInv(cap, s);
    }
  }

  lemma {:induction false} RunInv(cap: uint32, s: State, steps: seq<Step>)
    requires Inv(cap, s) && IsRun(cap, s, steps)
    ensures Inv(cap, Final(cap, s, steps))
    decreases |steps|
  {
    if steps != [] {
      StepInv(cap, s, steps[0]);
      RunInv(cap, Apply(cap, s, steps[0]), steps[1..]);
    }
  }

  // ---------- what holds of every run ----------

  /** In every run of the two threads, reads deliver the accepted bytes in order without loss or
      duplication, and peeks return the accepted bytes at the read position. */
  lemma {:induction false} LockFreeFifo(cap: uint32, s: State, steps: seq<Step>)
    requires Init(cap, s) && IsRun(cap, s, steps)
    ensures HistoryOk(Final(cap, s, steps))
  {
    InitInv(cap, s);
    RunInv(cap, s, steps);
  }

  ghost predicate NoDrops(steps: seq<Step>) {
    forall e :: e in steps ==> !(e.ReadLoad? && e.op.Drop?)
  }

  ghost predicate NothingDropped(s: State) {
    && !(s.reader.RCopy? && s.reader.op.Drop?)
    && (forall c :: c in s.consumed ==> c.Some?)
  }

  lemma {:induction false} NoDropsKept(cap: uint32, s: State, steps: seq<Step>)
    requires NothingDropped(s) && IsRun(cap, s, steps) && NoDrops(steps)
    ensures NothingDropped(Final(cap, s, steps))
    decreases |steps|
  {
    if steps != [] {
      assert steps[0] in steps;
      assert forall e :: e in steps[1..] ==> e in steps;
      assert NothingDropped(Apply(cap, s, steps[0]));
      NoDropsKept(cap, Apply(cap, s, steps[0]), steps[1..]);
    }
  }

  /** Without drops, what was read is a prefix of what was written. */
  lemma {:induction false} ReadsArePrefix(cap: uint32, s: State, steps: seq<Step>)
    requires Init(cap, s) && IsRun(cap, s, steps) && NoDrops(steps)
    ensures var f := Final(cap, s, steps);
      |f.consumed| <= |f.accepted| &&
      forall j :: 0 <= j < |f.consumed| ==> f.consumed[j] == Some(f.accepted[j])
  {
    LockFreeFifo(cap, s, steps);
    NoDropsKept(cap, s, steps);
    var f := Final(cap, s, steps);
    assert forall j :: 0 <= j < |f.consumed| ==> f.consumed[j] in f.consumed;
  }

  /** Whenever the writer is about to copy a byte, in any run, the slot it writes holds no unread byte. */
  lemma {:induction false} NoUnreadOverwritten(cap: uint32, s: State, steps: seq<Step>, i: nat)
    requires Init(cap, s) && IsRun(cap, s, steps)
    requires Enabled(cap, Final(cap, s, steps), WriteByte(i))
    ensures var f := Final(cap, s, steps);
      forall k :: 0 <= k < Sub32(f.wr, f.rd) ==> Slot(f.rd, k, cap) != Slot(f.wr, i, cap)
  {
    InitInv(cap, s);
    RunInv(cap, s, steps);
  }

  /** No step of any run touches a slot outside the pool. */
  lemma {:induction false} NoSlotOutside(cap: uint32, s: State, steps: seq<Step>, e: Step)
    requires Init(cap, s) && IsRun(cap, s, steps)
    requires Enabled(cap, Final(cap, s, steps), e)
    ensures var f := Final(cap, s, steps);
      && (e.WriteByte? ==> Slot(f.wr, e.i, cap) < |f.pool| && e.i < |f.writer.data|)
      && (e.ReadByte? ==> Slot(f.rd, e.i, cap) < |f.pool|)
  {
    InitInv(cap, s);
    RunInv(cap, s, steps);
  }

  /** Conservation: with both threads idle, the accepted bytes are the consumed ones followed by what the
      sequential model calls the ring's contents. */
  lemma {:induction false} NothingLost(cap: uint32, s: State, steps: seq<Step>)
    requires Init(cap, s) && IsRun(cap, s, steps)
    requires Final(cap, s, steps).writer.WIdle? && Final(cap, s, steps).reader.RIdle?
    ensures var f := Final(cap, s, steps);
      && |f.consumed| <= |f.accepted| && |f.pool| == cap && Sub32(f.wr, f.rd) <= cap
      && f.accepted[|f.consumed|..] == Sequential.Unread(f.pool, cap, f.wr, f.rd)
  {
    InitInv(cap, s);
    RunInv(cap, s, steps);
    var f := Final(cap, s, steps);
    var unread := Sequential.Unread(f.pool, cap, f.wr, f.rd);
    forall i | 0 <= i < |unread|
      ensures f.accepted[|f.consumed| + i] == unread[i]
    {
      assert f.pool[Slot(f.rd, i, cap)] == f.accepted[|f.consumed| + i];
    }
  }

  /** In every run, a write accepts as much as is free when it loads the reader's index, and a
      read, peek or drop covers as much as is unread when it loads the writer's index. */
  lemma {:induction false} LoadSizes(cap: uint32, s: State, steps: seq<Step>, e: Step)
    requires Init(cap, s) && IsRun(cap, s, steps)
    requires Enabled(cap, Final(cap, s, steps), e) && (e.WriteLoad? || e.ReadLoad?)
    ensures var f, f' := Final(cap, s, steps), Apply(cap, Final(cap, s, steps), e);
      && 0 <= |f.accepted| - |f.consumed| <= cap
      && (e.WriteLoad? ==> f'.writer.size == Min(|e.data|, cap - (|f.accepted| - |f.consumed|)))
      && (e.ReadLoad? ==> f'.reader.size == Min(e.want, |f.accepted| - |f.consumed|))
  {
    InitInv(cap, s);
    RunInv(cap, s, steps);
  }

  /** An operation of the reader that is under way in f is finished in g. A peek shows the next accepted bytes and
      leaves the ring and the read position alone; a read takes them; a drop skips them. */
  ghost predicate ReaderDone(f: State, g: State)
    requires f.reader.RCopy?
  {
    var at, n := |f.consumed|, f.reader.size;
    && at + n <= |f.accepted| && g.reader.RIdle?
    && g.wr == f.wr && g.pool == f.pool && g.writer == f.writer && g.accepted == f.accepted
    && (f.reader.op.Peek? ==>
          g.rd == f.rd && g.consumed == f.consumed && g.peeks == f.peeks + [PeekResult(at, f.accepted[at..at + n])])
    && (!f.reader.op.Peek? ==>
          g.rd == Add32(f.rd, n) && g.peeks == f.peeks && |g.consumed| == at + n && g.consumed[..at] == f.consumed)
    && (f.reader.op.Read? ==> forall i :: at <= i < at + n ==> g.consumed[i] == Some(f.accepted[i]))
    && (f.reader.op.Drop? ==> forall i :: at <= i < at + n ==> g.consumed[i] == None)
  }

  /** What a reader about to finish has fetched. */
  ghost predicate AllFetched(s: State) {
    && s.reader.RCopy? && |s.consumed| + s.reader.size <= |s.accepted|
    && (!s.reader.op.Drop? ==> forall i: nat :: i < s.reader.size ==>
          i in s.reader.got && s.reader.got[i] == s.accepted[|s.consumed| + i])
  }

  lemma FetchedAll(cap: uint32, s: State)
    requires Inv(cap, s) && Enabled(cap, s, ReadFinish)
    ensures AllFetched(s)
  {
  }

  lemma PeekDone(cap: uint32, s: State)
    requires AllFetched(s) && cap > 0 && Enabled(cap, s, ReadFinish) && s.reader.op.Peek?
    ensures ReaderDone(s, Apply(cap, s, ReadFinish))
  {
    assert Fetched(s.reader) == s.accepted[|s.consumed|..|s.consumed| + s.reader.size];
  }

  lemma TakeDone(cap: uint32, s: State)
    requires AllFetched(s) && cap > 0 && Enabled(cap, s, ReadFinish) && !s.reader.op.Peek?
    ensures ReaderDone(s, Apply(cap, s, ReadFinish))
  {
    var at, taken := |s.consumed|, Taken(s.reader);
    forall i | at <= i < at + s.reader.size
      ensures (s.consumed + taken)[i] == if s.reader.op.Read? then Some(s.accepted[i]) else None
    {
      assert (s.consumed + taken)[i] == taken[i - at];
    }
  }

  /** What finishing an operation of the reader does, over every run. */
  lemma {:induction false} ReaderResults(cap: uint32, s: State, steps: seq<Step>)
    requires Init(cap, s) && IsRun(cap, s, steps) && Enabled(cap, Final(cap, s, steps), ReadFinish)
    ensures ReaderDone(Final(cap, s, steps), Apply(cap, Final(cap, s, steps), ReadFinish))
  {
    InitInv(cap, s);
    RunInv(cap, s, steps);
    FetchedAll(cap, Final(cap, s, steps));
    if Final(cap, s, steps).reader.op.Peek? {
      PeekDone(cap, Final(cap, s, steps));
    } else {
      TakeDone(cap, Final(cap, s, steps));
    }
  }

  /** What publishing a write does, over every run. */
  lemma {:induction false} WriterResults(cap: uint32, s: State, steps: seq<Step>)
    requires Init(cap, s) && IsRun(cap, s, steps) && Enabled(cap, Final(cap, s, steps), WritePublish)
    ensures var f, g := Final(cap, s, steps), Apply(cap, Final(cap, s, steps), WritePublish);
      && f.writer.size <= |f.writer.data| && g.writer.WIdle?
      && g.accepted == f.accepted + f.writer.data[..f.writer.size] && g.wr == Add32(f.wr, f.writer.size)
      && g.rd == f.rd && g.pool == f.pool && g.reader == f.reader && g.consumed == f.consumed && g.peeks == f.peeks
  {
    InitInv(cap, s);
    RunInv(cap, s, steps);
  }

  /** The reader does nothing but peek. */
  ghost predicate OnlyPeeks(steps: seq<Step>) {
    forall e :: e in steps ==> !(e.ReadLoad? && !e.op.Peek?)
  }

  /** Between two points of a run between which the reader only peeks, the read position stays. */
  lemma {:induction false} PeeksLeaveRing(cap: uint32, s: State, steps: seq<Step>)
    requires IsRun(cap, s, steps) && OnlyPeeks(steps) && (s.reader.RCopy? ==> s.reader.op.Peek?)
    ensures Final(cap, s, steps).rd == s.rd && Final(cap, s, steps).consumed == s.consumed
    decreases |steps|
  {
    if steps != [] {
      assert steps[0] in steps;
      assert forall e :: e in steps[1..] ==> e in steps;
      PeeksLeaveRing(cap, Apply(cap, s, steps[0]), steps[1..]);
    }
  }

  /** Over every run, a read returns what the peeks since the last consumption showed. */
  lemma {:induction false} ReadAfterPeek(cap: uint32, s: State, steps: seq<Step>, p: PeekResult)
    requires Init(cap, s) && IsRun(cap, s, steps)
    requires var f := Final(cap, s, steps);
      Enabled(cap, f, ReadFinish) && f.reader.op.Read? && p in f.peeks && p.at == |f.consumed|
    ensures var f, g := Final(cap, s, steps), Apply(cap, Final(cap, s, steps), ReadFinish);
      |g.consumed| == p.at + f.reader.size &&
      forall i :: p.at <= i < p.at + Min(|p.bytes|, f.reader.size) ==> g.consumed[i] == Some(p.bytes[i - p.at])
  {
    LockFreeFifo(cap, s, steps);
    ReaderResults(cap, s, steps);
  }

  ghost predicate WriterOnly(steps: seq<Step>) {
    forall e :: e in steps ==> e.WriteLoad? || e.WriteByte? || e.WritePublish?
  }

  lemma {:induction false} ReaderUndisturbed(cap: uint32, s: State, steps: seq<Step>)
    requires IsRun(cap, s, steps) && WriterOnly(steps)
    ensures Final(cap, s, steps).rd == s.rd && Final(cap, s, steps).reader == s.reader
    decreases |steps|
  {
    if steps != [] {
      assert steps[0] in steps;
      assert forall e :: e in steps[1..] ==> e in steps;
      ReaderUndisturbed(cap, Apply(cap, s, steps[0]), steps[1..]);
    }
  }

  /** usb_ringbuffer_reset_read loads `in` and stores it to `out`. These are the two steps of a drop that asks for a
      whole ring: in any run, whatever the writer does in between, the index stored is the one loaded. */
  lemma {:induction false} ResetReadIsDrop(cap: uint32, s: State, steps: seq<Step>, between: seq<Step>)
    requires Init(cap, s) && IsRun(cap, s, steps) && Final(cap, s, steps).reader.RIdle?
    requires WriterOnly(between) && IsRun(cap, Apply(cap, Final(cap, s, steps), ReadLoad(Drop, cap)), between)
    ensures var f := Final(cap, s, steps);
      var g := Final(cap, Apply(cap, f, ReadLoad(Drop, cap)), between);
      Enabled(cap, g, ReadFinish) && Apply(cap, g, ReadFinish).rd == f.wr
  {
    InitInv(cap, s);
    RunInv(cap, s, steps);
    ReaderUndisturbed(cap, Apply(cap, Final(cap, s, steps), ReadLoad(Drop, cap)), between);
  }
}
