/** The host's device-address allocator and its use by enumeration and release. */
module DeviceAddress {
  import opened MachineWords
  import opened UsbDefs
  import opened Wrappers

  /** A 32-bit word by its bits; index i is the bit of weight 2^i. */
  type Word = w: seq<bool> | |w| == 32 witness seq(32, _ => false)

  function BitAnd(a: Word, b: Word): Word {
    seq(32, i requires 0 <= i < 32 => a[i] && b[i])
  }

  function BitOr(a: Word, b: Word): Word {
    seq(32, i requires 0 <= i < 32 => a[i] || b[i])
  }

  function BitNot(a: Word): Word {
    seq(32, i requires 0 <= i < 32 => !a[i])
  }

  /** 1ul << b. */
  function OneBit(b: nat): Word {
    seq(32, i => i == b)
  }

  const ZERO: Word := seq(32, _ => false)

  /** The number whose bits these are. */
  function Value(w: seq<bool>): nat {
    if w == [] then 0 else (if w[0] then 1 else 0) + 2 * Value(w[1..])
  }

  /** The bits that two strings of bits have in common. */
  function Common(a: seq<bool>, b: seq<bool>): seq<bool>
    requires |a| == |b|
  {
    seq(|a|, i requires 0 <= i < |a| => a[i] && b[i])
  }

  /** Conjunction bit by bit is the conjunction of the numbers. */
  lemma {:induction false} ValueOfCommon(a: seq<bool>, b: seq<bool>)
    requires |a| == |b|
    ensures Value(Common(a, b)) == And(Value(a), Value(b))
    decreases |a|
  {
    if a != [] {
      ValueOfCommon(a[1..], b[1..]);
      assert Common(a, b)[1..] == Common(a[1..], b[1..]);
      AndBits(Value(a[1..]), if a[0] then 1 else 0, Value(b[1..]), if b[0] then 1 else 0);
    }
  }

  lemma {:induction false} ValueOfOne(n: nat, b: nat)
    requires b < n
    ensures Value(seq(n, i => i == b)) == Pow2(b)
    decreases n
  {
    var w := seq(n, i => i == b);
    if b == 0 {
      ValueOfNone(w[1..]);
    } else {
      assert w[1..] == seq(n - 1, i => i == b - 1);
      ValueOfOne(n - 1, b - 1);
    }
  }

  lemma {:induction false} ValueOfNone(w: seq<bool>)
    ensures Value(w) == 0 <==> forall i :: 0 <= i < |w| ==> !w[i]
    decreases |w|
  {
    if w != [] {
      ValueOfNone(w[1..]);
      assert forall i :: 0 < i < |w| ==> w[i] == w[1..][i - 1];
    }
  }

  /** The C test (w & (1ul << b)) == 0 looks at bit b alone, on words as bits and as numbers. */
  lemma TestBit(w: Word, b: nat)
    requires b < 32
    ensures BitAnd(w, OneBit(b)) == ZERO <==> !w[b]
    ensures And(Value(w), Pow2(b)) == 0 <==> !w[b]
  {
    var both := BitAnd(w, OneBit(b));
    assert both == if w[b] then OneBit(b) else ZERO;
    assert OneBit(b)[b] && !ZERO[b];
    assert both == Common(w, OneBit(b));
    ValueOfCommon(w, OneBit(b));
    ValueOfOne(32, b);
    ValueOfNone(both);
  }

  // ---------- specification ----------

  /** The allocator: the last address handed out and the addresses marked in the table. */
  datatype Map = Map(last: nat, taken: set<nat>)

  ghost predicate MapOk(m: Map) {
    2 <= m.last <= 127
  }

  /** A bus just initialised. */
  const FRESH_MAP := Map(0x7f, {})

  /** The address k probes after `last`, going around 2..127. */
  function Probe(last: nat, k: nat): nat {
    if last + k <= 127 then last + k else last + k - 126
  }

  /** The first free address from probe k on; the probe that comes back to `last` gives up. */
  function FirstFree(m: Map, k: nat): Option<nat>
    requires 1 <= k <= 126
    decreases 126 - k
  {
    if k == 126 then None
    else if Probe(m.last, k) !in m.taken then Some(Probe(m.last, k))
    else FirstFree(m, k + 1)
  }

  function Allocate(m: Map): (Map, Option<nat>) {
    match FirstFree(m, 1)
    case None => (m, None)
    case Some(a) => (Map(a, m.taken + {a}), Some(a))
  }

  /** __usbh_free_devaddr: address 127 is not freed. */
  function Free(m: Map, a: nat): Map {
    if 0 < a < 127 then m.(taken := m.taken - {a}) else m
  }

  /** The next address to probe; the 126th is `last` itself. */
  function NextProbe(a: nat): nat {
    if a + 1 > 0x7f then 2 else a + 1
  }

  lemma ProbeStep(last: nat, k: nat)
    requires 2 <= last <= 127 && k < 126
    ensures NextProbe(Probe(last, k)) == Probe(last, k + 1)
    ensures 2 <= Probe(last, k + 1) <= 127
    ensures Probe(last, k + 1) == last <==> k == 125
  {
  }

  /** How many probes after `last` address a comes. */
  function Distance(last: nat, a: nat): int {
    if a > last then a - last else a - last + 126
  }

  lemma {:induction false} FirstFreeMeaning(m: Map, k: nat)
    requires MapOk(m) && 1 <= k <= 126
    requires forall a :: 2 <= a <= 127 && Distance(m.last, a) < k ==> a in m.taken
    ensures match FirstFree(m, k)
            case Some(r) => 2 <= r <= 127 && r != m.last && r !in m.taken
              && (forall a :: 2 <= a <= 127 && Distance(m.last, a) < Distance(m.last, r) ==> a in m.taken)
            case None => forall a :: 2 <= a <= 127 && a != m.last ==> a in m.taken
    decreases 126 - k
  {
    if k < 126 && Probe(m.last, k) in m.taken {
      forall a | 2 <= a <= 127 && Distance(m.last, a) < k + 1
        ensures a in m.taken
      {
        if Distance(m.last, a) == k {
          assert a == Probe(m.last, k);
        }
      }
      FirstFreeMeaning(m, k + 1);
    }
  }

  /** The allocator returns the first free address after `last`, cyclically in 2..127, and fails iff every
      address there except `last` itself is taken. */
  lemma AllocateMeaning(m: Map)
    requires MapOk(m)
    ensures Allocate(m).1.None? <==> forall a :: 2 <= a <= 127 && a != m.last ==> a in m.taken
    ensures Allocate(m).1.Some? ==>
      var r := Allocate(m).1.value;
      && 2 <= r <= 127 && r !in m.taken && Allocate(m).0 == Map(r, m.taken + {r})
      && (forall a :: 2 <= a <= 127 && Distance(m.last, a) < Distance(m.last, r) ==> a in m.taken)
    ensures Allocate(m).1.None? ==> Allocate(m).0 == m
  {
    FirstFreeMeaning(m, 1);
  }

  /** The map after n allocations in a row. */
  function AllocateMany(m: Map, n: nat): Map {
    if n == 0 then m else Allocate(AllocateMany(m, n - 1)).0
  }

  /** From bus initialisation the allocator hands out 2, 3, ... 127 in order, and then fails. */
  lemma {:induction false} AllocateInOrder(n: nat)
    requires n <= 126
    ensures var m := AllocateMany(FRESH_MAP, n);
      && (forall a :: a in m.taken <==> 2 <= a < n + 2)
      && m.last == (if n == 0 then 127 else n + 1)
      && Allocate(m).1 == (if n < 126 then Some(n + 2) else None)
  {
    if n > 0 {
      AllocateInOrder(n - 1);
    }
    var m := AllocateMany(FRESH_MAP, n);
    AllocateMeaning(m);
    if n < 126 {
      assert n + 2 !in m.taken && Distance(m.last, n + 2) == 1;
      assert n + 2 != m.last;
      assert Probe(m.last, 1) == n + 2;
    }
  }

  // ---------- implementation ----------

  class DevAddrMap {
    var last: nat
    const alloctab: array<Word>

    /** The part of usbh_bus_init that concerns the allocator. */
    constructor ()
      ensures Valid() && View() == FRESH_MAP && fresh(alloctab)
    {
      alloctab := new Word[4](_ => ZERO);
      last := 0x7f;
    }

    ghost predicate Valid()
      reads this
    {
      alloctab.Length == 4 && 2 <= last <= 127
    }

    ghost function View(): (m: Map)
      requires Valid()
      reads this, alloctab
      ensures forall a :: a in m.taken <==> 0 <= a < 128 && alloctab[a / 32][a % 32]
    {
      Map(last, set a | 0 <= a < 128 && alloctab[a / 32][a % 32])
    }

    /** The loop of usbh_allocate_devaddr up to the first free address, if any; `probes` counts addresses looked at. */
    method FindFree() returns (a: Option<nat>, ghost probes: nat)
      requires Valid()
      ensures a == FirstFree(View(), 1) && probes <= 126
      ensures a.Some? ==> a.value < 128
    {
      var devaddr := last;
      ghost var m := View();
      probes := 0;
      while true
        invariant probes <= 125 && devaddr == Probe(last, probes)
        invariant FirstFree(m, probes + 1) == FirstFree(m, 1)
        decreases 126 - probes
      {
        devaddr := devaddr + 1;
        if devaddr > 0x7f {
          devaddr := 2;
        }
        ProbeStep(last, probes);
        probes := probes + 1;
        if devaddr == last {
          return None, probes;
        }
        var free := IsFree(devaddr);
        if free {
          return Some(devaddr), probes;
        }
      }
    }

    /** usbh_allocate_devaddr: the address, or a negative error. */
    method AllocateDevaddr() returns (r: int, ghost probes: nat)
      requires Valid()
      modifies this`last, alloctab
      ensures Valid() && View() == Allocate(old(View())).0
      ensures r == match Allocate(old(View())).1 case Some(a) => a case None => NOMEM
      ensures probes <= 126
    {
      var a;
      a, probes := FindFree();
      if a == None {
        return NOMEM, probes;
      }
      FirstFreeMeaning(View(), 1);
      MarkBit(a.value);
      last := a.value;
      r := a.value;
    }

    /** (alloctab[a >> 5] & (1ul << (a & 0x1f))) == 0. */
    method IsFree(a: nat) returns (free: bool)
      requires Valid() && a < 128
      ensures free <==> a !in View().taken
    {
      var index, bitno := a / 32, a % 32;
      TestBit(alloctab[index], bitno);
      free := BitAnd(alloctab[index], OneBit(bitno)) == ZERO;
    }

    /** alloctab[a >> 5] |= 1ul << (a & 0x1f). */
    method MarkBit(a: nat)
      requires Valid() && a < 128
      modifies alloctab
      ensures View() == old(View()).(taken := old(View()).taken + {a})
    {
      var index, bitno := a / 32, a % 32;
      alloctab[index] := BitOr(alloctab[index], OneBit(bitno));
    }

    /** alloctab[a >> 5] &= ~(1ul << (a & 0x1f)). */
    method ClearBit(a: nat)
      requires Valid() && a < 128
      modifies alloctab
      ensures View() == old(View()).(taken := old(View()).taken - {a})
    {
      var index, bitno := a / 32, a % 32;
      alloctab[index] := BitAnd(alloctab[index], BitNot(OneBit(bitno)));
    }

    /** __usbh_free_devaddr. */
    method FreeDevaddr(devaddr: nat) returns (r: int)
      requires Valid() && devaddr < 256
      modifies alloctab
      ensures Valid() && View() == Free(old(View()), devaddr) && last == old(last)
      ensures View().taken == if 1 <= devaddr <= 126 then old(View()).taken - {devaddr} else old(View()).taken
      ensures r == if 0 < devaddr < 127 && devaddr !in old(View()).taken then -1 else 0
    {
      if devaddr > 0 && devaddr < 0x7f {
        var free := IsFree(devaddr);
        if !free {
          ClearBit(devaddr);
        } else {
          return -1;
        }
      }
      return 0;
    }
  }
}
