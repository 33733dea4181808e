/** Device addresses over the life of hub ports: connect, enumerate, release. */
module HubportLifeCycle {
  import opened UsbDefs
  import opened Wrappers
  import opened DeviceAddress

  datatype Port = Port(connected: bool, devAddr: nat)

  /** One bus: its address allocator and its hub ports. */
  datatype Bus = Bus(devgen: Map, ports: seq<Port>)

  /** How the transfers of one enumeration turn out, each a return code: the first device descriptor read and
      parsed (0 when it parses), SET_ADDRESS, and everything after the address took effect. */
  datatype Outcome = Outcome(desc: int, setAddress: int, rest: int)

  // ---------- specification ----------

  /** Connecting zeroes the hub port (the hub driver itself is not part of this model). */
  function Connect(b: Bus, p: nat): Bus
    requires p < |b.ports|
  {
    b.(ports := b.ports[p := Port(true, 0)])
  }

  /** The bus after an address was allocated and set, and the return code. */
  function Assigned(b: Bus, p: nat, o: Outcome): (Bus, int)
    requires p < |b.ports|
  {
    var (m, a) := Allocate(b.devgen);
    if a.None? then (b, 0)
    else if o.setAddress < 0 then (b.(devgen := m), o.setAddress)
    else (Bus(m, b.ports[p := b.ports[p].(devAddr := a.value)]), o.rest)
  }

  /** usbh_enumerate: the bus afterwards and the return code. */
  function Enumerate(b: Bus, p: nat, o: Outcome): (Bus, int)
    requires p < |b.ports|
  {
    var b0 := b.(ports := b.ports[p := b.ports[p].(devAddr := 0)]);
    if !b.ports[p].connected then (b0, NODEV)
    else if o.desc < 0 then (b0, o.desc)
    else Assigned(b0, p, o)
  }

  /** usbh_hubport_release. */
  function Release(b: Bus, p: nat): Bus
    requires p < |b.ports|
  {
    var port := b.ports[p];
    if !port.connected then b
    else Bus(if port.devAddr > 0 then Free(b.devgen, port.devAddr) else b.devgen,
             b.ports[p := port.(connected := false)])
  }

  datatype Event = ConnectEvent(p: nat) | EnumerateEvent(p: nat, o: Outcome) | ReleaseEvent(p: nat)

  function Step(b: Bus, e: Event): Bus
    requires e.p < |b.ports|
  {
    match e
    case ConnectEvent(p) => Connect(b, p)
    case EnumerateEvent(p, o) => Enumerate(b, p, o).0
    case ReleaseEvent(p) => Release(b, p)
  }

  // ---------- implementation ----------

  class Hubport {
    var connected: bool
    var devAddr: nat

    constructor ()
      ensures !connected && devAddr == 0
    {
      connected, devAddr := false, 0;
    }
  }

  class UsbhBus {
    const devgen: DevAddrMap
    const ports: seq<Hubport>

    constructor (children: seq<Hubport>)
      requires forall i, j :: 0 <= i < j < |children| ==> children[i] != children[j]
      requires forall h :: h in children ==> !h.connected && h.devAddr == 0
      ensures Valid() && ports == children && PowerUp(View())
    {
      devgen := new DevAddrMap();
      ports := children;
    }

    ghost predicate Valid()
      reads devgen
    {
      && devgen.Valid()
      && forall i, j :: 0 <= i < j < |ports| ==> ports[i] != ports[j]
    }

    ghost function View(): Bus
      requires Valid()
      reads devgen, devgen.alloctab, ports
    {
      Bus(devgen.View(),
          seq(|ports|, i requires 0 <= i < |ports| reads ports => Port(ports[i].connected, ports[i].devAddr)))
    }

    /** The hub driver's memset of a port whose device arrived. */
    method ConnectPort(p: nat)
      requires Valid() && p < |ports|
      modifies ports[p]
      ensures Valid() && View() == Connect(old(View()), p)
    {
      ports[p].connected := true;
      ports[p].devAddr := 0;
    }

    /** usbh_control_transfer, reduced to the connection check; `outcome` is what the transfer returns. */
    method ControlTransfer(hport: Hubport, outcome: int) returns (ret: int)
      ensures ret == if hport.connected then outcome else NODEV
    {
      ret := if !hport.connected then NODEV else outcome;
    }

    /** hport->dev_addr = a. */
    method SetDevAddr(p: nat, a: nat)
      requires Valid() && p < |ports|
      modifies ports[p]
      ensures Valid() && View() == old(View()).(ports := old(View()).ports[p := old(View()).ports[p].(devAddr := a)])
      ensures ports[p].connected == old(ports[p].connected)
    {
      ports[p].devAddr := a;
    }

    /** The part of usbh_enumerate that allocates an address and sets it. */
    method AssignAddress(p: nat, o: Outcome) returns (ret: int)
      requires Valid() && p < |ports| && ports[p].connected
      modifies ports[p], devgen`last, devgen.alloctab
      ensures Valid() && View() == Assigned(old(View()), p, o).0
      ensures ret == Assigned(old(View()), p, o).1
    {
      ret := 0;  // of parse_device_descriptor
      var devAddr, _ := devgen.AllocateDevaddr();
      if devAddr < 0 {
        return;
      }
      ret := ControlTransfer(ports[p], o.setAddress);
      if ret < 0 {
        return;
      }
      SetDevAddr(p, devAddr);
      ret := o.rest;
    }

    /** usbh_enumerate. */
    method EnumeratePort(p: nat, o: Outcome) returns (ret: int)
      requires Valid() && p < |ports|
      modifies ports[p], devgen`last, devgen.alloctab
      ensures Valid() && View() == Enumerate(old(View()), p, o).0
      ensures ret == Enumerate(old(View()), p, o).1
    {
      ghost var b := View();
      assert b.ports[p].connected == ports[p].connected;
      SetDevAddr(p, 0);
      assert View() == b.(ports := b.ports[p := b.ports[p].(devAddr := 0)]);
      ret := ControlTransfer(ports[p], o.desc);
      if ret < 0 {
        return;
      }
      ret := AssignAddress(p, o);
    }

    /** usbh_hubport_release. */
    method ReleasePort(p: nat)
      requires Valid() && p < |ports| && ports[p].devAddr < 256
      modifies ports[p], devgen.alloctab
      ensures Valid() && View() == Release(old(View()), p)
    {
      var hport := ports[p];
      if hport.connected {
        hport.connected := false;
        if hport.devAddr > 0 {
          var _ := devgen.FreeDevaddr(hport.devAddr);
        }
      }
    }
  }

  // ---------- what holds of every run ----------

  ghost predicate PowerUp(b: Bus) {
    && b.devgen == FRESH_MAP
    && forall p :: p in b.ports ==> !p.connected && p.devAddr == 0
  }

  /** Every connected port's nonzero address is marked, and no two connected ports share one. */
  ghost predicate AddressesUnique(b: Bus) {
    && (forall i :: 0 <= i < |b.ports| && b.ports[i].connected && b.ports[i].devAddr != 0 ==>
          2 <= b.ports[i].devAddr <= 127 && b.ports[i].devAddr in b.devgen.taken)
    && (forall i, j :: 0 <= i < j < |b.ports| && b.ports[i].connected && b.ports[j].connected ==>
          b.ports[i].devAddr == 0 || b.ports[i].devAddr != b.ports[j].devAddr)
  }

  ghost predicate Inv(b: Bus) {
    MapOk(b.devgen) && AddressesUnique(b)
  }

  /** A port that takes no address, or a free one, and gives back at most its own, leaves addresses unique. */
  lemma PortChanged(b: Bus, p: nat, q: Port, m: Map)
    requires Inv(b) && p < |b.ports| && MapOk(m)
    requires q.connected && q.devAddr != 0 ==> 2 <= q.devAddr <= 127 && q.devAddr in m.taken
    requires q.connected && q.devAddr != 0 ==> q.devAddr !in b.devgen.taken
    requires forall a :: a in b.devgen.taken ==> a in m.taken || (b.ports[p].connected && a == b.ports[p].devAddr)
    ensures Inv(Bus(m, b.ports[p := q]))
  {
  }

  lemma StepInv(b: Bus, e: Event)
    requires Inv(b) && e.p < |b.ports|
    ensures Inv(Step(b, e)) && |Step(b, e).ports| == |b.ports|
  {
    var b' := Step(b, e);
    AllocateMeaning(b.devgen);
    if e.EnumerateEvent? {
      assert b'.ports == b.ports[e.p := b'.ports[e.p]];
    }
    if b' != b {
      PortChanged(b, e.p, b'.ports[e.p], b'.devgen);
    }
  }

  ghost predicate IsRun(b: Bus, events: seq<Event>)
    decreases |events|
  {
    events == [] || (events[0].p < |b.ports| && IsRun(Step(b, events[0]), events[1..]))
  }

  ghost function Final(b: Bus, events: seq<Event>): Bus
    requires IsRun(b, events)
    decreases |events|
  {
    if events == [] then b else Final(Step(b, events[0]), events[1..])
  }

  lemma {:induction false} RunInv(b: Bus, events: seq<Event>)
    requires Inv(b) && IsRun(b, events)
    ensures Inv(Final(b, events))
    decreases |events|
  {
    if events != [] {
      StepInv(b, events[0]);
      RunInv(Step(b, events[0]), events[1..]);
    }
  }

  /** Over every sequence of connects, enumerations failing at any transfer and releases, in any order, no two
      connected ports hold the same nonzero address, and each such address is marked in the table. */
  lemma {:induction false} NoSharedAddress(b: Bus, events: seq<Event>)
    requires PowerUp(b) && IsRun(b, events)
    ensures AddressesUnique(Final(b, events))
  {
    RunInv(b, events);
  }

  /** The addresses connected ports hold. */
  ghost function Held(b: Bus): set<nat> {
    set i | 0 <= i < |b.ports| && b.ports[i].connected && b.ports[i].devAddr != 0 :: b.ports[i].devAddr
  }

  /** An event that hands every address it takes out of use back to the table: a connect on a port that was
      released, an enumeration of a port without an address whose SET_ADDRESS does not fail, a release of any
      address but 127. */
  ghost predicate Orderly(b: Bus, e: Event)
    requires e.p < |b.ports|
  {
    var port := b.ports[e.p];
    match e
    case ConnectEvent(_) => !port.connected || port.devAddr == 0
    case EnumerateEvent(_, o) =>
      && (!port.connected || port.devAddr == 0)
      && (port.connected && o.desc >= 0 && o.setAddress < 0 ==> Allocate(b.devgen).1.None?)
    case ReleaseEvent(_) => !port.connected || port.devAddr != 127
  }

  lemma HeldAfter(b: Bus, i: nat, q: Port)
    requires AddressesUnique(b) && i < |b.ports|
    ensures var b' := b.(ports := b.ports[i := q]);
      var was := if b.ports[i].connected && b.ports[i].devAddr != 0 then {b.ports[i].devAddr} else {};
      var now := if q.connected && q.devAddr != 0 then {q.devAddr} else {};
      Held(b') == Held(b) - was + now
  {
    var b' := b.(ports := b.ports[i := q]);
    var was := if b.ports[i].connected && b.ports[i].devAddr != 0 then {b.ports[i].devAddr} else {};
    var now := if q.connected && q.devAddr != 0 then {q.devAddr} else {};
    forall a | a in Held(b) - was + now
      ensures a in Held(b')
    {
      if a in now {
        assert b'.ports[i].devAddr == a;
      } else {
        var j :| 0 <= j < |b.ports| && b.ports[j].connected && b.ports[j].devAddr != 0 && b.ports[j].devAddr == a;
        assert b'.ports[j] == b.ports[j];
      }
    }
    forall a | a in Held(b')
      ensures a in Held(b) - was + now
    {
      var j :| 0 <= j < |b'.ports| && b'.ports[j].connected && b'.ports[j].devAddr != 0 && b'.ports[j].devAddr == a;
      if j != i {
        assert b.ports[j].devAddr == a;
      }
    }
  }

  /** The address, if any, that port p holds. */
  ghost function HeldBy(b: Bus, p: nat): set<nat>
    requires p < |b.ports|
  {
    if b.ports[p].connected && b.ports[p].devAddr != 0 then {b.ports[p].devAddr} else {}
  }

  /** An event changes the addresses in use at its own port only. */
  lemma StepHeld(b: Bus, e: Event)
    requires Inv(b) && e.p < |b.ports|
    ensures |Step(b, e).ports| == |b.ports|
    ensures HeldBy(b, e.p) <= Held(b)
    ensures Held(Step(b, e)) == Held(b) - HeldBy(b, e.p) + HeldBy(Step(b, e), e.p)
  {
    AllocateMeaning(b.devgen);
    var b' := Step(b, e);
    HeldAfter(b, e.p, b'.ports[e.p]);
    assert b'.ports == b.ports[e.p := b'.ports[e.p]];
    assert Held(b') == Held(b.(ports := b'.ports));
  }

  /** When the table marks exactly the addresses in use, an event keeps it so iff the event is orderly:
      a failed SET_ADDRESS, an address abandoned by reconnecting or enumerating again, and a release of
      address 127 each leave a mark behind. */
  lemma LeakExactly(b: Bus, e: Event)
    requires Inv(b) && e.p < |b.ports| && b.devgen.taken == Held(b)
    ensures Step(b, e).devgen.taken == Held(Step(b, e)) <==> Orderly(b, e)
  {
    StepHeld(b, e);
    var was, now := HeldBy(b, e.p), HeldBy(Step(b, e), e.p);
    match e
    case ConnectEvent(p) =>
      assert now == {};
    case ReleaseEvent(p) =>
      assert now == {};
    case EnumerateEvent(p, o) =>
      LeakEnumerate(b, p, o);
  }

  /** An enumeration marks a new address, or none, and the port gives up the address it had. */
  lemma LeakEnumerate(b: Bus, p: nat, o: Outcome)
    requires Inv(b) && p < |b.ports| && b.devgen.taken == Held(b)
    ensures var e := EnumerateEvent(p, o);
      Step(b, e).devgen.taken == Held(b) - HeldBy(b, p) + HeldBy(Step(b, e), p) <==> Orderly(b, e)
  {
    var e := EnumerateEvent(p, o);
    AllocateMeaning(b.devgen);
    StepHeld(b, e);
    var given := if b.ports[p].connected && o.desc >= 0 then Allocate(b.devgen).1 else None;
    assert Step(b, e).devgen.taken == if given.Some? then Held(b) + {given.value} else Held(b);
    assert HeldBy(Step(b, e), p) == if given.Some? && o.setAddress >= 0 then {given.value} else {};
  }

  ghost predicate OrderlyRun(b: Bus, events: seq<Event>)
    requires IsRun(b, events)
    decreases |events|
  {
    events == [] || (Orderly(b, events[0]) && OrderlyRun(Step(b, events[0]), events[1..]))
  }

  /** An address that is marked though no connected port holds it. */
  ghost predicate Leaked(b: Bus, a: nat) {
    a in b.devgen.taken && a !in Held(b)
  }

  lemma LeakStays(b: Bus, e: Event, a: nat)
    requires Inv(b) && e.p < |b.ports| && Leaked(b, a)
    ensures Leaked(Step(b, e), a)
  {
    AllocateMeaning(b.devgen);
    StepHeld(b, e);
  }

  /** A leaked address stays so over every run. */
  lemma {:induction false} LeakedForGood(b: Bus, events: seq<Event>, a: nat)
    requires Inv(b) && IsRun(b, events) && Leaked(b, a)
    ensures Leaked(Final(b, events), a)
    decreases |events|
  {
    if events != [] {
      StepInv(b, events[0]);
      LeakStays(b, events[0], a);
      LeakedForGood(Step(b, events[0]), events[1..], a);
    }
  }

  /** A table that is not exact marks an address that is not in use. */
  lemma InexactLeaks(b: Bus) returns (a: nat)
    requires Inv(b) && b.devgen.taken != Held(b)
    ensures Leaked(b, a)
  {
    assert Held(b) <= b.devgen.taken;
    a :| a in b.devgen.taken && a !in Held(b);
  }

  /** Conservation, from a table that marks exactly the addresses in use, as at power-up: it does so at the end of a
      run iff the run is orderly. */
  lemma {:induction false} TableIsExact(b: Bus, events: seq<Event>)
    requires Inv(b) && b.devgen.taken == Held(b) && IsRun(b, events)
    ensures Final(b, events).devgen.taken == Held(Final(b, events)) <==> OrderlyRun(b, events)
    decreases |events|
  {
    if events != [] {
      var t := Step(b, events[0]);
      StepInv(b, events[0]);
      LeakExactly(b, events[0]);
      if Orderly(b, events[0]) {
        TableIsExact(t, events[1..]);
      } else {
        var a := InexactLeaks(t);
        LeakedForGood(t, events[1..], a);
      }
    }
  }

  /** Every address in 2..127 is taken, but perhaps the last one handed out. */
  ghost predicate Exhausted(m: Map) {
    forall a :: 2 <= a <= 127 && a != m.last ==> a in m.taken
  }

  /** What each event does to its port, and that it touches no other. An enumeration returns the code of its first
      failing transfer, 0 when no address is left, and otherwise what came after the address was set. */
  lemma EventEffects(b: Bus, p: nat, o: Outcome)
    requires Inv(b) && p < |b.ports|
    ensures Connect(b, p) == Bus(b.devgen, b.ports[p := Port(true, 0)])
    ensures var r := Release(b, p);
      && r.devgen.last == b.devgen.last && r.ports == b.ports[p := Port(false, b.ports[p].devAddr)]
      && r.devgen.taken ==
           if b.ports[p].connected && 1 <= b.ports[p].devAddr <= 126 then b.devgen.taken - {b.ports[p].devAddr}
           else b.devgen.taken
    ensures var (e, ret) := Enumerate(b, p, o);
      && e.ports == b.ports[p := Port(b.ports[p].connected, e.ports[p].devAddr)]
      && ret == (if !b.ports[p].connected then -3 else if o.desc < 0 then o.desc else if Exhausted(b.devgen) then 0
                 else if o.setAddress < 0 then o.setAddress else o.rest)
      && e.devgen == (if b.ports[p].connected && o.desc >= 0 then Allocate(b.devgen).0 else b.devgen)
      && (e.ports[p].devAddr != 0 <==>
            b.ports[p].connected && o.desc >= 0 && !Exhausted(b.devgen) && o.setAddress >= 0)
      && (e.ports[p].devAddr != 0 ==> Allocate(b.devgen).1 == Some(e.ports[p].devAddr))
  {
    AllocateMeaning(b.devgen);
    assert b.ports[p := b.ports[p]] == b.ports;
  }

  /** An enumeration returns a nonnegative code and leaves the port without an address exactly when the first
      descriptor was read but no address was left; a success is otherwise a connected port with a new address. */
  lemma EnumerateResult(b: Bus, p: nat, o: Outcome)
    requires Inv(b) && p < |b.ports|
    ensures var (b', ret) := Enumerate(b, p, o);
      var q := b'.ports[p];
      && (ret >= 0 && q.devAddr == 0 <==>
            b.ports[p].connected && o.desc >= 0 &&
            forall a :: 2 <= a <= 127 && a != b.devgen.last ==> a in b.devgen.taken)
      && (q.devAddr != 0 ==> q.connected && q.devAddr !in b.devgen.taken && q.devAddr in b'.devgen.taken)
      && (forall i :: 0 <= i < |b.ports| && i != p ==> b'.ports[i] == b.ports[i])
  {
    AllocateMeaning(b.devgen);
  }
}
