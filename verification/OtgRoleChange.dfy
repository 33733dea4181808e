/** The OTG role-change thread and the triggers that any number of contexts may fire at it.
    Every load and store of the shared fields is a step; steps interleave arbitrarily. */
module OtgRoleChange {
  import opened Wrappers

  // USBOTG_MODE_HOST, USBOTG_MODE_DEVICE; OTG stands for every other value
  datatype Mode = HOST | DEVICE | OTG

  /** Where the role thread is. */
  datatype Pc =
    | Waiting        // in usb_osal_sem_take
    | Woken          // about to load request_mode for the HOST test
    | NotHost        // about to load it again for the DEVICE test
    | HostEntry      // usbotg_host_initialize: about to test usbh_initialized
    | HostStop       // device stack up: about to call usbd_deinitialize
    | HostStopped    // about to clear usbd_initialized
    | HostMark       // about to set usbh_initialized
    | HostStart      // about to call usbh_initialize
    | DeviceEntry    // usbotg_device_initialize: about to test usbd_initialized
    | DeviceStop
    | DeviceStopped
    | DeviceMark
    | DeviceStart

  /** Fields of usbotg_core_priv, the semaphore count, the stacks actually running, the triggers that have
      stored their mode but not yet given the semaphore, and the last mode stored by any trigger. */
  datatype State = State(
    requestMode: Mode, sem: nat, usbhInitialized: bool, usbdInitialized: bool,
    hostUp: bool, deviceUp: bool, pc: Pc, inFlight: nat, lastStored: Option<Mode>)

  datatype Step = TriggerStore(mode: Mode) | TriggerGive | Thread

  ghost predicate Enabled(s: State, e: Step) {
    match e
    case TriggerStore(_) => true
    case TriggerGive => s.inFlight > 0
    case Thread => s.pc != Waiting || s.sem > 0
  }

  /** One step of the role thread. */
  function ThreadStep(s: State): State {
    match s.pc
    case Waiting => if s.sem > 0 then s.(sem := s.sem - 1, pc := Woken) else s
    case Woken => s.(pc := if s.requestMode == HOST then HostEntry else NotHost)
    case NotHost => s.(pc := if s.requestMode == DEVICE then DeviceEntry else Waiting)
    case HostEntry => s.(pc := if s.usbhInitialized then Waiting else if s.usbdInitialized then HostStop else HostMark)
    case HostStop => s.(deviceUp := false, pc := HostStopped)
    case HostStopped => s.(usbdInitialized := false, pc := HostMark)
    case HostMark => s.(usbhInitialized := true, pc := HostStart)
    case HostStart => s.(hostUp := true, pc := Waiting)
    case DeviceEntry =>
      s.(pc := if s.usbdInitialized then Waiting else if s.usbhInitialized then DeviceStop else DeviceMark)
    case DeviceStop => s.(hostUp := false, pc := DeviceStopped)
    case DeviceStopped => s.(usbhInitialized := false, pc := DeviceMark)
    case DeviceMark => s.(usbdInitialized := true, pc := DeviceStart)
    case DeviceStart => s.(deviceUp := true, pc := Waiting)
  }

  /** The semaphore saturates at its maximum; how large that is depends on the RTOS. */
  function Apply(max: nat, s: State, e: Step): State
    requires max >= 1 && (e.TriggerGive? ==> s.inFlight > 0)
  {
    match e
    case TriggerStore(m) => s.(requestMode := m, inFlight := s.inFlight + 1, lastStored := Some(m))
    case TriggerGive => s.(sem := if s.sem < max then s.sem + 1 else s.sem, inFlight := s.inFlight - 1)
    case Thread => ThreadStep(s)
  }

  /** usbotg_initialize just before its first trigger: zeroed fields, an empty semaphore, an idle thread. */
  ghost predicate Init(s: State) {
    s == State(HOST, 0, false, false, false, false, Waiting, 0, None)
  }

  ghost predicate IsRun(max: nat, s: State, steps: seq<Step>)
    requires max >= 1
    decreases |steps|
  {
    steps == [] || (Enabled(s, steps[0]) && IsRun(max, Apply(max, s, steps[0]), steps[1..]))
  }

  ghost function Final(max: nat, s: State, steps: seq<Step>): State
    requires max >= 1 && IsRun(max, s, steps)
    decreases |steps|
  {
    if steps == [] then s else Final(max, Apply(max, s, steps[0]), steps[1..])
  }

  // ---------- the invariant ----------

  /** The flags bracket the life of each stack, and at most one is set. */
  ghost predicate FlagsOk(s: State) {
    && !(s.usbhInitialized && s.usbdInitialized)
    && s.hostUp == (s.usbhInitialized && s.pc != HostStart && s.pc != DeviceStopped)
    && s.deviceUp == (s.usbdInitialized && s.pc != DeviceStart && s.pc != HostStopped)
    && match s.pc
       case HostStop => s.usbdInitialized
       case HostStopped => s.usbdInitialized
       case HostMark => !s.usbhInitialized && !s.usbdInitialized
       case HostStart => s.usbhInitialized
       case DeviceStop => s.usbhInitialized
       case DeviceStopped => s.usbhInitialized
       case DeviceMark => !s.usbhInitialized && !s.usbdInitialized
       case DeviceStart => s.usbdInitialized
       case _ => true
  }

  predicate ServingHost(pc: Pc) {
    pc == HostEntry || pc == HostStop || pc == HostStopped || pc == HostMark || pc == HostStart
  }

  predicate ServingDevice(pc: Pc) {
    pc == DeviceEntry || pc == DeviceStop || pc == DeviceStopped || pc == DeviceMark || pc == DeviceStart
  }

  /** Once no trigger is in flight or announced, what the thread has read is still the requested mode. */
  ghost predicate Caught(s: State) {
    s.lastStored.Some? ==>
      && s.requestMode == s.lastStored.value
      && (s.sem == 0 && s.inFlight == 0 ==>
            && (ServingHost(s.pc) ==> s.requestMode == HOST)
            && (ServingDevice(s.pc) ==> s.requestMode == DEVICE)
            && (s.pc == NotHost ==> s.requestMode != HOST)
            && (s.pc == Waiting && s.requestMode == HOST ==> s.usbhInitialized)
            && (s.pc == Waiting && s.requestMode == DEVICE ==> s.usbdInitialized))
  }

  ghost predicate Quiet(s: State) {
    s.lastStored.None? ==> s.sem == 0 && s.inFlight == 0 && s.pc == Waiting
  }

  ghost predicate Inv(s: State) {
    FlagsOk(s) && Caught(s) && Quiet(s)
  }

  lemma StepInv(max: nat, s: State, e: Step)
    requires max >= 1 && Inv(s) && Enabled(s, e)
    ensures Inv(Apply(max, s, e))
  {
  }

  lemma {:induction false} RunInv(max: nat, s: State, steps: seq<Step>)
    requires max >= 1 && Inv(s) && IsRun(max, s, steps)
    ensures Inv(Final(max, s, steps))
    decreases |steps|
  {
    if steps != [] {
      StepInv(max, s, steps[0]);
      RunInv(max, Apply(max, s, steps[0]), steps[1..]);
    }
  }

  // ---------- what holds of every run ----------

  /** At no point of any interleaving are both roles marked initialised or both stacks running. */
  lemma {:induction false} NeverBothRoles(max: nat, s: State, steps: seq<Step>)
    requires max >= 1 && Init(s) && IsRun(max, s, steps)
    ensures var f := Final(max, s, steps);
      !(f.usbhInitialized && f.usbdInitialized) && !(f.hostUp && f.deviceUp)
  {
    RunInv(max, s, steps);
  }

  /** At every point of every interleaving, a stack that runs is marked initialised, a stack is started only when
      neither runs, and the one being stopped runs. */
  lemma {:induction false} StacksBracketed(max: nat, s: State, steps: seq<Step>)
    requires max >= 1 && Init(s) && IsRun(max, s, steps)
    ensures var f := Final(max, s, steps);
      && (f.hostUp ==> f.usbhInitialized) && (f.deviceUp ==> f.usbdInitialized)
      && (f.pc == HostStart || f.pc == DeviceStart ==> !f.hostUp && !f.deviceUp)
      && (f.pc == HostStop ==> f.deviceUp) && (f.pc == DeviceStop ==> f.hostUp)
  {
    RunInv(max, s, steps);
  }

  /** When the triggers have all given, the semaphore is empty and the thread waits, the running stack is
      the one of the last mode stored, whatever triggers raced before. */
  lemma {:induction false} SettlesOnLastMode(max: nat, s: State, steps: seq<Step>)
    requires max >= 1 && Init(s) && IsRun(max, s, steps)
    requires var f := Final(max, s, steps); f.lastStored.Some? && f.inFlight == 0 && f.sem == 0 && f.pc == Waiting
    ensures var f := Final(max, s, steps);
      && (f.lastStored.value == HOST ==> f.hostUp && !f.deviceUp)
      && (f.lastStored.value == DEVICE ==> f.deviceUp && !f.hostUp)
  {
    RunInv(max, s, steps);
  }

  /** Steps left of the thread's current pass. */
  function Remaining(pc: Pc): nat {
    match pc
    case Waiting => 0
    case HostStart => 1
    case DeviceStart => 1
    case HostMark => 2
    case DeviceMark => 2
    case HostStopped => 3
    case DeviceStopped => 3
    case HostStop => 4
    case DeviceStop => 4
    case HostEntry => 5
    case DeviceEntry => 5
    case NotHost => 6
    case Woken => 7
  }

  /** n steps of the thread alone. */
  function ThreadSteps(s: State, n: nat): State
    decreases n
  {
    if n == 0 then s else ThreadSteps(ThreadStep(s), n - 1)
  }

  /** t is a resting point of the thread reached from s without new triggers. */
  ghost predicate Rested(s: State, t: State) {
    t.pc == Waiting && t.sem == 0 && Inv(t) && t.lastStored == s.lastStored && t.inFlight == s.inFlight
  }

  lemma {:induction false} ThreadAloneSettles(max: nat, s: State, n: nat)
    requires max >= 1 && Inv(s) && n == 8 * s.sem + Remaining(s.pc)
    ensures exists k: nat :: k <= n && Rested(s, ThreadSteps(s, k))
    decreases n
  {
    if n == 0 {
      assert ThreadSteps(s, 0) == s;
    } else {
      var t := ThreadStep(s);
      assert Enabled(s, Thread) && t == Apply(max, s, Thread);
      StepInv(max, s, Thread);
      var m := 8 * t.sem + Remaining(t.pc);
      ThreadAloneSettles(max, t, m);
      var k: nat :| k <= m && Rested(t, ThreadSteps(t, k));
      assert ThreadSteps(s, k + 1) == ThreadSteps(t, k);
    }
  }

  /** From any point of any run with no trigger in flight, the thread left to itself reaches, within
      8 * sem + 7 steps, the role stored last. */
  lemma {:induction false} RoleReached(max: nat, s: State, steps: seq<Step>)
    requires max >= 1 && Init(s) && IsRun(max, s, steps)
    requires var f := Final(max, s, steps); f.lastStored.Some? && f.inFlight == 0
    ensures var f := Final(max, s, steps);
      exists k: nat :: k <= 8 * f.sem + 7
        && (f.lastStored.value == HOST ==> ThreadSteps(f, k).hostUp && !ThreadSteps(f, k).deviceUp)
        && (f.lastStored.value == DEVICE ==> ThreadSteps(f, k).deviceUp && !ThreadSteps(f, k).hostUp)
  {
    RunInv(max, s, steps);
    var f := Final(max, s, steps);
    ThreadAloneSettles(max, f, 8 * f.sem + Remaining(f.pc));
  }

  // ---------- implementation ----------

  /** The state after usbotg_host_initialize, with nothing interleaved. */
  function HostInitialized(s: State): State {
    if s.usbhInitialized then s
    else s.(usbdInitialized := false, deviceUp := s.deviceUp && !s.usbdInitialized,
            usbhInitialized := true, hostUp := true)
  }

  /** The state after usbotg_device_initialize, with nothing interleaved. */
  function DeviceInitialized(s: State): State {
    if s.usbdInitialized then s
    else s.(usbhInitialized := false, hostUp := s.hostUp && !s.usbhInitialized,
            usbdInitialized := true, deviceUp := true)
  }

  class UsbotgCore {
    var requestMode: Mode
    var changeSem: nat
    const semMax: nat
    var usbhInitialized: bool
    var usbdInitialized: bool
    // the two stacks
    var hostUp: bool
    var deviceUp: bool

    constructor (semMax: nat)
      requires semMax >= 1
      ensures this.semMax == semMax && Init(View(Waiting, 0, None))
    {
      this.semMax := semMax;
      requestMode, changeSem := HOST, 0;
      usbhInitialized, usbdInitialized, hostUp, deviceUp := false, false, false, false;
    }

    ghost function View(pc: Pc, inFlight: nat, lastStored: Option<Mode>): State
      reads this
    {
      State(requestMode, changeSem, usbhInitialized, usbdInitialized, hostUp, deviceUp, pc, inFlight, lastStored)
    }

    /** usbotg_host_initialize. */
    method HostInitialize()
      modifies this
      ensures View(Waiting, 0, None) == HostInitialized(old(View(Waiting, 0, None)))
    {
      if usbhInitialized {
        return;
      }
      if usbdInitialized {
        deviceUp := false;
        usbdInitialized := false;
      }
      usbhInitialized := true;
      hostUp := true;
    }

    /** usbotg_device_initialize. */
    method DeviceInitialize()
      modifies this
      ensures View(Waiting, 0, None) == DeviceInitialized(old(View(Waiting, 0, None)))
    {
      if usbdInitialized {
        return;
      }
      if usbhInitialized {
        hostUp := false;
        usbhInitialized := false;
      }
      usbdInitialized := true;
      deviceUp := true;
    }

    /** One pass of usbotg_rolechange_thread, with nothing interleaved. */
    method RoleChangePass()
      requires changeSem > 0
      modifies this
      ensures var s := old(View(Waiting, 0, None)).(sem := old(changeSem) - 1);
        View(Waiting, 0, None) ==
          match s.requestMode
          case HOST => HostInitialized(s)
          case DEVICE => DeviceInitialized(s)
          case OTG => s
    {
      changeSem := changeSem - 1;
      if requestMode == HOST {
        HostInitialize();
      } else if requestMode == DEVICE {
        DeviceInitialize();
      }
    }

    /** usbotg_trigger_role_change: two steps of the protocol, the store and the give. */
    method TriggerRoleChange(mode: Mode)
      requires semMax >= 1
      modifies this`requestMode, this`changeSem
      ensures View(Waiting, 0, Some(mode)) ==
        Apply(semMax, Apply(semMax, old(View(Waiting, 0, None)), TriggerStore(mode)), TriggerGive)
    {
      requestMode := mode;
      if changeSem < semMax {
        changeSem := changeSem + 1;
      }
    }
  }

  /** n more steps after one. */
  lemma StepFirst(s: State, n: nat)
    ensures ThreadSteps(s, n + 1) == ThreadSteps(ThreadStep(s), n)
  {
  }

  /** How many steps usbotg_host_initialize takes. */
  function HostLength(s: State): nat {
    if s.usbhInitialized then 1 else if s.usbdInitialized then 5 else 3
  }

  function DeviceLength(s: State): nat {
    if s.usbdInitialized then 1 else if s.usbhInitialized then 5 else 3
  }

  /** Three steps from s. */
  lemma ThreeSteps(s: State, n: nat)
    ensures ThreadSteps(s, n + 3) == ThreadSteps(ThreadStep(ThreadStep(ThreadStep(s))), n)
  {
    StepFirst(s, n + 2);
    StepFirst(ThreadStep(s), n + 1);
    StepFirst(ThreadStep(ThreadStep(s)), n);
  }

  /** Host initialisation as steps of the thread. */
  lemma HostSteps(s: State)
    requires FlagsOk(s) && s.pc == HostEntry
    ensures ThreadSteps(s, HostLength(s)) == HostInitialized(s).(pc := Waiting)
  {
    StepFirst(s, 0);
    ThreeSteps(s, 0);
    ThreeSteps(s, 2);
    var t := ThreadStep(ThreadStep(ThreadStep(s)));
    StepFirst(t, 1);
    StepFirst(ThreadStep(t), 0);
  }

  /** Device initialisation as steps of the thread. */
  lemma DeviceSteps(s: State)
    requires FlagsOk(s) && s.pc == DeviceEntry
    ensures ThreadSteps(s, DeviceLength(s)) == DeviceInitialized(s).(pc := Waiting)
  {
    StepFirst(s, 0);
    ThreeSteps(s, 0);
    ThreeSteps(s, 2);
    var t := ThreadStep(ThreadStep(ThreadStep(s)));
    StepFirst(t, 1);
    StepFirst(ThreadStep(t), 0);
  }

  /** How many steps a pass of the role thread takes when nothing interrupts it. */
  function PassLength(s: State): nat {
    match s.requestMode
    case HOST => HostLength(s) + 2
    case DEVICE => DeviceLength(s) + 3
    case OTG => 3
  }

  /** The routines are the thread's steps: a pass that nothing interrupts takes the thread from one wait to the next. */
  lemma PassIsSteps(s: State)
    requires FlagsOk(s) && s.pc == Waiting && s.sem > 0
    ensures ThreadSteps(s, PassLength(s)) ==
      match s.requestMode
      case HOST => HostInitialized(s.(sem := s.sem - 1))
      case DEVICE => DeviceInitialized(s.(sem := s.sem - 1))
      case OTG => s.(sem := s.sem - 1)
  {
    var a := ThreadStep(s);
    var b := ThreadStep(a);
    StepFirst(s, PassLength(s) - 1);
    StepFirst(a, PassLength(s) - 2);
    match s.requestMode
    case HOST =>
      HostSteps(b);
    case DEVICE =>
      StepFirst(b, DeviceLength(s));
      DeviceSteps(ThreadStep(b));
    case OTG =>
      StepFirst(b, 0);
  }
}
