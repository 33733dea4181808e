/** The device's walks over its configuration descriptor: SET_CONFIGURATION and SET_INTERFACE. */
module ConfigWalker {
  import opened MachineWords
  import opened Wrappers
  import opened Descriptors

  /** ep_mps and ep_mult of usbd_tx_rx_msg. */
  datatype Msg = Msg(mps: nat, mult: nat)

  /** A call the core makes to the port driver. */
  datatype PortCall = Open(desc: seq<byte>) | Close(address: byte)

  /** The endpoint tables and the calls made to the port driver so far. */
  datatype Ctl = Ctl(tx: seq<Msg>, rx: seq<Msg>, calls: seq<PortCall>)

  ghost predicate CtlOk(c: Ctl) {
    |c.tx| == 16 && |c.rx| == 16
  }

  /** Which walk, with its arguments. */
  datatype Mode = SetConfig(config: byte, setting: byte) | SetIntf(iface: byte, setting: byte)

  datatype Action = Nothing | DoOpen | DoClose

  /** What a walk does with an endpoint of the interface setting (iface, alt) in configuration `config`. */
  function ActionFor(m: Mode, config: nat, iface: nat, alt: nat): Action {
    match m
    case SetConfig(c, a) => if config == c && alt == a then DoOpen else Nothing
    case SetIntf(i, a) =>
      if iface != i then Nothing else if a == 0 then DoClose else if alt == a then DoOpen else Nothing
  }

  /** The endpoint address as a table index: its number and direction. */
  function EpNumber(address: byte): nat {
    address % 0x80
  }

  function MsgOf(desc: seq<byte>): Msg
    requires |desc| == 7
  {
    var w := GetLE16(desc[4], desc[5]);
    Msg(GetMaxPacketSize(w), GetMult(w))
  }

  /** usbd_set_endpoint's effect on the tables. */
  function Programmed(c: Ctl, desc: seq<byte>): (c': Ctl)
    requires CtlOk(c) && |desc| == 7 && EpNumber(desc[2]) < 16
    ensures CtlOk(c')
  {
    if desc[2] >= 0x80 then c.(tx := c.tx[EpNumber(desc[2]) := MsgOf(desc)])
    else c.(rx := c.rx[EpNumber(desc[2]) := MsgOf(desc)])
  }

  // ---------- specification ----------

  /** The locals of a walk: cur_config, cur_iface (which only SET_INTERFACE looks at), cur_alt_setting, the result,
      if_desc, desc_len and current_desc_len. */
  datatype Locals = Locals(config: nat, iface: nat, alt: nat, result: bool, ifDesc: Option<seq<byte>>,
                           descLen: nat, curLen: nat)
  {
    /** The length bound ends the walk. */
    predicate Stop() {
      curLen >= descLen && descLen != 0
    }
  }

  datatype Walk = Walk(l: Locals, ctl: Ctl)

  /** A descriptor the walks may read: long enough for its type, endpoint numbers below 16. */
  ghost predicate WalkOk(d: seq<byte>) {
    && RawOk(d)
    && (d[1] == CONFIGURATION || d[1] == INTERFACE ==> |d| >= 9)
    && (d[1] == ENDPOINT ==> |d| >= 7 && EpNumber(d[2]) < 16)
  }

  /** The switch of either walk. The k-th call to the port driver answers port(k). */
  function OnDescriptor(m: Mode, port: nat -> bool, w: Walk, d: seq<byte>): (w': Walk)
    requires CtlOk(w.ctl) && WalkOk(d)
    ensures CtlOk(w'.ctl)
  {
    var l, k := w.l, |w.ctl.calls|;
    if d[1] == CONFIGURATION then
      match m
      case SetConfig(c, _) =>
        w.(l := if d[5] == c then l.(config := d[5], result := true, curLen := 0, descLen := GetLE16(d[2], d[3]))
                else l.(config := d[5]))
      case SetIntf(_, _) => w.(l := l.(curLen := 0, descLen := GetLE16(d[2], d[3])))
    else if d[1] == INTERFACE then
      w.(l := l.(iface := d[2], alt := d[3],
                 ifDesc := if m.SetIntf? && d[2] == m.iface && d[3] == m.setting then Some(d[..9]) else l.ifDesc))
    else if d[1] == ENDPOINT then
      match ActionFor(m, l.config, l.iface, l.alt)
      case Nothing => w
      case DoOpen => Walk(l.(result := port(k)), Programmed(w.ctl, d[..7]).(calls := w.ctl.calls + [Open(d[..7])]))
      case DoClose => Walk(l.(result := port(k)), w.ctl.(calls := w.ctl.calls + [Close(d[2])]))
    else w
  }

  /** One pass of the loop: the switch, then the advance. */
  function Pass(m: Mode, port: nat -> bool, w: Walk, d: seq<byte>): (w': Walk)
    requires CtlOk(w.ctl) && WalkOk(d)
    ensures CtlOk(w'.ctl)
  {
    var v := OnDescriptor(m, port, w, d);
    v.(l := v.l.(curLen := v.l.curLen + |d|))
  }

  /** The loop over the descriptors ds; the length bound is tested after each. */
  function WalkAll(m: Mode, port: nat -> bool, w: Walk, ds: seq<seq<byte>>): (w': Walk)
    requires CtlOk(w.ctl) && forall d :: d in ds ==> WalkOk(d)
    ensures CtlOk(w'.ctl)
    decreases |ds|
  {
    if ds == [] then w
    else
      assert WalkOk(ds[0]);
      var v := Pass(m, port, w, ds[0]);
      if v.l.Stop() then v else WalkAll(m, port, v, ds[1..])
  }

  /** The length bound ends the walk over ds. */
  predicate Stops(m: Mode, port: nat -> bool, w: Walk, ds: seq<seq<byte>>)
    requires CtlOk(w.ctl) && forall d :: d in ds ==> WalkOk(d)
    decreases |ds|
  {
    ds != [] &&
    assert WalkOk(ds[0]);
    var v := Pass(m, port, w, ds[0]);
    v.l.Stop() || Stops(m, port, v, ds[1..])
  }

  function Begin(c: Ctl): Walk {
    Walk(Locals(0xff, 0xff, 0xff, false, None, 0, 0), c)
  }

  /** The descriptors ds lie in b from offset p on, followed by a zero length byte unless the length bound
      ends the walk first. */
  ghost predicate LaidOut(m: Mode, port: nat -> bool, w: Walk, b: seq<byte>, p: nat, ds: seq<seq<byte>>)
    requires CtlOk(w.ctl)
  {
    && (forall d :: d in ds ==> WalkOk(d))
    && p + |Flatten(ds)| <= |b| && b[p..p + |Flatten(ds)|] == Flatten(ds)
    && (Stops(m, port, w, ds) || (p + |Flatten(ds)| < |b| && b[p + |Flatten(ds)|] == 0))
  }

  /** d lies in b at offset p. */
  ghost predicate Starts(b: seq<byte>, p: nat, d: seq<byte>) {
    p + |d| <= |b| && forall i :: 0 <= i < |d| ==> b[p + i] == d[i]
  }

  /** The loop guard reads inside the buffer, and ends the loop just when the descriptors are used up. */
  lemma GuardReads(m: Mode, port: nat -> bool, w: Walk, b: seq<byte>, p: nat, ds: seq<seq<byte>>)
    requires CtlOk(w.ctl) && LaidOut(m, port, w, b, p, ds)
    ensures p < |b| && (b[p] == 0 <==> ds == [])
  {
    if ds != [] {
      NextLaidOut(m, port, w, b, p, ds);
    }
  }

  lemma NextLaidOut(m: Mode, port: nat -> bool, w: Walk, b: seq<byte>, p: nat, ds: seq<seq<byte>>)
    requires CtlOk(w.ctl) && LaidOut(m, port, w, b, p, ds) && ds != []
    ensures WalkOk(ds[0]) && Starts(b, p, ds[0])
    ensures var v := Pass(m, port, w, ds[0]); !v.l.Stop() ==> LaidOut(m, port, v, b, p + |ds[0]|, ds[1..])
  {
    var d := ds[0];
    assert d in ds;
    var f := b[p..p + |Flatten(ds)|];
    assert f[..|d|] == d && f[|d|..] == Flatten(ds[1..]);
    assert forall i :: 0 <= i < |d| ==> b[p + i] == f[i];
    assert b[p + |d|..p + |d| + |Flatten(ds[1..])|] == f[|d|..];
  }

  // ---------- implementation ----------

  class UsbdEndpoints {
    const txMsg: array<Msg>
    const rxMsg: array<Msg>
    var calls: seq<PortCall>

    constructor ()
      ensures Valid() && fresh(txMsg) && fresh(rxMsg)
    {
      txMsg := new Msg[16](_ => Msg(0, 0));
      rxMsg := new Msg[16](_ => Msg(0, 0));
      calls := [];
    }

    ghost predicate Valid() {
      txMsg.Length == 16 && rxMsg.Length == 16 && txMsg != rxMsg
    }

    ghost function View(): Ctl
      reads this, txMsg, rxMsg
    {
      Ctl(txMsg[..], rxMsg[..], calls)
    }

    /** usbd_set_endpoint. */
    method SetEndpoint(port: nat -> bool, desc: seq<byte>) returns (ok: bool)
      requires Valid() && |desc| == 7 && EpNumber(desc[2]) < 16
      modifies this`calls, txMsg, rxMsg
      ensures View() == Programmed(old(View()), desc).(calls := old(calls) + [Open(desc)])
      ensures ok == port(old(|calls|))
    {
      var w := GetLE16(desc[4], desc[5]);
      if desc[2] >= 0x80 {
        txMsg[EpNumber(desc[2])] := Msg(GetMaxPacketSize(w), GetMult(w));
      } else {
        rxMsg[EpNumber(desc[2])] := Msg(GetMaxPacketSize(w), GetMult(w));
      }
      ok := port(|calls|);
      calls := calls + [Open(desc)];
    }

    /** usbd_reset_endpoint. */
    method ResetEndpoint(port: nat -> bool, desc: seq<byte>) returns (ok: bool)
      requires |desc| >= 7
      modifies this`calls
      ensures calls == old(calls) + [Close(desc[2])] && ok == port(old(|calls|))
    {
      ok := port(|calls|);
      calls := calls + [Close(desc[2])];
    }

    /** The switch of usbd_set_configuration on the descriptor d at offset p. */
    method ConfigSwitch(port: nat -> bool, b: seq<byte>, p: nat, ghost d: seq<byte>, l: Locals,
                        configIndex: byte, altSetting: byte)
      returns (l': Locals)
      requires Valid() && WalkOk(d) && Starts(b, p, d)
      modifies this`calls, txMsg, rxMsg
      ensures Walk(l', View()) == OnDescriptor(SetConfig(configIndex, altSetting), port, Walk(l, old(View())), d)
    {
      assert b[p + 0] == d[0];
      l' := l;
      if b[p + 1] == CONFIGURATION {
        l' := l'.(config := b[p + 5]);
        if l'.config == configIndex {
          l' := l'.(result := true, curLen := 0, descLen := GetLE16(b[p + 2], b[p + 3]));
        }
      } else if b[p + 1] == INTERFACE {
        l' := l'.(iface := b[p + 2], alt := b[p + 3]);
      } else if b[p + 1] == ENDPOINT {
        if l.config == configIndex && l.alt == altSetting {
          assert b[p..p + 7] == d[..7];
          var ok := SetEndpoint(port, b[p..p + 7]);
          l' := l'.(result := ok);
        }
      }
    }

    /** One pass of the loop of usbd_set_configuration: the switch, then the advance. */
    method ConfigPass(port: nat -> bool, b: seq<byte>, p: nat, ghost d: seq<byte>, l: Locals,
                      configIndex: byte, altSetting: byte)
      returns (l': Locals, p': nat)
      requires Valid() && WalkOk(d) && Starts(b, p, d)
      modifies this`calls, txMsg, rxMsg
      ensures Walk(l', View()) == Pass(SetConfig(configIndex, altSetting), port, Walk(l, old(View())), d)
      ensures p' == p + |d|
    {
      assert b[p + 0] == d[0];
      l' := ConfigSwitch(port, b, p, d, l, configIndex, altSetting);
      l' := l'.(curLen := l'.curLen + b[p]);
      p' := p + b[p];
    }

    /** usbd_set_configuration over the descriptor bytes b. */
    method SetConfiguration(port: nat -> bool, b: seq<byte>, ghost ds: seq<seq<byte>>,
                            configIndex: byte, altSetting: byte)
      returns (found: bool)
      requires Valid() && LaidOut(SetConfig(configIndex, altSetting), port, Begin(View()), b, 0, ds)
      modifies this`calls, txMsg, rxMsg
      ensures var w := WalkAll(SetConfig(configIndex, altSetting), port, Begin(old(View())), ds);
        found == w.l.result && View() == w.ctl
    {
      ghost var m, w0, rest := SetConfig(configIndex, altSetting), Begin(View()), ds;
      var l, p: nat := Locals(0xff, 0xff, 0xff, false, None, 0, 0), 0;
      GuardReads(m, port, w0, b, p, rest);
      while b[p] != 0
        invariant LaidOut(m, port, Walk(l, View()), b, p, rest) && p < |b| && (b[p] == 0 <==> rest == [])
        invariant WalkAll(m, port, w0, ds) == WalkAll(m, port, Walk(l, View()), rest)
        decreases |rest|
      {
        ghost var w := Walk(l, View());
        NextLaidOut(m, port, w, b, p, rest);
        ghost var d := rest[0];
        l, p := ConfigPass(port, b, p, d, l, configIndex, altSetting);
        rest := rest[1..];
        if l.curLen >= l.descLen && l.descLen != 0 {
          assert WalkAll(m, port, w0, ds) == Walk(l, View());
          break;
        }
        GuardReads(m, port, Walk(l, View()), b, p, rest);
      }
      found := l.result;
    }

    /** The switch of usbd_set_interface on the descriptor d at offset p. */
    method InterfaceSwitch(port: nat -> bool, b: seq<byte>, p: nat, ghost d: seq<byte>, l: Locals,
                           iface: byte, altSetting: byte)
      returns (l': Locals)
      requires Valid() && WalkOk(d) && Starts(b, p, d)
      modifies this`calls, txMsg, rxMsg
      ensures Walk(l', View()) == OnDescriptor(SetIntf(iface, altSetting), port, Walk(l, old(View())), d)
    {
      assert b[p + 0] == d[0];
      l' := l;
      if b[p + 1] == CONFIGURATION {
        l' := l'.(curLen := 0, descLen := GetLE16(b[p + 2], b[p + 3]));
      } else if b[p + 1] == INTERFACE {
        l' := l'.(alt := b[p + 3], iface := b[p + 2]);
        if l'.iface == iface && l'.alt == altSetting {
          assert b[p..p + 9] == d[..9];
          l' := l'.(ifDesc := Some(b[p..p + 9]));
        }
      } else if b[p + 1] == ENDPOINT {
        if l.iface == iface {
          assert b[p..p + 7] == d[..7];
          if altSetting == 0 {
            var ok := ResetEndpoint(port, b[p..p + 7]);
            l' := l'.(result := ok);
          } else if l.alt == altSetting {
            var ok := SetEndpoint(port, b[p..p + 7]);
            l' := l'.(result := ok);
          }
        }
      }
    }

    /** One pass of the loop of usbd_set_interface: the switch, then the advance. */
    method InterfacePass(port: nat -> bool, b: seq<byte>, p: nat, ghost d: seq<byte>, l: Locals,
                         iface: byte, altSetting: byte)
      returns (l': Locals, p': nat)
      requires Valid() && WalkOk(d) && Starts(b, p, d)
      modifies this`calls, txMsg, rxMsg
      ensures Walk(l', View()) == Pass(SetIntf(iface, altSetting), port, Walk(l, old(View())), d)
      ensures p' == p + |d|
    {
      assert b[p + 0] == d[0];
      l' := InterfaceSwitch(port, b, p, d, l, iface, altSetting);
      l' := l'.(curLen := l'.curLen + b[p]);
      p' := p + b[p];
    }

    /** usbd_set_interface over the descriptor bytes b; notified is the interface descriptor passed to the
        class notification, if any. */
    method SetInterface(port: nat -> bool, b: seq<byte>, ghost ds: seq<seq<byte>>, iface: byte, altSetting: byte)
      returns (ret: bool, notified: Option<seq<byte>>)
      requires Valid() && LaidOut(SetIntf(iface, altSetting), port, Begin(View()), b, 0, ds)
      modifies this`calls, txMsg, rxMsg
      ensures var w := WalkAll(SetIntf(iface, altSetting), port, Begin(old(View())), ds);
        ret == w.l.result && notified == w.l.ifDesc && View() == w.ctl
    {
      ghost var m, w0, rest := SetIntf(iface, altSetting), Begin(View()), ds;
      var l, p: nat := Locals(0xff, 0xff, 0xff, false, None, 0, 0), 0;
      GuardReads(m, port, w0, b, p, rest);
      while b[p] != 0
        invariant LaidOut(m, port, Walk(l, View()), b, p, rest) && p < |b| && (b[p] == 0 <==> rest == [])
        invariant WalkAll(m, port, w0, ds) == WalkAll(m, port, Walk(l, View()), rest)
        decreases |rest|
      {
        ghost var w := Walk(l, View());
        NextLaidOut(m, port, w, b, p, rest);
        ghost var d := rest[0];
        l, p := InterfacePass(port, b, p, d, l, iface, altSetting);
        rest := rest[1..];
        if l.curLen >= l.descLen && l.descLen != 0 {
          assert WalkAll(m, port, w0, ds) == Walk(l, View());
          break;
        }
        GuardReads(m, port, Walk(l, View()), b, p, rest);
      }
      ret, notified := l.result, l.ifDesc;
    }
  }

  // ---------- the walks on an encoded configuration ----------

  ghost predicate EpOk(it: Item) {
    ItemOk(it) && (it.EpItem? ==> EpNumber(it.ep.address) < 16)
  }

  ghost predicate DeviceOk(c: Config) {
    WellFormed(c) && forall b, it :: b in c.blocks && it in b.items ==> EpOk(it)
  }

  /** A call the walks make: an open of an encoded endpoint with a number below 16, or a close. */
  ghost predicate CallOk(call: PortCall) {
    call.Open? ==> |call.desc| == 7 && EpNumber(call.desc[2]) < 16
  }

  /** The endpoint tables and the log after some calls. */
  ghost function AfterCalls(c: Ctl, calls: seq<PortCall>): (c': Ctl)
    requires CtlOk(c) && forall x :: x in calls ==> CallOk(x)
    ensures CtlOk(c') && c'.calls == c.calls + calls
    decreases |calls|
  {
    if calls == [] then c
    else
      var last := calls[|calls| - 1];
      assert CallOk(last) && calls == calls[..|calls| - 1] + [last];
      var t := AfterCalls(c, calls[..|calls| - 1]);
      (if last.Open? then Programmed(t, last.desc) else t).(calls := t.calls + [last])
  }

  /** The calls an action makes for some endpoints, one each, in order. */
  ghost function CallsOf(a: Action, eps: seq<Endpoint>): (calls: seq<PortCall>) {
    if a == Nothing then []
    else seq(|eps|, i requires 0 <= i < |eps| => if a == DoOpen then Open(eps[i].Encode()) else Close(eps[i].address))
  }

  /** The calls a walk owes a configuration of value v: setting by setting, the endpoints it selects. */
  ghost function WalkCalls(m: Mode, v: byte, blocks: seq<Block>): seq<PortCall> {
    if blocks == [] then []
    else
      var last := blocks[|blocks| - 1];
      WalkCalls(m, v, blocks[..|blocks| - 1])
        + CallsOf(ActionFor(m, v, last.intf.number, last.intf.altSetting), EndpointsOf(last.items))
  }

  /** The result of the last call, or the result so far if there was none. */
  function LastAnswer(port: nat -> bool, before: bool, logged: nat, calls: nat): bool {
    if calls == 0 then before else port(logged + calls - 1)
  }

  /** Passes over ds with no length bound. */
  ghost function FoldAll(m: Mode, port: nat -> bool, w: Walk, ds: seq<seq<byte>>): (w': Walk)
    requires CtlOk(w.ctl) && forall d :: d in ds ==> WalkOk(d)
    ensures CtlOk(w'.ctl)
    decreases |ds|
  {
    if ds == [] then w
    else
      assert WalkOk(ds[|ds| - 1]);
      Pass(m, port, FoldAll(m, port, w, ds[..|ds| - 1]), ds[|ds| - 1])
  }

  /** Descriptors that a bound never meets before their end. */
  ghost predicate BodyOk(ds: seq<seq<byte>>) {
    forall d :: d in ds ==> WalkOk(d) && d[1] != CONFIGURATION
  }

  lemma {:induction false} FoldCons(m: Mode, port: nat -> bool, w: Walk, d: seq<byte>, ds: seq<seq<byte>>)
    requires CtlOk(w.ctl) && WalkOk(d) && forall x :: x in ds ==> WalkOk(x)
    ensures forall x :: x in [d] + ds ==> WalkOk(x)
    ensures FoldAll(m, port, w, [d] + ds) == FoldAll(m, port, Pass(m, port, w, d), ds)
    decreases |ds|
  {
    var all := [d] + ds;
    if ds == [] {
      assert all == [d] && all[..0] == [];
      assert FoldAll(m, port, w, all[..0]) == w;
    } else {
      assert all[..|all| - 1] == [d] + ds[..|ds| - 1];
      FoldCons(m, port, w, d, ds[..|ds| - 1]);
    }
  }

  lemma {:induction false} FoldSplit(m: Mode, port: nat -> bool, w: Walk, xs: seq<seq<byte>>, ys: seq<seq<byte>>)
    requires CtlOk(w.ctl) && BodyOk(xs) && BodyOk(ys)
    ensures BodyOk(xs + ys)
    ensures FoldAll(m, port, w, xs + ys) == FoldAll(m, port, FoldAll(m, port, w, xs), ys)
    decreases |ys|
  {
    if ys == [] {
      assert xs + ys == xs;
    } else {
      assert (xs + ys)[..|xs + ys| - 1] == xs + ys[..|ys| - 1];
      FoldSplit(m, port, w, xs, ys[..|ys| - 1]);
    }
  }

  /** With a bound that the descriptors just fill, or none, the walk passes over all of them. */
  lemma {:induction false} WalkIsFold(m: Mode, port: nat -> bool, w: Walk, ds: seq<seq<byte>>)
    requires CtlOk(w.ctl) && BodyOk(ds)
    requires w.l.descLen == 0 || w.l.descLen == w.l.curLen + |Flatten(ds)|
    ensures WalkAll(m, port, w, ds) == FoldAll(m, port, w, ds)
    ensures Stops(m, port, w, ds) <==> w.l.descLen != 0 && ds != []
    decreases |ds|
  {
    if ds != [] {
      assert WalkOk(ds[0]);
      var v := Pass(m, port, w, ds[0]);
      assert ds == [ds[0]] + ds[1..];
      FoldCons(m, port, w, ds[0], ds[1..]);
      if v.l.Stop() {
        StopsAtEnd(ds[1..]);
      } else {
        WalkIsFold(m, port, v, ds[1..]);
      }
    }
  }

  lemma StopsAtEnd(ds: seq<seq<byte>>)
    requires BodyOk(ds)
    ensures |Flatten(ds)| == 0 ==> ds == []
  {
    if ds != [] {
      assert WalkOk(ds[0]);
    }
  }

  /** The walk is w with the calls made, and no other local changed but the length counter. */
  ghost predicate Reached(port: nat -> bool, w: Walk, v: Walk, calls: seq<PortCall>)
    requires CtlOk(w.ctl)
  {
    && (forall x :: x in calls ==> CallOk(x))
    && v.ctl == AfterCalls(w.ctl, calls)
    && v.l.result == LastAnswer(port, w.l.result, |w.ctl.calls|, |calls|)
    && v.l.config == w.l.config
  }

  lemma {:induction false} AfterCallsSplit(c: Ctl, xs: seq<PortCall>, ys: seq<PortCall>)
    requires CtlOk(c) && (forall x :: x in xs ==> CallOk(x)) && (forall x :: x in ys ==> CallOk(x))
    ensures AfterCalls(c, xs + ys) == AfterCalls(AfterCalls(c, xs), ys)
    decreases |ys|
  {
    if ys == [] {
      assert xs + ys == xs;
    } else {
      assert (xs + ys)[..|xs + ys| - 1] == xs + ys[..|ys| - 1];
      AfterCallsSplit(c, xs, ys[..|ys| - 1]);
    }
  }

  lemma ReachedTrans(port: nat -> bool, u: Walk, v: Walk, w: Walk, xs: seq<PortCall>, ys: seq<PortCall>)
    requires CtlOk(u.ctl) && Reached(port, u, v, xs) && Reached(port, v, w, ys)
    ensures Reached(port, u, w, xs + ys)
  {
    AfterCallsSplit(u.ctl, xs, ys);
  }

  lemma ItemsOk(items: seq<Item>)
    requires forall it :: it in items ==> EpOk(it)
    ensures BodyOk(ItemDescs(items))
  {
    forall d | d in ItemDescs(items)
      ensures WalkOk(d) && d[1] != CONFIGURATION
    {
      var i :| 0 <= i < |items| && ItemDescs(items)[i] == d;
      assert EpOk(items[i]);
    }
  }

  ghost function OneCall(a: Action, it: Item): seq<PortCall> {
    if it.EpItem? then CallsOf(a, [it.ep]) else []
  }

  lemma CallsOfSnoc(a: Action, items: seq<Item>)
    requires items != []
    ensures CallsOf(a, EndpointsOf(items)) ==
      CallsOf(a, EndpointsOf(items[..|items| - 1])) + OneCall(a, items[|items| - 1])
  {
    var eps, last := EndpointsOf(items[..|items| - 1]), items[|items| - 1];
    if last.EpItem? {
      CallsOfAppend(a, eps, [last.ep]);
    } else {
      assert EndpointsOf(items) == eps;
    }
  }

  lemma CallsOfAppend(a: Action, xs: seq<Endpoint>, ys: seq<Endpoint>)
    ensures CallsOf(a, xs + ys) == CallsOf(a, xs) + CallsOf(a, ys)
  {
  }

  /** One item causes the call its endpoint is owed, if it is an endpoint. */
  lemma OneItem(m: Mode, port: nat -> bool, w: Walk, it: Item)
    requires CtlOk(w.ctl) && EpOk(it)
    ensures WalkOk(it.Encode())
    ensures var v := Pass(m, port, w, it.Encode());
      && Reached(port, w, v, OneCall(ActionFor(m, w.l.config, w.l.iface, w.l.alt), it))
      && v.l.iface == w.l.iface && v.l.alt == w.l.alt && v.l.ifDesc == w.l.ifDesc
  {
    var a := ActionFor(m, w.l.config, w.l.iface, w.l.alt);
    var calls := OneCall(a, it);
    if it.EpItem? && a != Nothing {
      assert it.ep.Encode()[..7] == it.ep.Encode();
      assert calls[..|calls| - 1] == [];
    }
  }

  /** The items of one setting cause one call per selected endpoint. */
  lemma {:induction false} FoldItems(m: Mode, port: nat -> bool, w: Walk, items: seq<Item>)
    requires CtlOk(w.ctl) && forall it :: it in items ==> EpOk(it)
    ensures BodyOk(ItemDescs(items))
    ensures var v := FoldAll(m, port, w, ItemDescs(items));
      && Reached(port, w, v, CallsOf(ActionFor(m, w.l.config, w.l.iface, w.l.alt), EndpointsOf(items)))
      && v.l.iface == w.l.iface && v.l.alt == w.l.alt && v.l.ifDesc == w.l.ifDesc
    decreases |items|
  {
    ItemsOk(items);
    if items != [] {
      var init, last := items[..|items| - 1], items[|items| - 1];
      FoldItems(m, port, w, init);
      ItemDescsSnoc(items);
      assert EpOk(last);
      var a := ActionFor(m, w.l.config, w.l.iface, w.l.alt);
      var u := FoldAll(m, port, w, ItemDescs(init));
      OneItem(m, port, u, last);
      ReachedTrans(port, w, u, Pass(m, port, u, last.Encode()), CallsOf(a, EndpointsOf(init)), OneCall(a, last));
      CallsOfSnoc(a, items);
    }
  }

  /** The interface descriptor of the last setting that is exactly (iface, alt). */
  ghost function LastSetting(blocks: seq<Block>, iface: byte, alt: byte): Option<seq<byte>> {
    if blocks == [] then None
    else
      var last := blocks[|blocks| - 1];
      if last.intf.number == iface && last.intf.altSetting == alt then Some(last.intf.Encode())
      else LastSetting(blocks[..|blocks| - 1], iface, alt)
  }

  /** One setting: its interface descriptor moves the cursor, its items are acted on. */
  lemma FoldBlock(m: Mode, port: nat -> bool, w: Walk, blk: Block)
    requires CtlOk(w.ctl) && forall it :: it in blk.items ==> EpOk(it)
    ensures BodyOk([blk.intf.Encode()] + ItemDescs(blk.items))
    ensures var v := FoldAll(m, port, w, [blk.intf.Encode()] + ItemDescs(blk.items));
      var action := ActionFor(m, w.l.config, blk.intf.number, blk.intf.altSetting);
      && Reached(port, w, v, CallsOf(action, EndpointsOf(blk.items)))
      && v.l.ifDesc == if m.SetIntf? && blk.intf.number == m.iface && blk.intf.altSetting == m.setting
                       then Some(blk.intf.Encode()) else w.l.ifDesc
  {
    var d := blk.intf.Encode();
    assert WalkOk(d) && d[..9] == d;
    FoldItems(m, port, Pass(m, port, w, d), blk.items);
    FoldCons(m, port, w, d, ItemDescs(blk.items));
  }

  lemma {:induction false} FoldBlocks(m: Mode, port: nat -> bool, w: Walk, v: byte, blocks: seq<Block>)
    requires CtlOk(w.ctl) && forall b, it :: b in blocks && it in b.items ==> EpOk(it)
    requires m.SetConfig? ==> w.l.config == v
    ensures BodyOk(BlockDescs(blocks))
    ensures var u := FoldAll(m, port, w, BlockDescs(blocks));
      && Reached(port, w, u, WalkCalls(m, v, blocks))
      && (m.SetIntf? && w.l.ifDesc.None? ==> u.l.ifDesc == LastSetting(blocks, m.iface, m.setting))
    decreases |blocks|
  {
    if blocks != [] {
      var init, blk := blocks[..|blocks| - 1], blocks[|blocks| - 1];
      assert blocks == init + [blk] && blk in blocks;
      FoldBlocks(m, port, w, v, init);
      var u := FoldAll(m, port, w, BlockDescs(init));
      var ds := [blk.intf.Encode()] + ItemDescs(blk.items);
      FoldBlock(m, port, u, blk);
      BlockDescsSnoc(init, blk);
      FoldSplit(m, port, w, BlockDescs(init), ds);
      var calls := CallsOf(ActionFor(m, v, blk.intf.number, blk.intf.altSetting), EndpointsOf(blk.items));
      assert ActionFor(m, u.l.config, blk.intf.number, blk.intf.altSetting)
          == ActionFor(m, v, blk.intf.number, blk.intf.altSetting);
      ReachedTrans(port, w, u, FoldAll(m, port, u, ds), WalkCalls(m, v, init), calls);
    }
  }

  lemma {:induction false} FoldLead(m: Mode, port: nat -> bool, w: Walk, lead: seq<seq<byte>>)
    requires CtlOk(w.ctl) && forall d :: d in lead ==> ClassOk(d)
    ensures BodyOk(lead)
    ensures var v := FoldAll(m, port, w, lead); v.ctl == w.ctl && v.l == w.l.(curLen := v.l.curLen)
    decreases |lead|
  {
    if lead != [] {
      assert ClassOk(lead[|lead| - 1]);
      FoldLead(m, port, w, lead[..|lead| - 1]);
    }
  }

  /** The walk selects configuration value v: SET_INTERFACE always does. */
  predicate Selects(m: Mode, v: byte) {
    m.SetConfig? ==> m.config == v
  }

  lemma HeaderPass(c: Config, m: Mode, port: nat -> bool, ctl: Ctl)
    requires DeviceOk(c) && CtlOk(ctl)
    ensures WalkOk(Header(c))
    ensures var w := Pass(m, port, Begin(ctl), Header(c));
      && w.ctl == ctl && w.l.curLen == 9 && w.l.ifDesc.None?
      && w.l.descLen == (if Selects(m, c.value) then TotalLength(c) else 0)
      && (m.SetConfig? ==> w.l.config == c.value)
      && w.l.result == (m.SetConfig? && m.config == c.value)
  {
  }

  /** The two walks on an encoded configuration. A SET_CONFIGURATION with another value does nothing and fails.
      Otherwise exactly the selected endpoints are opened or closed, in order: for a configuration, those of the
      requested alternate setting; for an interface, all of its endpoints closed for setting 0, those of the
      requested setting opened otherwise. The result is the answer of the last call, and without calls true
      for a configuration and false for an interface. The descriptor's own length ends the walk. */
  lemma WalkEncoded(c: Config, m: Mode, port: nat -> bool, ctl: Ctl)
    requires DeviceOk(c) && CtlOk(ctl)
    ensures forall d :: d in [Header(c)] + Body(c) ==> WalkOk(d)
    ensures forall x :: x in WalkCalls(m, c.value, c.blocks) ==> CallOk(x)
    ensures var w := WalkAll(m, port, Begin(ctl), [Header(c)] + Body(c));
      if Selects(m, c.value) then
        && w.ctl == AfterCalls(ctl, WalkCalls(m, c.value, c.blocks))
        && w.l.result == LastAnswer(port, m.SetConfig?, |ctl.calls|, |WalkCalls(m, c.value, c.blocks)|)
        && (m.SetIntf? ==> w.l.ifDesc == LastSetting(c.blocks, m.iface, m.setting))
      else w.ctl == ctl && !w.l.result
    ensures Stops(m, port, Begin(ctl), [Header(c)] + Body(c)) <==> Selects(m, c.value)
  {
    HeaderPass(c, m, port, ctl);
    var d, body := Header(c), Body(c);
    var w := Pass(m, port, Begin(ctl), d);
    FoldLead(m, port, w, c.lead);
    var v := FoldAll(m, port, w, c.lead);
    FoldBlocks(m, port, v, c.value, c.blocks);
    FoldSplit(m, port, w, c.lead, BlockDescs(c.blocks));
    WalkIsFold(m, port, w, body);
    assert ([d] + body)[1..] == body;
    if !Selects(m, c.value) {
      NoCalls(m, c.value, c.blocks);
    }
    if w.l.Stop() {
      StopsAtEnd(body);
    }
  }

  /** One of the n answers from the k-th on is a failure. */
  ghost predicate SomeFail(port: nat -> bool, k: nat, n: nat) {
    exists i: nat :: k <= i < k + n && !port(i)
  }

  /** The last of n answers hides a failure iff it is a success and one before it is not. */
  lemma LastHides(port: nat -> bool, before: bool, k: nat, n: nat)
    ensures LastAnswer(port, before, k, n) && SomeFail(port, k, n) <==>
      n > 0 && port(k + n - 1) && SomeFail(port, k, n - 1)
  {
    if n > 0 && port(k + n - 1) && SomeFail(port, k, n) {
      var i: nat :| k <= i < k + n && !port(i);
      assert i < k + (n - 1);
    }
    if n > 0 && SomeFail(port, k, n - 1) {
      var i: nat :| k <= i < k + (n - 1) && !port(i);
      assert i < k + n;
    }
  }

  /** The result of a walk with a given driver, and how many calls it makes. */
  ghost function ResultOf(c: Config, m: Mode, port: nat -> bool, ctl: Ctl): bool
    requires DeviceOk(c) && CtlOk(ctl)
  {
    WalkEncoded(c, m, port, ctl);
    WalkAll(m, port, Begin(ctl), [Header(c)] + Body(c)).l.result
  }

  /** Success of a walk means success of all its calls, whatever the driver answers, iff the configuration makes it
      call at most once. */
  lemma FailureHiddenExactly(c: Config, m: Mode, ctl: Ctl)
    requires DeviceOk(c) && CtlOk(ctl) && Selects(m, c.value)
    ensures var n, k := |WalkCalls(m, c.value, c.blocks)|, |ctl.calls|;
      (forall port :: ResultOf(c, m, port, ctl) ==> !SomeFail(port, k, n)) <==> n <= 1
  {
    var n, k := |WalkCalls(m, c.value, c.blocks)|, |ctl.calls|;
    forall port | ResultOf(c, m, port, ctl) && SomeFail(port, k, n)
      ensures n > 1
    {
      WalkEncoded(c, m, port, ctl);
      LastHides(port, m.SetConfig?, k, n);
    }
    if n > 1 {
      var port := (i: nat) => i == k + n - 1;
      WalkEncoded(c, m, port, ctl);
      assert !port(k);
      assert ResultOf(c, m, port, ctl) && SomeFail(port, k, n);
    }
  }

  /** One interface with two endpoints. */
  ghost function TwoEndpoints(): Config {
    var eps := [EpItem(Endpoint(0x81, 2, 64, 0)), EpItem(Endpoint(0x02, 2, 64, 0))];
    Config(1, 1, 0x80, 100, [], [Block(Interface(0, 0, 2, 0xff, 0, 0, 0), eps)])
  }

  lemma TwoEndpointsOk()
    ensures var c := TwoEndpoints();
      && DeviceOk(c)
      && EndpointsOf(c.blocks[0].items) == [Endpoint(0x81, 2, 64, 0), Endpoint(0x02, 2, 64, 0)]
  {
    var e1, e2 := Endpoint(0x81, 2, 64, 0), Endpoint(0x02, 2, 64, 0);
    var blk := TwoEndpoints().blocks[0];
    assert blk.items == [EpItem(e1)] + [EpItem(e2)];
    OneEndpoint(e1);
    OneMoreItem([EpItem(e1)], e2);
    OneBlock(blk);
    var d: seq<byte> := blk.intf.Encode();
    FlattenCons(e2.Encode(), []);
    FlattenCons(e1.Encode(), [e2.Encode()]);
    FlattenCons(d, [e1.Encode(), e2.Encode()]);
    assert Body(TwoEndpoints()) == [d] + ([e1.Encode()] + [e2.Encode()]);
    assert [e1.Encode()] + [e2.Encode()] == [e1.Encode(), e2.Encode()] && [e2.Encode()] + [] == [e2.Encode()];
  }

  /** Its first endpoint fails to open, its second opens: SET_CONFIGURATION succeeds. */
  lemma FailureHiddenExample(ctl: Ctl)
    requires CtlOk(ctl) && ctl.calls == []
    ensures var c, port := TwoEndpoints(), (k: nat) => k == 1;
      && DeviceOk(c) && (forall d :: d in [Header(c)] + Body(c) ==> WalkOk(d))
      && var w := WalkAll(SetConfig(1, 0), port, Begin(ctl), [Header(c)] + Body(c));
         w.l.result && |w.ctl.calls| == 2 && w.ctl.calls[0].Open? && !port(0)
  {
    TwoEndpointsOk();
    var c, port := TwoEndpoints(), (k: nat) => k == 1;
    WalkEncoded(c, SetConfig(1, 0), port, ctl);
    assert c.blocks[..0] == [];
    assert WalkCalls(SetConfig(1, 0), 1, c.blocks[..0]) == [];
    var eps := EndpointsOf(c.blocks[0].items);
    assert WalkCalls(SetConfig(1, 0), 1, c.blocks) == CallsOf(DoOpen, eps);
  }

  lemma {:induction false} NoCalls(m: Mode, v: byte, blocks: seq<Block>)
    requires !Selects(m, v)
    ensures WalkCalls(m, v, blocks) == []
    decreases |blocks|
  {
    if blocks != [] {
      NoCalls(m, v, blocks[..|blocks| - 1]);
    }
  }

  // ---------- which calls, told by the configuration alone ----------

  /** The endpoints of the settings that p picks, in the order of the configuration. */
  ghost function EndpointsIn(blocks: seq<Block>, p: Interface -> bool): seq<Endpoint> {
    if blocks == [] then []
    else
      var last := blocks[|blocks| - 1];
      EndpointsIn(blocks[..|blocks| - 1], p) + if p(last.intf) then EndpointsOf(last.items) else []
  }

  ghost function Opens(eps: seq<Endpoint>): seq<PortCall> {
    seq(|eps|, k requires 0 <= k < |eps| => Open(eps[k].Encode()))
  }

  ghost function Closes(eps: seq<Endpoint>): seq<PortCall> {
    seq(|eps|, k requires 0 <= k < |eps| => Close(eps[k].address))
  }

  lemma OpensAppend(x: seq<Endpoint>, y: seq<Endpoint>)
    ensures Opens(x + y) == Opens(x) + Opens(y) && Closes(x + y) == Closes(x) + Closes(y)
  {
  }

  /** The calls of a walk of SET_CONFIGURATION. */
  lemma {:induction false} ConfigCalls(v: byte, a: byte, blocks: seq<Block>)
    ensures WalkCalls(SetConfig(v, a), v, blocks) == Opens(EndpointsIn(blocks, (i: Interface) => i.altSetting == a))
    decreases |blocks|
  {
    if blocks != [] {
      var init, last := blocks[..|blocks| - 1], blocks[|blocks| - 1];
      ConfigCalls(v, a, init);
      OpensAppend(EndpointsIn(init, (i: Interface) => i.altSetting == a), EndpointsOf(last.items));
    }
  }

  /** The calls of a walk of SET_INTERFACE for setting 0. */
  lemma {:induction false} CloseCalls(n: byte, v: byte, blocks: seq<Block>)
    ensures WalkCalls(SetIntf(n, 0), v, blocks) == Closes(EndpointsIn(blocks, (i: Interface) => i.number == n))
    decreases |blocks|
  {
    if blocks != [] {
      var init, last := blocks[..|blocks| - 1], blocks[|blocks| - 1];
      CloseCalls(n, v, init);
      OpensAppend(EndpointsIn(init, (i: Interface) => i.number == n), EndpointsOf(last.items));
    }
  }

  /** The calls of a walk of SET_INTERFACE for another setting. */
  lemma {:induction false} OpenCalls(n: byte, a: byte, v: byte, blocks: seq<Block>)
    requires a != 0
    ensures WalkCalls(SetIntf(n, a), v, blocks) ==
      Opens(EndpointsIn(blocks, (i: Interface) => i.number == n && i.altSetting == a))
    decreases |blocks|
  {
    if blocks != [] {
      var init, last := blocks[..|blocks| - 1], blocks[|blocks| - 1];
      OpenCalls(n, a, v, init);
      OpensAppend(EndpointsIn(init, (i: Interface) => i.number == n && i.altSetting == a), EndpointsOf(last.items));
    }
  }

  /** SET_CONFIGURATION with the configuration's value opens the endpoints of the requested alternate setting of
      every interface, in order, and nothing else. */
  lemma ConfigurationWalk(c: Config, a: byte, port: nat -> bool, ctl: Ctl)
    requires DeviceOk(c) && CtlOk(ctl)
    ensures forall d :: d in [Header(c)] + Body(c) ==> WalkOk(d)
    ensures WalkAll(SetConfig(c.value, a), port, Begin(ctl), [Header(c)] + Body(c)).ctl.calls ==
      ctl.calls + Opens(EndpointsIn(c.blocks, (i: Interface) => i.altSetting == a))
  {
    WalkEncoded(c, SetConfig(c.value, a), port, ctl);
    ConfigCalls(c.value, a, c.blocks);
  }

  /** SET_INTERFACE for setting 0 closes every endpoint of every setting of the interface, in order; for another
      setting it opens exactly the endpoints of that setting of the interface, in order. */
  lemma InterfaceWalk(c: Config, n: byte, a: byte, port: nat -> bool, ctl: Ctl)
    requires DeviceOk(c) && CtlOk(ctl)
    ensures forall d :: d in [Header(c)] + Body(c) ==> WalkOk(d)
    ensures WalkAll(SetIntf(n, a), port, Begin(ctl), [Header(c)] + Body(c)).ctl.calls == ctl.calls +
      if a == 0 then Closes(EndpointsIn(c.blocks, (i: Interface) => i.number == n))
      else Opens(EndpointsIn(c.blocks, (i: Interface) => i.number == n && i.altSetting == a))
  {
    WalkEncoded(c, SetIntf(n, a), port, ctl);
    if a == 0 {
      CloseCalls(n, c.value, c.blocks);
    } else {
      OpenCalls(n, a, c.value, c.blocks);
    }
  }

  /** The result of a walk is the answer to its last call. Without a call, SET_CONFIGURATION succeeds for the
      configuration's value, and anything else fails. */
  lemma WalkResult(c: Config, m: Mode, port: nat -> bool, ctl: Ctl)
    requires DeviceOk(c) && CtlOk(ctl)
    ensures forall d :: d in [Header(c)] + Body(c) ==> WalkOk(d)
    ensures var w := WalkAll(m, port, Begin(ctl), [Header(c)] + Body(c));
      && |ctl.calls| <= |w.ctl.calls|
      && w.l.result == if |w.ctl.calls| == |ctl.calls| then m.SetConfig? && m.config == c.value
                       else port(|w.ctl.calls| - 1)
  {
    WalkEncoded(c, m, port, ctl);
  }

  /** No setting from the k-th on is setting a of interface n. */
  ghost predicate NotAfter(blocks: seq<Block>, k: nat, n: byte, a: byte) {
    forall i :: k <= i < |blocks| ==> blocks[i].intf.number != n || blocks[i].intf.altSetting != a
  }

  lemma {:induction false} LastSettingIs(blocks: seq<Block>, n: byte, a: byte, k: nat)
    requires k <= |blocks| && NotAfter(blocks, k, n, a)
    requires k > 0 ==> blocks[k - 1].intf.number == n && blocks[k - 1].intf.altSetting == a
    ensures LastSetting(blocks, n, a) == if k == 0 then None else Some(blocks[k - 1].intf.Encode())
    decreases |blocks|
  {
    if k < |blocks| {
      LastSettingIs(blocks[..|blocks| - 1], n, a, k);
    }
  }

  /** SET_INTERFACE notifies the class of the interface descriptor of the requested setting, the last one if there are
      several, and of none if there is none. */
  lemma InterfaceNotified(c: Config, n: byte, a: byte, port: nat -> bool, ctl: Ctl, k: nat)
    requires DeviceOk(c) && CtlOk(ctl) && k <= |c.blocks| && NotAfter(c.blocks, k, n, a)
    requires k > 0 ==> c.blocks[k - 1].intf.number == n && c.blocks[k - 1].intf.altSetting == a
    ensures forall d :: d in [Header(c)] + Body(c) ==> WalkOk(d)
    ensures WalkAll(SetIntf(n, a), port, Begin(ctl), [Header(c)] + Body(c)).l.ifDesc ==
      if k == 0 then None else Some(c.blocks[k - 1].intf.Encode())
  {
    WalkEncoded(c, SetIntf(n, a), port, ctl);
    LastSettingIs(c.blocks, n, a, k);
  }

  /** The encoded bytes meet what the walks ask of their buffer; only a SET_CONFIGURATION with another value
      needs the zero terminator. */
  lemma EncodedLaidOut(c: Config, m: Mode, port: nat -> bool, ctl: Ctl, b: seq<byte>)
    requires DeviceOk(c) && CtlOk(ctl) && TotalLength(c) <= |b| && b[..TotalLength(c)] == Encode(c)
    requires !Selects(m, c.value) ==> TotalLength(c) < |b| && b[TotalLength(c)] == 0
    ensures LaidOut(m, port, Begin(ctl), b, 0, [Header(c)] + Body(c))
  {
    WalkEncoded(c, m, port, ctl);
    var ds := [Header(c)] + Body(c);
    assert ds[1..] == Body(c);
    assert Flatten(ds) == Encode(c);
  }

  /** The last open of an endpoint address in a log of calls. */
  ghost function LastOpen(calls: seq<PortCall>, address: int): Option<seq<byte>>
    requires forall x :: x in calls ==> CallOk(x)
  {
    if calls == [] then None
    else
      var last := calls[|calls| - 1];
      assert CallOk(last);
      if last.Open? && last.desc[2] == address then Some(last.desc) else LastOpen(calls[..|calls| - 1], address)
  }

  ghost function Entry(was: Msg, d: Option<seq<byte>>): Msg
    requires d.Some? ==> |d.value| == 7
  {
    if d.Some? then MsgOf(d.value) else was
  }

  /** Packet size and multiplier of every endpoint are those of the last descriptor opened for its address,
      and unchanged when there was none. */
  lemma {:induction false} TablesMeaning(c: Ctl, calls: seq<PortCall>, k: nat)
    requires CtlOk(c) && (forall x :: x in calls ==> CallOk(x)) && k < 16
    ensures LastOpen(calls, 0x80 + k).Some? ==> |LastOpen(calls, 0x80 + k).value| == 7
    ensures LastOpen(calls, k).Some? ==> |LastOpen(calls, k).value| == 7
    ensures AfterCalls(c, calls).tx[k] == Entry(c.tx[k], LastOpen(calls, 0x80 + k))
    ensures AfterCalls(c, calls).rx[k] == Entry(c.rx[k], LastOpen(calls, k))
    decreases |calls|
  {
    if calls != [] {
      assert CallOk(calls[|calls| - 1]);
      TablesMeaning(c, calls[..|calls| - 1], k);
    }
  }

  /** The table entry of an opened endpoint: packet size from bits 0 to 10 of its wMaxPacketSize, multiplier from bits
      11 and 12. */
  lemma MsgMeaning(desc: seq<byte>)
    requires |desc| == 7
    ensures var lo: int, hi: int := desc[4], desc[5];
      MsgOf(desc) == Msg((lo + 0x100 * hi) % 0x800, (lo + 0x100 * hi) / 0x800 % 4)
  {
    PacketFields(GetLE16(desc[4], desc[5]));
  }

  /** No call from the k-th on opens the address. */
  ghost predicate NotReopened(calls: seq<PortCall>, k: nat, address: byte) {
    forall j :: k <= j < |calls| && calls[j].Open? && |calls[j].desc| == 7 ==> calls[j].desc[2] != address
  }

  lemma {:induction false} LastOpenIs(calls: seq<PortCall>, k: nat)
    requires (forall x :: x in calls ==> CallOk(x)) && k < |calls| && calls[k].Open?
    requires |calls[k].desc| == 7 && NotReopened(calls, k + 1, calls[k].desc[2])
    ensures LastOpen(calls, calls[k].desc[2]) == Some(calls[k].desc)
    decreases |calls|
  {
    assert CallOk(calls[|calls| - 1]);
    if k < |calls| - 1 {
      LastOpenIs(calls[..|calls| - 1], k);
    }
  }

  /** After any calls, the tables hold the packet size and the multiplier that an endpoint was declared with, for its
      number and direction, from its last opening on. */
  lemma DeclaredInTables(c: Ctl, calls: seq<PortCall>, k: nat, e: Endpoint, n: nat, size: nat, mult: nat)
    requires CtlOk(c) && (forall x :: x in calls ==> CallOk(x)) && k < |calls| && n < 16
    requires calls[k] == Open(e.Encode()) && NotReopened(calls, k + 1, e.address)
    requires size < 0x800 && mult < 4 && e.maxPacketSize == size + 0x800 * mult
    ensures e.address == 0x80 + n ==> AfterCalls(c, calls).tx[n] == Msg(size, mult)
    ensures e.address == n ==> AfterCalls(c, calls).rx[n] == Msg(size, mult)
  {
    var d := e.Encode();
    assert d[2] == e.address;
    LastOpenIs(calls, k);
    TablesMeaning(c, calls, n);
    MsgMeaning(d);
    MaxPacketSizeFields(e, size, mult);
  }

  lemma NotReopenedLater(before: seq<PortCall>, calls: seq<PortCall>, i: nat, address: byte)
    requires NotReopened(before + calls, |before| + i, address)
    ensures NotReopened(calls, i, address)
  {
    forall j | i <= j < |calls| && calls[j].Open? && |calls[j].desc| == 7
      ensures calls[j].desc[2] != address
    {
      assert (before + calls)[|before| + j] == calls[j];
    }
  }

  /** The tables and calls that a walk on an encoded configuration leaves. */
  ghost function Walked(c: Config, m: Mode, port: nat -> bool, ctl: Ctl): (after: Ctl)
    requires DeviceOk(c) && CtlOk(ctl)
    ensures CtlOk(after)
  {
    WalkEncoded(c, m, port, ctl);
    WalkAll(m, port, Begin(ctl), [Header(c)] + Body(c)).ctl
  }

  /** After a walk on an encoded configuration that opens an endpoint, and no later one of the same address, the tables
      hold what the endpoint was declared with. */
  lemma WalkRecords(c: Config, m: Mode, port: nat -> bool, ctl: Ctl, k: nat, e: Endpoint, n: nat, size: nat, mult: nat)
    requires DeviceOk(c) && CtlOk(ctl) && Selects(m, c.value) && n < 16
    requires |ctl.calls| <= k < |Walked(c, m, port, ctl).calls|
    requires Walked(c, m, port, ctl).calls[k] == Open(e.Encode())
    requires NotReopened(Walked(c, m, port, ctl).calls, k + 1, e.address)
    requires size < 0x800 && mult < 4 && e.maxPacketSize == size + 0x800 * mult
    ensures var after := Walked(c, m, port, ctl);
      && (e.address == 0x80 + n ==> after.tx[n].mps == size && after.tx[n].mult == mult)
      && (e.address == n ==> after.rx[n].mps == size && after.rx[n].mult == mult)
  {
    WalkEncoded(c, m, port, ctl);
    var calls := WalkCalls(m, c.value, c.blocks);
    var i := k - |ctl.calls|;
    assert Walked(c, m, port, ctl) == AfterCalls(ctl, calls);
    NotReopenedLater(ctl.calls, calls, i + 1, e.address);
    DeclaredInTables(ctl, calls, i, e, n, size, mult);
  }

  // ---------- ahead of the first interface ----------

  /** Endpoints ahead of the first interface belong to no setting below 255. */
  lemma {:induction false} NoInterfaceNoCall(m: Mode, port: nat -> bool, w: Walk, ds: seq<seq<byte>>)
    requires CtlOk(w.ctl) && (forall d :: d in ds ==> WalkOk(d) && d[1] != 4)
    requires w.l.iface == 0xff && w.l.alt == 0xff && m.setting != 0xff && (m.SetIntf? ==> m.iface != 0xff)
    ensures WalkAll(m, port, w, ds).ctl == w.ctl
    decreases |ds|
  {
    if ds != [] {
      assert WalkOk(ds[0]);
      var v := Pass(m, port, w, ds[0]);
      if !v.l.Stop() {
        NoInterfaceNoCall(m, port, v, ds[1..]);
      }
    }
  }
}
