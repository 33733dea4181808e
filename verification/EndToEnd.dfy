/** Device and host together: descriptors sent by the device's control endpoint arrive, and both sides read
    the same configuration out of them. */
module EndToEnd {
  import opened MachineWords
  import opened Wrappers
  import opened Descriptors
  import opened Listings
  import EP0 = ControlEndpoint
  import Host = ConfigParser
  import Device = ConfigWalker
  import Strings = StringDescriptor

  /** The request of run f asked for wLength bytes, the device's handler offered exactly d, and the data stage is
      over. */
  ghost predicate Delivered(f: EP0.Sys, r: EP0.Reply, d: seq<byte>, wLength: nat) {
    && EP0.InRequest(f, r) && f.dev.setup.wLength == wLength && f.dev.inX.None?
    && r.len == |d| > 0 && d <= r.Offered()
  }

  /** Over every run of the control endpoint, the host receives the first wLength bytes of what was offered. */
  lemma {:induction false} Arrives(s: EP0.Sys, events: seq<EP0.Event>, r: EP0.Reply, d: seq<byte>, wLength: nat)
    requires EP0.PowerUp(s) && EP0.IsRun(s, events) && Delivered(EP0.Final(s, events), r, d, wLength)
    ensures EP0.Final(s, events).hist.inBytes == d[..Min(|d|, wLength)]
  {
    EP0.ControlIn(s, events, r);
    var n := Min(|d|, wLength);
    assert r.Offered()[..n] == d[..n];
  }

  /** The host's first read of nine bytes tells it the total length. */
  lemma {:induction false} HeaderArrives(s: EP0.Sys, events: seq<EP0.Event>, r: EP0.Reply, c: Config)
    requires WellFormed(c)
    requires EP0.PowerUp(s) && EP0.IsRun(s, events) && Delivered(EP0.Final(s, events), r, Encode(c), 9)
    ensures var b := EP0.Final(s, events).hist.inBytes;
      |b| == 9 && b[0] == 9 && b[1] == CONFIGURATION && GetLE16(b[2], b[3]) == TotalLength(c)
  {
    Arrives(s, events, r, Encode(c), 9);
    assert Encode(c)[..9] == Header(c);
  }

  /** The configuration was offered and asked for in full, and the host's buffer holds what arrived, followed by
      the sentinel. */
  ghost predicate ConfigurationRead(s: EP0.Sys, events: seq<EP0.Event>, r: EP0.Reply, c: Config, buffer: seq<byte>)
    requires WellFormed(c)
  {
    && EP0.PowerUp(s) && EP0.IsRun(s, events)
    && Delivered(EP0.Final(s, events), r, Encode(c), TotalLength(c))
    && Host.Sentinel(buffer, TotalLength(c)) && EP0.Final(s, events).hist.inBytes <= buffer
  }

  /** The host's second read, of the total length, followed by its sentinel, parses into the tables that hold
      every interface setting and endpoint of the device, however the controller split the transfer. */
  lemma {:induction false} ConfigurationArrives(s: EP0.Sys, events: seq<EP0.Event>, r: EP0.Reply, c: Config,
                                                buffer: seq<byte>, beyond: nat -> byte)
    requires Host.HostOk(c) && ConfigurationRead(s, events, r, c, buffer)
    ensures var p := Host.ParseFrom(buffer, beyond, TotalLength(c), 9, Host.START);
      p.Ok? && Host.Holds(p.parser.table, c.blocks)
  {
    Arrives(s, events, r, Encode(c), TotalLength(c));
    assert Encode(c)[..|Encode(c)|] == Encode(c);
    assert |Encode(c)| == TotalLength(c);
    Host.RoundTrip(c, buffer, beyond, TotalLength(c));
  }

  /** A string the device accepts arrives from the host's read of 255 bytes and decodes unchanged iff it has at
      most 126 characters. */
  lemma {:induction false} StringArrives(s: EP0.Sys, events: seq<EP0.Event>, r: EP0.Reply, text: seq<byte>,
                                         buffer: seq<byte>)
    requires |text| <= 255
    requires EP0.PowerUp(s) && EP0.IsRun(s, events)
    requires Delivered(EP0.Final(s, events), r, Strings.Encode(text), 255)
    requires |buffer| >= 256 && EP0.Final(s, events).hist.inBytes <= buffer
    ensures Strings.Decode(buffer) == text <==> |text| <= 126
  {
    Arrives(s, events, r, Strings.Encode(text), 255);
    Strings.RoundTrip(text, buffer);
  }

  // ---------- host and device agree on the endpoints ----------

  /** The host's slot of a setting, when settings are distinct. */
  lemma {:induction false} SlotOfBlock(blocks: seq<Block>, i: nat)
    requires Host.DistinctSettings(blocks) && i < |blocks|
    ensures Host.SettingIn(blocks, blocks[i].intf.number, blocks[i].intf.altSetting)
         == Host.AltSetting(blocks[i].intf.Encode(), Host.Fill(Host.ZERO_ALT.eps, EndpointsOf(blocks[i].items)))
    decreases |blocks|
  {
    var init := blocks[..|blocks| - 1];
    if i < |init| {
      assert init[i] == blocks[i];
      assert blocks[i].intf.number != blocks[|blocks| - 1].intf.number
          || blocks[i].intf.altSetting != blocks[|blocks| - 1].intf.altSetting;
      assert Host.DistinctSettings(init);
      SlotOfBlock(init, i);
    }
  }

  /** What the host's table tells of an alternate setting: one endpoint descriptor for each that bNumEndpoints
      counts. A setting that the device does not have counts none. */
  ghost function Listed(slot: Host.AltSetting): seq<Device.PortCall> {
    if |slot.desc| == 9 && slot.desc[4] <= |slot.eps|
    then seq(slot.desc[4], k requires 0 <= k < slot.desc[4] => Device.Open(slot.eps[k]))
    else []
  }

  /** For each interface number, what the table lists of its alternate setting 0. */
  ghost function DefaultRows(t: Host.Table): (rows: seq<seq<Device.PortCall>>)
    ensures |rows| == 8
  {
    seq(8, n requires 0 <= n < 8 => Listed(t[n].alts[0]))
  }

  /** All the endpoints of default settings in the host's table, by interface number. */
  ghost function HostEndpoints(t: Host.Table): seq<Device.PortCall>
  {
    Listing(DefaultRows(t), Upto(8))
  }

  /** The interfaces that have an alternate setting 0, in the device's order. */
  ghost function DefaultOrder(blocks: seq<Block>): seq<nat> {
    if blocks == [] then []
    else
      var last := blocks[|blocks| - 1];
      DefaultOrder(blocks[..|blocks| - 1]) + if last.intf.altSetting == 0 then [last.intf.number as nat] else []
  }

  /** bNumEndpoints of every setting is the number of its endpoint descriptors. */
  ghost predicate Honest(blocks: seq<Block>) {
    forall b :: b in blocks ==> b.intf.numEndpoints == |EndpointsOf(b.items)|
  }

  /** The host's slot of a default setting that its tables hold. */
  ghost predicate Kept(t: Host.Table, b: Block)
  {
    && b.intf.number < Host.MAX_INTERFACES
    && b.intf.numEndpoints == |EndpointsOf(b.items)| && |EndpointsOf(b.items)| <= Host.MAX_ENDPOINTS
    && var alt := Host.AltSetting(b.intf.Encode(), Host.Fill(Host.ZERO_ALT.eps, EndpointsOf(b.items)));
       b.intf.altSetting == 0 ==> t[b.intf.number].alts[0] == alt
  }

  lemma SettingKept(blocks: seq<Block>, t: Host.Table, i: nat)
    requires Host.DistinctSettings(blocks) && Host.Holds(t, blocks) && i < |blocks|
    requires Host.BlockFits(blocks[i]) && blocks[i].intf.numEndpoints == |EndpointsOf(blocks[i].items)|
    ensures Kept(t, blocks[i])
  {
    SlotOfBlock(blocks, i);
  }

  /** The device opens for one setting what the table lists of it, if it is a default one. */
  lemma SettingListed(t: Host.Table, v: byte, b: Block)
    requires Kept(t, b)
    ensures var action := Device.ActionFor(Device.SetConfig(v, 0), v, b.intf.number, b.intf.altSetting);
      Device.CallsOf(action, EndpointsOf(b.items)) ==
        if b.intf.altSetting == 0 then Row(DefaultRows(t), b.intf.number) else []
  {
  }

  /** One more setting to walk, and to list. */
  lemma OneMoreListed(t: Host.Table, v: byte, init: seq<Block>, last: Block)
    requires Kept(t, last)
    requires Device.WalkCalls(Device.SetConfig(v, 0), v, init) == Listing(DefaultRows(t), DefaultOrder(init))
    ensures Device.WalkCalls(Device.SetConfig(v, 0), v, init + [last]) ==
      Listing(DefaultRows(t), DefaultOrder(init + [last]))
  {
    var blocks := init + [last];
    assert blocks[..|blocks| - 1] == init;
    SettingListed(t, v, last);
    if last.intf.altSetting == 0 {
      ListingSnoc(DefaultRows(t), DefaultOrder(init), last.intf.number);
    } else {
      assert DefaultOrder(blocks) == DefaultOrder(init);
    }
  }

  /** SET_CONFIGURATION opens what the host's table lists, interface by interface in the device's order. */
  lemma {:induction false} OpensAreListed(t: Host.Table, v: byte, blocks: seq<Block>)
    requires forall b :: b in blocks ==> Kept(t, b)
    ensures Device.WalkCalls(Device.SetConfig(v, 0), v, blocks) == Listing(DefaultRows(t), DefaultOrder(blocks))
    decreases |blocks|
  {
    if blocks != [] {
      var init, last := blocks[..|blocks| - 1], blocks[|blocks| - 1];
      assert blocks == init + [last] && last in blocks;
      OpensAreListed(t, v, init);
      OneMoreListed(t, v, init, last);
    }
  }

  /** Interface n has a default setting exactly when it is in the device's order. */
  lemma {:induction false} DefaultInOrder(blocks: seq<Block>, n: nat)
    ensures n in DefaultOrder(blocks) <==>
      exists i :: 0 <= i < |blocks| && blocks[i].intf.number == n && blocks[i].intf.altSetting == 0
    decreases |blocks|
  {
    if blocks != [] {
      var init := blocks[..|blocks| - 1];
      DefaultInOrder(init, n);
      if n in DefaultOrder(init) {
        var i :| 0 <= i < |init| && init[i].intf.number == n && init[i].intf.altSetting == 0;
        assert blocks[i] == init[i];
      }
      if exists i :: 0 <= i < |blocks| && blocks[i].intf.number == n && blocks[i].intf.altSetting == 0 {
        var i :| 0 <= i < |blocks| && blocks[i].intf.number == n && blocks[i].intf.altSetting == 0;
        assert i < |init| ==> blocks[i] == init[i];
      }
    }
  }

  /** Dropping the last setting keeps settings distinct, and the last one's number is new if it is a default one. */
  lemma LastDefaultNew(init: seq<Block>, last: Block)
    requires Host.DistinctSettings(init + [last])
    ensures Host.DistinctSettings(init)
    ensures last.intf.altSetting == 0 ==> last.intf.number as nat !in DefaultOrder(init)
  {
    Host.LastIsNew(init, last);
    var blocks := init + [last];
    DefaultInOrder(init, last.intf.number);
    forall i | 0 <= i < |init|
      ensures init[i].intf.number != last.intf.number || init[i].intf.altSetting != last.intf.altSetting
    {
      assert blocks[i] == init[i] && blocks[|init|] == last;
    }
  }

  lemma {:induction false} DefaultsDistinct(blocks: seq<Block>)
    requires Host.DistinctSettings(blocks)
    ensures Distinct(DefaultOrder(blocks))
    decreases |blocks|
  {
    if blocks != [] {
      var init, last := blocks[..|blocks| - 1], blocks[|blocks| - 1];
      assert blocks == init + [last];
      LastDefaultNew(init, last);
      DefaultsDistinct(init);
    }
  }

  /** An interface without a default setting lists nothing. */
  lemma OthersListNothing(t: Host.Table, blocks: seq<Block>, n: nat)
    requires Host.Holds(t, blocks) && n < Host.MAX_INTERFACES && n !in DefaultOrder(blocks)
    ensures Listed(t[n].alts[0]) == []
  {
    DefaultInOrder(blocks, n);
    forall b | b in blocks
      ensures b.intf.number != n || b.intf.altSetting != 0
    {
      var i :| 0 <= i < |blocks| && blocks[i] == b;
    }
    Host.SlotUnused(blocks, n, 0);
    assert t[n].alts[0] == Host.SettingIn(blocks, n, 0);
  }

  lemma DefaultsCover(t: Host.Table, blocks: seq<Block>)
    requires Host.Holds(t, blocks) && forall b :: b in blocks ==> b.intf.number < Host.MAX_INTERFACES
    ensures Covers(DefaultRows(t), DefaultOrder(blocks), 8)
  {
    forall m: nat | m < 8 && m !in DefaultOrder(blocks)
      ensures Row(DefaultRows(t), m) == []
    {
      OthersListNothing(t, blocks, m);
    }
    forall m | m in DefaultOrder(blocks)
      ensures m < 8
    {
      DefaultInOrder(blocks, m);
      var i :| 0 <= i < |blocks| && blocks[i].intf.number == m && blocks[i].intf.altSetting == 0;
      assert blocks[i] in blocks;
    }
  }

  lemma AllKept(blocks: seq<Block>, t: Host.Table)
    requires Host.DistinctSettings(blocks) && Honest(blocks) && forall b :: b in blocks ==> Host.BlockFits(b)
    requires Host.Holds(t, blocks)
    ensures forall b :: b in blocks ==> Kept(t, b)
  {
    forall b | b in blocks
      ensures Kept(t, b)
    {
      var i :| 0 <= i < |blocks| && blocks[i] == b;
      SettingKept(blocks, t, i);
    }
  }

  /** What SET_CONFIGURATION opens is what the host's table lists: a permutation of it, and in the same order when
      the device's default settings come by ascending interface number. */
  lemma TableListsOpens(blocks: seq<Block>, v: byte, t: Host.Table)
    requires Host.DistinctSettings(blocks) && Honest(blocks) && forall b :: b in blocks ==> Host.BlockFits(b)
    requires Host.Holds(t, blocks)
    ensures var opens := Device.WalkCalls(Device.SetConfig(v, 0), v, blocks);
      && multiset(opens) == multiset(HostEndpoints(t))
      && (Ascending(DefaultOrder(blocks)) ==> opens == HostEndpoints(t))
  {
    AllKept(blocks, t);
    OpensAreListed(t, v, blocks);
    DefaultsCover(t, blocks);
    DefaultsDistinct(blocks);
    ListingPermuted(DefaultRows(t), DefaultOrder(blocks), 8);
    if Ascending(DefaultOrder(blocks)) {
      AscendingListing(DefaultRows(t), DefaultOrder(blocks), 8);
    }
  }

  /** The table the host builds of the configuration it received, when its parse succeeds. */
  ghost function Parsed(buffer: seq<byte>, beyond: nat -> byte, length: nat): (t: Option<Host.Table>)
    requires Host.Sentinel(buffer, length) && length >= 9
  {
    var p := Host.ParseFrom(buffer, beyond, length, 9, Host.START);
    if p.Ok? then Some(p.parser.table) else None
  }

  /** The calls of the device's SET_CONFIGURATION with the configuration's value. */
  ghost function Opened(c: Config, port: nat -> bool, ctl: Device.Ctl): (calls: seq<Device.PortCall>)
    requires Device.DeviceOk(c) && Device.CtlOk(ctl)
    ensures calls == ctl.calls + Device.WalkCalls(Device.SetConfig(c.value, 0), c.value, c.blocks)
  {
    Device.WalkEncoded(c, Device.SetConfig(c.value, 0), port, ctl);
    Device.WalkAll(Device.SetConfig(c.value, 0), port, Device.Begin(ctl), [Header(c)] + Body(c)).ctl.calls
  }

  /** The device and the host agree. Over every run that sends the configuration, whatever the splits: a walk of the
      device's SET_CONFIGURATION for it opens, on top of the calls already made, just the endpoint descriptors in the
      table that the host's parse of the received bytes builds; in the table's order when the device's default
      settings ascend. */
  lemma {:induction false} HostAndDeviceAgree(s: EP0.Sys, events: seq<EP0.Event>, r: EP0.Reply, c: Config,
                                              buffer: seq<byte>, beyond: nat -> byte,
                                              port: nat -> bool, ctl: Device.Ctl)
    requires Host.HostOk(c) && Device.DeviceOk(c) && Honest(c.blocks) && Device.CtlOk(ctl)
    requires ConfigurationRead(s, events, r, c, buffer)
    ensures var t := Parsed(buffer, beyond, TotalLength(c));
      && t.Some?
      && multiset(Opened(c, port, ctl)) == multiset(ctl.calls) + multiset(HostEndpoints(t.value))
      && (Ascending(DefaultOrder(c.blocks)) ==> Opened(c, port, ctl) == ctl.calls + HostEndpoints(t.value))
  {
    ConfigurationArrives(s, events, r, c, buffer, beyond);
    TableListsOpens(c.blocks, c.value, Parsed(buffer, beyond, TotalLength(c)).value);
  }
}
