/** One configuration, byte by byte: what the encoder makes of it, what the host's parser reads out of it and what
    the device's walks do with it. Interface 0 has setting 0 with a bulk endpoint of 64 bytes and setting 1 with an
    isochronous one of 1024 bytes and two additional transactions, both at address 0x81. */
module LiteralConfiguration {
  import opened MachineWords
  import opened Wrappers

  import opened Descriptors
  import Host = ConfigParser
  import Device = ConfigWalker

  const BULK: Endpoint := Endpoint(0x81, 2, 64, 0)
  const ISOCHRONOUS: Endpoint := Endpoint(0x81, 1, 0x1400, 1)
  const SETTING0: Interface := Interface(0, 0, 1, 0xff, 0, 0, 0)
  const SETTING1: Interface := Interface(0, 1, 1, 0xff, 0, 0, 0)

  ghost function Example(): Config {
    Config(1, 1, 0x80, 100, [], [Block(SETTING0, [EpItem(BULK)]), Block(SETTING1, [EpItem(ISOCHRONOUS)])])
  }

  const HEADER_BYTES: seq<byte> := [0x09, 0x02, 0x29, 0x00, 0x01, 0x01, 0x00, 0x80, 0x32]
  const SETTING0_BYTES: seq<byte> := [0x09, 0x04, 0x00, 0x00, 0x01, 0xff, 0x00, 0x00, 0x00]
  const BULK_BYTES: seq<byte> := [0x07, 0x05, 0x81, 0x02, 0x40, 0x00, 0x00]
  const SETTING1_BYTES: seq<byte> := [0x09, 0x04, 0x00, 0x01, 0x01, 0xff, 0x00, 0x00, 0x00]
  const ISOCHRONOUS_BYTES: seq<byte> := [0x07, 0x05, 0x81, 0x01, 0x00, 0x14, 0x01]

  /** The configuration as it lies in memory. */
  const BYTES: seq<byte> := HEADER_BYTES + SETTING0_BYTES + BULK_BYTES + SETTING1_BYTES + ISOCHRONOUS_BYTES

  lemma Parts()
    ensures SETTING0.Encode() == SETTING0_BYTES && SETTING1.Encode() == SETTING1_BYTES
    ensures BULK.Encode() == BULK_BYTES && ISOCHRONOUS.Encode() == ISOCHRONOUS_BYTES
    ensures EncodeConfig(41, 1, 1, 0x80, 100) == HEADER_BYTES
  {
  }

  lemma ExampleBody()
    ensures Body(Example()) == [SETTING0_BYTES, BULK_BYTES, SETTING1_BYTES, ISOCHRONOUS_BYTES]
    ensures Flatten(Body(Example())) == SETTING0_BYTES + BULK_BYTES + SETTING1_BYTES + ISOCHRONOUS_BYTES
  {
    Parts();
    var b0, b1 := Block(SETTING0, [EpItem(BULK)]), Block(SETTING1, [EpItem(ISOCHRONOUS)]);
    OneEndpoint(BULK);
    OneEndpoint(ISOCHRONOUS);
    OneBlock(b0);
    assert [b0] + [b1] == Example().blocks;
    BlockDescsSnoc([b0], b1);
    assert BlockDescs(Example().blocks) == [SETTING0_BYTES, BULK_BYTES] + [SETTING1_BYTES, ISOCHRONOUS_BYTES];
    FourFlat(SETTING0_BYTES, BULK_BYTES, SETTING1_BYTES, ISOCHRONOUS_BYTES);
  }

  lemma FourFlat(a: seq<byte>, b: seq<byte>, c: seq<byte>, d: seq<byte>)
    ensures Flatten([a, b, c, d]) == a + b + c + d
  {
    assert [d] == [d] + [] && [c, d] == [c] + [d] && [b, c, d] == [b] + [c, d] && [a, b, c, d] == [a] + [b, c, d];
    FlattenCons(d, []);
    FlattenCons(c, [d]);
    FlattenCons(b, [c, d]);
    FlattenCons(a, [b, c, d]);
  }

  /** The encoder lays the configuration out as these 41 bytes. */
  lemma ExampleEncodes()
    ensures WellFormed(Example()) && TotalLength(Example()) == 41 && Encode(Example()) == BYTES && |BYTES| == 41
  {
    Parts();
    ExampleBody();
    assert BYTES == HEADER_BYTES + (SETTING0_BYTES + BULK_BYTES + SETTING1_BYTES + ISOCHRONOUS_BYTES);
  }

  lemma ExampleFits()
    ensures Host.HostOk(Example()) && Device.DeviceOk(Example())
  {
    ExampleEncodes();
    ExampleBody();
    OneEndpoint(BULK);
    OneEndpoint(ISOCHRONOUS);
  }

  const ZEROS: seq<byte> := [0, 0, 0, 0, 0, 0, 0]

  lemma ExampleSlots()
    ensures Host.SettingIn(Example().blocks, 0, 0) == Host.AltSetting(SETTING0_BYTES, [BULK_BYTES, ZEROS, ZEROS, ZEROS])
    ensures Host.SettingIn(Example().blocks, 0, 1) ==
      Host.AltSetting(SETTING1_BYTES, [ISOCHRONOUS_BYTES, ZEROS, ZEROS, ZEROS])
    ensures Host.SettingIn(Example().blocks, 7, 1) ==
      Host.AltSetting([0, 0, 0, 0, 0, 0, 0, 0, 0], [ZEROS, ZEROS, ZEROS, ZEROS])
  {
    Parts();
    OneEndpoint(BULK);
    OneEndpoint(ISOCHRONOUS);
    var blocks := Example().blocks;
    assert blocks[..1] == [blocks[0]];
    assert Host.SettingIn(blocks, 0, 0) == Host.SettingIn(blocks[..1], 0, 0);
    Host.SlotUnused(blocks, 7, 1);
    assert Host.Fill(Host.ZERO_ALT.eps, [BULK]) == [BULK_BYTES, ZEROS, ZEROS, ZEROS];
    assert Host.Fill(Host.ZERO_ALT.eps, [ISOCHRONOUS]) == [ISOCHRONOUS_BYTES, ZEROS, ZEROS, ZEROS];
  }

  lemma ExampleCounts(n: nat)
    ensures Host.AltNumOf(Example().blocks, n) == if n == 0 then 2 else 0
  {
    var blocks := Example().blocks;
    assert blocks[..1] == [blocks[0]] && blocks[..1][..0] == [];
    assert Host.AltNumOf(blocks[..1][..0], n) == 0;
    assert Host.AltNumOf(blocks[..1], n) == if n == 0 then 1 else 0;
  }

  /** The host's parser, on the bytes and its sentinel, fills exactly the two settings of interface 0. */
  lemma ExampleParsed(beyond: nat -> byte)
    ensures Host.Sentinel(BYTES + [0], 41)
    ensures var r := Host.ParseFrom(BYTES + [0], beyond, 41, 9, Host.START);
      && r.Ok?
      && r.parser.table[0].alts[0] == Host.AltSetting(SETTING0_BYTES, [BULK_BYTES, ZEROS, ZEROS, ZEROS])
      && r.parser.table[0].alts[1] == Host.AltSetting(SETTING1_BYTES, [ISOCHRONOUS_BYTES, ZEROS, ZEROS, ZEROS])
      && r.parser.table[7].alts[1] == Host.AltSetting([0, 0, 0, 0, 0, 0, 0, 0, 0], [ZEROS, ZEROS, ZEROS, ZEROS])
      && forall n :: 0 <= n < 8 ==> r.parser.table[n].altNum == if n == 0 then 2 else 0
  {
    ExampleEncodes();
    ExampleFits();
    Host.RoundTrip(Example(), BYTES + [0], beyond, 41);
    ExampleSlots();
    forall n: nat
      ensures Host.AltNumOf(Example().blocks, n) == if n == 0 then 2 else 0
    {
      ExampleCounts(n);
    }
  }

  /** The endpoints of the settings that p picks. */
  lemma ExamplePicks(p: Interface -> bool)
    ensures Device.EndpointsIn(Example().blocks, p) ==
      (if p(SETTING0) then [BULK] else []) + (if p(SETTING1) then [ISOCHRONOUS] else [])
  {
    var blocks := Example().blocks;
    assert blocks[..1] == [blocks[0]] && blocks[..1][..0] == [];
    OneEndpoint(BULK);
    OneEndpoint(ISOCHRONOUS);
    assert Device.EndpointsIn(blocks[..1][..0], p) == [];
    assert Device.EndpointsIn(blocks[..1], p) == if p(SETTING0) then [BULK] else [];
  }

  /** A device whose tables are clear and that has made no call. */
  ghost predicate Fresh(ctl: Device.Ctl) {
    Device.CtlOk(ctl) && ctl.calls == [] && forall n :: 0 <= n < 16 ==> ctl.tx[n] == ctl.rx[n] == Device.Msg(0, 0)
  }

  /** What is left of the tables and calls by a walk of the example. */
  ghost function After(m: Device.Mode, port: nat -> bool, ctl: Device.Ctl): (after: Device.Ctl)
    requires Device.CtlOk(ctl)
    ensures Device.CtlOk(after)
  {
    ExampleFits();
    Device.Walked(Example(), m, port, ctl)
  }

  /** SET_CONFIGURATION(1) opens the bulk endpoint and records 64 bytes for IN endpoint 1. */
  lemma ExampleConfigured(port: nat -> bool, ctl: Device.Ctl)
    requires Fresh(ctl)
    ensures var after := After(Device.SetConfig(1, 0), port, ctl);
      after.calls == [Device.Open(BULK_BYTES)] && after.tx[1].mps == 64 && after.tx[1].mult == 0
  {
    ExampleFits();
    Parts();
    Device.ConfigurationWalk(Example(), 0, port, ctl);
    ExamplePicks((i: Interface) => i.altSetting == 0);
    assert Device.Opens([BULK]) == [Device.Open(BULK_BYTES)];
    assert After(Device.SetConfig(1, 0), port, ctl).calls == [Device.Open(BULK_BYTES)];
    Device.WalkRecords(Example(), Device.SetConfig(1, 0), port, ctl, 0, BULK, 1, 64, 0);
  }

  /** SET_INTERFACE(0, 1) opens the isochronous endpoint and records 1024 bytes and multiplier 2. */
  lemma ExampleSettingOne(port: nat -> bool, ctl: Device.Ctl)
    requires Fresh(ctl)
    ensures var after := After(Device.SetIntf(0, 1), port, ctl);
      after.calls == [Device.Open(ISOCHRONOUS_BYTES)] && after.tx[1].mps == 1024 && after.tx[1].mult == 2
  {
    ExampleFits();
    Parts();
    Device.InterfaceWalk(Example(), 0, 1, port, ctl);
    ExamplePicks((i: Interface) => i.number == 0 && i.altSetting == 1);
    assert Device.Opens([ISOCHRONOUS]) == [Device.Open(ISOCHRONOUS_BYTES)];
    assert After(Device.SetIntf(0, 1), port, ctl).calls == [Device.Open(ISOCHRONOUS_BYTES)];
    Device.WalkRecords(Example(), Device.SetIntf(0, 1), port, ctl, 0, ISOCHRONOUS, 1, 1024, 2);
  }

  /** SET_INTERFACE(0, 0) closes the endpoints of both settings. */
  lemma ExampleSettingZero(port: nat -> bool, ctl: Device.Ctl)
    requires Fresh(ctl)
    ensures After(Device.SetIntf(0, 0), port, ctl).calls == [Device.Close(0x81), Device.Close(0x81)]
  {
    ExampleFits();
    Device.InterfaceWalk(Example(), 0, 0, port, ctl);
    ExamplePicks((i: Interface) => i.number == 0);
    assert Device.Closes([BULK] + [ISOCHRONOUS]) == [Device.Close(0x81), Device.Close(0x81)];
  }
}
