/** Configuration, interface and endpoint descriptors (section 9.6 of USB 2.0) as the initialiser macros lay them
    out. */
module Descriptors {
  import opened MachineWords

  const CONFIGURATION: byte := 2
  const INTERFACE: byte := 4
  const ENDPOINT: byte := 5

  /** WBVAL: the two bytes of a 16-bit value, low byte first. */
  function WBVal(x: uint16): (b: seq<byte>)
    ensures |b| == 2
  {
    [x % 0x100, x / 0x100]
  }

  /** GET_LE16: the 16-bit value of two bytes, low byte first. */
  function GetLE16(lo: byte, hi: byte): uint16 {
    var l: int, h: int := lo, hi;
    l + 0x100 * h
  }

  datatype Interface = Interface(number: byte, altSetting: byte, numEndpoints: byte,
                                 class_: byte, subClass: byte, protocol: byte, iInterface: byte)
  {
    /** USB_INTERFACE_DESCRIPTOR_INIT. */
    function Encode(): (b: seq<byte>)
      ensures |b| == 9 == b[0]
    {
      [9, INTERFACE, number, altSetting, numEndpoints, class_, subClass, protocol, iInterface]
    }
  }

  datatype Endpoint = Endpoint(address: byte, attributes: byte, maxPacketSize: uint16, interval: byte)
  {
    /** USB_ENDPOINT_DESCRIPTOR_INIT. */
    function Encode(): (b: seq<byte>)
      ensures |b| == 7 == b[0]
    {
      [7, ENDPOINT, address, attributes] + WBVal(maxPacketSize) + [interval]
    }
  }

  /** USB_CONFIG_DESCRIPTOR_INIT; the power is given in mA and stored in units of 2 mA. */
  function EncodeConfig(total: uint16, numInterfaces: byte, value: byte, attributes: byte, milliamps: nat)
      : (b: seq<byte>)
    requires milliamps / 2 < 0x100
    ensures |b| == 9 == b[0] && b[1] == CONFIGURATION && b[5] == value && GetLE16(b[2], b[3]) == total
  {
    [9, CONFIGURATION] + WBVal(total) + [numInterfaces, value, 0, attributes, milliamps / 2]
  }

  /** The bytes of the three descriptors, field by field, as sections 9.6.3, 9.6.5 and 9.6.6 lay them out. */
  lemma EncodedBytes(i: Interface, e: Endpoint, total: uint16, n: byte, value: byte, attributes: byte, milliamps: nat)
    requires milliamps / 2 < 0x100
    ensures i.Encode() ==
      [9, 4, i.number, i.altSetting, i.numEndpoints, i.class_, i.subClass, i.protocol, i.iInterface]
    ensures e.Encode() ==
      [7, 5, e.address, e.attributes, e.maxPacketSize % 256, e.maxPacketSize / 256, e.interval]
    ensures EncodeConfig(total, n, value, attributes, milliamps) ==
      [9, 2, total % 256, total / 256, n, value, 0, attributes, milliamps / 2]
  {
  }

  /** A descriptor as it lies in memory: its length comes first, its type second. */
  ghost predicate RawOk(d: seq<byte>) {
    |d| >= 2 && |d| == d[0]
  }

  /** A descriptor of neither interface nor endpoint nor configuration type: class-specific, association and so on. */
  ghost predicate ClassOk(d: seq<byte>) {
    RawOk(d) && d[1] != INTERFACE && d[1] != ENDPOINT && d[1] != CONFIGURATION
  }

  /** What follows an interface descriptor, in any order. */
  datatype Item = EpItem(ep: Endpoint) | ClassItem(bytes: seq<byte>)
  {
    function Encode(): seq<byte> {
      if EpItem? then ep.Encode() else bytes
    }
  }

  datatype Block = Block(intf: Interface, items: seq<Item>)

  /** A configuration: descriptors ahead of the first interface, then each interface setting with its endpoints
      and class descriptors. */
  datatype Config = Config(numInterfaces: byte, value: byte, attributes: byte, milliamps: nat,
                           lead: seq<seq<byte>>, blocks: seq<Block>)

  ghost function ItemDescs(items: seq<Item>): (ds: seq<seq<byte>>)
    ensures |ds| == |items|
  {
    seq(|items|, i requires 0 <= i < |items| => items[i].Encode())
  }

  ghost function BlockDescs(blocks: seq<Block>): seq<seq<byte>> {
    if blocks == [] then []
    else
      var last := blocks[|blocks| - 1];
      BlockDescs(blocks[..|blocks| - 1]) + [last.intf.Encode()] + ItemDescs(last.items)
  }

  ghost function Flatten(ds: seq<seq<byte>>): seq<byte> {
    if ds == [] then [] else ds[0] + Flatten(ds[1..])
  }

  /** The descriptors after the configuration header. */
  ghost function Body(c: Config): seq<seq<byte>> {
    c.lead + BlockDescs(c.blocks)
  }

  ghost function TotalLength(c: Config): nat {
    9 + |Flatten(Body(c))|
  }

  ghost function Header(c: Config): seq<byte>
    requires TotalLength(c) < 0x1_0000 && c.milliamps / 2 < 0x100
  {
    EncodeConfig(TotalLength(c), c.numInterfaces, c.value, c.attributes, c.milliamps)
  }

  /** The whole descriptor, as the macros lay it out. */
  ghost function Encode(c: Config): seq<byte>
    requires TotalLength(c) < 0x1_0000 && c.milliamps / 2 < 0x100
  {
    Header(c) + Flatten(Body(c))
  }

  ghost predicate ItemOk(it: Item) {
    it.ClassItem? ==> ClassOk(it.bytes)
  }

  /** Every class descriptor is one, and the lengths fit their fields. */
  ghost predicate WellFormed(c: Config) {
    && TotalLength(c) < 0x1_0000 && c.milliamps / 2 < 0x100
    && (forall d :: d in c.lead ==> ClassOk(d))
    && (forall b, it :: b in c.blocks && it in b.items ==> ItemOk(it))
  }

  /** The endpoints among some items, in order. */
  ghost function EndpointsOf(items: seq<Item>): (eps: seq<Endpoint>)
    ensures |eps| <= |items|
  {
    if items == [] then []
    else
      var last := items[|items| - 1];
      EndpointsOf(items[..|items| - 1]) + if last.EpItem? then [last.ep] else []
  }

  lemma BlockDescsSnoc(init: seq<Block>, blk: Block)
    ensures BlockDescs(init + [blk]) == BlockDescs(init) + ([blk.intf.Encode()] + ItemDescs(blk.items))
  {
    assert (init + [blk])[..|init + [blk]| - 1] == init;
  }

  lemma ItemDescsSnoc(items: seq<Item>)
    requires items != []
    ensures ItemDescs(items) == ItemDescs(items[..|items| - 1]) + [items[|items| - 1].Encode()]
  {
  }

  lemma OneEndpoint(e: Endpoint)
    ensures EndpointsOf([EpItem(e)]) == [e] && ItemDescs([EpItem(e)]) == [e.Encode()]
  {
    var items := [EpItem(e)];
    assert items[..0] == [];
    assert EndpointsOf(items[..0]) == [];
  }

  lemma OneMoreItem(items: seq<Item>, e: Endpoint)
    ensures EndpointsOf(items + [EpItem(e)]) == EndpointsOf(items) + [e]
    ensures ItemDescs(items + [EpItem(e)]) == ItemDescs(items) + [e.Encode()]
  {
    assert (items + [EpItem(e)])[..|items|] == items;
  }

  lemma OneBlock(b: Block)
    ensures BlockDescs([b]) == [b.intf.Encode()] + ItemDescs(b.items)
  {
    assert [b] == [] + [b];
    BlockDescsSnoc([], b);
  }

  lemma FlattenCons(d: seq<byte>, ds: seq<seq<byte>>)
    ensures Flatten([d] + ds) == d + Flatten(ds)
  {
    assert ([d] + ds)[1..] == ds;
  }

  // ---------- packet size and multiplier ----------

  /** USB_GET_MAXPACKETSIZE. */
  function GetMaxPacketSize(x: uint16): nat {
    And(x, 0x7ff)
  }

  /** USB_GET_MULT. */
  function GetMult(x: uint16): nat {
    And(x, 0x1800) / 0x800
  }

  /** Masking bits 11 and 12. */
  lemma MultMask(w: nat)
    ensures And(w, 0x1800) == 0x800 * And(w / 0x800, 3)
  {
    var k := 11;
    assert Pow2(k) == 0x800;
    AndDoubled(w, 3, k);
    DoubledIs(And(Halved(w, k), 3), k);
    DoubledIs(3, k);
    HalvedIs(w, k);
  }

  lemma SizeMask(w: nat)
    ensures And(w, 0x7ff) == w % 0x800
  {
    var k := 11;
    MaskIsMod(w, k);
    assert Pow2(k) == 0x800;
  }

  /** What the two macros extract. */
  lemma PacketFields(w: uint16)
    ensures GetMaxPacketSize(w) == w % 0x800 && GetMult(w) == w / 0x800 % 4
  {
    SizeMask(w);
    MultMask(w);
    var k := 2;
    MaskIsMod(w / 0x800, k);
    assert Pow2(k) == 4;
  }

  lemma WBRoundTrip(w: uint16)
    ensures GetLE16(WBVal(w)[0], WBVal(w)[1]) == w
  {
  }

  /** The packet size and multiplier an endpoint was declared with come back from its encoded bytes. */
  lemma MaxPacketSizeFields(e: Endpoint, size: nat, mult: nat)
    requires size < 0x800 && mult < 4 && e.maxPacketSize == size + 0x800 * mult
    ensures var w := GetLE16(e.Encode()[4], e.Encode()[5]); GetMaxPacketSize(w) == size && GetMult(w) == mult
  {
    var w := e.maxPacketSize;
    WBRoundTrip(w);
    PacketFields(w);
    assert w / 0x800 == mult && w % 0x800 == size;
  }
}
