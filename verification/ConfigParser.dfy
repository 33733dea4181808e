/** The host's configuration-descriptor parser. */
module ConfigParser {
  import opened MachineWords
  import opened UsbDefs
  import opened Descriptors

  const MAX_INTERFACES: int := 8       // CONFIG_USBHOST_MAX_INTERFACES
  const MAX_ALTSETTINGS: int := 2      // CONFIG_USBHOST_MAX_INTF_ALTSETTINGS
  const MAX_ENDPOINTS: int := 4        // CONFIG_USBHOST_MAX_ENDPOINTS

  const ZERO_EP: seq<byte> := [0, 0, 0, 0, 0, 0, 0]

  /** The endpoint descriptors of a setting, as raw bytes. */
  type EndpointSlots = e: seq<seq<byte>> | |e| == MAX_ENDPOINTS witness [ZERO_EP, ZERO_EP, ZERO_EP, ZERO_EP]

  /** usbh_interface_altsetting: the interface descriptor, as raw bytes, and the endpoint descriptors. */
  datatype AltSetting = AltSetting(desc: seq<byte>, eps: EndpointSlots)

  const ZERO_ALT: AltSetting := AltSetting([0, 0, 0, 0, 0, 0, 0, 0, 0], [ZERO_EP, ZERO_EP, ZERO_EP, ZERO_EP])

  type AltSettings = a: seq<AltSetting> | |a| == MAX_ALTSETTINGS witness [ZERO_ALT, ZERO_ALT]

  /** usbh_interface. */
  datatype InterfaceSlot = InterfaceSlot(alts: AltSettings, altNum: nat)

  const ZERO_SLOT: InterfaceSlot := InterfaceSlot([ZERO_ALT, ZERO_ALT], 0)

  type Table = t: seq<InterfaceSlot> | |t| == MAX_INTERFACES witness ZERO_TABLE

  const ZERO_TABLE: seq<InterfaceSlot> :=
    [ZERO_SLOT, ZERO_SLOT, ZERO_SLOT, ZERO_SLOT, ZERO_SLOT, ZERO_SLOT, ZERO_SLOT, ZERO_SLOT]

  /** The table and the parser's cursor: cur_iface, cur_alt_setting, cur_ep, all 0xff before any interface. */
  datatype Parser = Parser(table: Table, iface: nat, alt: nat, ep: nat)

  ghost predicate ParserOk(s: Parser) {
    s.ep < MAX_ENDPOINTS ==> s.iface < MAX_INTERFACES && s.alt < MAX_ALTSETTINGS
  }

  datatype Outcome = Ok(parser: Parser) | Err(code: int, table: Table)
  {
    function Table(): Table {
      if Ok? then parser.table else table
    }
  }

  // ---------- specification: one descriptor, then a list of them ----------

  function PutInterface(s: Parser, n: nat, a: nat, desc: seq<byte>): (s': Parser)
    requires ParserOk(s) && n < MAX_INTERFACES && a < MAX_ALTSETTINGS
    ensures ParserOk(s')
  {
    var slot := s.table[n];
    Parser(s.table[n := InterfaceSlot(slot.alts[a := slot.alts[a].(desc := desc)], a + 1)], n, a, 0)
  }

  function PutEndpoint(s: Parser, desc: seq<byte>): (s': Parser)
    requires ParserOk(s) && s.ep < MAX_ENDPOINTS
    ensures ParserOk(s')
  {
    var slot := s.table[s.iface];
    var alt := slot.alts[s.alt];
    var alt' := alt.(eps := alt.eps[s.ep := desc]);
    s.(table := s.table[s.iface := slot.(alts := slot.alts[s.alt := alt'])], ep := s.ep + 1)
  }

  /** Effect of a descriptor whose length and type bytes are `length` and `kind`, and whose first nine
      bytes in memory are w. */
  function OnDescriptor(s: Parser, length: byte, kind: byte, w: seq<byte>): (r: Outcome)
    requires ParserOk(s) && |w| == 9
    ensures r.Ok? ==> ParserOk(r.parser)
    ensures r.Err? ==> r.table == s.table && r.code < 0
  {
    if kind == INTERFACE then
      if length < 9 then Err(INVAL, s.table)
      else if w[2] >= MAX_INTERFACES || w[4] > MAX_ENDPOINTS || w[3] >= MAX_ALTSETTINGS then Err(NOMEM, s.table)
      else Ok(PutInterface(s, w[2], w[3], w))
    else if kind == ENDPOINT then
      if length < 7 then Err(INVAL, s.table)
      else if s.ep >= MAX_ENDPOINTS then Err(NOMEM, s.table)
      else Ok(PutEndpoint(s, w[..7]))
    else Ok(s)
  }

  const START: Parser := Parser(ZERO_TABLE, 0xff, 0xff, 0xff)

  /** A buffer with the configuration's `length` bytes and the zero sentinel the host writes behind them. */
  ghost predicate Sentinel(b: seq<byte>, length: nat) {
    length < |b| && b[length] == 0
  }

  /** The nine bytes of memory from offset p of the buffer on; `beyond` is what lies behind the buffer. */
  function NineAt(b: seq<byte>, beyond: nat -> byte, p: nat): (w: seq<byte>)
    ensures |w| == 9
  {
    seq(9, i requires 0 <= i < 9 => if p + i < |b| then b[p + i] else beyond(p + i - |b|))
  }

  /** The parser from offset p on. */
  function ParseFrom(b: seq<byte>, beyond: nat -> byte, length: nat, p: nat, s: Parser): (r: Outcome)
    requires Sentinel(b, length) && p <= length && ParserOk(s)
    ensures r.Ok? ==> ParserOk(r.parser)
    ensures r.Err? ==> r.code < 0
    decreases length - p
  {
    if b[p] == 0 then
      if p == length then Ok(s) else Err(INVAL, s.table)
    else
      match OnDescriptor(s, b[p], b[p + 1], NineAt(b, beyond, p))
      case Err(c, t) => Err(c, t)
      case Ok(s') =>
        if p + b[p] > length then Err(INVAL, s'.table) else ParseFrom(b, beyond, length, p + b[p], s')
  }

  // ---------- implementation ----------

  class Hubport {
    var configDesc: seq<byte>              // config.config_desc
    const intf: array<InterfaceSlot>       // config.intf

    constructor ()
      ensures intf.Length == MAX_INTERFACES && fresh(intf)
    {
      configDesc := [];
      intf := new InterfaceSlot[8](_ => ZERO_SLOT);
    }

    /** The memcpy of an interface descriptor into its slot. */
    method StoreInterface(ghost s: Parser, n: nat, a: nat, desc: seq<byte>)
      requires intf.Length == MAX_INTERFACES && ParserOk(s) && s.table == intf[..]
      requires n < MAX_INTERFACES && a < MAX_ALTSETTINGS
      modifies intf
      ensures intf[..] == PutInterface(s, n, a, desc).table
    {
      assert intf[n] == s.table[n];
      var alts := intf[n].alts;
      intf[n] := InterfaceSlot(alts[a := alts[a].(desc := desc)], a + 1);
    }

    /** The memcpy of an endpoint descriptor into its slot. */
    method StoreEndpoint(ghost s: Parser, n: nat, a: nat, e: nat, desc: seq<byte>)
      requires intf.Length == MAX_INTERFACES && ParserOk(s) && s.table == intf[..]
      requires n == s.iface && a == s.alt && e == s.ep < MAX_ENDPOINTS
      modifies intf
      ensures intf[..] == PutEndpoint(s, desc).table
    {
      assert intf[n] == s.table[n];
      var alts := intf[n].alts;
      intf[n] := intf[n].(alts := alts[a := alts[a].(eps := alts[a].eps[e := desc])]);
    }

    /** The switch on the type of the descriptor at p: its length and type bytes, and the memory w from p on. */
    method Dispatch(length: byte, kind: byte, w: seq<byte>, iface: nat, alt: nat, ep: nat)
      returns (rc: int, iface': nat, alt': nat, ep': nat)
      requires intf.Length == MAX_INTERFACES && |w| == 9 && ParserOk(Parser(intf[..], iface, alt, ep))
      modifies intf
      ensures match OnDescriptor(Parser(old(intf[..]), iface, alt, ep), length, kind, w)
              case Ok(s) => rc == 0 && s == Parser(intf[..], iface', alt', ep')
              case Err(c, t) => rc == c && intf[..] == t
    {
      ghost var s := Parser(intf[..], iface, alt, ep);
      rc, iface', alt', ep' := 0, iface, alt, ep;
      if kind == INTERFACE {
        if length < 9 {
          rc := INVAL;
          return;
        }
        iface', alt', ep' := w[2], w[3], 0;
        if iface' >= MAX_INTERFACES {
          rc := NOMEM;
          return;
        }
        if w[4] > MAX_ENDPOINTS {
          rc := NOMEM;
          return;
        }
        if alt' >= MAX_ALTSETTINGS {
          rc := NOMEM;
          return;
        }
        StoreInterface(s, iface', alt', w);
      } else if kind == ENDPOINT {
        if length < 7 {
          rc := INVAL;
          return;
        }
        if ep >= MAX_ENDPOINTS {
          rc := NOMEM;
          return;
        }
        StoreEndpoint(s, iface, alt, ep, w[..7]);
        ep' := ep + 1;
      }
    }

    /** parse_config_descriptor over the buffer b; `beyond` is the memory behind it. */
    method ParseConfigDescriptor(b: seq<byte>, beyond: nat -> byte, length: uint16) returns (rc: int)
      requires |b| >= 2 && (length > 9 ==> Sentinel(b, length)) && intf.Length == MAX_INTERFACES
      modifies this`configDesc, intf
      ensures b[0] != 9 || b[1] != 2 ==>
        rc == -2 && configDesc == old(configDesc) && intf[..] == old(intf[..])
      ensures b[0] == 9 && b[1] == 2 && length <= 9 ==>
        rc == 0 && configDesc == old(configDesc) && intf[..] == old(intf[..])
      ensures b[0] == 9 && b[1] == 2 && length > 9 ==>
        var r := ParseFrom(b, beyond, length, 9, START);
        configDesc == b[..9] && intf[..] == r.Table() && rc == if r.Ok? then 0 else r.code
    {
      if b[0] != 9 {
        return INVAL;
      } else if b[1] != CONFIGURATION {
        return INVAL;
      } else if length <= 9 {
        return 0;
      }
      configDesc := b[..9];
      var curIface: nat, curAltSetting: nat, curEp: nat := 0xff, 0xff, 0xff;
      var p: nat := 9;  // desc_len
      forall i | 0 <= i < intf.Length {
        intf[i] := ZERO_SLOT;
      }
      assert intf[..] == ZERO_TABLE;
      while b[p] != 0
        invariant p <= length
        invariant ParserOk(Parser(intf[..], curIface, curAltSetting, curEp))
        invariant configDesc == b[..9]
        invariant ParseFrom(b, beyond, length, 9, START) ==
          ParseFrom(b, beyond, length, p, Parser(intf[..], curIface, curAltSetting, curEp))
        decreases length - p
      {
        rc, curIface, curAltSetting, curEp :=
          Dispatch(b[p], b[p + 1], NineAt(b, beyond, p), curIface, curAltSetting, curEp);
        if rc < 0 {
          return;
        }
        if p + b[p] > length {
          return INVAL;
        }
        p := p + b[p];
      }
      if p != length {
        return INVAL;
      }
      return 0;
    }
  }

  // ---------- what each descriptor does, in numbers ----------

  /** Everything outside setting a of interface n is as it was. */
  ghost predicate OnlyAt(t: Table, t': Table, n: nat, a: nat)
    requires n < 8 && a < 2
  {
    && (forall m :: 0 <= m < 8 && m != n ==> t'[m] == t[m])
    && (forall c :: 0 <= c < 2 && c != a ==> t'[n].alts[c] == t[n].alts[c])
  }

  /** An interface descriptor (type 4) is taken iff it has at least 9 bytes, a number below 8, a setting below 2 and at
      most 4 endpoints. It is stored in its slot, and the endpoints that follow go there from the first on. */
  lemma InterfaceEffect(s: Parser, length: byte, w: seq<byte>)
    requires ParserOk(s) && |w| == 9
    ensures var r := OnDescriptor(s, length, 4, w);
      && (r.Ok? <==> length >= 9 && w[2] < 8 && w[3] < 2 && w[4] <= 4)
      && (r.Err? ==> r.table == s.table && r.code == if length < 9 then -2 else -1)
      && (r.Ok? ==>
            var t, t' := s.table, r.parser.table;
            && r.parser == Parser(t', w[2], w[3], 0) && OnlyAt(t, t', w[2], w[3]) && t'[w[2]].altNum == w[3] + 1
            && t'[w[2]].alts[w[3]] == AltSetting(w, t[w[2]].alts[w[3]].eps))
  {
  }

  /** An endpoint descriptor (type 5) is taken iff it has at least 7 bytes and is at most the fourth of a setting. It is
      stored in the next endpoint slot of the current setting. */
  lemma EndpointEffect(s: Parser, length: byte, w: seq<byte>)
    requires ParserOk(s) && |w| == 9
    ensures var r := OnDescriptor(s, length, 5, w);
      && (r.Ok? <==> length >= 7 && s.ep < 4)
      && (r.Err? ==> r.table == s.table && r.code == if length < 7 then -2 else -1)
      && (r.Ok? ==>
            var t, t' := s.table, r.parser.table;
            && r.parser == Parser(t', s.iface, s.alt, s.ep + 1) && OnlyAt(t, t', s.iface, s.alt)
            && t'[s.iface].altNum == t[s.iface].altNum && t'[s.iface].alts[s.alt].desc == t[s.iface].alts[s.alt].desc
            && t'[s.iface].alts[s.alt].eps[s.ep] == w[..7]
            && forall k :: 0 <= k < 4 && k != s.ep ==>
                 t'[s.iface].alts[s.alt].eps[k] == t[s.iface].alts[s.alt].eps[k])
  {
  }

  /** Any other descriptor is passed over. */
  lemma OtherEffect(s: Parser, length: byte, kind: byte, w: seq<byte>)
    requires ParserOk(s) && |w| == 9 && kind != 4 && kind != 5
    ensures OnDescriptor(s, length, kind, w) == Ok(s)
  {
  }

  // ---------- soundness and completeness on arbitrary bytes ----------

  /** The descriptors at positions ps, each as long as its first byte says, tile [p, length) exactly. */
  ghost predicate Tiles(b: seq<byte>, length: nat, p: nat, ps: seq<nat>)
    requires length < |b|
    decreases |ps|
  {
    if ps == [] then p == length
    else ps[0] == p && p < length && b[p] != 0 && p + b[p] <= length && Tiles(b, length, p + b[p], ps[1..])
  }

  /** The fold of OnDescriptor over the descriptors at positions ps. */
  function FoldAt(b: seq<byte>, beyond: nat -> byte, ps: seq<nat>, s: Parser): (r: Outcome)
    requires ParserOk(s) && forall p :: p in ps ==> p + 1 < |b|
    ensures r.Ok? ==> ParserOk(r.parser)
    decreases |ps|
  {
    if ps == [] then Ok(s)
    else
      assert ps[0] in ps;
      match OnDescriptor(s, b[ps[0]], b[ps[0] + 1], NineAt(b, beyond, ps[0]))
      case Err(c, t) => Err(c, t)
      case Ok(s') => assert forall p :: p in ps[1..] ==> p in ps; FoldAt(b, beyond, ps[1..], s')
  }

  lemma {:induction false} TilesInside(b: seq<byte>, length: nat, p: nat, ps: seq<nat>)
    requires length < |b| && Tiles(b, length, p, ps)
    ensures forall q :: q in ps ==> q + 1 < |b|
    decreases |ps|
  {
    if ps != [] {
      TilesInside(b, length, p + b[p], ps[1..]);
      assert forall q :: q in ps ==> q == ps[0] || q in ps[1..];
    }
  }

  /** Positions ps tile the descriptors and every one of them is accepted, giving the parser t. */
  ghost predicate Accepts(b: seq<byte>, beyond: nat -> byte, length: nat, p: nat, s: Parser, ps: seq<nat>, t: Parser)
    requires length < |b| && ParserOk(s)
  {
    && Tiles(b, length, p, ps)
    && (forall q :: q in ps ==> q + 1 < |b|)
    && FoldAt(b, beyond, ps, s) == Ok(t)
  }

  lemma {:induction false} ParseSound(b: seq<byte>, beyond: nat -> byte, length: nat, p: nat, s: Parser)
    returns (ps: seq<nat>)
    requires Sentinel(b, length) && p <= length && ParserOk(s) && ParseFrom(b, beyond, length, p, s).Ok?
    ensures Accepts(b, beyond, length, p, s, ps, ParseFrom(b, beyond, length, p, s).parser)
    decreases length - p
  {
    if b[p] == 0 {
      ps := [];
    } else {
      var s' := OnDescriptor(s, b[p], b[p + 1], NineAt(b, beyond, p)).parser;
      var rest := ParseSound(b, beyond, length, p + b[p], s');
      ps := [p] + rest;
      assert ps[1..] == rest;
      TilesInside(b, length, p, ps);
    }
  }

  lemma {:induction false} ParseComplete(b: seq<byte>, beyond: nat -> byte, length: nat, p: nat, s: Parser,
                                         ps: seq<nat>, t: Parser)
    requires Sentinel(b, length) && p <= length && ParserOk(s) && Accepts(b, beyond, length, p, s, ps, t)
    ensures ParseFrom(b, beyond, length, p, s) == Ok(t)
    decreases |ps|
  {
    if ps != [] {
      assert ps[0] in ps;
      var s' := OnDescriptor(s, b[p], b[p + 1], NineAt(b, beyond, p)).parser;
      assert forall q :: q in ps[1..] ==> q in ps;
      ParseComplete(b, beyond, length, p + b[p], s', ps[1..], t);
    }
  }

  /** On any bytes with the sentinel in place, the parse succeeds iff descriptors tile [9, length) exactly and
      each is acceptable after the ones before it, and then the table is the fold over that list. */
  lemma ParseIffTiled(b: seq<byte>, beyond: nat -> byte, length: nat, t: Parser)
    requires Sentinel(b, length) && length > 9
    ensures ParseFrom(b, beyond, length, 9, START) == Ok(t)
       <==> exists ps :: Accepts(b, beyond, length, 9, START, ps, t)
  {
    if ParseFrom(b, beyond, length, 9, START) == Ok(t) {
      var ps := ParseSound(b, beyond, length, 9, START);
    }
    if exists ps :: Accepts(b, beyond, length, 9, START, ps, t) {
      var ps :| Accepts(b, beyond, length, 9, START, ps, t);
      ParseComplete(b, beyond, length, 9, START, ps, t);
    }
  }

  lemma {:induction false} ParsePrefix(b: seq<byte>, beyond: nat -> byte, length: nat, p: nat, s: Parser,
                                       ps: seq<nat>, q: nat, t: Parser)
    requires Sentinel(b, length) && p <= length && q <= length && ParserOk(s) && Accepts(b, beyond, q, p, s, ps, t)
    ensures ParserOk(t) && p <= q && ParseFrom(b, beyond, length, p, s) == ParseFrom(b, beyond, length, q, t)
    decreases |ps|
  {
    if ps != [] {
      assert ps[0] in ps;
      var s' := OnDescriptor(s, b[p], b[p + 1], NineAt(b, beyond, p)).parser;
      assert forall x :: x in ps[1..] ==> x in ps;
      ParsePrefix(b, beyond, length, p + b[p], s', ps[1..], q, t);
    }
  }

  /** How a parse fails at position q, to which accepted descriptors lead: at a zero length ahead of the end, at a
      descriptor that is refused, with its code, and at one that reaches past the end, which is stored all the same. */
  lemma FailureAt(b: seq<byte>, beyond: nat -> byte, length: nat, ps: seq<nat>, q: nat, t: Parser)
    requires Sentinel(b, length) && 9 <= length && q < length && Accepts(b, beyond, q, 9, START, ps, t)
    ensures ParserOk(t)
    ensures var r := ParseFrom(b, beyond, length, 9, START);
      var d := OnDescriptor(t, b[q], b[q + 1], NineAt(b, beyond, q));
      && (b[q] == 0 ==> r == Err(-2, t.table))
      && (b[q] != 0 && d.Err? ==> r == d)
      && (b[q] != 0 && d.Ok? && q + b[q] > length ==> r == Err(-2, d.parser.table))
  {
    ParsePrefix(b, beyond, length, 9, START, ps, q, t);
  }

  /** In an accepted parse that starts outside any interface, an interface precedes every endpoint. */
  lemma {:induction false} EndpointNeedsInterface(b: seq<byte>, beyond: nat -> byte, length: nat, p: nat, s: Parser,
                                                  ps: seq<nat>, t: Parser, k: nat)
    requires Sentinel(b, length) && ParserOk(s) && Accepts(b, beyond, length, p, s, ps, t)
    requires s.ep >= MAX_ENDPOINTS && k < |ps| && ps[k] in ps && b[ps[k] + 1] == ENDPOINT
    ensures exists j :: 0 <= j < k && ps[j] in ps && b[ps[j] + 1] == INTERFACE
    decreases k
  {
    assert ps[0] in ps;
    if b[ps[0] + 1] != INTERFACE {
      assert forall q :: q in ps[1..] ==> q in ps;
      assert ps[1..][k - 1] == ps[k];
      EndpointNeedsInterface(b, beyond, length, p + b[p], s, ps[1..], t, k - 1);
      var j :| 0 <= j < k - 1 && ps[1..][j] in ps[1..] && b[ps[1..][j] + 1] == INTERFACE;
      assert ps[j + 1] == ps[1..][j];
    }
  }

  /** Descriptors of other types leave the parser where it was, up to position q. */
  ghost predicate OthersLead(b: seq<byte>, p: nat, ps: seq<nat>, q: nat)
    requires q < |b|
  {
    Tiles(b, q, p, ps) && forall x :: x in ps ==> x + 1 < |b| && b[x + 1] != INTERFACE && b[x + 1] != ENDPOINT
  }

  lemma {:induction false} OthersPassed(b: seq<byte>, beyond: nat -> byte, length: nat, p: nat, s: Parser,
                                        ps: seq<nat>, q: nat)
    requires Sentinel(b, length) && q < length && ParserOk(s) && OthersLead(b, p, ps, q)
    ensures p <= q && ParseFrom(b, beyond, length, p, s) == ParseFrom(b, beyond, length, q, s)
    decreases |ps|
  {
    if ps != [] {
      assert ps[0] in ps;
      assert forall x :: x in ps[1..] ==> x in ps;
      OthersPassed(b, beyond, length, p + b[p], s, ps[1..], q);
    }
  }

  /** An endpoint descriptor that no interface descriptor precedes ends the parse with an error and an empty table. */
  lemma EndpointFirstRefused(b: seq<byte>, beyond: nat -> byte, length: nat, ps: seq<nat>, q: nat)
    requires Sentinel(b, length) && q < length && OthersLead(b, 9, ps, q) && b[q] != 0 && b[q + 1] == ENDPOINT
    ensures 9 <= q
    ensures ParseFrom(b, beyond, length, 9, START) == Err(if b[q] >= 7 then NOMEM else INVAL, ZERO_TABLE)
  {
    OthersPassed(b, beyond, length, 9, START, ps, q);
  }

  // ---------- reads behind the descriptors ----------

  /** How many bytes of a descriptor the parser reads: its length and type, of an interface also its number,
      setting and endpoint count, and what it copies of those it accepts. */
  function Touched(s: Parser, length: byte, kind: byte, w: seq<byte>): nat
    requires ParserOk(s) && |w| == 9
  {
    if kind == INTERFACE && length >= 9 then (if OnDescriptor(s, length, kind, w).Ok? then 9 else 5)
    else if kind == ENDPOINT && OnDescriptor(s, length, kind, w).Ok? then 7
    else 2
  }

  /** Every byte an accepted parse reads of a descriptor lies ahead of the configuration's end; only the type of a
      descriptor of one byte, the last one, is the sentinel. */
  lemma {:induction false} AcceptedReadsInside(b: seq<byte>, beyond: nat -> byte, length: nat, p: nat, s: Parser,
                                               ps: seq<nat>, t: Parser, q: nat)
    requires Sentinel(b, length) && ParserOk(s) && Accepts(b, beyond, length, p, s, ps, t) && q in ps
    ensures q + 1 < length || (q + 1 == length && b[q + 1] == 0)
    ensures b[q + 1] == INTERFACE ==> q + 9 <= length
    ensures b[q + 1] == ENDPOINT ==> q + 7 <= length
    decreases |ps|
  {
    assert ps[0] in ps;
    var s' := OnDescriptor(s, b[p], b[p + 1], NineAt(b, beyond, p)).parser;
    if q != p {
      assert q in ps[1..];
      assert forall x :: x in ps[1..] ==> x in ps;
      AcceptedReadsInside(b, beyond, length, p + b[p], s', ps[1..], t, q);
    }
  }

  /** The parse from p on reads a byte behind the buffer. */
  predicate ReadsBeyond(b: seq<byte>, beyond: nat -> byte, length: nat, p: nat, s: Parser)
    requires Sentinel(b, length) && p <= length && ParserOk(s)
    decreases length - p
  {
    b[p] != 0 &&
    (p + Touched(s, b[p], b[p + 1], NineAt(b, beyond, p)) > |b| ||
     match OnDescriptor(s, b[p], b[p + 1], NineAt(b, beyond, p))
     case Err(_, _) => false
     case Ok(s') => p + b[p] <= length && ReadsBeyond(b, beyond, length, p + b[p], s'))
  }

  lemma {:induction false} BeyondIsRefused(b: seq<byte>, beyond: nat -> byte, length: nat, p: nat, s: Parser)
    requires Sentinel(b, length) && p <= length && ParserOk(s) && ReadsBeyond(b, beyond, length, p, s)
    ensures ParseFrom(b, beyond, length, p, s).Err?
    decreases length - p
  {
    var r := OnDescriptor(s, b[p], b[p + 1], NineAt(b, beyond, p));
    if r.Ok? && p + b[p] <= length {
      BeyondIsRefused(b, beyond, length, p + b[p], r.parser);
    }
  }

  /** With seven bytes of room behind the configuration, nothing behind the buffer is read: a header starts at least
      two bytes ahead of the sentinel, and at most nine of its bytes are read. */
  lemma {:induction false} RoomIsEnough(b: seq<byte>, beyond: nat -> byte, length: nat, p: nat, s: Parser)
    requires Sentinel(b, length) && p <= length && ParserOk(s) && length + 7 <= |b|
    ensures !ReadsBeyond(b, beyond, length, p, s)
    decreases length - p
  {
    if b[p] != 0 {
      var r := OnDescriptor(s, b[p], b[p + 1], NineAt(b, beyond, p));
      if r.Ok? && p + b[p] <= length {
        RoomIsEnough(b, beyond, length, p + b[p], r.parser);
      }
    }
  }

  /** Descriptors of one byte up to an interface header in the last two bytes ahead of the sentinel. */
  function LateHeader(length: nat, n: nat): (b: seq<byte>)
    requires 11 <= length < n
    ensures |b| == n
  {
    seq(n, i requires 0 <= i < n =>
      if 9 <= i < length - 2 then 1 else if i == length - 2 then 9 else if i == length - 1 then INTERFACE else 0)
  }

  lemma {:induction false} LateHeaderReads(beyond: nat -> byte, length: nat, n: nat, p: nat)
    requires 11 <= length < n < length + 7 && 9 <= p <= length - 2
    ensures var b := LateHeader(length, n); Sentinel(b, length) && ReadsBeyond(b, beyond, length, p, START)
    decreases length - p
  {
    var b := LateHeader(length, n);
    if p == length - 2 {
      LateHeaderTouched(beyond, length, n);
    } else {
      assert OnDescriptor(START, b[p], b[p + 1], NineAt(b, beyond, p)) == Ok(START);
      LateHeaderReads(beyond, length, n, p + 1);
    }
  }

  /** The late header is accepted when the buffer holds its number, setting and endpoint count, and then copied. */
  lemma LateHeaderTouched(beyond: nat -> byte, length: nat, n: nat)
    requires 11 <= length < n < length + 7
    ensures var b, p := LateHeader(length, n), length - 2;
      p + Touched(START, b[p], b[p + 1], NineAt(b, beyond, p)) > n
  {
    var b, p := LateHeader(length, n), length - 2;
    var w := NineAt(b, beyond, p);
    if length + 3 <= n {
      assert w[2] == b[length] && w[3] == b[length + 1] && w[4] == b[length + 2];
    }
  }

  /** A configuration of some length can make the parser read behind a buffer of n bytes iff fewer than seven bytes of
      room are left; whatever lies behind, it refuses every such configuration. */
  lemma ReadsBeyondExactly(beyond: nat -> byte, length: nat, n: nat)
    requires 11 <= length < n
    ensures n < length + 7 <==>
      exists b :: |b| == n && Sentinel(b, length) && ReadsBeyond(b, beyond, length, 9, START)
    ensures forall b :: |b| == n && Sentinel(b, length) && ReadsBeyond(b, beyond, length, 9, START) ==>
      ParseFrom(b, beyond, length, 9, START).Err?
  {
    forall b | |b| == n && Sentinel(b, length) && ReadsBeyond(b, beyond, length, 9, START)
      ensures ParseFrom(b, beyond, length, 9, START).Err? && n < length + 7
    {
      BeyondIsRefused(b, beyond, length, 9, START);
      if length + 7 <= n {
        RoomIsEnough(b, beyond, length, 9, START);
      }
    }
    if n < length + 7 {
      LateHeaderReads(beyond, length, n, 9);
    }
  }

  /** The parser makes no use of a byte that it does not touch. */
  lemma TouchedSuffices(s: Parser, length: byte, kind: byte, w1: seq<byte>, w2: seq<byte>)
    requires ParserOk(s) && |w1| == 9 == |w2|
    requires w1[..Touched(s, length, kind, w1)] == w2[..Touched(s, length, kind, w1)]
    ensures OnDescriptor(s, length, kind, w1) == OnDescriptor(s, length, kind, w2)
  {
    var k := Touched(s, length, kind, w1);
    assert forall i :: 0 <= i < k ==> w1[i] == w1[..k][i] == w2[..k][i] == w2[i];
    assert k >= 9 ==> w1 == w2;
    assert k >= 7 ==> w1[..7] == w2[..7];
  }

  /** A parse that reads nothing behind the buffer ends the same way, errors included, whatever lies there. */
  lemma {:induction false} UnreadIrrelevant(b: seq<byte>, m1: nat -> byte, m2: nat -> byte,
                                            length: nat, p: nat, s: Parser)
    requires Sentinel(b, length) && p <= length && ParserOk(s) && !ReadsBeyond(b, m1, length, p, s)
    ensures ParseFrom(b, m2, length, p, s) == ParseFrom(b, m1, length, p, s)
    decreases length - p
  {
    if b[p] != 0 {
      var w1, w2 := NineAt(b, m1, p), NineAt(b, m2, p);
      var k := Touched(s, b[p], b[p + 1], w1);
      assert w1[..k] == w2[..k];
      TouchedSuffices(s, b[p], b[p + 1], w1, w2);
      var r := OnDescriptor(s, b[p], b[p + 1], w1);
      if r.Ok? && p + b[p] <= length {
        UnreadIrrelevant(b, m1, m2, length, p + b[p], r.parser);
      }
    }
  }

  /** What lies behind the buffer never decides whether a parse succeeds, nor the table of one that does. */
  lemma {:induction false} BeyondIrrelevant(b: seq<byte>, m1: nat -> byte, m2: nat -> byte,
                                            length: nat, p: nat, s: Parser)
    requires Sentinel(b, length) && p <= length && ParserOk(s)
    requires ParseFrom(b, m1, length, p, s).Ok?
    ensures ParseFrom(b, m2, length, p, s) == ParseFrom(b, m1, length, p, s)
    decreases length - p
  {
    if b[p] != 0 {
      var w1, w2 := NineAt(b, m1, p), NineAt(b, m2, p);
      assert p + 9 <= |b| ==> w1 == w2;
      assert p + 7 <= |b| ==> w1[..7] == w2[..7];
      BeyondIrrelevant(b, m1, m2, length, p + b[p], OnDescriptor(s, b[p], b[p + 1], w1).parser);
    }
  }

  /** A device with a configuration of 511 bytes, which the host's buffer of 512 takes, whose last two bytes start
      an interface descriptor: the host reads up to six bytes behind its buffer. */
  lemma ReadsBeyondExample(beyond: nat -> byte)
    ensures exists b :: |b| == REQUEST_BUFFER_LEN && Sentinel(b, 511) && ReadsBeyond(b, beyond, 511, 9, START)
  {
    var b: seq<byte> := seq(512, i requires 0 <= i < 512 =>
      if i == 9 || i == 259 then 250 else if i == 10 || i == 260 then 0x24
      else if i == 509 then 9 else if i == 510 then INTERFACE else 0);
    assert OnDescriptor(START, b[9], b[10], NineAt(b, beyond, 9)) == Ok(START);
    assert OnDescriptor(START, b[259], b[260], NineAt(b, beyond, 259)) == Ok(START);
    assert ReadsBeyond(b, beyond, 511, 509, START);
    assert ReadsBeyond(b, beyond, 511, 259, START);
    assert ReadsBeyond(b, beyond, 511, 9, START);
  }

  // ---------- round trip with the encoder ----------

  /** The first nine bytes of a descriptor, zeros after its end. */
  function Padded(d: seq<byte>): (w: seq<byte>)
    ensures |w| == 9
  {
    seq(9, i requires 0 <= i < 9 => if i < |d| then d[i] else 0)
  }

  /** The fold over descriptors given as byte strings. */
  function FoldRaw(s: Parser, ds: seq<seq<byte>>): (r: Outcome)
    requires ParserOk(s) && forall d :: d in ds ==> RawOk(d)
    ensures r.Ok? ==> ParserOk(r.parser)
    decreases |ds|
  {
    if ds == [] then Ok(s)
    else
      assert RawOk(ds[0]);
      match OnDescriptor(s, ds[0][0], ds[0][1], Padded(ds[0]))
      case Err(c, t) => Err(c, t)
      case Ok(s') => FoldRaw(s', ds[1..])
  }

  lemma {:induction false} FoldAppend(s: Parser, xs: seq<seq<byte>>, ys: seq<seq<byte>>)
    requires ParserOk(s) && (forall d :: d in xs + ys ==> RawOk(d))
    requires (forall d :: d in xs ==> RawOk(d)) && (forall d :: d in ys ==> RawOk(d))
    ensures FoldRaw(s, xs + ys) ==
      match FoldRaw(s, xs)
      case Err(c, t) => Err(c, t)
      case Ok(s') => FoldRaw(s', ys)
    decreases |xs|
  {
    if xs == [] {
      assert xs + ys == ys;
    } else {
      assert xs[0] in xs;
      assert (xs + ys)[1..] == xs[1..] + ys;
      var r := OnDescriptor(s, xs[0][0], xs[0][1], Padded(xs[0]));
      if r.Ok? {
        FoldAppend(r.parser, xs[1..], ys);
      }
    }
  }

  /** Only the descriptor's own bytes matter, whatever follows it in memory. */
  lemma WindowIrrelevant(s: Parser, d: seq<byte>, w: seq<byte>)
    requires ParserOk(s) && RawOk(d) && |w| == 9
    requires forall i :: 0 <= i < 9 && i < |d| ==> w[i] == d[i]
    ensures OnDescriptor(s, d[0], d[1], w) == OnDescriptor(s, d[0], d[1], Padded(d))
  {
    assert |d| >= 9 ==> w == Padded(d);
    assert |d| >= 7 ==> w[..7] == Padded(d)[..7];
  }

  /** The first of the descriptors laid out at p. */
  lemma FlattenHead(b: seq<byte>, length: nat, p: nat, ds: seq<seq<byte>>)
    requires p <= length <= |b| && ds != [] && b[p..length] == Flatten(ds)
    ensures p + |ds[0]| <= length && b[p + |ds[0]|..length] == Flatten(ds[1..])
    ensures forall i :: 0 <= i < |ds[0]| ==> b[p + i] == ds[0][i]
  {
    var d := ds[0];
    assert b[p..length][..|d|] == d && b[p..length][|d|..] == Flatten(ds[1..]);
    assert b[p + |d|..length] == b[p..length][|d|..];
    forall i | 0 <= i < |d|
      ensures b[p + i] == d[i]
    {
      assert b[p..length][i] == d[i];
    }
  }

  /** The parser's view of the first of some descriptors laid out at p. */
  lemma HeadLaidOut(b: seq<byte>, beyond: nat -> byte, length: nat, p: nat, s: Parser, ds: seq<seq<byte>>)
    requires Sentinel(b, length) && p <= length && ParserOk(s)
    requires ds != [] && RawOk(ds[0]) && b[p..length] == Flatten(ds)
    ensures var d := ds[0];
      && p + |d| <= length && b[p] == d[0] && b[p + 1] == d[1]
      && b[p + |d|..length] == Flatten(ds[1..])
      && OnDescriptor(s, b[p], b[p + 1], NineAt(b, beyond, p)) == OnDescriptor(s, d[0], d[1], Padded(d))
  {
    FlattenHead(b, length, p, ds);
    assert b[p + 0] == ds[0][0];
    WindowIrrelevant(s, ds[0], NineAt(b, beyond, p));
  }

  lemma ParseStep(b: seq<byte>, beyond: nat -> byte, length: nat, p: nat, s: Parser, s': Parser)
    requires Sentinel(b, length) && p < length && ParserOk(s) && ParserOk(s') && b[p] != 0 && p + b[p] <= length
    requires OnDescriptor(s, b[p], b[p + 1], NineAt(b, beyond, p)) == Ok(s')
    ensures ParseFrom(b, beyond, length, p, s) == ParseFrom(b, beyond, length, p + b[p], s')
  {
  }

  lemma FoldRawStep(s: Parser, ds: seq<seq<byte>>) returns (s': Parser)
    requires ParserOk(s) && ds != [] && (forall d :: d in ds ==> RawOk(d)) && FoldRaw(s, ds).Ok?
    ensures RawOk(ds[0]) && ParserOk(s') && OnDescriptor(s, ds[0][0], ds[0][1], Padded(ds[0])) == Ok(s')
    ensures (forall d :: d in ds[1..] ==> RawOk(d)) && FoldRaw(s, ds) == FoldRaw(s', ds[1..])
  {
    assert RawOk(ds[0]);
    s' := OnDescriptor(s, ds[0][0], ds[0][1], Padded(ds[0])).parser;
  }

  /** Parser and fold take the first of some laid-out descriptors alike. */
  lemma StepLaidOut(b: seq<byte>, beyond: nat -> byte, length: nat, p: nat, s: Parser, ds: seq<seq<byte>>)
    returns (p': nat, s': Parser, rest: seq<seq<byte>>)
    requires Sentinel(b, length) && p <= length && ParserOk(s) && ds != []
    requires (forall d :: d in ds ==> RawOk(d)) && b[p..length] == Flatten(ds) && FoldRaw(s, ds).Ok?
    ensures p' <= length && b[p'..length] == Flatten(rest) && |rest| < |ds|
    ensures ParserOk(s') && (forall d :: d in rest ==> RawOk(d))
    ensures FoldRaw(s', rest) == FoldRaw(s, ds)
    ensures ParseFrom(b, beyond, length, p, s) == ParseFrom(b, beyond, length, p', s')
  {
    s' := FoldRawStep(s, ds);
    p', rest := p + |ds[0]|, ds[1..];
    HeadLaidOut(b, beyond, length, p, s, ds);
    ParseStep(b, beyond, length, p, s, s');
  }

  lemma ParseEnd(b: seq<byte>, beyond: nat -> byte, length: nat, p: nat, s: Parser)
    requires Sentinel(b, length) && p <= length && ParserOk(s) && b[p..length] == []
    ensures ParseFrom(b, beyond, length, p, s) == Ok(s)
  {
    assert p == length;
  }

  /** Parsing laid-out descriptors folds over them. */
  lemma {:induction false} ParseLaidOut(b: seq<byte>, beyond: nat -> byte, length: nat, p: nat, s: Parser,
                                        ds: seq<seq<byte>>)
    requires Sentinel(b, length) && p <= length && ParserOk(s)
    requires (forall d :: d in ds ==> RawOk(d)) && b[p..length] == Flatten(ds) && FoldRaw(s, ds).Ok?
    ensures ParseFrom(b, beyond, length, p, s) == FoldRaw(s, ds)
    decreases |ds|
  {
    if ds == [] {
      ParseEnd(b, beyond, length, p, s);
    } else {
      var p', s', rest := StepLaidOut(b, beyond, length, p, s, ds);
      ParseLaidOut(b, beyond, length, p', s', rest);
    }
  }

  /** Endpoint slots filled from the front, the rest as they were. */
  function Fill(was: EndpointSlots, eps: seq<Endpoint>): EndpointSlots {
    seq(MAX_ENDPOINTS, k requires 0 <= k < MAX_ENDPOINTS => if k < |eps| then eps[k].Encode() else was[k])
  }

  /** The parser after the endpoints eps of the current interface setting. */
  function WithEndpoints(s: Parser, eps: seq<Endpoint>): (s': Parser)
    requires ParserOk(s) && s.ep == 0 && |eps| <= MAX_ENDPOINTS
    ensures ParserOk(s')
  {
    var slot := s.table[s.iface];
    var alt := slot.alts[s.alt];
    s.(table := s.table[s.iface := slot.(alts := slot.alts[s.alt := alt.(eps := Fill(alt.eps, eps))])], ep := |eps|)
  }

  lemma OneMoreEndpoint(s: Parser, eps: seq<Endpoint>, e: Endpoint)
    requires ParserOk(s) && s.ep == 0 && |eps| < MAX_ENDPOINTS
    ensures OnDescriptor(WithEndpoints(s, eps), e.Encode()[0], e.Encode()[1], Padded(e.Encode()))
         == Ok(WithEndpoints(s, eps + [e]))
  {
    var t, t' := WithEndpoints(s, eps), WithEndpoints(s, eps + [e]);
    assert Padded(e.Encode())[..7] == e.Encode();
    var was := s.table[s.iface].alts[s.alt].eps;
    assert Fill(was, eps)[|eps| := e.Encode()] == Fill(was, eps + [e]);
    var alts := s.table[s.iface].alts;
    assert PutEndpoint(t, e.Encode()).table[s.iface].alts == t'.table[s.iface].alts;
    assert PutEndpoint(t, e.Encode()).table == t'.table;
  }

  /** The items of one interface setting fill its endpoint slots in order; class descriptors are passed over. */
  lemma {:induction false} FoldItems(s: Parser, items: seq<Item>)
    requires ParserOk(s) && s.ep == 0 && |EndpointsOf(items)| <= MAX_ENDPOINTS
    requires forall it :: it in items ==> ItemOk(it)
    ensures forall d :: d in ItemDescs(items) ==> RawOk(d)
    ensures FoldRaw(s, ItemDescs(items)) == Ok(WithEndpoints(s, EndpointsOf(items)))
    decreases |items|
  {
    ItemDescsRaw(items);
    if items == [] {
      var was := s.table[s.iface].alts;
      assert Fill(was[s.alt].eps, []) == was[s.alt].eps;
      assert was[s.alt := was[s.alt]] == was;
      assert WithEndpoints(s, []) == s;
    } else {
      var init, last := items[..|items| - 1], items[|items| - 1];
      ItemDescsRaw(init);
      FoldItems(s, init);
      ItemDescsSnoc(items);
      var d := last.Encode();
      assert d in ItemDescs(items);
      FoldAppend(s, ItemDescs(init), [d]);
      var t := WithEndpoints(s, EndpointsOf(init));
      var one: seq<seq<byte>> := [d];
      assert one[1..] == [];
      if last.EpItem? {
        OneMoreEndpoint(s, EndpointsOf(init), last.ep);
      } else {
        assert last in items;
        assert EndpointsOf(items) == EndpointsOf(init);
      }
    }
  }

  lemma ItemDescsRaw(items: seq<Item>)
    requires forall it :: it in items ==> ItemOk(it)
    ensures forall d :: d in ItemDescs(items) ==> RawOk(d)
  {
    forall d | d in ItemDescs(items)
      ensures RawOk(d)
    {
      var i :| 0 <= i < |items| && ItemDescs(items)[i] == d;
      assert items[i] in items;
    }
  }

  /** The interface setting fits the host's tables. */
  ghost predicate BlockFits(b: Block) {
    && b.intf.number < MAX_INTERFACES && b.intf.altSetting < MAX_ALTSETTINGS && b.intf.numEndpoints <= MAX_ENDPOINTS
    && |EndpointsOf(b.items)| <= MAX_ENDPOINTS && (forall it :: it in b.items ==> ItemOk(it))
  }

  ghost predicate DistinctSettings(blocks: seq<Block>) {
    forall i, j :: 0 <= i < j < |blocks| ==>
      blocks[i].intf.number != blocks[j].intf.number || blocks[i].intf.altSetting != blocks[j].intf.altSetting
  }

  /** What belongs in slot [n][a]: the interface descriptor and endpoint descriptors of that setting, or zeros. */
  ghost function SettingIn(blocks: seq<Block>, n: nat, a: nat): AltSetting {
    if blocks == [] then ZERO_ALT
    else
      var last := blocks[|blocks| - 1];
      if last.intf.number == n && last.intf.altSetting == a then
        AltSetting(last.intf.Encode(), Fill(ZERO_ALT.eps, EndpointsOf(last.items)))
      else SettingIn(blocks[..|blocks| - 1], n, a)
  }

  /** altsetting_num of interface n: one more than its last alternate setting, 0 if there is none. */
  function AltNumOf(blocks: seq<Block>, n: nat): nat {
    if blocks == [] then 0
    else
      var last := blocks[|blocks| - 1];
      if last.intf.number == n then last.intf.altSetting + 1 else AltNumOf(blocks[..|blocks| - 1], n)
  }

  /** The table holds every setting in its slot, and zeros elsewhere. */
  ghost predicate Holds(t: Table, blocks: seq<Block>)
  {
    && (forall n, a :: 0 <= n < MAX_INTERFACES && 0 <= a < MAX_ALTSETTINGS ==> t[n].alts[a] == SettingIn(blocks, n, a))
    && (forall n :: 0 <= n < MAX_INTERFACES ==> t[n].altNum == AltNumOf(blocks, n))
  }

  lemma {:induction false} SlotUnused(blocks: seq<Block>, n: nat, a: nat)
    requires forall b :: b in blocks ==> b.intf.number != n || b.intf.altSetting != a
    ensures SettingIn(blocks, n, a) == ZERO_ALT
    decreases |blocks|
  {
    if blocks != [] {
      assert blocks[|blocks| - 1] in blocks;
      SlotUnused(blocks[..|blocks| - 1], n, a);
    }
  }

  /** The table with interface n's setting a replaced. */
  function WithSetting(t: Table, n: nat, a: nat, alt: AltSetting): (t': Table)
    requires n < MAX_INTERFACES && a < MAX_ALTSETTINGS
  {
    t[n := InterfaceSlot(t[n].alts[a := alt], a + 1)]
  }

  /** An interface descriptor followed by its endpoints replaces just the setting. */
  lemma SettingWritten(s: Parser, n: nat, a: nat, d: seq<byte>, eps: seq<Endpoint>)
    requires ParserOk(s) && n < MAX_INTERFACES && a < MAX_ALTSETTINGS && |eps| <= MAX_ENDPOINTS
    ensures WithEndpoints(PutInterface(s, n, a, d), eps).table ==
      WithSetting(s.table, n, a, AltSetting(d, Fill(s.table[n].alts[a].eps, eps)))
  {
    var t := s.table;
    var s1 := PutInterface(s, n, a, d);
    var alt := t[n].alts[a].(desc := d);
    assert s1.table[n] == InterfaceSlot(t[n].alts[a := alt], a + 1);
    var alt' := AltSetting(d, Fill(t[n].alts[a].eps, eps));
    assert t[n].alts[a := alt][a := alt'] == t[n].alts[a := alt'];
    var slot: InterfaceSlot := InterfaceSlot(t[n].alts[a := alt], a + 1);
    assert t[n := slot][n := slot.(alts := t[n].alts[a := alt'])] == t[n := slot.(alts := t[n].alts[a := alt'])];
  }

  /** One slot of the table after the setting of the last block was replaced. */
  lemma SettingHeld(t: Table, init: seq<Block>, blk: Block, m: nat, c: nat)
    requires Holds(t, init) && BlockFits(blk) && m < MAX_INTERFACES && c < MAX_ALTSETTINGS
    ensures var alt := AltSetting(blk.intf.Encode(), Fill(ZERO_ALT.eps, EndpointsOf(blk.items)));
      WithSetting(t, blk.intf.number, blk.intf.altSetting, alt)[m].alts[c] == SettingIn(init + [blk], m, c)
  {
    assert (init + [blk])[..|init|] == init;
    assert t[m].alts[c] == SettingIn(init, m, c);
  }

  lemma AltNumHeld(t: Table, init: seq<Block>, blk: Block, m: nat, alt: AltSetting)
    requires Holds(t, init) && BlockFits(blk) && m < MAX_INTERFACES
    ensures WithSetting(t, blk.intf.number, blk.intf.altSetting, alt)[m].altNum == AltNumOf(init + [blk], m)
  {
    assert (init + [blk])[..|init|] == init;
    assert t[m].altNum == AltNumOf(init, m);
  }

  /** The table holds one block more. */
  lemma BlockHeld(t: Table, init: seq<Block>, blk: Block)
    requires Holds(t, init) && BlockFits(blk)
    ensures var alt := AltSetting(blk.intf.Encode(), Fill(ZERO_ALT.eps, EndpointsOf(blk.items)));
      Holds(WithSetting(t, blk.intf.number, blk.intf.altSetting, alt), init + [blk])
  {
    var alt := AltSetting(blk.intf.Encode(), Fill(ZERO_ALT.eps, EndpointsOf(blk.items)));
    var t' := WithSetting(t, blk.intf.number, blk.intf.altSetting, alt);
    forall m, c | 0 <= m < MAX_INTERFACES && 0 <= c < MAX_ALTSETTINGS
      ensures t'[m].alts[c] == SettingIn(init + [blk], m, c)
    {
      SettingHeld(t, init, blk, m, c);
    }
    forall m | 0 <= m < MAX_INTERFACES
      ensures t'[m].altNum == AltNumOf(init + [blk], m)
    {
      AltNumHeld(t, init, blk, m, alt);
    }
  }

  lemma InterfaceTaken(s: Parser, blk: Block)
    requires ParserOk(s) && BlockFits(blk)
    ensures var d := blk.intf.Encode();
      OnDescriptor(s, d[0], d[1], Padded(d)) == Ok(PutInterface(s, blk.intf.number, blk.intf.altSetting, d))
  {
    assert Padded(blk.intf.Encode()) == blk.intf.Encode();
  }

  lemma FoldRawCons(s: Parser, d: seq<byte>, ds: seq<seq<byte>>, s': Parser)
    requires ParserOk(s) && RawOk(d) && (forall x :: x in ds ==> RawOk(x))
    requires OnDescriptor(s, d[0], d[1], Padded(d)) == Ok(s')
    ensures (forall x :: x in [d] + ds ==> RawOk(x)) && FoldRaw(s, [d] + ds) == FoldRaw(s', ds)
  {
    assert ([d] + ds)[1..] == ds;
  }

  /** The parser's fold over one interface setting, from its interface descriptor to its last item. */
  lemma FoldSetting(s: Parser, blk: Block)
    requires ParserOk(s) && BlockFits(blk)
    ensures forall d :: d in [blk.intf.Encode()] + ItemDescs(blk.items) ==> RawOk(d)
    ensures var s1 := PutInterface(s, blk.intf.number, blk.intf.altSetting, blk.intf.Encode());
      FoldRaw(s, [blk.intf.Encode()] + ItemDescs(blk.items)) == Ok(WithEndpoints(s1, EndpointsOf(blk.items)))
  {
    var d := blk.intf.Encode();
    var s1 := PutInterface(s, blk.intf.number, blk.intf.altSetting, d);
    InterfaceTaken(s, blk);
    FoldItems(s1, blk.items);
    FoldRawCons(s, d, ItemDescs(blk.items), s1);
  }

  /** A new interface setting is parsed into its slot. */
  lemma FoldBlock(s: Parser, init: seq<Block>, blk: Block, ds: seq<seq<byte>>) returns (s': Parser)
    requires ParserOk(s) && Holds(s.table, init) && BlockFits(blk)
    requires SettingIn(init, blk.intf.number, blk.intf.altSetting) == ZERO_ALT
    requires ds == [blk.intf.Encode()] + ItemDescs(blk.items)
    ensures ParserOk(s') && Holds(s'.table, init + [blk])
    ensures FoldsTo(s, ds, s')
  {
    var n, a := blk.intf.number, blk.intf.altSetting;
    FoldSetting(s, blk);
    s' := WithEndpoints(PutInterface(s, n, a, blk.intf.Encode()), EndpointsOf(blk.items));
    SettingWritten(s, n, a, blk.intf.Encode(), EndpointsOf(blk.items));
    assert s.table[n].alts[a] == ZERO_ALT;
    BlockHeld(s.table, init, blk);
  }

  lemma LastIsNew(init: seq<Block>, blk: Block)
    requires DistinctSettings(init + [blk])
    ensures DistinctSettings(init)
    ensures SettingIn(init, blk.intf.number, blk.intf.altSetting) == ZERO_ALT
  {
    var blocks := init + [blk];
    forall i, j | 0 <= i < j < |init|
      ensures init[i].intf.number != init[j].intf.number || init[i].intf.altSetting != init[j].intf.altSetting
    {
      assert blocks[i] == init[i] && blocks[j] == init[j];
    }
    forall b | b in init
      ensures b.intf.number != blk.intf.number || b.intf.altSetting != blk.intf.altSetting
    {
      var i :| 0 <= i < |init| && init[i] == b;
      assert blocks[i] == b && blocks[|init|] == blk;
    }
    SlotUnused(init, blk.intf.number, blk.intf.altSetting);
  }

  /** The descriptors ds fold to the parser t. */
  ghost predicate FoldsTo(s: Parser, ds: seq<seq<byte>>, t: Parser)
    requires ParserOk(s)
  {
    (forall d :: d in ds ==> RawOk(d)) && FoldRaw(s, ds) == Ok(t)
  }

  lemma FoldsOn(s: Parser, xs: seq<seq<byte>>, s1: Parser, ys: seq<seq<byte>>, s2: Parser)
    requires ParserOk(s) && ParserOk(s1) && FoldsTo(s, xs, s1) && FoldsTo(s1, ys, s2)
    ensures FoldsTo(s, xs + ys, s2)
  {
    FoldAppend(s, xs, ys);
  }

  /** Appending a block to parsed ones. */
  lemma FoldOneMore(init: seq<Block>, blk: Block, s: Parser) returns (s': Parser)
    requires ParserOk(s) && FoldsTo(START, BlockDescs(init), s) && Holds(s.table, init)
    requires BlockFits(blk) && SettingIn(init, blk.intf.number, blk.intf.altSetting) == ZERO_ALT
    ensures ParserOk(s') && FoldsTo(START, BlockDescs(init + [blk]), s') && Holds(s'.table, init + [blk])
  {
    var ds := [blk.intf.Encode()] + ItemDescs(blk.items);
    BlockDescsSnoc(init, blk);
    s' := FoldBlock(s, init, blk, ds);
    FoldsOn(START, BlockDescs(init), s, ds, s');
  }

  lemma {:induction false} FoldBlocks(blocks: seq<Block>) returns (s: Parser)
    requires (forall b :: b in blocks ==> BlockFits(b)) && DistinctSettings(blocks)
    ensures ParserOk(s) && FoldsTo(START, BlockDescs(blocks), s) && Holds(s.table, blocks)
    decreases |blocks|
  {
    if blocks == [] {
      s := START;
    } else {
      var init, blk := blocks[..|blocks| - 1], blocks[|blocks| - 1];
      assert blocks == init + [blk];
      LastIsNew(init, blk);
      s := FoldBlocks(init);
      s := FoldOneMore(init, blk, s);
    }
  }

  lemma {:induction false} FoldLead(s: Parser, lead: seq<seq<byte>>)
    requires ParserOk(s) && forall d :: d in lead ==> ClassOk(d)
    ensures (forall d :: d in lead ==> RawOk(d)) && FoldRaw(s, lead) == Ok(s)
    decreases |lead|
  {
    if lead != [] {
      assert lead[0] in lead;
      FoldLead(s, lead[1..]);
    }
  }

  /** The configuration fits the host's tables. */
  ghost predicate HostOk(c: Config) {
    && WellFormed(c) && Body(c) != []
    && (forall b :: b in c.blocks ==> BlockFits(b)) && DistinctSettings(c.blocks)
  }

  /** Round trip: the bytes the macros lay out, followed by the sentinel, parse with success, and every
      interface and endpoint descriptor comes back in its [interface][setting][endpoint] slot; slots of no
      setting are zero, and each interface's number of settings is one more than its last. */
  lemma RoundTrip(c: Config, b: seq<byte>, beyond: nat -> byte, length: nat)
    requires HostOk(c) && Sentinel(b, length) && length == TotalLength(c) && b[..length] == Encode(c)
    ensures length > 9 && b[0] == 9 && b[1] == CONFIGURATION
    ensures var r := ParseFrom(b, beyond, length, 9, START); r.Ok? && Holds(r.parser.table, c.blocks)
  {
    FoldLead(START, c.lead);
    var s := FoldBlocks(c.blocks);
    FoldAppend(START, c.lead, BlockDescs(c.blocks));
    var d := Body(c)[0];
    assert d in Body(c);
    assert b[..length][..9] == Header(c);
    assert b[..length][0] == 9 && b[..length][1] == CONFIGURATION;
    assert b[9..length] == b[..length][9..] == Flatten(Body(c));
    ParseLaidOut(b, beyond, length, 9, START, Body(c));
  }
}
