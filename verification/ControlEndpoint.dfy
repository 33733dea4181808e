/** The control endpoint of the device stack: SETUP, data, zero-length packet and status stages
    driven by the controller's interrupts (sections 8.5.3 and 9.4 of USB 2.0). */
module ControlEndpoint {
  import opened MachineWords
  import opened UsbDefs
  import opened Wrappers

  /** The last packet of len bytes is full: the multiple of USB_CTRL_EP_MPS test. */
  predicate FillsPackets(len: nat) {
    len % 64 == 0
  }

  datatype SetupPacket =
    SetupPacket(bmRequestType: byte, bRequest: byte, wValue: uint16, wIndex: uint16, wLength: uint16)
  {
    /** Bit 7 of bmRequestType: device to host. */
    predicate DirIn() { bmRequestType / 0x80 == 1 }

    predicate DataIn() { wLength > 0 && DirIn() }

    predicate DataOut() { wLength > 0 && !DirIn() }

    /** An OUT data stage that does not fit the request buffer. */
    predicate Oversized() { wLength > REQUEST_BUFFER_LEN && !DirIn() }
  }

  datatype EpState = SETUP | IN_DATA | OUT_DATA | IN_STATUS | OUT_STATUS

  /** Where ep0_data_buf points: into req_data, or at memory a request handler supplied. */
  datatype Pointer = ReqData(off: nat) | Foreign

  /** A transfer started on the controller and not completed: its offset in req_data and its length. */
  datatype Transfer = Transfer(at: nat, len: nat)

  /** What a request handler did, an arbitrary choice of the application: success or failure, what it
      left in req_data, the other memory it pointed *data at if any, and the length it offered. */
  datatype Reply = Reply(ok: bool, scratch: seq<byte>, elsewhere: Option<seq<byte>>, len: uint32)
  {
    ghost predicate Valid() {
      |scratch| == REQUEST_BUFFER_LEN && (elsewhere.Some? ==> |elsewhere.value| >= len)
    }

    /** The memory *data points at on return. */
    function Offered(): seq<byte> {
      if elsewhere.Some? then elsewhere.value else scratch
    }
  }

  /** A call of the request handler: the request, where *data points and what *len is. */
  datatype Handed = Handed(packet: SetupPacket, data: Pointer, len: uint32)

  /** The fields of usbd_core_priv that the engine uses, the controller's outstanding transfers, and the calls of
      the request handler so far. */
  datatype Dev = Dev(
    setup: SetupPacket, dataBuf: Pointer, residue: uint32, len: uint32, zlp: bool, next: EpState,
    req: seq<byte>, inX: Option<Transfer>, outX: Option<Transfer>, stalled: bool, handed: seq<Handed>)

  // ---------- specification of the interrupt handlers ----------

  /** A new SETUP cancels what was outstanding and lifts the stall. */
  function Latched(d: Dev, p: SetupPacket): Dev {
    d.(setup := p, inX := None, outX := None, stalled := false)
  }

  function Refuse(d: Dev): Dev {
    d.(next := SETUP, stalled := true)
  }

  /** An accepted request: the smaller of the lengths asked and offered goes out, from req_data. */
  function SentReply(h: Dev, p: SetupPacket, r: Reply): (d: Dev)
    requires |r.scratch| == REQUEST_BUFFER_LEN && |h.req| == REQUEST_BUFFER_LEN
    requires |r.Offered()| >= Min(r.len, REQUEST_BUFFER_LEN)
    ensures |d.req| == REQUEST_BUFFER_LEN
  {
    var n := Min(r.len, p.wLength);
    if n > REQUEST_BUFFER_LEN then Refuse(h.(residue := n))
    else h.(
      req := r.Offered()[..n] + r.scratch[n..],
      residue := n,
      next := if n > 0 then IN_DATA else IN_STATUS,
      inX := Some(Transfer(0, n)),
      zlp := p.wLength > r.len && FillsPackets(r.len))
  }

  /** Effect of the SETUP interrupt when the request handler, if it is called, gives reply r. */
  function OnSetup(d: Dev, p: SetupPacket, r: Reply): (d': Dev)
    requires |d.req| == REQUEST_BUFFER_LEN && |r.scratch| == REQUEST_BUFFER_LEN
    requires r.elsewhere.Some? ==> |r.elsewhere.value| >= r.len
    ensures |d'.req| == REQUEST_BUFFER_LEN
  {
    var l := Latched(d, p);
    if p.Oversized() then l.(stalled := true)
    else
      var b := l.(dataBuf := ReqData(0), residue := p.wLength, len := p.wLength, zlp := false);
      if p.DataOut() then b.(next := OUT_DATA, outX := Some(Transfer(0, p.wLength)))
      else
        var h := b.(req := r.scratch, len := r.len, handed := b.handed + [Handed(p, b.dataBuf, b.len)]);
        if !r.ok then Refuse(h) else SentReply(h, p, r)
  }

  function Advanced(b: Pointer, n: nat): Pointer {
    if b.ReqData? then ReqData(b.off + n) else b
  }

  function OffsetOf(b: Pointer): nat {
    if b.ReqData? then b.off else 0
  }

  /** Effect of the IN-complete interrupt for n bytes. */
  function OnIn(d: Dev, n: uint32): Dev {
    var a := d.(dataBuf := Advanced(d.dataBuf, n), residue := Sub32(d.residue, n), inX := None);
    if a.residue != 0 then a.(inX := Some(Transfer(OffsetOf(a.dataBuf), a.residue)))
    else if a.zlp then a.(zlp := false, inX := Some(Transfer(0, 0)))
    else if d.setup.DataIn() then a.(next := OUT_STATUS, outX := Some(Transfer(0, 0)))
    else if d.next == IN_STATUS then a.(next := SETUP)
    else a
  }

  /** All data is in: the handler is called and gives reply r. */
  function Answered(a: Dev, r: Reply): (d: Dev)
    requires |r.scratch| == REQUEST_BUFFER_LEN
    ensures |d.req| == REQUEST_BUFFER_LEN
  {
    var c := a.(dataBuf := ReqData(0), handed := a.handed + [Handed(a.setup, ReqData(0), a.len)]);
    var h := c.(dataBuf := if r.elsewhere.Some? then Foreign else c.dataBuf, req := r.scratch, len := r.len);
    if !r.ok then Refuse(h) else h.(next := IN_STATUS, inX := Some(Transfer(0, 0)))
  }

  /** Effect of the OUT-complete interrupt for received data; r is the handler's reply if it is called. */
  function OnOut(d: Dev, data: seq<byte>, r: Reply): (d': Dev)
    requires d.outX.Some? && d.outX.value.at + |data| <= |d.req| == REQUEST_BUFFER_LEN && |data| < 0x1_0000_0000
    requires |r.scratch| == REQUEST_BUFFER_LEN
    ensures |d'.req| == REQUEST_BUFFER_LEN
  {
    var g := d.(req := Spliced(d.req, d.outX.value.at, data), outX := None);
    if |data| > 0 then
      var a := g.(dataBuf := Advanced(d.dataBuf, |data|), residue := Sub32(d.residue, |data|));
      if a.residue == 0 then Answered(a, r)
      else a.(outX := Some(Transfer(OffsetOf(a.dataBuf), a.residue)))
    else g.(next := SETUP)
  }

  /** Effect of a bus reset: endpoint 0 is reopened, which drops outstanding transfers. */
  function OnReset(d: Dev): Dev {
    d.(next := SETUP, inX := None, outX := None, stalled := false)
  }

  // ---------- the implementation ----------

  class UsbdCore {
    var setup: SetupPacket
    var ep0DataBuf: Pointer
    var ep0DataBufResidue: uint32
    var ep0DataBufLen: uint32
    var zlpFlag: bool
    var ep0NextState: EpState
    const reqData: array<byte>
    // changed by request handlers only, and by a bus reset
    var deviceAddress: byte
    var configuration: byte
    var speedKnown: bool  // speed is not USB_SPEED_UNKNOWN
    // the controller
    var controllerAddress: byte
    var inX: Option<Transfer>
    var outX: Option<Transfer>
    var stalled: bool
    // the calls of the request handler
    var handed: seq<Handed>

    constructor ()
      ensures Valid() && fresh(reqData)
      ensures Idle(View())
    {
      setup := SetupPacket(0, 0, 0, 0, 0);
      ep0DataBuf, ep0DataBufResidue, ep0DataBufLen, zlpFlag := ReqData(0), 0, 0, false;
      ep0NextState := SETUP;
      reqData := new byte[512](_ => 0);
      deviceAddress, configuration, speedKnown, controllerAddress := 0, 0, false, 0;
      inX, outX, stalled, handed := None, None, false, [];
    }

    ghost predicate Valid()
    {
      reqData.Length == REQUEST_BUFFER_LEN
    }

    ghost function View(): Dev
      reads this, reqData
    {
      Dev(setup, ep0DataBuf, ep0DataBufResidue, ep0DataBufLen, zlpFlag, ep0NextState, reqData[..], inX, outX, stalled,
          handed)
    }

    /** usbd_ep_start_write on EP0. */
    method StartWrite(at: nat, len: nat)
      modifies this`inX
      ensures inX == Some(Transfer(at, len))
    {
      inX := Some(Transfer(at, len));
    }

    /** usbd_ep_start_read on EP0. */
    method StartRead(at: nat, len: nat)
      modifies this`outX
      ensures outX == Some(Transfer(at, len))
    {
      outX := Some(Transfer(at, len));
    }

    /** usbd_ep_set_stall on EP0. */
    method SetStall()
      modifies this`stalled
      ensures stalled
    {
      stalled := true;
    }

    /** memcpy to the start of req_data. */
    method CopyToReqData(bytes: seq<byte>, n: nat)
      requires Valid() && n <= REQUEST_BUFFER_LEN && n <= |bytes|
      modifies reqData
      ensures reqData[..] == bytes[..n] + old(reqData[n..])
    {
      forall i | 0 <= i < n {
        reqData[i] := bytes[i];
      }
    }

    /** usbd_event_ep0_setup_complete_handler. */
    method SetupComplete(p: SetupPacket, r: Reply)
      requires Valid() && r.Valid()
      modifies this, reqData
      ensures Valid() && View() == OnSetup(old(View()), p, r)
    {
      setup := p;
      inX, outX, stalled := None, None, false;
      if p.wLength > REQUEST_BUFFER_LEN {
        if !p.DirIn() {
          SetStall();
          return;
        }
      }
      ep0DataBuf := ReqData(0);
      ep0DataBufResidue := p.wLength;
      ep0DataBufLen := p.wLength;
      zlpFlag := false;
      if p.wLength != 0 && !p.DirIn() {
        ep0NextState := OUT_DATA;
        StartRead(0, p.wLength);
        return;
      }
      var buf := ep0DataBuf;
      // usbd_setup_request_handler(setup, &buf, &ep0_data_buf_len)
      handed := handed + [Handed(setup, buf, ep0DataBufLen)];
      CopyToReqData(r.scratch, REQUEST_BUFFER_LEN);
      ep0DataBufLen := r.len;
      if !r.ok {
        ep0NextState := SETUP;
        SetStall();
        return;
      }
      SendReply(p, r);
    }

    /** The rest of the SETUP interrupt, after the request handler accepted. */
    method SendReply(p: SetupPacket, r: Reply)
      requires Valid() && r.Valid() && r.ok && setup == p
      requires ep0DataBufLen == r.len && reqData[..] == r.scratch && !zlpFlag && !stalled
      requires inX.None? && outX.None? && ep0DataBuf == ReqData(0)
      modifies this, reqData
      ensures View() == SentReply(old(View()), p, r)
    {
      ep0DataBufResidue := if ep0DataBufLen < p.wLength then ep0DataBufLen else p.wLength;
      if ep0DataBufResidue > REQUEST_BUFFER_LEN {
        ep0NextState := SETUP;
        SetStall();
        return;
      }
      if r.elsewhere.Some? {
        CopyToReqData(r.elsewhere.value, ep0DataBufResidue);
      }
      assert reqData[..] == r.Offered()[..ep0DataBufResidue] + r.scratch[ep0DataBufResidue..];
      if ep0DataBufResidue > 0 {
        ep0NextState := IN_DATA;
      } else {
        ep0NextState := IN_STATUS;
      }
      StartWrite(0, ep0DataBufResidue);
      if p.wLength > ep0DataBufLen && FillsPackets(ep0DataBufLen) {
        zlpFlag := true;
      }
    }

    /** usbd_event_ep0_in_complete_handler. */
    method InComplete(nbytes: uint32)
      requires Valid()
      modifies this
      ensures Valid() && View() == OnIn(old(View()), nbytes)
    {
      inX := None;
      ep0DataBuf := Advanced(ep0DataBuf, nbytes);
      ep0DataBufResidue := Sub32(ep0DataBufResidue, nbytes);
      if ep0DataBufResidue != 0 {
        StartWrite(OffsetOf(ep0DataBuf), ep0DataBufResidue);
      } else if zlpFlag {
        zlpFlag := false;
        StartWrite(0, 0);
      } else {
        if setup.wLength != 0 && setup.DirIn() {
          ep0NextState := OUT_STATUS;
          StartRead(0, 0);
          return;
        }
        if ep0NextState == IN_STATUS {
          ep0NextState := SETUP;
        }
      }
    }

    /** The controller stores received bytes where the transfer points. */
    method Receive(data: seq<byte>)
      requires Valid() && outX.Some? && outX.value.at + |data| <= REQUEST_BUFFER_LEN
      modifies this`outX, reqData
      ensures reqData[..] == Spliced(old(reqData[..]), old(outX).value.at, data) && outX.None?
    {
      var at := outX.value.at;
      forall i | 0 <= i < |data| {
        reqData[at + i] := data[i];
      }
      outX := None;
    }

    /** The part of usbd_event_ep0_out_complete_handler that runs when all data is in. */
    method AnswerData(r: Reply)
      requires Valid() && r.Valid()
      modifies this, reqData
      ensures Valid() && View() == Answered(old(View()), r)
    {
      ep0DataBuf := ReqData(0);
      // usbd_setup_request_handler(setup, &ep0_data_buf, &ep0_data_buf_len)
      handed := handed + [Handed(setup, ep0DataBuf, ep0DataBufLen)];
      CopyToReqData(r.scratch, REQUEST_BUFFER_LEN);
      assert reqData[..] == r.scratch;
      if r.elsewhere.Some? {
        ep0DataBuf := Foreign;
      }
      ep0DataBufLen := r.len;
      if !r.ok {
        ep0NextState := SETUP;
        SetStall();
        return;
      }
      ep0NextState := IN_STATUS;
      StartWrite(0, 0);
    }

    /** The controller stores received bytes, then usbd_event_ep0_out_complete_handler runs. */
    method OutComplete(data: seq<byte>, r: Reply)
      requires Valid() && r.Valid()
      requires outX.Some? && outX.value.at + |data| <= REQUEST_BUFFER_LEN
      modifies this, reqData
      ensures Valid() && View() == OnOut(old(View()), data, r)
    {
      Receive(data);
      var nbytes := |data|;
      if nbytes > 0 {
        ep0DataBuf := Advanced(ep0DataBuf, nbytes);
        ep0DataBufResidue := Sub32(ep0DataBufResidue, nbytes);
        if ep0DataBufResidue == 0 {
          AnswerData(r);
        } else {
          StartRead(OffsetOf(ep0DataBuf), ep0DataBufResidue);
        }
      } else {
        ep0NextState := SETUP;
      }
    }

    /** usbd_event_reset_handler. */
    method ResetEvent()
      requires Valid()
      modifies this
      ensures Valid() && View() == OnReset(old(View()))
      ensures deviceAddress == 0 && configuration == 0 && !speedKnown && controllerAddress == 0
    {
      controllerAddress := 0;  // usbd_set_address
      deviceAddress, configuration, speedKnown := 0, 0, false;
      ep0NextState := SETUP;
      inX, outX, stalled := None, None, false;
    }
  }

  // ---------- runs against an arbitrary controller and application ----------

  ghost predicate Idle(d: Dev) {
    |d.req| == REQUEST_BUFFER_LEN && d.next == SETUP && d.inX.None? && d.outX.None? && !d.stalled
  }

  datatype Event =
    | SetupEvent(packet: SetupPacket, reply: Reply)
    | InDone(n: uint32)
    | OutDone(data: seq<byte>, reply: Reply)
    | Reset

  /** A call of the request handler as the application sees it: the request, and the *len bytes at *data. */
  datatype Call = Call(packet: SetupPacket, data: seq<byte>)

  /** What the handler of the last call finds when req_data is req. */
  ghost function Found(handed: seq<Handed>, req: seq<byte>): Call
    requires handed != []
  {
    var h := handed[|handed| - 1];
    var inside := h.data.ReqData? && h.data.off + h.len <= |req|;
    Call(h.packet, if inside then req[h.data.off..h.data.off + h.len] else [])
  }

  /** What the host and the application saw since the last SETUP: the handler's reply, the bytes and
      zero-length packets sent to the host, the bytes taken from it, and the calls of the request handler
      after an OUT data stage. */
  datatype History = History(current: bool, reply: Option<Reply>,
                             inBytes: seq<byte>, zlps: nat, outBytes: seq<byte>, calls: seq<Call>)

  datatype Sys = Sys(dev: Dev, hist: History)

  const NO_HISTORY := History(false, None, [], 0, [], [])

  /** The controller completes an outstanding transfer with any part of it; only a zero-length IN
      transfer completes with nothing, an OUT one also when the host ends the data stage early. */
  ghost predicate Enabled(s: Sys, e: Event) {
    match e
    case SetupEvent(_, r) => r.Valid()
    case InDone(n) => s.dev.inX.Some? && n <= s.dev.inX.value.len && (n == 0 ==> s.dev.inX.value.len == 0)
    case OutDone(data, r) => r.Valid() && s.dev.outX.Some? && |data| <= s.dev.outX.value.len
    case Reset => true
  }

  /** The event moves bytes within the request buffer and within the residue. EveryEventInBounds shows
      that this excludes nothing. */
  ghost predicate InBounds(s: Sys, e: Event)
    requires Enabled(s, e)
  {
    && |s.dev.req| == REQUEST_BUFFER_LEN
    && (e.InDone? ==> e.n <= s.dev.residue && s.dev.inX.value.at + e.n <= REQUEST_BUFFER_LEN)
    && (e.OutDone? ==> |e.data| <= s.dev.residue && s.dev.outX.value.at + |e.data| <= REQUEST_BUFFER_LEN)
  }

  ghost function Apply(s: Sys, e: Event): Sys
    requires Enabled(s, e) && InBounds(s, e)
  {
    var d, h := s.dev, s.hist;
    match e
    case SetupEvent(p, r) =>
      var answer := if p.Oversized() || p.DataOut() then None else Some(r);
      Sys(OnSetup(d, p, r), NO_HISTORY.(current := true, reply := answer))
    case InDone(n) =>
      var x := d.inX.value;
      Sys(OnIn(d, n), h.(inBytes := h.inBytes + d.req[x.at..x.at + n], zlps := if n == 0 then h.zlps + 1 else h.zlps))
    case OutDone(data, r) =>
      var x := d.outX.value;
      var d' := OnOut(d, data, r);
      var called := |d'.handed| > |d.handed|;
      Sys(d', h.(
        outBytes := h.outBytes + data,
        calls := if called then h.calls + [Found(d'.handed, Spliced(d.req, x.at, data))] else h.calls,
        reply := if called then Some(r) else h.reply))
    case Reset => Sys(OnReset(d), NO_HISTORY)
  }

  // ---------- the invariant ----------

  /** An outstanding transfer agrees with ep0_next_state in direction and length, and the buffer
      offset and the residue of a data stage add up to its length, at most the buffer size. */
  ghost predicate InOk(d: Dev) {
    d.inX.Some? ==>
      var x := d.inX.value;
      && d.outX.None? && x.len == d.residue && !d.stalled
      && match d.next
         case IN_DATA =>
           && d.setup.DataIn()
           && (d.residue > 0 ==> d.dataBuf == ReqData(x.at))
           && (d.residue > 0 ==> x.at + d.residue == Min(d.len, d.setup.wLength) <= REQUEST_BUFFER_LEN)
           && (d.residue == 0 ==> !d.zlp && x.at == 0)
         case IN_STATUS => d.residue == 0 && x.at == 0 && (d.zlp ==> d.setup.DataIn())
         case _ => false
  }

  ghost predicate OutOk(d: Dev) {
    d.outX.Some? ==>
      var x := d.outX.value;
      && d.inX.None? && x.len == d.residue && !d.stalled && !d.zlp
      && match d.next
         case OUT_DATA =>
           && d.setup.DataOut() && d.residue > 0 && d.len == d.setup.wLength
           && d.dataBuf == ReqData(x.at) && x.at + d.residue == d.setup.wLength <= REQUEST_BUFFER_LEN
         case OUT_STATUS => d.setup.DataIn() && d.residue == 0 && x.at == 0
         case _ => false
  }

  ghost predicate DevOk(d: Dev) {
    && |d.req| == REQUEST_BUFFER_LEN
    && InOk(d) && OutOk(d)
  }

  /** How many zero-length packets an IN reply of length len owes: the one that ends a short reply filling
      its last packet, and an empty reply itself. */
  function OwedZlps(len: nat, wLength: nat): nat {
    (if len < wLength && FillsPackets(len) then 1 else 0) + (if Min(len, wLength) == 0 then 1 else 0)
  }

  /** The zero-length packets still to go: the one in flight and the one the flag announces. */
  ghost function PendingZlps(d: Dev): nat {
    (if d.inX.Some? && d.inX.value.len == 0 then 1 else 0) + (if d.inX.Some? && d.zlp then 1 else 0)
  }

  /** The data bytes still to go. */
  ghost function PendingBytes(d: Dev): seq<byte>
    requires DevOk(d)
  {
    if d.inX.Some? then d.req[d.inX.value.at..d.inX.value.at + d.inX.value.len] else []
  }

  ghost predicate Finished(d: Dev) {
    d.next == SETUP && d.inX.None? && d.outX.None?
  }

  /** What the host has and what is pending make up the payload and the zero-length packets owed. */
  ghost predicate OnTrack(d: Dev, h: History, payload: seq<byte>, owed: nat)
    requires DevOk(d)
  {
    && !d.stalled
    && h.inBytes + PendingBytes(d) == payload
    && h.zlps + PendingZlps(d) == owed
    && (d.inX.Some? || (d.outX.Some? && d.setup.DataIn()) || Finished(d))
    && (d.inX.Some? && d.inX.value.len > 0 ==> h.zlps == 0)
  }

  /** Progress of a request whose data stage, if any, goes to the host. */
  ghost predicate InProgress(s: Sys)
    requires DevOk(s.dev)
  {
    var d, h := s.dev, s.hist;
    && h.reply.Some? && h.reply.value.Valid() && h.outBytes == [] && h.calls == []
    && var r := h.reply.value;
       if !r.ok || Min(r.len, d.setup.wLength) > REQUEST_BUFFER_LEN then
         Finished(d) && d.stalled && h.inBytes == [] && h.zlps == 0
       else
         OnTrack(d, h, r.Offered()[..Min(r.len, d.setup.wLength)], OwedZlps(r.len, d.setup.wLength)) && d.len == r.len
  }

  /** Progress of a request whose data stage comes from the host. */
  ghost predicate OutProgress(s: Sys)
    requires DevOk(s.dev)
  {
    var d, h := s.dev, s.hist;
    && h.inBytes == []
    && if d.outX.Some? then
         && h.calls == [] && h.reply.None? && h.zlps == 0
         && h.outBytes == d.req[..d.outX.value.at]
         && |h.outBytes| + d.residue == d.setup.wLength
       else if |h.outBytes| == d.setup.wLength then
         && h.calls == [Call(d.setup, h.outBytes)] && h.reply.Some?
         && if h.reply.value.ok then
              !d.stalled && !d.zlp && h.zlps + (if d.inX.Some? then 1 else 0) == 1 && (d.inX.Some? || Finished(d))
            else d.stalled && Finished(d) && h.zlps == 0
       else
         && |h.outBytes| < d.setup.wLength && h.calls == [] && h.reply.None?
         && !d.stalled && Finished(d) && h.zlps == 0
  }

  ghost predicate Inv(s: Sys) {
    && DevOk(s.dev)
    && if !s.hist.current then Finished(s.dev)
       else if s.dev.setup.Oversized() then
         s.hist == NO_HISTORY.(current := true) && s.dev.stalled && s.dev.inX.None? && s.dev.outX.None?
       else if s.dev.setup.DataOut() then OutProgress(s)
       else InProgress(s)
  }

  lemma SetupInv(s: Sys, p: SetupPacket, r: Reply)
    requires Inv(s) && r.Valid()
    ensures Inv(Apply(s, SetupEvent(p, r)))
  {
    if !p.Oversized() && !p.DataOut() {
      SetupProgress(s, p, r);
    }
  }

  /** The SETUP interrupt of a request that the handler answers. */
  lemma SetupProgress(s: Sys, p: SetupPacket, r: Reply)
    requires |s.dev.req| == REQUEST_BUFFER_LEN && r.Valid() && !p.Oversized() && !p.DataOut()
    ensures var t := Apply(s, SetupEvent(p, r)); DevOk(t.dev) && InProgress(t)
  {
    var d := Apply(s, SetupEvent(p, r)).dev;
    var m := Min(r.len, p.wLength);
    if r.ok && m <= REQUEST_BUFFER_LEN {
      assert d.req[0..0 + m] == r.Offered()[..m];
    }
  }

  lemma InDoneDev(s: Sys, n: uint32)
    requires Inv(s) && Enabled(s, InDone(n))
    ensures InBounds(s, InDone(n))
    ensures DevOk(OnIn(s.dev, n))
  {
  }

  lemma InDoneInv(s: Sys, n: uint32)
    requires Inv(s) && Enabled(s, InDone(n)) && InBounds(s, InDone(n))
    ensures Inv(Apply(s, InDone(n)))
  {
    InDoneDev(s, n);
    var d := s.dev;
    if s.hist.current && !d.setup.DataOut() {
      InDoneProgress(s, n);
    }
  }

  /** A completion moves bytes from pending to delivered. */
  lemma BytesStep(d: Dev, n: uint32)
    requires DevOk(d) && d.inX.Some? && n <= d.inX.value.len && DevOk(OnIn(d, n))
    ensures d.inX.value.at + n <= REQUEST_BUFFER_LEN
    ensures PendingBytes(d) == d.req[d.inX.value.at..d.inX.value.at + n] + PendingBytes(OnIn(d, n))
  {
    var x := d.inX.value;
    assert d.req[x.at..x.at + x.len] == d.req[x.at..x.at + n] + d.req[x.at + n..x.at + x.len];
    if n == x.len {
      assert PendingBytes(OnIn(d, n)) == [];
    } else {
      assert OnIn(d, n).inX == Some(Transfer(x.at + n, x.len - n));
    }
  }

  /** A completion moves a zero-length packet from pending to delivered, or none. */
  lemma ZlpsStep(d: Dev, n: uint32)
    requires DevOk(d) && d.inX.Some? && n <= d.inX.value.len && (n == 0 ==> d.inX.value.len == 0)
    ensures PendingZlps(d) == (if n == 0 then 1 else 0) + PendingZlps(OnIn(d, n))
  {
  }

  /** After a completion something is in flight, or the request is over; data goes before packets without any. */
  lemma ShapeStep(d: Dev, h: History, h': History, n: uint32, payload: seq<byte>, owed: nat)
    requires DevOk(d) && OnTrack(d, h, payload, owed) && !d.setup.DataOut() && DevOk(OnIn(d, n))
    requires d.inX.Some? && n <= d.inX.value.len && (n == 0 ==> d.inX.value.len == 0)
    requires h'.zlps == if n == 0 then h.zlps + 1 else h.zlps
    ensures var d' := OnIn(d, n);
      && !d'.stalled
      && (d'.inX.Some? || (d'.outX.Some? && d'.setup.DataIn()) || Finished(d'))
      && (d'.inX.Some? && d'.inX.value.len > 0 ==> h'.zlps == 0)
  {
  }

  lemma InDoneTrack(d: Dev, h: History, h': History, n: uint32, payload: seq<byte>, owed: nat)
    requires DevOk(d) && OnTrack(d, h, payload, owed) && !d.setup.DataOut() && DevOk(OnIn(d, n))
    requires d.inX.Some? && n <= d.inX.value.len && (n == 0 ==> d.inX.value.len == 0)
    requires d.inX.value.at + n <= REQUEST_BUFFER_LEN
    requires h'.inBytes == h.inBytes + d.req[d.inX.value.at..d.inX.value.at + n]
    requires h'.zlps == if n == 0 then h.zlps + 1 else h.zlps
    ensures OnTrack(OnIn(d, n), h', payload, owed)
  {
    BytesStep(d, n);
    ZlpsStep(d, n);
    ShapeStep(d, h, h', n, payload, owed);
    assert h'.inBytes + PendingBytes(OnIn(d, n)) == h.inBytes + PendingBytes(d);
  }

  lemma InDoneProgress(s: Sys, n: uint32)
    requires DevOk(s.dev) && InProgress(s) && !s.dev.stalled
    requires !s.dev.setup.DataOut() && Enabled(s, InDone(n)) && InBounds(s, InDone(n))
    requires DevOk(OnIn(s.dev, n))
    ensures InProgress(Apply(s, InDone(n)))
  {
    var r, wLength := s.hist.reply.value, s.dev.setup.wLength;
    var payload := r.Offered()[..Min(r.len, wLength)];
    InDoneTrack(s.dev, s.hist, Apply(s, InDone(n)).hist, n, payload, OwedZlps(r.len, wLength));
  }

  lemma OutDoneDev(s: Sys, data: seq<byte>, r: Reply)
    requires Inv(s) && Enabled(s, OutDone(data, r))
    ensures InBounds(s, OutDone(data, r))
    ensures DevOk(OnOut(s.dev, data, r))
  {
  }

  lemma OutDoneInv(s: Sys, data: seq<byte>, r: Reply)
    requires Inv(s) && Enabled(s, OutDone(data, r)) && InBounds(s, OutDone(data, r))
    ensures Inv(Apply(s, OutDone(data, r)))
  {
    OutDoneDev(s, data, r);
    var d := s.dev;
    if s.hist.current && d.setup.DataOut() {
      var x := d.outX.value;
      assert Spliced(d.req, x.at, data)[..x.at + |data|] == s.hist.outBytes + data;
    }
  }

  /** Every event preserves the invariant. */
  lemma StepInv(s: Sys, e: Event)
    requires Inv(s) && Enabled(s, e)
    ensures InBounds(s, e) && Inv(Apply(s, e))
  {
    match e
    case SetupEvent(p, r) => SetupInv(s, p, r);
    case InDone(n) => InDoneDev(s, n); InDoneInv(s, n);
    case OutDone(data, r) => OutDoneDev(s, data, r); OutDoneInv(s, data, r);
    case Reset =>
  }

  /** A run of the device against any host, controller and application. */
  ghost predicate IsRun(s: Sys, events: seq<Event>)
    decreases |events|
  {
    events == [] || (Enabled(s, events[0]) && InBounds(s, events[0]) && IsRun(Apply(s, events[0]), events[1..]))
  }

  ghost function Final(s: Sys, events: seq<Event>): Sys
    requires IsRun(s, events)
    decreases |events|
  {
    if events == [] then s else Final(Apply(s, events[0]), events[1..])
  }

  ghost predicate PowerUp(s: Sys) {
    Idle(s.dev) && s.hist == NO_HISTORY
  }

  lemma {:induction false} RunInv(s: Sys, events: seq<Event>)
    requires Inv(s) && IsRun(s, events)
    ensures Inv(Final(s, events))
    decreases |events|
  {
    if events != [] {
      StepInv(s, events[0]);
      RunInv(Apply(s, events[0]), events[1..]);
    }
  }

  // ---------- what holds of every run ----------

  /** In every reachable state: an outstanding transfer agrees with ep0_next_state, the buffer offset and the
      residue add up to the length of the data stage, and at most one transfer is outstanding. */
  lemma {:induction false} EngineConsistent(s: Sys, events: seq<Event>)
    requires PowerUp(s) && IsRun(s, events)
    ensures DevOk(Final(s, events).dev)
  {
    RunInv(s, events);
  }

  /** No completion the controller can deliver underflows the residue or leaves the request buffer. */
  lemma {:induction false} EveryEventInBounds(s: Sys, events: seq<Event>, e: Event)
    requires PowerUp(s) && IsRun(s, events) && Enabled(Final(s, events), e)
    ensures InBounds(Final(s, events), e)
  {
    RunInv(s, events);
    StepInv(Final(s, events), e);
  }

  /** The device accepted a request with data for the host and offers r.len > 0 bytes that fit the buffer. */
  ghost predicate InRequest(f: Sys, r: Reply) {
    && f.hist.current && f.dev.setup.wLength > 0 && f.dev.setup.bmRequestType >= 0x80
    && f.hist.reply == Some(r) && r.ok && Min(r.len, f.dev.setup.wLength) <= REQUEST_BUFFER_LEN
  }

  /** Control IN: however the controller splits completions, the host gets a prefix of the first
      min(len, wLength) bytes offered; it has all of them before any zero-length packet, and once the status
      stage is reached it has exactly those bytes and one zero-length packet iff the reply is short and a
      multiple of 64. The status stage is a zero-length OUT transfer. */
  lemma {:induction false} ControlIn(s: Sys, events: seq<Event>, r: Reply)
    requires PowerUp(s) && IsRun(s, events) && InRequest(Final(s, events), r) && r.len > 0
    ensures var f, want := Final(s, events), Min(r.len, Final(s, events).dev.setup.wLength);
      && want <= |r.Offered()|
      && f.hist.inBytes <= r.Offered()[..want]
      && (f.hist.zlps > 0 ==> f.hist.inBytes == r.Offered()[..want] && f.hist.zlps == 1)
      && (f.dev.inX.None? ==>
            && f.hist.inBytes == r.Offered()[..want]
            && f.hist.zlps == (if r.len < f.dev.setup.wLength && r.len % 64 == 0 then 1 else 0)
            && ((f.dev.outX == Some(Transfer(0, 0)) && f.dev.next == OUT_STATUS) || Finished(f.dev)))
  {
    RunInv(s, events);
  }

  /** An empty reply to a request for data sends two zero-length packets before the status stage. */
  lemma {:induction false} EmptyReplySendsTwo(s: Sys, events: seq<Event>, r: Reply)
    requires PowerUp(s) && IsRun(s, events) && InRequest(Final(s, events), r) && r.len == 0
    requires Final(s, events).dev.inX.None?
    ensures Final(s, events).hist.zlps == 2 && Final(s, events).hist.inBytes == []
  {
    RunInv(s, events);
  }

  /** A run of three events. */
  lemma ThreeEvents(s: Sys, e1: Event, e2: Event, e3: Event)
    requires Enabled(s, e1) && InBounds(s, e1)
    requires Enabled(Apply(s, e1), e2) && InBounds(Apply(s, e1), e2)
    requires Enabled(Apply(Apply(s, e1), e2), e3) && InBounds(Apply(Apply(s, e1), e2), e3)
    ensures IsRun(s, [e1, e2, e3]) && Final(s, [e1, e2, e3]) == Apply(Apply(Apply(s, e1), e2), e3)
  {
    var s1 := Apply(s, e1);
    var s2 := Apply(s1, e2);
    var s3 := Apply(s2, e3);
    assert [e3][1..] == [] && IsRun(s3, []);
    assert IsRun(s2, [e3]) && Final(s2, [e3]) == s3;
    assert [e2, e3][1..] == [e3];
    assert IsRun(s1, [e2, e3]) && Final(s1, [e2, e3]) == s3;
    assert [e1, e2, e3][1..] == [e2, e3];
  }

  /** A zero-length packet of a request for data is in flight, after `sent` others, before another one if `more`. */
  ghost predicate SendingZlp(t: Sys, r: Reply, sent: nat, more: bool) {
    && |t.dev.req| == REQUEST_BUFFER_LEN && t.dev.setup.DataIn() && t.hist.current && t.hist.reply == Some(r)
    && t.dev.inX == Some(Transfer(0, 0)) && t.dev.residue == 0 && t.dev.zlp == more && t.hist.zlps == sent
  }

  lemma EmptyReplyStarts(s: Sys, p: SetupPacket, r: Reply)
    requires PowerUp(s) && r.Valid() && r.ok && r.len == 0 && p.DataIn()
    ensures SendingZlp(Apply(s, SetupEvent(p, r)), r, 0, true)
  {
  }

  lemma ZlpSent(t: Sys, r: Reply, sent: nat, more: bool)
    requires SendingZlp(t, r, sent, more)
    ensures Enabled(t, InDone(0)) && InBounds(t, InDone(0))
    ensures var f := Apply(t, InDone(0));
      if more then SendingZlp(f, r, sent + 1, false)
      else
        && f.dev.next == OUT_STATUS && f.hist.zlps == sent + 1
        && f.hist.current && f.hist.reply == Some(r) && f.dev.setup.DataIn()
  {
  }

  /** An empty reply to a request for 18 bytes, served completion by completion: two zero-length packets. */
  lemma EmptyReplyExample(s: Sys)
    requires PowerUp(s)
    ensures exists events, r ::
      && IsRun(s, events) && InRequest(Final(s, events), r) && r.len == 0
      && Final(s, events).dev.next == OUT_STATUS && Final(s, events).hist.zlps == 2
  {
    var r := Reply(true, seq(512, _ => 0), None, 0);
    var e := SetupEvent(SetupPacket(0x80, 6, 0x100, 0, 18), r);
    EmptyReplyStarts(s, e.packet, r);
    var s1 := Apply(s, e);
    ZlpSent(s1, r, 0, true);
    ZlpSent(Apply(s1, InDone(0)), r, 1, false);
    ThreeEvents(s, e, InDone(0), InDone(0));
    assert InRequest(Final(s, [e, InDone(0), InDone(0)]), r);
  }

  /** An accepted request without a data stage sends no data; its status is one zero-length IN packet, after which
      the engine is back in SETUP. */
  lemma {:induction false} NoDataRequest(s: Sys, events: seq<Event>, r: Reply)
    requires PowerUp(s) && IsRun(s, events)
    requires var f := Final(s, events);
      f.hist.current && f.dev.setup.wLength == 0 && f.hist.reply == Some(r) && r.ok
    ensures var f, h := Final(s, events), Final(s, events).hist;
      && h.inBytes == [] && h.outBytes == [] && h.calls == [] && !f.dev.stalled && f.dev.outX.None?
      && if f.dev.inX.Some? then f.dev.inX.value.len == 0 && h.zlps == 0 && f.dev.next == IN_STATUS
         else h.zlps == 1 && Finished(f.dev)
  {
    RunInv(s, events);
  }

  /** A refused request, or one whose reply does not fit, sends nothing and stalls. */
  lemma {:induction false} RefusedIn(s: Sys, events: seq<Event>, r: Reply)
    requires PowerUp(s) && IsRun(s, events)
    requires var f := Final(s, events);
      && f.hist.current && (f.dev.setup.wLength == 0 || f.dev.setup.bmRequestType >= 0x80) && f.hist.reply == Some(r)
      && (!r.ok || Min(r.len, f.dev.setup.wLength) > REQUEST_BUFFER_LEN)
    ensures var f := Final(s, events);
      f.dev.stalled && Finished(f.dev) && f.hist.inBytes == [] && f.hist.zlps == 0
  {
    RunInv(s, events);
  }

  /** The direction of a request is bit 7 of bmRequestType alone, whatever its type and recipient. */
  lemma DirectionBit(p: SetupPacket)
    ensures p.DirIn() <==> And(p.bmRequestType, 0x80) != 0
    ensures p.DirIn() <==> p.bmRequestType >= 0x80
  {
    TopBit(p.bmRequestType);
  }

  /** Over every run, a SETUP calls the handler unless data for the device comes first, with the packet, the start of
      req_data and wLength. */
  lemma {:induction false} SetupHands(s: Sys, events: seq<Event>, p: SetupPacket, r: Reply)
    requires PowerUp(s) && IsRun(s, events) && r.Valid()
    ensures |Final(s, events).dev.req| == REQUEST_BUFFER_LEN
    ensures var d, d' := Final(s, events).dev, OnSetup(Final(s, events).dev, p, r);
      d'.handed == d.handed +
        if p.wLength > 0 && p.bmRequestType < 0x80 then [] else [Handed(p, ReqData(0), p.wLength)]
  {
    RunInv(s, events);
  }

  /** Control OUT: the request handler is called at most once, and only with exactly the wLength bytes
      received, in order; a call that succeeds is answered by one zero-length IN status, one that fails by a
      stall; a data stage the host ends early finishes without a call. */
  lemma {:induction false} ControlOut(s: Sys, events: seq<Event>)
    requires PowerUp(s) && IsRun(s, events)
    requires var f := Final(s, events);
      f.hist.current && f.dev.setup.bmRequestType < 0x80 && 0 < f.dev.setup.wLength <= 512
    ensures var f, h := Final(s, events), Final(s, events).hist;
      && |h.outBytes| <= f.dev.setup.wLength && h.inBytes == []
      && h.calls == (if |h.outBytes| == f.dev.setup.wLength then [Call(f.dev.setup, h.outBytes)] else [])
      && (f.dev.outX.None? ==>
            if h.calls == [] then Finished(f.dev) && !f.dev.stalled && h.zlps == 0
            else if h.reply.Some? && h.reply.value.ok then
              !f.dev.stalled && h.zlps == (if f.dev.inX.Some? then 0 else 1) && (f.dev.inX.Some? || Finished(f.dev))
            else f.dev.stalled && Finished(f.dev) && h.zlps == 0)
  {
    RunInv(s, events);
  }

  /** How many more completions the current transfer can take. */
  ghost function Measure(d: Dev): nat {
    if d.inX.Some? then d.residue + (if d.zlp then 1 else 0) + 2
    else if d.outX.Some? then d.residue + (if d.next == OUT_STATUS then 1 else 2)
    else 0
  }

  /** Every completion brings a transfer closer to its end, so a transfer the host keeps serving
      returns to SETUP after at most 515 completions. */
  lemma {:induction false} CompletionsTerminate(s: Sys, events: seq<Event>, e: Event)
    requires PowerUp(s) && IsRun(s, events)
    requires Enabled(Final(s, events), e) && (e.InDone? || e.OutDone?)
    ensures InBounds(Final(s, events), e)
    ensures var f := Final(s, events); Measure(Apply(f, e).dev) < Measure(f.dev) <= REQUEST_BUFFER_LEN + 3
    ensures Measure(Apply(Final(s, events), e).dev) == 0 ==> Finished(Apply(Final(s, events), e).dev)
  {
    RunInv(s, events);
    StepInv(Final(s, events), e);
  }

  /** Nothing is outstanding, yet the engine is not in SETUP. */
  ghost predicate IdleOutsideSetup(d: Dev) {
    d.inX.None? && d.outX.None? && d.next != SETUP
  }

  /** In every reachable state, a SETUP leaves the engine idle outside SETUP iff it is an oversized OUT request
      that comes while the engine is outside SETUP. */
  lemma {:induction false} SetupLeavesIdle(s: Sys, events: seq<Event>, p: SetupPacket, r: Reply)
    requires PowerUp(s) && IsRun(s, events) && r.Valid()
    ensures |Final(s, events).dev.req| == REQUEST_BUFFER_LEN
    ensures var d := Final(s, events).dev;
      IdleOutsideSetup(OnSetup(d, p, r)) <==> p.wLength > 512 && p.bmRequestType < 0x80 && d.next != SETUP
  {
    RunInv(s, events);
  }

  /** In every reachable state, a completion or a bus reset never leaves the engine idle outside SETUP. */
  lemma {:induction false} CompletionsKeepSetup(s: Sys, events: seq<Event>, e: Event)
    requires PowerUp(s) && IsRun(s, events) && Enabled(Final(s, events), e) && !e.SetupEvent?
    ensures InBounds(Final(s, events), e) && !IdleOutsideSetup(Apply(Final(s, events), e).dev)
  {
    RunInv(s, events);
    StepInv(Final(s, events), e);
  }

  /** Over every run, a bus reset ends what is going on: nothing is outstanding, the engine is in SETUP, and the
      handler is not called. */
  lemma {:induction false} BusReset(s: Sys, events: seq<Event>)
    requires PowerUp(s) && IsRun(s, events)
    ensures var d, d' := Final(s, events).dev, OnReset(Final(s, events).dev);
      Finished(d') && !d'.stalled && d'.handed == d.handed && DevOk(d')
  {
    RunInv(s, events);
  }

  /** What made the engine idle outside SETUP: the last event of the run was an oversized request, and the state
      before it was outside SETUP. */
  ghost predicate LeftStale(s: Sys, events: seq<Event>)
    requires IsRun(s, events)
    decreases |events|
  {
    events != [] &&
    if |events| == 1 then
      && events[0].SetupEvent? && events[0].packet.wLength > 512 && events[0].packet.bmRequestType < 0x80
      && s.dev.next != SETUP
    else LeftStale(Apply(s, events[0]), events[1..])
  }

  /** From any state of the invariant that is not itself idle outside SETUP. */
  lemma {:induction false} StaleFrom(s: Sys, events: seq<Event>)
    requires Inv(s) && IsRun(s, events) && events != []
    ensures IdleOutsideSetup(Final(s, events).dev) <==> LeftStale(s, events)
    decreases |events|
  {
    var t := Apply(s, events[0]);
    StepInv(s, events[0]);
    if |events| == 1 {
      assert Final(s, events) == t;
    } else {
      StaleFrom(t, events[1..]);
    }
  }

  /** A run from power-up ends idle outside SETUP iff its last event is an oversized OUT request taken outside SETUP. */
  lemma QuietMeansSetup(s: Sys, events: seq<Event>)
    requires PowerUp(s) && IsRun(s, events)
    ensures IdleOutsideSetup(Final(s, events).dev) <==> LeftStale(s, events)
  {
    if events != [] {
      StaleFrom(s, events);
    }
  }

  /** An oversized OUT request leaves every field of the engine but the latched packet as it was, so an
      interrupted data stage leaves a stale ep0_next_state behind. */
  lemma OversizedKeepsState(d: Dev, p: SetupPacket, r: Reply)
    requires |d.req| == REQUEST_BUFFER_LEN && r.Valid() && p.wLength > 512 && p.bmRequestType < 0x80
    ensures OnSetup(d, p, r) == Dev(p, d.dataBuf, d.residue, d.len, d.zlp, d.next, d.req, None, None, true, d.handed)
  {
  }

  lemma StaleStateExample(s: Sys)
    requires PowerUp(s)
    ensures exists events ::
      && IsRun(s, events)
      && Final(s, events).dev.next == IN_DATA && Final(s, events).dev.inX.None? && Final(s, events).dev.outX.None?
  {
    var scratch: seq<byte> := seq(512, _ => 0);
    var r := Reply(true, scratch, None, 18);
    var e1 := SetupEvent(SetupPacket(0x80, 6, 0x100, 0, 18), r);
    var e2 := SetupEvent(SetupPacket(0x00, 0, 0, 0, 600), r);
    var s1 := Apply(s, e1);
    var s2 := Apply(s1, e2);
    assert [e1, e2][1..] == [e2] && [e2][1..] == [];
    assert IsRun(s2, []);
    assert IsRun(s1, [e2]);
    assert IsRun(s, [e1, e2]);
    assert Final(s1, [e2]) == s2;
    assert Final(s, [e1, e2]) == s2;
  }
}
