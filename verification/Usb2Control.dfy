/**
 Endpoint 0 of the USB2 device engine (usb/usb20.c): setup, data and status stages of
 control transfers, SET_ADDRESS and bus reset, with EP0 passthrough off.

 Memory is one flat byte array; the EP0 buffer (rx[0].buffer) and the payloads are
 addresses in it, so that a payload may be the EP0 buffer itself. What the user's
 control-request callback returns is a parameter.
 */
module Usb2Control {
  import opened Arithmetic
  import opened Common
  import opened FlatMemory
  import opened Usb2Registers

  datatype DeviceState = POWERED | DEFAULT | ADDRESS | CONFIGURED

  datatype Request = GetDescriptor | SetAddress | SetConfiguration | SetFeature | OtherRequest

  datatype DescriptorType = DeviceDescr | ConfigDescr | StringDescr | OtherDescr

  /** A SETUP packet. `standard` is the outcome of the request-type test of the request handler. */
  datatype Setup = Setup(
    dirIn: bool, standard: bool, request: Request, descr: DescriptorType,
    valueLow: nat, valueIsZero: bool, wLength: nat)

  /** What stays fixed while requests are served. */
  datatype Config = Config(
    ep0: nat, maxPacket: nat, device: Option<Blob>, config: Option<Blob>, strings: map<nat, Blob>)

  datatype Ep0 = Ep0(
    mem: seq<bv8>,
    head: nat, remaining: nat, transferSize: nat,
    req: Setup, addr: nat, state: DeviceState,
    tLen: nat, tx: Ctrl, rx: Ctrl, dma: nat, devAd: nat)

  const UNSUPPORTED := 0xffff

  /** usb2_setup_endpoints, as far as endpoint 0 goes. */
  function ResetEndpoints(c: Config, s: Ep0): Ep0
  {
    s.(dma := c.ep0, tLen := 0, tx := Ctrl(NAK, false), rx := Ctrl(NAK, false))
  }

  function CutTo(b: Option<Blob>, n: nat): Option<Blob>
  {
    if b.Some? then Some(b.value.(len := Min(b.value.len, n))) else None
  }

  /** The descriptor a GET_DESCRIPTOR asks for and how many bytes of it are sent; the length of a
      string descriptor is not cut to wLength. */
  function Wanted(c: Config, req: Setup): Option<Blob>
  {
    match req.descr
    case DeviceDescr => CutTo(c.device, req.wLength)
    case ConfigDescr => CutTo(c.config, req.wLength)
    case StringDescr => if req.valueLow in c.strings then Some(c.strings[req.valueLow]) else None
    case OtherDescr => None
  }

  ghost predicate InMemory(c: Config, mem: seq<bv8>, b: Blob)
  {
    b.ptr + b.len <= |mem| && c.ep0 + c.maxPacket <= |mem|
  }

  /** Starts sending `b`: its first packet goes to the EP0 buffer. */
  function Load(c: Config, s: Ep0, b: Blob): Ep0
    requires InMemory(c, s.mem, b)
  {
    s.(head := b.ptr, remaining := b.len, mem := Copy(s.mem, c.ep0, b.ptr, Min(b.len, c.maxPacket)))
  }

  /** Everything a request sends lies in memory. */
  ghost predicate Sendable(c: Config, mem: seq<bv8>, req: Setup, reply: Blob)
  {
    if req.standard then req.request.GetDescriptor? && Wanted(c, req).Some? ==> InMemory(c, mem, Wanted(c, req).value)
    else req.dirIn && 0 < reply.len && reply.ptr != 0 ==> InMemory(c, mem, reply)
  }

  /** usb2_ep0_request_handler: the new state and the length of the first packet. */
  function RequestHandler(c: Config, s: Ep0, reply: Blob): (Ep0, nat)
    requires Sendable(c, s.mem, s.req, reply)
  {
    var req := s.req;
    if req.standard then
      var (s', len) :=
        match req.request
        case GetDescriptor =>
          if req.descr.OtherDescr? then (s, UNSUPPORTED)
          else if Wanted(c, req).None? then (s, 0)
          else (Load(c, s, Wanted(c, req).value), Min(Wanted(c, req).value.len, c.maxPacket))
        case SetAddress => (s.(addr := req.valueLow, remaining := req.wLength), 0)
        case SetConfiguration => (ResetEndpoints(c, s).(state := if req.valueLow != 0 then CONFIGURED else s.state), 0)
        case SetFeature => (if req.valueIsZero then ResetEndpoints(c, s) else s, 0)
        case OtherRequest => (s, 0);
      (s'.(transferSize := s'.remaining), len)
    else if req.dirIn then
      if reply.len == 0 then (s.(transferSize := s.remaining), 0)
      else if reply.ptr == 0 then (s, UNSUPPORTED)
      else
        var s' := Load(c, s, reply);
        (s'.(transferSize := s'.remaining), Min(reply.len, c.maxPacket))
    else if req.wLength == 0 then (s, 0)
    else (s.(remaining := req.wLength, transferSize := req.wLength), req.wLength)
  }

  /** Whether a SETUP calls the user's control-request callback. */
  predicate SetupCallsUser(req: Setup)
  {
    !req.standard && (req.dirIn || req.wLength == 0)
  }

  /** usb2_ep0_setup_stage_handler */
  function SetupStage(c: Config, s: Ep0, reply: Blob): Ep0
    requires Sendable(c, s.mem, s.req, reply)
  {
    var (s', len) := RequestHandler(c, s, reply);
    if s.req.dirIn then
      if len != UNSUPPORTED then s'.(tLen := len, tx := Ctrl(ACK, true))
      else s'.(tLen := 0, tx := Ctrl(STALL, false), rx := Ctrl(ACK, true))
    else if s.req.wLength == 0 then s'.(tLen := 0, tx := Ctrl(ACK, true))
    else s'.(rx := Ctrl(ACK, true))
  }

  /** The bytes still to be sent lie in memory. */
  ghost predicate Sending(c: Config, s: Ep0)
  {
    0 < c.maxPacket && s.head + s.remaining <= |s.mem| && c.ep0 + c.maxPacket <= |s.mem|
  }

  /** usb2_ep0_in_handler: the host took the packet that was armed. */
  function InHandler(c: Config, s: Ep0): Ep0
    requires s.req.dirIn ==> Sending(c, s)
  {
    if s.req.dirIn then
      var len := Min(s.remaining, c.maxPacket);
      var s' := s.(remaining := s.remaining - len, head := s.head + len);
      if s'.remaining == 0 then EndOfData(c, s', len) else NextData(c, s')
    else StatusDone(s)
  }

  /** Nothing is left: an empty packet after a full last one, else the status stage. */
  function EndOfData(c: Config, s: Ep0, len: nat): Ep0
    requires 0 < c.maxPacket
  {
    if Whole(s.transferSize, c.maxPacket) && len != 0 then s.(tLen := 0, tx := Ctrl(ACK, !s.tx.tog))
    else s.(head := 0, tx := s.tx.(resp := NAK), rx := Ctrl(ACK, true))
  }

  /** The next packet goes to the EP0 buffer. */
  function NextData(c: Config, s: Ep0): Ep0
    requires Sending(c, s)
  {
    var len := Min(s.remaining, c.maxPacket);
    s.(mem := Copy(s.mem, c.ep0, s.head, len), tLen := len, tx := Ctrl(ACK, !s.tx.tog))
  }

  /** The status stage of an OUT request is over; only now a new address takes effect. */
  function StatusDone(s: Ep0): Ep0
  {
    var s' := s.(tLen := 0, tx := s.tx.(resp := NAK), rx := Ctrl(ACK, true));
    if s.req.request.SetAddress? && s.addr <= 0x7f then s'.(devAd := s.addr, state := ADDRESS) else s'
  }

  /** usb2_ep0_out_handler: `n` bytes arrived at the DMA address. */
  function OutHandler(c: Config, s: Ep0, n: nat): Ep0
  {
    if s.req.dirIn then
      if Min(s.remaining, c.maxPacket) > 0 then s.(rx := s.rx.(resp := NAK))
      else s.(rx := Ctrl(ACK, false), tLen := 0, tx := s.tx.(resp := NAK))
    else
      var left := (s.remaining - n) % 0x1_0000;
      if left == 0 then s.(remaining := 0, dma := c.ep0, tLen := 0, tx := Ctrl(ACK, true))
      else s.(remaining := left, dma := s.dma + n, rx := Ctrl(ACK, !s.rx.tog))
  }

  /** Whether that event calls the user's control-request callback. */
  predicate OutCallsUser(s: Ep0, n: nat)
  {
    !s.req.dirIn && (s.remaining - n) % 0x1_0000 == 0
  }

  /** The bus-reset branch of USBHS_IRQHandler. */
  function BusReset(c: Config, s: Ep0): Ep0
  {
    ResetEndpoints(c, s).(devAd := 0, addr := 0, state := DEFAULT)
  }

  // ------------------------------------------------------------ the driver

  class Usb2ControlDriver {
    const c: Config
    const mem: array<bv8>
    var head: nat
    var remaining: nat
    var transferSize: nat
    var req: Setup
    var addr: nat
    var state: DeviceState
    var tLen: nat
    var tx: Ctrl
    var rx: Ctrl
    var dma: nat
    var devAd: nat

    ghost function State(): Ep0
      reads this, mem
    {
      Ep0(mem[..], head, remaining, transferSize, req, addr, state, tLen, tx, rx, dma, devAd)
    }

    method Memcpy(dst: nat, src: nat, n: nat)
      requires dst + n <= mem.Length && src + n <= mem.Length
      modifies mem
      ensures mem[..] == Copy(old(mem[..]), dst, src, n)
    {
      forall i | 0 <= i < n {
        mem[dst + i] := mem[src + i];
      }
      forall i | 0 <= i < mem.Length ensures mem[i] == Copy(old(mem[..]), dst, src, n)[i] {
        CopyAt(old(mem[..]), dst, src, n, i);
      }
    }

    /** usb2_ep0_next_data_packet_size */
    function NextPacketSize(): nat
      reads this
    {
      Min(remaining, c.maxPacket)
    }

    method LoadFirst(b: Blob) returns (len: nat)
      requires InMemory(c, mem[..], b)
      modifies this`head, this`remaining, mem
      ensures State() == Load(c, old(State()), b) && len == Min(b.len, c.maxPacket)
    {
      head := b.ptr;
      remaining := b.len;
      len := NextPacketSize();
      Memcpy(c.ep0, head, len);
    }

    method SetupEndpoints()
      modifies this`dma, this`tLen, this`tx, this`rx
      ensures State() == ResetEndpoints(c, old(State()))
    {
      dma := c.ep0;
      tLen := 0;
      tx := Ctrl(NAK, false);
      rx := Ctrl(NAK, false);
    }

    method HandleRequest(reply: Blob) returns (len: nat, userCalled: bool)
      requires Sendable(c, mem[..], req, reply)
      modifies this, mem
      ensures (State(), len) == RequestHandler(c, old(State()), reply)
      ensures userCalled == SetupCallsUser(old(req))
    {
      len, userCalled := 0, false;
      if req.standard {
        match req.request {
          case GetDescriptor =>
            if req.descr.OtherDescr? {
              len := UNSUPPORTED;
            } else {
              var wanted := Wanted(c, req);
              if wanted.Some? {
                len := LoadFirst(wanted.value);
              }
            }
          case SetAddress =>
            addr := req.valueLow;
            remaining := req.wLength;
          case SetConfiguration =>
            SetupEndpoints();
            if req.valueLow != 0 {
              state := CONFIGURED;
            }
          case SetFeature =>
            if req.valueIsZero {
              SetupEndpoints();
            }
          case OtherRequest =>
        }
      } else if req.dirIn {
        len, userCalled := reply.len, true;
        if len > 0 {
          if reply.ptr == 0 {
            return UNSUPPORTED, true;
          }
          len := LoadFirst(reply);
        }
      } else {
        if req.wLength == 0 {
          return 0, true;
        }
        remaining := req.wLength;
        len := req.wLength;
      }
      transferSize := remaining;
    }

    method HandleSetupStage(reply: Blob) returns (userCalled: bool)
      requires Sendable(c, mem[..], req, reply)
      modifies this, mem
      ensures State() == SetupStage(c, old(State()), reply)
      ensures userCalled == SetupCallsUser(old(req))
    {
      var len;
      len, userCalled := HandleRequest(reply);
      if req.dirIn {
        if len != UNSUPPORTED {
          tLen := len;
          tx := Ctrl(ACK, true);
        } else {
          tLen := 0;
          tx := Ctrl(STALL, false);
          rx := Ctrl(ACK, true);
        }
      } else {
        if req.wLength == 0 {
          tLen := 0;
          tx := Ctrl(ACK, true);
        } else {
          rx := Ctrl(ACK, true);
        }
      }
    }

    method HandleIn()
      requires req.dirIn ==> Sending(c, State())
      modifies this, mem
      ensures State() == InHandler(c, old(State()))
    {
      if req.dirIn {
        var len := NextPacketSize();
        remaining := remaining - len;
        head := head + len;
        if remaining == 0 {
          FinishData(len);
        } else {
          SendNextData();
        }
      } else {
        FinishStatus();
      }
    }

    method FinishData(len: nat)
      requires 0 < c.maxPacket
      modifies this
      ensures State() == EndOfData(c, old(State()), len)
    {
      WholeIsMod(transferSize, c.maxPacket);
      if transferSize % c.maxPacket == 0 && len != 0 {
        tLen := 0;
        tx := Ctrl(ACK, !tx.tog);
      } else {
        head := 0;
        tx := tx.(resp := NAK);
        rx := Ctrl(ACK, true);
      }
    }

    method SendNextData()
      requires Sending(c, State())
      modifies this`tLen, this`tx, mem
      ensures State() == NextData(c, old(State()))
    {
      var len := NextPacketSize();
      Memcpy(c.ep0, head, len);
      tLen := len;
      tx := Ctrl(ACK, !tx.tog);
    }

    method FinishStatus()
      modifies this
      ensures State() == StatusDone(old(State()))
    {
      if req.request.SetAddress? && addr <= 0x7f {
        devAd := addr;
        state := ADDRESS;
      }
      tLen := 0;
      tx := tx.(resp := NAK);
      rx := Ctrl(ACK, true);
    }

    method HandleOut(n: nat) returns (userCalled: bool)
      modifies this
      ensures State() == OutHandler(c, old(State()), n)
      ensures userCalled == OutCallsUser(old(State()), n)
    {
      userCalled := false;
      if req.dirIn {
        if NextPacketSize() > 0 {
          rx := rx.(resp := NAK);
        } else {
          rx := Ctrl(ACK, false);
          tLen := 0;
          tx := tx.(resp := NAK);
        }
      } else {
        remaining := (remaining - n) % 0x1_0000;
        if remaining == 0 {
          dma := c.ep0;
          tLen := 0;
          tx := Ctrl(ACK, true);
          userCalled := true;
        } else {
          dma := dma + n;
          rx := Ctrl(ACK, !rx.tog);
        }
      }
    }

    method HandleBusReset()
      modifies this
      ensures State() == BusReset(c, old(State()))
    {
      devAd := 0;
      addr := 0;
      SetupEndpoints();
      state := DEFAULT;
    }

    constructor (c: Config, mem: array<bv8>, req: Setup)
      ensures this.c == c && this.mem == mem && State() == BusReset(c, State())
    {
      this.c := c;
      this.mem := mem;
      this.req := req;
      head, remaining, transferSize, addr, devAd, tLen, dma := 0, 0, 0, 0, 0, 0, c.ep0;
      state := DEFAULT;
      tx, rx := Ctrl(NAK, false), Ctrl(NAK, false);
    }
  }
}
