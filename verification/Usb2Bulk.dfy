/**
 Bulk endpoints of the USB2 device engine (usb/usb20.c): the IN and OUT transfer
 handlers, usb2_endp_tx_ready, the RX state callback, and endp_tx_set_new_buffer
 (usb/usb_device.h). EP0 passthrough is off, so endpoint 0 never gets here.

 A user callback is represented by what it does: the answer of rx_callback, and for
 tx_complete the buffer it hands in and the state it gives the OUT side of its endpoint,
 if any.
 */
module Usb2Bulk {
  import opened Common
  import opened Usb2Registers

  /** Registers of one direction of a hardware endpoint. */
  datatype TxHw = TxHw(ctrl: Ctrl, len: nat, addr: nat)
  datatype RxHw = RxHw(ctrl: Ctrl, addr: nat)

  /** What the driver remembers of a logical endpoint; `remaining` is endp_tx_remaining_bytes. */
  datatype TxEp = TxEp(buffer: nat, maxPacket: nat, maxPacketWithBurst: nat, remaining: nat)
  datatype RxEp = RxEp(buffer: nat, state: Resp)

  /** One direction of one endpoint, together with the registers that serve it. */
  datatype TxView = TxView(hw: TxHw, ep: TxEp)
  datatype RxView = RxView(hw: RxHw, ep: RxEp)

  // ------------------------------------------------------------ one endpoint

  /** usb2_endp_tx_ready */
  function TxReady(v: TxView, size: nat): TxView
  {
    TxView(TxHw(Ctrl(ACK, v.hw.ctrl.tog), Min(size, v.ep.maxPacket), v.ep.buffer), v.ep.(remaining := size))
  }

  /** usb2_endp_tx_ready of endpoint `e`; endpoint 0 keeps its address register. */
  function ReadyAt(e: nat, v: TxView, size: nat): TxView
  {
    var r := TxReady(v, size);
    if e == 0 then r.(hw := r.hw.(addr := v.hw.addr)) else r
  }

  /** endp_tx_set_new_buffer */
  function SetNewBuffer(v: TxView, r: Rearm): TxView
  {
    if r.size > v.ep.maxPacketWithBurst || r.ptr == 0 then v
    else TxReady(v.(ep := v.ep.(buffer := r.ptr)), r.size)
  }

  function HandIn(v: TxView, rearm: Option<Rearm>): TxView
  {
    if rearm.None? then v else SetNewBuffer(v, rearm.value)
  }

  /** usb2_in_transfer_handler: the host acknowledged the packet that was armed. */
  function InHandler(v: TxView, rearm: Option<Rearm>): TxView
  {
    var len := Min(v.ep.remaining, v.ep.maxPacket);
    if v.hw.addr == 0 then
      v.(hw := v.hw.(ctrl := v.hw.ctrl.(resp := NAK)))
    else if v.ep.remaining == len then
      var done := TxView(TxHw(Ctrl(NAK, !v.hw.ctrl.tog), 0, v.hw.addr), v.ep.(remaining := 0));
      var after := HandIn(done, rearm);
      after.(hw := after.hw.(addr := after.ep.buffer))
    else
      TxView(TxHw(Ctrl(ACK, !v.hw.ctrl.tog), v.hw.len, v.hw.addr + len), v.ep.(remaining := v.ep.remaining - len))
  }

  /** Whether that event calls tx_complete. */
  predicate Completes(v: TxView)
  {
    v.hw.addr != 0 && v.ep.remaining <= v.ep.maxPacket
  }

  /** usb2_out_transfer_handler, with the answer of rx_callback: the toggle moves on only together
      with an ACK. */
  function OutHandler(v: RxView, reply: Resp): RxView
  {
    if v.ep.buffer != 0 then
      var tog := if reply == ACK then !v.hw.ctrl.tog else v.hw.ctrl.tog;
      RxView(RxHw(Ctrl(reply, tog), v.ep.buffer), v.ep.(state := reply))
    else
      v.(hw := v.hw.(ctrl := v.hw.ctrl.(resp := NAK)))
  }

  /** endp_rx_set_state and usb2_endp_rx_set_state_callback: an ACK after a NAK makes up for the
      toggle that the handler left behind. */
  function SetRxState(v: RxView, state: Resp): RxView
  {
    var flip := v.hw.ctrl.resp != ACK && state == ACK;
    RxView(v.hw.(ctrl := Ctrl(state, if flip then !v.hw.ctrl.tog else v.hw.ctrl.tog)), v.ep.(state := state))
  }

  /** Both directions of an endpoint number. */
  datatype EpView = EpView(tx: TxView, rx: RxView)

  /** What tx_complete does: a new buffer and a new state for the OUT side. */
  datatype Callback = Callback(rearm: Option<Rearm>, rxState: Option<Resp>)

  /** usb2_in_transfer_handler on both directions. The handler writes back the RX control register it
      read at the start, so of a state set inside tx_complete only the driver's own record is left. */
  function InBoth(v: EpView, cb: Callback): EpView
  {
    var rx := if Completes(v.tx) && cb.rxState.Some? then v.rx.(ep := v.rx.ep.(state := cb.rxState.value)) else v.rx;
    EpView(InHandler(v.tx, cb.rearm), rx)
  }

  /** A state that tx_complete gives the OUT side survives the IN handler if and only if the register
      already answers so. */
  lemma RxStateSurvives(v: EpView, rearm: Option<Rearm>, state: Resp)
    requires Completes(v.tx)
    ensures InBoth(v, Callback(rearm, Some(state))).rx == SetRxState(v.rx, state) <==> v.rx.hw.ctrl.resp == state
  {
    assert SetRxState(v.rx, state).hw.ctrl.resp == state;
  }

  /** A deferred re-arm made there is lost: the record says ACK and the host is still refused, until
      the state is set once more from outside. */
  lemma DeferredRearmIsLost(v: EpView, rearm: Option<Rearm>)
    requires Completes(v.tx) && v.rx.hw.ctrl.resp != ACK
    ensures
      var rx := InBoth(v, Callback(rearm, Some(ACK))).rx;
      && rx.ep.state == ACK && rx.hw == v.rx.hw
      && SetRxState(rx, ACK) == SetRxState(v.rx, ACK)
  {
  }

  // ------------------------------------------------------------ the whole device

  datatype Device = Device(txHw: seq<TxHw>, rxHw: seq<RxHw>, txEp: seq<TxEp>, rxEp: seq<RxEp>)
  {
    predicate Shaped() { |txHw| == 8 && |rxHw| == 8 && |txEp| == 16 && |rxEp| == 16 }

    function Tx(e: nat): TxView
      requires Shaped() && e < 16
    {
      TxView(txHw[Hw(e)], txEp[e])
    }

    function Rx(e: nat): RxView
      requires Shaped() && e < 16
    {
      RxView(rxHw[Hw(e)], rxEp[e])
    }

    function PutTx(e: nat, v: TxView): Device
      requires Shaped() && e < 16
    {
      this.(txHw := txHw[Hw(e) := v.hw], txEp := txEp[e := v.ep])
    }

    function PutRx(e: nat, v: RxView): Device
      requires Shaped() && e < 16
    {
      this.(rxHw := rxHw[Hw(e) := v.hw], rxEp := rxEp[e := v.ep])
    }
  }

  datatype Event =
    | InEvent(e: nat, cb: Callback)
    | OutEvent(e: nat, reply: Resp)
    | NewBuffer(e: nat, r: Rearm)
    | SetRx(e: nat, state: Resp)

  /** What an event does to the endpoint number it is about. */
  function EpStep(v: EpView, ev: Event): EpView
  {
    match ev
    case InEvent(_, cb) => InBoth(v, cb)
    case OutEvent(_, reply) => v.(rx := OutHandler(v.rx, reply))
    case NewBuffer(_, r) => v.(tx := SetNewBuffer(v.tx, r))
    case SetRx(_, state) => v.(rx := SetRxState(v.rx, state))
  }

  /** The endpoint an event is about. */
  function Target(ev: Event): Endpoint
  {
    Endpoint(if ev.InEvent? || ev.NewBuffer? then Tx else Rx, ev.e)
  }

  function DeviceStep(d: Device, ev: Event): (r: Device)
    requires d.Shaped() && ev.e < 16
    ensures r.Shaped()
  {
    var v := EpStep(EpView(d.Tx(ev.e), d.Rx(ev.e)), ev);
    d.PutTx(ev.e, v.tx).PutRx(ev.e, v.rx)
  }

  /** All events are about bulk endpoints that the mask enables. */
  ghost predicate OnEnabled(mask: Mask, events: seq<Event>)
  {
    forall i :: 0 <= i < |events| ==> 1 <= events[i].e < 16 && Target(events[i]) in mask
  }

  ghost function DeviceRun(d: Device, events: seq<Event>): (r: Device)
    requires d.Shaped() && forall i :: 0 <= i < |events| ==> events[i].e < 16
    ensures r.Shaped()
  {
    if events == [] then d
    else DeviceStep(DeviceRun(d, events[..|events| - 1]), events[|events| - 1])
  }

  /** The events of one endpoint number. */
  ghost function Only(events: seq<Event>, e: nat): seq<Event>
  {
    if events == [] then []
    else
      var rest := Only(events[..|events| - 1], e);
      if events[|events| - 1].e == e then rest + [events[|events| - 1]] else rest
  }

  ghost function EpRun(v: EpView, events: seq<Event>): EpView
  {
    if events == [] then v else EpStep(EpRun(v, events[..|events| - 1]), events[|events| - 1])
  }

  /** With an accepted mask, an event leaves every enabled endpoint with another number alone. */
  lemma EventIsLocal(d: Device, mask: Mask, ev: Event, p: Endpoint)
    requires d.Shaped() && !Clash(mask) && Target(ev) in mask && p in mask
    requires 1 <= ev.e < 16 && 1 <= p.num < 16 && ev.e != p.num
    ensures p.dir == Tx ==> DeviceStep(d, ev).Tx(p.num) == d.Tx(p.num)
    ensures p.dir == Rx ==> DeviceStep(d, ev).Rx(p.num) == d.Rx(p.num)
  {
    assert !Share(Target(ev), p);
  }

  /** The direction of an endpoint that an event is not about changes only in the driver's record of
      the OUT side, by tx_complete. */
  lemma OtherDirection(v: EpView, ev: Event)
    ensures ev.OutEvent? || ev.SetRx? ==> EpStep(v, ev).tx == v.tx
    ensures ev.NewBuffer? ==> EpStep(v, ev).rx == v.rx
    ensures ev.InEvent? ==> EpStep(v, ev).rx.hw == v.rx.hw && EpStep(v, ev).rx.ep.buffer == v.rx.ep.buffer
  {
  }

  /** An event changes the device at its own endpoint number as it would change that endpoint alone. */
  lemma OwnEvent(d: Device, ev: Event)
    requires d.Shaped() && ev.e < 16
    ensures EpView(DeviceStep(d, ev).Tx(ev.e), DeviceStep(d, ev).Rx(ev.e)) == EpStep(EpView(d.Tx(ev.e), d.Rx(ev.e)), ev)
  {
  }

  /** Every endpoint lives as if its number were alone: after any run of the device, the registers and
      the records of each enabled direction are those that its own events lead to. */
  lemma {:induction false} EndpointsAreIndependent(d: Device, mask: Mask, events: seq<Event>, e: nat)
    requires d.Shaped() && !Clash(mask) && OnEnabled(mask, events) && 1 <= e < 16
    ensures
      var alone := EpRun(EpView(d.Tx(e), d.Rx(e)), Only(events, e));
      && (Endpoint(Tx, e) in mask ==> DeviceRun(d, events).Tx(e) == alone.tx)
      && (Endpoint(Rx, e) in mask ==> DeviceRun(d, events).Rx(e) == alone.rx)
    decreases |events|
  {
    if events != [] {
      var init, last := events[..|events| - 1], events[|events| - 1];
      EndpointsAreIndependent(d, mask, init, e);
      var before := DeviceRun(d, init);
      if last.e == e {
        var own := Only(init, e);
        assert (own + [last])[..|own|] == own;
        OwnEvent(before, last);
        SameStep(EpRun(EpView(d.Tx(e), d.Rx(e)), own), EpView(before.Tx(e), before.Rx(e)), last);
      } else {
        if Endpoint(Tx, e) in mask {
          EventIsLocal(before, mask, last, Endpoint(Tx, e));
        }
        if Endpoint(Rx, e) in mask {
          EventIsLocal(before, mask, last, Endpoint(Rx, e));
        }
      }
    }
  }

  /** The IN side never depends on the OUT side, and the OUT side only on IN events. */
  lemma SameStep(v: EpView, w: EpView, ev: Event)
    ensures v.tx == w.tx ==> EpStep(v, ev).tx == EpStep(w, ev).tx
    ensures v.rx == w.rx && (ev.InEvent? ==> v.tx == w.tx) ==> EpStep(v, ev).rx == EpStep(w, ev).rx
  {
  }

  // ------------------------------------------------------------ the driver

  class Usb2Driver {
    const txHw: array<TxHw>
    const rxHw: array<RxHw>
    const txEp: array<TxEp>
    const rxEp: array<RxEp>

    ghost predicate Valid()
      reads this
    {
      txHw.Length == 8 && rxHw.Length == 8 && txEp.Length == 16 && rxEp.Length == 16
    }

    ghost function State(): (d: Device)
      requires Valid()
      reads this, txHw, rxHw, txEp, rxEp
      ensures d.Shaped()
    {
      Device(txHw[..], rxHw[..], txEp[..], rxEp[..])
    }

    /** usb2_endp_tx_ready */
    method EndpTxReady(e: nat, size: nat)
      requires Valid() && e < 16
      modifies txHw, txEp
      ensures State() == old(State()).PutTx(e, ReadyAt(e, old(State()).Tx(e), size))
    {
      txEp[e] := txEp[e].(remaining := size);
      var r := Hw(e);
      if e != 0 {
        txHw[r] := txHw[r].(addr := txEp[e].buffer);
      }
      var len := if txEp[e].remaining > txEp[e].maxPacket then txEp[e].maxPacket else txEp[e].remaining;
      txHw[r] := txHw[r].(len := len);
      txHw[r] := txHw[r].(ctrl := txHw[r].ctrl.(resp := ACK));
    }

    /** endp_tx_set_new_buffer */
    method EndpTxSetNewBuffer(e: nat, r: Rearm) returns (ok: bool)
      requires Valid() && 1 <= e < 16
      modifies txHw, txEp
      ensures State() == old(State()).PutTx(e, SetNewBuffer(old(State()).Tx(e), r))
      ensures ok <==> r.size <= old(txEp[e]).maxPacketWithBurst && r.ptr != 0
    {
      if r.size > txEp[e].maxPacketWithBurst || r.ptr == 0 {
        assert State().PutTx(e, State().Tx(e)) == State();
        return false;
      }
      txEp[e] := txEp[e].(buffer := r.ptr);
      EndpTxReady(e, r.size);
      return true;
    }

    /** usb2_in_transfer_handler */
    method InTransferHandler(e: nat, cb: Callback)
      requires Valid() && 1 <= e < 16
      modifies txHw, rxHw, txEp, rxEp
      ensures State() == DeviceStep(old(State()), InEvent(e, cb))
    {
      var r := Hw(e);
      var txCtrl, rxCtrl := txHw[r].ctrl, rxHw[r].ctrl;
      if txHw[r].addr != 0 {
        var len := if txEp[e].remaining > txEp[e].maxPacket then txEp[e].maxPacket else txEp[e].remaining;
        txEp[e] := txEp[e].(remaining := txEp[e].remaining - len);
        if txEp[e].remaining == 0 {
          FinishTransfer(e, cb);
        } else {
          txHw[r] := txHw[r].(addr := txHw[r].addr + len);
          txHw[r] := txHw[r].(ctrl := Ctrl(ACK, !txCtrl.tog));
        }
      } else {
        txHw[r] := txHw[r].(ctrl := txCtrl.(resp := NAK));
      }
      rxHw[r] := rxHw[r].(ctrl := rxCtrl);
    }

    /** The branch of usb2_in_transfer_handler for the last packet. */
    method FinishTransfer(e: nat, cb: Callback)
      requires Valid() && 1 <= e < 16
      modifies txHw, rxHw, txEp, rxEp
      ensures
        var d := old(State());
        var v := d.Tx(e);
        var after := HandIn(TxView(TxHw(Ctrl(NAK, !v.hw.ctrl.tog), 0, v.hw.addr), v.ep), cb.rearm);
        var rx := if cb.rxState.Some? then SetRxState(d.Rx(e), cb.rxState.value) else d.Rx(e);
        State() == d.PutTx(e, after.(hw := after.hw.(addr := after.ep.buffer))).PutRx(e, rx)
    {
      var r := Hw(e);
      var txCtrl := txHw[r].ctrl;
      txHw[r] := txHw[r].(len := 0);
      txHw[r] := txHw[r].(ctrl := Ctrl(NAK, !txCtrl.tog));
      TxComplete(e, cb);
      txHw[r] := txHw[r].(addr := txEp[e].buffer);
    }

    /** The calls a tx_complete callback makes for its own endpoint. */
    method TxComplete(e: nat, cb: Callback)
      requires Valid() && 1 <= e < 16
      modifies txHw, rxHw, txEp, rxEp
      ensures
        var d := old(State());
        var rx := if cb.rxState.Some? then SetRxState(d.Rx(e), cb.rxState.value) else d.Rx(e);
        State() == d.PutTx(e, HandIn(d.Tx(e), cb.rearm)).PutRx(e, rx)
    {
      if cb.rearm.Some? {
        var _ := EndpTxSetNewBuffer(e, cb.rearm.value);
      }
      if cb.rxState.Some? {
        EndpRxSetState(e, cb.rxState.value);
      }
    }

    /** usb2_out_transfer_handler */
    method OutTransferHandler(e: nat, reply: Resp)
      requires Valid() && 1 <= e < 16
      modifies rxHw, rxEp
      ensures State() == old(State()).PutRx(e, OutHandler(old(State()).Rx(e), reply))
    {
      var r := Hw(e);
      var ctrl := rxHw[r].ctrl;
      if rxEp[e].buffer != 0 {
        rxEp[e] := rxEp[e].(state := reply);
        rxHw[r] := rxHw[r].(addr := rxEp[e].buffer);
        ctrl := ctrl.(resp := rxEp[e].state);
        if rxEp[e].state == ACK {
          ctrl := ctrl.(tog := !ctrl.tog);
        }
      } else {
        ctrl := ctrl.(resp := NAK);
      }
      rxHw[r] := rxHw[r].(ctrl := ctrl);
    }

    /** endp_rx_set_state with usb2_endp_rx_set_state_callback */
    method EndpRxSetState(e: nat, state: Resp)
      requires Valid() && 1 <= e < 16
      modifies rxHw, rxEp
      ensures State() == old(State()).PutRx(e, SetRxState(old(State()).Rx(e), state))
    {
      rxEp[e] := rxEp[e].(state := state);
      var r := Hw(e);
      var ctrl := rxHw[r].ctrl;
      if ctrl.resp != ACK && rxEp[e].state == ACK {
        ctrl := ctrl.(tog := !ctrl.tog);
      }
      ctrl := ctrl.(resp := rxEp[e].state);
      rxHw[r] := rxHw[r].(ctrl := ctrl);
    }
  }
}
