/**
 Delivery of OUT packets over a lossy bus (section 8.6 of the USB 2.0 specification) to
 the OUT handlers of Usb2Bulk. The host numbers its packets 0, 1, 2, ... and carries the
 toggle n mod 2 on packet n; a lost data packet or a lost handshake makes it retry. The
 device answers by its control register: anything but ACK refuses the packet, ACK with
 the wrong toggle acknowledges and drops it (the early return of USBHS_IRQHandler),
 ACK with the right toggle runs the handler.
 */
module Usb2Out {
  import opened Usb2Registers
  import opened Usb2Bulk

  /** `next` is the packet the host is trying to send, `hostTog` its toggle, and `delivered`
      the packets passed to rx_callback, in order. */
  datatype State = State(v: RxView, next: nat, hostTog: bool, delivered: seq<nat>)

  datatype Action =
    | DataLost
    | Transact(ackLost: bool, reply: Resp)
    | UserState(state: Resp)

  /** The device side of a data packet that arrives. */
  function Receive(s: State, reply: Resp): State
  {
    if s.v.hw.ctrl.resp == ACK && s.hostTog == s.v.hw.ctrl.tog then
      s.(v := OutHandler(s.v, reply), delivered := s.delivered + [s.next])
    else s
  }

  function Step(s: State, a: Action): State
  {
    match a
    case DataLost => s
    case Transact(ackLost, reply) =>
      var s' := Receive(s, reply);
      if s.v.hw.ctrl.resp == ACK && !ackLost then s'.(next := s.next + 1, hostTog := !s.hostTog) else s'
    case UserState(state) => s.(v := SetRxState(s.v, state))
  }

  /** The user only ever takes the endpoint out of ACK by the answer of rx_callback. */
  predicate Disciplined(s: State, a: Action)
  {
    a.UserState? ==> s.v.hw.ctrl.resp != ACK || a.state == ACK
  }

  /** An endpoint with a buffer, set up with DATA0, and a host that has sent nothing. */
  ghost predicate SetUp(s: State)
  {
    !s.v.hw.ctrl.tog && s.v.ep.buffer != 0 && s.next == 0 && !s.hostTog && s.delivered == []
  }

  ghost predicate Init(s: State)
  {
    SetUp(s) && s.v.hw.ctrl.resp == ACK
  }

  function Run(s: State, actions: seq<Action>): State
  {
    if actions == [] then s else Step(Run(s, actions[..|actions| - 1]), actions[|actions| - 1])
  }

  ghost predicate DisciplinedRun(s: State, actions: seq<Action>)
  {
    forall i :: 0 <= i < |actions| ==> Disciplined(Run(s, actions[..i]), actions[i])
  }

  predicate Odd(n: nat) { n % 2 == 1 }

  /** Each packet exactly once and in order; every packet the host counts as sent has arrived,
      and at most one more, whose handshake was lost. */
  ghost predicate ExactlyOnce(s: State)
  {
    && (forall i :: 0 <= i < |s.delivered| ==> s.delivered[i] == i)
    && s.next <= |s.delivered| <= s.next + 1
  }

  /** While the endpoint is not ACK its toggle is still the one of the last packet delivered. */
  ghost predicate Inv(s: State)
  {
    var d := |s.delivered|;
    && ExactlyOnce(s)
    && s.v.ep.buffer != 0
    && s.hostTog == Odd(s.next)
    && (if s.v.hw.ctrl.resp == ACK then s.v.hw.ctrl.tog == Odd(d) else 1 <= d && s.v.hw.ctrl.tog == Odd(d - 1))
  }

  lemma StepKeepsInv(s: State, a: Action)
    requires Inv(s) && Disciplined(s, a)
    ensures Inv(Step(s, a))
  {
  }

  lemma {:induction false} RunKeepsInv(s: State, actions: seq<Action>)
    requires Inv(s) && DisciplinedRun(s, actions)
    ensures Inv(Run(s, actions))
    decreases |actions|
  {
    if actions != [] {
      var m := |actions| - 1;
      forall i | 0 <= i < m ensures Disciplined(Run(s, actions[..m][..i]), actions[..m][i]) {
        assert actions[..m][..i] == actions[..i];
      }
      RunKeepsInv(s, actions[..m]);
      StepKeepsInv(Run(s, actions[..m]), actions[m]);
    }
  }

  /** Exactly-once delivery over every run with lost packets, lost handshakes and NAK delays. */
  lemma ExactlyOnceDelivery(s: State, actions: seq<Action>)
    requires Init(s) && DisciplinedRun(s, actions)
    ensures ExactlyOnce(Run(s, actions))
  {
    RunKeepsInv(s, actions);
  }

  /** Once the device answers ACK again, a retry without losses gets the next packet through. */
  lemma NextPacketArrives(s: State, reply: Resp)
    requires Inv(s) && s.v.hw.ctrl.resp == ACK
    ensures
      var t := Step(s, Transact(false, reply));
      t.next == s.next + 1 && s.next < |t.delivered| == t.next
  {
  }

  // ------------------------------------------------------------ what the host sees

  /** The packet of `a` reaches rx_callback. */
  predicate Delivers(s: State, a: Action)
  {
    |Step(s, a).delivered| > |s.delivered|
  }

  /** The state that the user has last asked for, by rx_callback or by endp_rx_set_state. */
  function LastAsked(s: State, actions: seq<Action>): Resp
  {
    if actions == [] then s.v.hw.ctrl.resp
    else
      var before, a := actions[..|actions| - 1], actions[|actions| - 1];
      match a
      case UserState(state) => state
      case Transact(_, reply) => if Delivers(Run(s, before), a) then reply else LastAsked(s, before)
      case DataLost => LastAsked(s, before)
  }

  /** In every run the endpoint answers the host exactly as the user has last asked, and receives into the
      buffer of the endpoint after every packet. */
  lemma {:induction false} HostSeesWhatWasAsked(s: State, actions: seq<Action>)
    requires s.v.ep.buffer != 0 && s.v.hw.addr == s.v.ep.buffer && s.v.ep.state == s.v.hw.ctrl.resp
    ensures
      var t := Run(s, actions);
      && t.v.hw.ctrl.resp == t.v.ep.state == LastAsked(s, actions)
      && t.v.hw.addr == t.v.ep.buffer == s.v.ep.buffer
    decreases |actions|
  {
    if actions != [] {
      HostSeesWhatWasAsked(s, actions[..|actions| - 1]);
    }
  }

  /** Nothing is delivered and the host gets no further while the endpoint refuses. */
  lemma {:induction false} RefusedUntilAck(s: State, actions: seq<Action>)
    requires s.v.hw.ctrl.resp != ACK && forall i :: 0 <= i < |actions| ==> actions[i] != UserState(ACK)
    ensures
      var t := Run(s, actions);
      t.delivered == s.delivered && t.next == s.next && t.v.hw.ctrl.resp != ACK
    decreases |actions|
  {
    if actions != [] {
      RefusedUntilAck(s, actions[..|actions| - 1]);
    }
  }

  /** A packet answered with anything but ACK is the last one the user gets until it asks for ACK,
      whatever the host retries; its buffer is its own until then. */
  lemma RefusalRefuses(s: State, ackLost: bool, reply: Resp, actions: seq<Action>)
    requires s.v.ep.buffer != 0 && Delivers(s, Transact(ackLost, reply)) && reply != ACK
    requires forall i :: 0 <= i < |actions| ==> actions[i] != UserState(ACK)
    ensures
      var t := Step(s, Transact(ackLost, reply));
      && t.v.hw.ctrl.resp == reply && t.v.ep.state == reply && t.delivered == s.delivered + [s.next]
      && Run(t, actions).delivered == t.delivered && Run(t, actions).next == t.next
  {
    RefusedUntilAck(Step(s, Transact(ackLost, reply)), actions);
  }

  /** An endpoint without a buffer refuses from its first event on. */
  lemma NoBufferRefuses(v: RxView, reply: Resp)
    requires v.ep.buffer == 0
    ensures OutHandler(v, reply).hw.ctrl == Ctrl(NAK, v.hw.ctrl.tog) && OutHandler(v, reply).ep == v.ep
  {
  }

  /** The discipline is exactly what is needed. Leaving ACK by endp_rx_set_state and coming back
      to it flips the toggle although no packet was accepted, and the next loss-free transaction
      then loses or duplicates a packet, whatever state the endpoint was in. */
  lemma DisciplineIsNeeded(s: State, state: Resp, reply: Resp)
    requires Inv(s)
    ensures Disciplined(s, UserState(state)) ==> Inv(Step(s, UserState(state)))
    ensures !Disciplined(s, UserState(state)) ==>
              !ExactlyOnce(Run(s, [UserState(state), UserState(ACK), Transact(false, reply)]))
  {
    if !Disciplined(s, UserState(state)) {
      var run := [UserState(state), UserState(ACK), Transact(false, reply)];
      RunOfThree(s, run);
      var d, t := |s.delivered|, Run(s, run);
      if s.next == d {
        assert t.next == d + 1 && |t.delivered| == d;
      } else {
        assert t.delivered[d] == s.next != d;
      }
    }
  }

  lemma RunOfThree(s: State, run: seq<Action>)
    requires |run| == 3
    ensures Run(s, run) == Step(Step(Step(s, run[0]), run[1]), run[2])
  {
    assert run[..2][..1][..0] == [];
    assert Run(s, run[..2][..1]) == Step(s, run[0]);
    assert Run(s, run[..2]) == Step(Step(s, run[0]), run[1]);
  }

  /** An endpoint set up with DATA0 in any state but ACK loses its first packet once the user makes
      it ACK. */
  lemma StartingElsewhereLosesAPacket(s: State, reply: Resp)
    requires SetUp(s) && s.v.hw.ctrl.resp != ACK
    ensures
      var run := [UserState(ACK), Transact(false, reply)];
      DisciplinedRun(s, run) && Run(s, run).next == 1 && Run(s, run).delivered == []
  {
    var run := [UserState(ACK), Transact(false, reply)];
    assert run[..1][..0] == [] && run[..0] == [];
    assert Run(s, run[..1]) == Step(s, run[0]);
  }

  /** Starting at ACK is the exact condition for an endpoint set up with DATA0. */
  lemma StartsAtAck(s: State)
    requires SetUp(s)
    ensures s.v.hw.ctrl.resp == ACK
            <==> forall actions :: DisciplinedRun(s, actions) ==> ExactlyOnce(Run(s, actions))
  {
    if s.v.hw.ctrl.resp == ACK {
      forall actions | DisciplinedRun(s, actions) ensures ExactlyOnce(Run(s, actions)) {
        ExactlyOnceDelivery(s, actions);
      }
    } else {
      StartingElsewhereLosesAPacket(s, ACK);
    }
  }
}
