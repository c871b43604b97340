/**
 Runs of a bulk IN endpoint of the USB2 device engine: transfers handed in by
 endp_tx_set_new_buffer while the endpoint is idle or from inside tx_complete, and IN
 transactions acknowledged by the host, in any order.
 */
module Usb2In {
  import opened Arithmetic
  import opened Common
  import opened Usb2Registers
  import opened Usb2Bulk

  /** Memory as the DMA engine sees it. Buffers do not change while they are being sent. */
  type Memory = nat -> bv8

  datatype Packet = Packet(tog: bool, bytes: seq<bv8>)

  function Bytes(mem: Memory, at: nat, n: nat): (s: seq<bv8>)
    ensures |s| == n
  {
    seq(n, i requires 0 <= i < n => mem(at + i))
  }

  function Concat(ps: seq<Packet>): seq<bv8>
  {
    if ps == [] then [] else Concat(ps[..|ps| - 1]) + ps[|ps| - 1].bytes
  }

  /** A transfer and the packets the host acknowledged for it. */
  datatype Transfer = Transfer(ptr: nat, size: nat, packets: seq<Packet>)

  /** `acked` numbers all packets over the whole run, `started` holds one entry for each accepted
      buffer and `finished` one for each call of tx_complete. */
  datatype State = State(
    v: TxView, acked: seq<Packet>, started: seq<Rearm>, current: Option<Transfer>, finished: seq<Transfer>)

  datatype Action = NewTransfer(r: Rearm) | InAcked(rearm: Option<Rearm>)

  predicate Accepted(v: TxView, r: Rearm) { r.size <= v.ep.maxPacketWithBurst && r.ptr != 0 }

  /** The packet that the armed registers make the hardware send. */
  function OnTheWire(mem: Memory, v: TxView): Packet
  {
    Packet(v.hw.ctrl.tog, Bytes(mem, v.hw.addr, v.hw.len))
  }

  /** Hands in a buffer, if there is one and it is accepted. */
  function Start(s: State, r: Option<Rearm>): State
  {
    if r.Some? && Accepted(s.v, r.value) then
      s.(current := Some(Transfer(r.value.ptr, r.value.size, [])), started := s.started + [r.value])
    else s.(current := None)
  }

  function Step(mem: Memory, s: State, a: Action): State
  {
    match a
    case NewTransfer(r) =>
      Start(s, Some(r)).(v := SetNewBuffer(s.v, r))
    case InAcked(rearm) =>
      var p := OnTheWire(mem, s.v);
      var s' := s.(acked := s.acked + [p]);
      var t := if s.current.Some? then [s.current.value.(packets := s.current.value.packets + [p])] else [];
      var s'' := if Completes(s.v) then Start(s'.(finished := s.finished + t), rearm)
                 else s'.(current := if t == [] then None else Some(t[0]));
      s''.(v := InHandler(s.v, rearm))
  }

  /** A buffer is only handed in while none is being sent, and the host only gets a packet
      acknowledged while one is armed. */
  predicate Enabled(s: State, a: Action)
  {
    match a
    case NewTransfer(_) => s.current.None?
    case InAcked(_) => s.v.hw.ctrl.resp == ACK
  }

  ghost predicate Init(s: State)
  {
    s.v.hw.ctrl == Ctrl(NAK, false) && 0 < s.v.ep.maxPacket && s.acked == [] &&
    s.started == [] && s.current.None? && s.finished == []
  }

  ghost function Run(mem: Memory, s: State, actions: seq<Action>): State
  {
    if actions == [] then s else Step(mem, Run(mem, s, actions[..|actions| - 1]), actions[|actions| - 1])
  }

  ghost predicate EnabledRun(mem: Memory, s: State, actions: seq<Action>)
  {
    forall i :: 0 <= i < |actions| ==> Enabled(Run(mem, s, actions[..i]), actions[i])
  }

  // ------------------------------------------------------------ what a transfer puts on the wire

  /** Bytes sent by a complete transfer: the length register keeps the length of the first packet. */
  function WireLength(size: nat, maxPacket: nat): nat
    requires 0 < maxPacket
  {
    if size <= maxPacket then size else (size + maxPacket - 1) / maxPacket * maxPacket
  }

  ghost predicate FinishedOk(mem: Memory, t: Transfer, maxPacket: nat)
    requires 0 < maxPacket
  {
    && Concat(t.packets) == Bytes(mem, t.ptr, WireLength(t.size, maxPacket))
    && forall i :: 0 <= i < |t.packets| ==> |t.packets[i].bytes| == Min(t.size, maxPacket)
  }

  /** A transfer in progress: `sent` bytes in whole packets, and the registers at the next packet. */
  ghost predicate ProgressOk(mem: Memory, v: TxView, t: Transfer)
  {
    var sent := t.size - v.ep.remaining;
    && t.ptr != 0 && 0 <= sent
    && v.hw.len == Min(t.size, v.ep.maxPacket) && v.hw.addr == t.ptr + sent && v.ep.buffer == t.ptr
    && sent == |t.packets| * v.ep.maxPacket
    && (sent == 0 || 0 < v.ep.remaining)
    && Concat(t.packets) == Bytes(mem, t.ptr, sent)
    && forall i :: 0 <= i < |t.packets| ==> |t.packets[i].bytes| == v.ep.maxPacket
  }

  /** The buffers accepted are the transfers finished, followed by the one in progress. */
  ghost predicate Accounted(s: State)
  {
    && |s.started| == |s.finished| + (if s.current.Some? then 1 else 0)
    && (forall i :: 0 <= i < |s.finished| ==> s.started[i] == Rearm(s.finished[i].ptr, s.finished[i].size))
    && (s.current.Some? ==> s.started[|s.finished|] == Rearm(s.current.value.ptr, s.current.value.size))
  }

  ghost predicate Toggles(s: State)
  {
    && s.v.hw.ctrl.tog == (|s.acked| % 2 == 1)
    && forall k :: 0 <= k < |s.acked| ==> s.acked[k].tog == (k % 2 == 1)
  }

  ghost predicate Transfers(mem: Memory, s: State)
  {
    && 0 < s.v.ep.maxPacket
    && (s.v.hw.ctrl.resp == ACK <==> s.current.Some?)
    && (s.current.Some? ==> ProgressOk(mem, s.v, s.current.value))
    && forall i :: 0 <= i < |s.finished| ==> FinishedOk(mem, s.finished[i], s.v.ep.maxPacket)
  }

  ghost predicate Inv(mem: Memory, s: State)
  {
    Accounted(s) && Toggles(s) && Transfers(mem, s)
  }

  lemma BytesSplit(mem: Memory, at: nat, n: nat, m: nat)
    ensures Bytes(mem, at, n) + Bytes(mem, at + n, m) == Bytes(mem, at, n + m)
  {
  }

  lemma ConcatSnoc(ps: seq<Packet>, p: Packet)
    ensures Concat(ps + [p]) == Concat(ps) + p.bytes
  {
    assert (ps + [p])[..|ps|] == ps;
  }

  /** The last packet brings the wire length to the next whole packet. */
  lemma LastPacket(size: nat, maxPacket: nat, k: nat)
    requires 0 < maxPacket && k * maxPacket <= size <= k * maxPacket + maxPacket
    requires k == 0 || k * maxPacket < size
    ensures WireLength(size, maxPacket) == k * maxPacket + Min(size, maxPacket)
  {
    if size > maxPacket {
      var r := size - k * maxPacket - 1;
      MulAtLeast(k, maxPacket);
      assert k * maxPacket + maxPacket == (k + 1) * maxPacket;
      DivModUnique(size + maxPacket - 1, maxPacket, k + 1, r);
    } else {
      MulAtLeast(k, maxPacket);
    }
  }

  lemma InKeepsTransfer(mem: Memory, v: TxView, t: Transfer, rearm: Option<Rearm>)
    requires 0 < v.ep.maxPacket && ProgressOk(mem, v, t)
    ensures
      var t' := t.(packets := t.packets + [OnTheWire(mem, v)]);
      if Completes(v) then FinishedOk(mem, t', v.ep.maxPacket) else ProgressOk(mem, InHandler(v, rearm), t')
  {
    var t' := t.(packets := t.packets + [OnTheWire(mem, v)]);
    if Completes(v) {
      LastOfTransfer(mem, v, t, t');
    } else {
      NextOfTransfer(mem, v, t, t', InHandler(v, rearm));
    }
  }

  lemma LastOfTransfer(mem: Memory, v: TxView, t: Transfer, t': Transfer)
    requires 0 < v.ep.maxPacket && ProgressOk(mem, v, t) && v.ep.remaining <= v.ep.maxPacket
    requires t' == t.(packets := t.packets + [OnTheWire(mem, v)])
    ensures FinishedOk(mem, t', v.ep.maxPacket)
  {
    OneMorePacket(mem, v, t);
    LastPacket(t.size, v.ep.maxPacket, |t.packets|);
  }

  lemma NextOfTransfer(mem: Memory, v: TxView, t: Transfer, t': Transfer, v': TxView)
    requires 0 < v.ep.maxPacket < v.ep.remaining && ProgressOk(mem, v, t)
    requires t' == t.(packets := t.packets + [OnTheWire(mem, v)])
    requires v'.hw.len == v.hw.len && v'.hw.addr == v.hw.addr + v.ep.maxPacket
    requires v'.ep == v.ep.(remaining := v.ep.remaining - v.ep.maxPacket)
    ensures ProgressOk(mem, v', t')
  {
    OneMorePacket(mem, v, t);
  }

  lemma OneMorePacket(mem: Memory, v: TxView, t: Transfer)
    requires 0 < v.ep.maxPacket && ProgressOk(mem, v, t)
    ensures
      var sent := t.size - v.ep.remaining;
      && Concat(t.packets + [OnTheWire(mem, v)]) == Bytes(mem, t.ptr, sent + v.hw.len)
      && (|t.packets| + 1) * v.ep.maxPacket == sent + v.ep.maxPacket
      && (t.packets != [] ==> v.ep.maxPacket <= sent)
  {
    ConcatSnoc(t.packets, OnTheWire(mem, v));
    BytesSplit(mem, t.ptr, t.size - v.ep.remaining, v.hw.len);
    MulAtLeast(|t.packets|, v.ep.maxPacket);
    assert (|t.packets| + 1) * v.ep.maxPacket == |t.packets| * v.ep.maxPacket + v.ep.maxPacket;
  }

  /** A buffer just handed in is at its first byte. */
  lemma StartIsProgress(mem: Memory, v: TxView, r: Rearm)
    requires Accepted(v, r) && 0 < v.ep.maxPacket
    ensures ProgressOk(mem, SetNewBuffer(v, r), Transfer(r.ptr, r.size, []))
  {
  }

  lemma NewKeepsInv(mem: Memory, s: State, r: Rearm)
    requires Inv(mem, s) && s.current.None?
    ensures Inv(mem, Step(mem, s, NewTransfer(r)))
  {
    if Accepted(s.v, r) {
      StartIsProgress(mem, s.v, r);
    }
  }

  lemma ContinueKeepsInv(mem: Memory, s: State, rearm: Option<Rearm>)
    requires Inv(mem, s) && s.current.Some? && !Completes(s.v)
    ensures Inv(mem, Step(mem, s, InAcked(rearm)))
  {
    InKeepsTransfer(mem, s.v, s.current.value, rearm);
  }

  lemma CompleteKeepsTransfers(mem: Memory, s: State, rearm: Option<Rearm>)
    requires Transfers(mem, s) && s.current.Some? && Completes(s.v)
    ensures Transfers(mem, Step(mem, s, InAcked(rearm)))
  {
    InKeepsTransfer(mem, s.v, s.current.value, rearm);
    if rearm.Some? && Accepted(s.v, rearm.value) {
      var done := TxView(TxHw(Ctrl(NAK, !s.v.hw.ctrl.tog), 0, s.v.hw.addr), s.v.ep.(remaining := 0));
      StartIsProgress(mem, done, rearm.value);
      assert InHandler(s.v, rearm) == SetNewBuffer(done, rearm.value);
    }
  }

  lemma CompleteKeepsAccounts(mem: Memory, s: State, rearm: Option<Rearm>)
    requires Accounted(s) && s.current.Some? && Completes(s.v)
    ensures Accounted(Step(mem, s, InAcked(rearm)))
  {
  }

  lemma InKeepsToggles(mem: Memory, s: State, rearm: Option<Rearm>)
    requires Toggles(s) && s.v.hw.addr != 0
    ensures Toggles(Step(mem, s, InAcked(rearm)))
  {
  }

  lemma CompleteKeepsInv(mem: Memory, s: State, rearm: Option<Rearm>)
    requires Inv(mem, s) && s.current.Some? && Completes(s.v)
    ensures Inv(mem, Step(mem, s, InAcked(rearm)))
  {
    var s' := Step(mem, s, InAcked(rearm));
    assert Transfers(mem, s') by { CompleteKeepsTransfers(mem, s, rearm); }
    assert Accounted(s') by { CompleteKeepsAccounts(mem, s, rearm); }
    assert Toggles(s') by { InKeepsToggles(mem, s, rearm); }
  }

  lemma StepKeepsInv(mem: Memory, s: State, a: Action)
    requires Inv(mem, s) && Enabled(s, a)
    ensures Inv(mem, Step(mem, s, a))
  {
    match a
    case NewTransfer(r) => NewKeepsInv(mem, s, r);
    case InAcked(rearm) =>
      if Completes(s.v) {
        CompleteKeepsInv(mem, s, rearm);
      } else {
        ContinueKeepsInv(mem, s, rearm);
      }
  }

  lemma EnabledPrefix(mem: Memory, s: State, actions: seq<Action>, m: nat)
    requires EnabledRun(mem, s, actions) && m <= |actions|
    ensures EnabledRun(mem, s, actions[..m])
  {
    forall i | 0 <= i < m ensures Enabled(Run(mem, s, actions[..m][..i]), actions[..m][i]) {
      assert actions[..m][..i] == actions[..i];
    }
  }

  lemma {:induction false} RunKeepsInv(mem: Memory, s: State, actions: seq<Action>)
    requires Inv(mem, s) && EnabledRun(mem, s, actions)
    ensures Inv(mem, Run(mem, s, actions))
    decreases |actions|
  {
    if actions != [] {
      var m := |actions| - 1;
      EnabledPrefix(mem, s, actions, m);
      RunKeepsInv(mem, s, actions[..m]);
      StepKeepsInv(mem, Run(mem, s, actions[..m]), actions[m]);
    }
  }

  /** Over every run: the k-th acknowledged packet carries toggle k mod 2, every accepted buffer
      is completed exactly once and in order, and a completed transfer has put the bytes behind its
      buffer on the wire, whole packets at a time. */
  lemma BulkInRuns(mem: Memory, s: State, actions: seq<Action>)
    requires Init(s) && EnabledRun(mem, s, actions)
    ensures
      var t := Run(mem, s, actions);
      && (forall k :: 0 <= k < |t.acked| ==> t.acked[k].tog == (k % 2 == 1))
      && Accounted(t)
      && 0 < t.v.ep.maxPacket
      && forall i :: 0 <= i < |t.finished| ==> FinishedOk(mem, t.finished[i], t.v.ep.maxPacket)
  {
    RunKeepsInv(mem, s, actions);
  }

  /** The wire carries exactly the buffer if and only if it fits one packet or fills whole ones. */
  lemma WireIsExact(size: nat, maxPacket: nat)
    requires 0 < maxPacket
    ensures WireLength(size, maxPacket) == size <==> size <= maxPacket || size % maxPacket == 0
  {
    if size > maxPacket {
      var q, r := size / maxPacket, size % maxPacket;
      assert size == q * maxPacket + r;
      if r == 0 {
        DivModUnique(size + maxPacket - 1, maxPacket, q, maxPacket - 1);
      } else {
        assert (q + 1) * maxPacket == q * maxPacket + maxPacket;
        DivModUnique(size + maxPacket - 1, maxPacket, q + 1, r - 1);
      }
    }
  }

  /** An endpoint without an address refuses and completes nothing. */
  lemma NoAddressRefuses(v: TxView, rearm: Option<Rearm>)
    requires v.hw.addr == 0
    ensures !Completes(v) && InHandler(v, rearm) == v.(hw := v.hw.(ctrl := Ctrl(NAK, v.hw.ctrl.tog)))
  {
  }

  /** A buffer handed in by tx_complete is still armed when the handler returns. */
  lemma RearmSurvives(v: TxView, r: Rearm)
    requires Completes(v) && Accepted(v, r)
    ensures
      var v' := InHandler(v, Some(r));
      && v'.hw == TxHw(Ctrl(ACK, !v.hw.ctrl.tog), Min(r.size, v.ep.maxPacket), r.ptr)
      && v'.ep.remaining == r.size && v'.ep.buffer == r.ptr
  {
  }
}
