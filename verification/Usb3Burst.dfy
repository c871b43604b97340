/**
 IN bursts of the USB3 device engine: usb3_endp_tx_ready and usb30_ep_in_handler
 (usb/usb30.c) on the packed endpoint control word of usb/usb30_utils.h. The host may
 take fewer packets than were offered (section 8.10.2 of USB 3.2); the handler then
 offers the rest again.
 */
module Usb3Burst {
  import opened Arithmetic
  import opened Common
  import opened Usb3Word

  // ------------------------------------------------------------ one endpoint

  datatype Endpoint = Endpoint(
    word: Fields, addr: nat, remaining: nat, bursts: nat,
    buffer: nat, maxPacket: nat, maxBurst: nat, maxPacketWithBurst: nat)

  /** Length of the last packet of a transfer. */
  function LastPacket(size: nat, m: nat): nat
    requires 0 < m
  {
    if size / m > 0 && size % m == 0 then m else size % m
  }

  /** Number of packets of a transfer, in a uint8_t. */
  function NumPackets(size: nat, m: nat): nat
    requires 0 < m
  {
    (size / m + (if LastPacket(size, m) != m then 1 else 0)) % 256
  }

  /** The configuration the hardware allows: packets of at most 1024 bytes, bursts of at most 16. */
  ghost predicate Configured(v: Endpoint)
  {
    0 < v.maxPacket <= 1024 && 0 < v.maxBurst <= 16 && v.maxPacketWithBurst == v.maxBurst * v.maxPacket
  }

  /** A cleared word with a burst armed in it. */
  function Offering(f: Fields, nump: nat, last: nat): Fields
  {
    Fields(last, nump, f.seqNum, ACK, true)
  }

  function ClearedWord(f: Fields): Fields { Fields(0, 0, f.seqNum, 0, false) }

  /** usb3_endp_tx_ready, on an endpoint whose control word is cleared. */
  function TxReady(v: Endpoint, size: nat): Endpoint
    requires 0 < v.maxPacket && Cleared(v.word)
  {
    v.(addr := v.buffer, remaining := size, bursts := NumPackets(size, v.maxPacket),
       word := Offering(v.word, NumPackets(size, v.maxPacket), LastPacket(size, v.maxPacket)))
  }

  /** endp_tx_set_new_buffer */
  function SetNewBuffer(v: Endpoint, r: Rearm): Endpoint
    requires 0 < v.maxPacket && Cleared(v.word)
  {
    if Accepted(v, r) then TxReady(v.(buffer := r.ptr), r.size) else v
  }

  predicate Accepted(v: Endpoint, r: Rearm) { r.size <= v.maxPacketWithBurst && r.ptr != 0 }

  /** The decrement loop: one packet size per packet taken, never below 0. */
  function Drain(remaining: nat, sent: nat, m: nat): nat
    decreases sent
  {
    if sent == 0 then remaining else Drain(if remaining >= m then remaining - m else 0, sent - 1, m)
  }

  /** Packets taken since the burst was armed, in a uint8_t. */
  function Sent(v: Endpoint): nat { (v.bursts - v.word.nump) % 256 }

  /** Length programmed for the last packet when `nump` packets are offered again. */
  function RearmLength(remaining: nat, nump: nat, m: nat): int
  {
    if remaining >= nump * m then m else remaining - (nump - 1) * m
  }

  predicate Completes(v: Endpoint) { Drain(v.remaining, Sent(v), v.maxPacket) == 0 }

  /** The number of packets offered again: what is left, clamped to the maximum burst. */
  function Offer(v: Endpoint): nat { if v.word.nump > v.maxBurst then v.maxBurst else v.word.nump }

  ghost predicate Rearmable(v: Endpoint)
  {
    0 <= RearmLength(Drain(v.remaining, Sent(v), v.maxPacket), Offer(v), v.maxPacket) < 0x800 && Sent(v) <= v.bursts
  }

  /** usb30_ep_in_handler. Its NRDY goes through endpoint number `endp | IN`, which is not the
      register of this endpoint, so it leaves the control word as it is. */
  function InHandler(v: Endpoint, rearm: Option<Rearm>): Endpoint
    requires 0 < v.maxPacket && (!Completes(v) ==> Rearmable(v))
  {
    var left := Drain(v.remaining, Sent(v), v.maxPacket);
    if left == 0 then Finished(v.(remaining := 0), rearm)
    else
      v.(remaining := left, bursts := v.bursts - Sent(v),
         word := Offering(v.word, Offer(v), RearmLength(left, Offer(v), v.maxPacket)))
  }

  /** The branch that calls tx_complete: NRDY and a null address unless new data is armed. */
  function Finished(v: Endpoint, rearm: Option<Rearm>): Endpoint
    requires 0 < v.maxPacket
  {
    var cleared := v.(word := ClearedWord(v.word));
    var after := if rearm.Some? then SetNewBuffer(cleared, rearm.value) else cleared;
    if after.word.nump == 0 then after.(addr := 0) else after
  }

  // ------------------------------------------------------------ conservation

  /** A burst is armed: what remains is the packets left, all full but the last of length `last`. */
  ghost predicate Armed(v: Endpoint, last: nat)
  {
    && 1 <= v.bursts <= v.maxBurst && v.bursts == v.word.nump
    && last <= v.maxPacket && v.remaining == (v.bursts - 1) * v.maxPacket + last
    && v.word.len == last && v.word.status == ACK && v.word.endOfBurst
  }

  ghost predicate Idle(v: Endpoint)
  {
    Cleared(v.word) && v.remaining == 0
  }

  /** The packets of a transfer of any size up to the maximum burst. */
  lemma SplitSize(size: nat, m: nat, maxBurst: nat)
    requires 0 < m && maxBurst < 256 && 0 < maxBurst && size <= maxBurst * m
    ensures
      var n, last := NumPackets(size, m), LastPacket(size, m);
      && 1 <= n <= maxBurst && last <= m && (0 < size ==> 0 < last) && size == (n - 1) * m + last
  {
    var q, r := size / m, size % m;
    assert size == q * m + r;
    QuotientBound(q, r, m, maxBurst);
    assert (q - 1) * m == q * m - m;
  }

  lemma QuotientBound(q: nat, r: nat, m: nat, max: nat)
    requires r < m && q * m + r <= max * m
    ensures q < max || (q == max && r == 0)
  {
    assert (max - q) * m >= r;
    MulAtLeast(max - q, m);
  }

  /** tx_ready on an idle endpoint arms the whole transfer. */
  lemma ReadyArms(v: Endpoint, r: Rearm)
    requires Configured(v) && Cleared(v.word) && Accepted(v, r)
    ensures
      var v' := SetNewBuffer(v, r);
      Armed(v', LastPacket(r.size, v.maxPacket)) && v'.remaining == r.size && v'.addr == r.ptr
  {
    SplitSize(r.size, v.maxPacket, v.maxBurst);
  }

  /** Draining k of n packets leaves the other n - k, and nothing once all are gone. */
  lemma {:induction false} DrainPackets(n: nat, last: nat, m: nat, k: nat)
    requires 0 < last <= m && k <= n && 1 <= n
    ensures Drain((n - 1) * m + last, k, m) == if k < n then (n - k - 1) * m + last else 0
    decreases k
  {
    if k > 0 {
      if n == 1 {
        assert (n - 1) * m == 0;
      } else {
        MulAtLeast(n - 1, m);
        assert (n - 1) * m - m == (n - 2) * m;
        DrainPackets(n - 1, last, m, k - 1);
      }
    }
  }

  /** The length programmed again is the original last length. */
  lemma RearmLengthIsLast(n: nat, last: nat, m: nat)
    requires 0 < last <= m && 1 <= n
    ensures RearmLength((n - 1) * m + last, n, m) == last
  {
    assert n * m == (n - 1) * m + m;
  }

  /** The hardware has let the host take `k` of the packets offered; of the rest of the control
      word nothing is known. */
  ghost predicate Taken(v: Endpoint, w: Endpoint, k: nat)
  {
    w == v.(word := w.word) && k <= v.bursts && w.word.nump == v.bursts - k
  }

  /** What is left after `k` of `n` packets: the other packets, and a positive number of bytes. */
  lemma LeftAfter(n: nat, last: nat, m: nat, k: nat)
    requires 0 < last <= m && k < n
    ensures
      var left := (n - k - 1) * m + last;
      && Drain((n - 1) * m + last, k, m) == left && 0 < left == (n - 1) * m + last - k * m
      && RearmLength(left, n - k, m) == last
  {
    DrainPackets(n, last, m, k);
    assert (n - k - 1) * m == (n - 1) * m - k * m;
    MulAtLeast(n - k - 1, m);
    RearmLengthIsLast(n - k, last, m);
  }

  /** The handler's second branch, with the rest of the burst offered again. */
  function Reoffered(w: Endpoint, left: nat, offer: nat, last: nat): Endpoint
  {
    w.(remaining := left, bursts := offer, word := Offering(w.word, offer, last))
  }

  lemma HandlerReoffers(w: Endpoint, left: nat, last: nat, rearm: Option<Rearm>)
    requires 0 < w.maxPacket && last < 0x800 && 0 < left
    requires w.word.nump <= w.maxBurst && w.word.nump <= w.bursts < 256
    requires Drain(w.remaining, w.bursts - w.word.nump, w.maxPacket) == left
    requires RearmLength(left, w.word.nump, w.maxPacket) == last
    ensures !Completes(w) && Rearmable(w) && Offer(w) == w.word.nump
    ensures InHandler(w, rearm) == Reoffered(w, left, w.word.nump, last)
  {
    assert Sent(w) == w.bursts - w.word.nump;
  }

  /** A partial acceptance moves k packets and arms the rest: same last length, no clamp. */
  lemma PartialAcceptance(v: Endpoint, w: Endpoint, last: nat, k: nat, rearm: Option<Rearm>)
    requires Configured(v) && Armed(v, last) && 0 < last && Taken(v, w, k) && k < v.bursts
    ensures !Completes(w) && Rearmable(w) && Offer(w) == w.word.nump
    ensures
      var v' := InHandler(w, rearm);
      && Armed(v', last) && v'.bursts == v.bursts - k && v'.word.seqNum == w.word.seqNum
      && v'.remaining == v.remaining - k * v.maxPacket
      && v' == v.(word := v'.word, remaining := v'.remaining, bursts := v'.bursts)
  {
    LeftAfter(v.bursts, last, v.maxPacket, k);
    HandlerReoffers(w, (v.bursts - k - 1) * v.maxPacket + last, last, rearm);
  }

  /** Once every packet is taken the transfer completes; a buffer handed in by tx_complete is armed
      when the handler returns, and without one the endpoint is idle. */
  lemma FullAcceptance(v: Endpoint, w: Endpoint, last: nat, rearm: Option<Rearm>)
    requires Configured(v) && Armed(v, last) && Taken(v, w, v.bursts)
    requires 0 < last || v.remaining == 0
    ensures Completes(w)
    ensures
      var v' := InHandler(w, rearm);
      && v'.word.seqNum == w.word.seqNum
      && if rearm.Some? && Accepted(v, rearm.value) then
        && Armed(v', LastPacket(rearm.value.size, v.maxPacket))
        && v'.remaining == rearm.value.size && v'.addr == rearm.value.ptr && v'.buffer == rearm.value.ptr
      else Idle(v') && v'.addr == 0
  {
    AllTaken(v, w, last);
    if rearm.Some? && Accepted(v, rearm.value) {
      ReadyArms(w.(remaining := 0, word := ClearedWord(w.word)), rearm.value);
    }
  }

  lemma AllTaken(v: Endpoint, w: Endpoint, last: nat)
    requires Configured(v) && Armed(v, last) && Taken(v, w, v.bursts)
    requires 0 < last || v.remaining == 0
    ensures Completes(w)
  {
    assert Sent(w) == v.bursts;
    if 0 < last {
      DrainPackets(v.bursts, last, v.maxPacket, v.bursts);
    } else {
      DrainZero(v.bursts, v.maxPacket);
    }
  }

  lemma {:induction false} DrainZero(k: nat, m: nat)
    requires 0 < m
    ensures Drain(0, k, m) == 0
    decreases k
  {
    if k > 0 {
      DrainZero(k - 1, m);
    }
  }

  // ------------------------------------------------------------ runs

  /** A transfer: its size and the bytes of it that the host has taken. */
  datatype Transfer = Transfer(size: nat, moved: nat)

  /** `started` holds the size of each accepted buffer, `finished` one entry for each tx_complete. */
  datatype State = State(v: Endpoint, started: seq<nat>, current: Option<Transfer>, finished: seq<Transfer>)

  datatype Action = NewTransfer(r: Rearm) | HostTakes(k: nat, word: Fields, rearm: Option<Rearm>)

  /** Bytes in the first `k` packets of an armed burst. */
  function BytesTaken(v: Endpoint, k: nat): nat
  {
    if k < v.bursts then k * v.maxPacket else v.remaining
  }

  function Start(s: State, r: Option<Rearm>): State
  {
    if r.Some? && Accepted(s.v, r.value) then
      s.(started := s.started + [r.value.size], current := Some(Transfer(r.value.size, 0)))
    else s.(current := None)
  }

  ghost function Step(s: State, a: Action): State
    requires Enabled(s, a)
  {
    match a
    case NewTransfer(r) => Start(s, Some(r)).(v := SetNewBuffer(s.v, r))
    case HostTakes(k, word, rearm) =>
      var w := s.v.(word := word);
      var t := s.current.value.(moved := s.current.value.moved + BytesTaken(s.v, k));
      var s' := if Completes(w) then Start(s.(finished := s.finished + [t]), rearm) else s.(current := Some(t));
      s'.(v := InHandler(w, rearm))
  }

  /** Buffers are handed in while no transfer is active. The host takes at most what is offered, and
      at least the packet of an empty transfer. */
  ghost predicate Enabled(s: State, a: Action)
  {
    Configured(s.v) &&
    match a
    case NewTransfer(r) => s.current.None? && Cleared(s.v.word)
    case HostTakes(k, word, _) =>
      && s.current.Some? && Taken(s.v, s.v.(word := word), k) && (s.current.value.size == 0 ==> k == 1)
      && (!Completes(s.v.(word := word)) ==> Rearmable(s.v.(word := word)))
  }

  ghost predicate Inv(s: State)
  {
    && Configured(s.v)
    && (s.current.None? ==> Idle(s.v))
    && (s.current.Some? ==> Active(s.v, s.current.value))
    && |s.started| == |s.finished| + (if s.current.Some? then 1 else 0)
    && (forall i :: 0 <= i < |s.finished| ==> s.finished[i] == Transfer(s.started[i], s.started[i]))
    && (s.current.Some? ==> s.started[|s.finished|] == s.current.value.size)
  }

  /** Conservation: what the host has and what remains is the transfer; the burst that is armed is
      the remaining packets with the last length of the transfer. */
  ghost predicate Active(v: Endpoint, t: Transfer)
    requires 0 < v.maxPacket
  {
    && t.moved + v.remaining == t.size
    && Armed(v, LastPacket(t.size, v.maxPacket))
    && (t.size == 0 ==> v.bursts == 1)
    && (0 < t.size ==> 0 < LastPacket(t.size, v.maxPacket))
  }

  lemma FreshIsActive(v: Endpoint, v': Endpoint, size: nat)
    requires Configured(v) && v'.maxPacket == v.maxPacket && v'.maxBurst == v.maxBurst && size <= v.maxPacketWithBurst
    requires Armed(v', LastPacket(size, v.maxPacket)) && v'.remaining == size
    ensures Active(v', Transfer(size, 0))
  {
    SplitSize(size, v.maxPacket, v.maxBurst);
    if size == 0 {
      MulAtLeast(v'.bursts - 1, v.maxPacket);
    }
  }

  lemma NewKeepsInv(s: State, r: Rearm)
    requires Inv(s) && Enabled(s, NewTransfer(r))
    ensures Inv(Step(s, NewTransfer(r)))
  {
    if Accepted(s.v, r) {
      ReadyArms(s.v, r);
      FreshIsActive(s.v, SetNewBuffer(s.v, r), r.size);
    }
  }

  lemma PartialKeepsInv(s: State, k: nat, word: Fields, rearm: Option<Rearm>)
    requires Inv(s) && Enabled(s, HostTakes(k, word, rearm)) && k < s.v.bursts
    ensures Inv(Step(s, HostTakes(k, word, rearm)))
  {
    var t := s.current.value;
    PartialAcceptance(s.v, s.v.(word := word), LastPacket(t.size, s.v.maxPacket), k, rearm);
  }

  lemma FullIsActive(v: Endpoint, w: Endpoint, t: Transfer, r: Rearm)
    requires Configured(v) && Active(v, t) && Taken(v, w, v.bursts) && Accepted(v, r)
    ensures Completes(w) && Active(InHandler(w, Some(r)), Transfer(r.size, 0)) && Configured(InHandler(w, Some(r)))
  {
    FullAcceptance(v, w, LastPacket(t.size, v.maxPacket), Some(r));
    FreshIsActive(v, InHandler(w, Some(r)), r.size);
  }

  lemma FullIsIdle(v: Endpoint, w: Endpoint, t: Transfer, rearm: Option<Rearm>)
    requires Configured(v) && Active(v, t) && Taken(v, w, v.bursts)
    requires rearm.None? || !Accepted(v, rearm.value)
    ensures Completes(w) && Idle(InHandler(w, rearm)) && Configured(InHandler(w, rearm))
  {
    FullAcceptance(v, w, LastPacket(t.size, v.maxPacket), rearm);
  }

  lemma FullKeepsInv(s: State, word: Fields, rearm: Option<Rearm>)
    requires Inv(s) && Enabled(s, HostTakes(s.v.bursts, word, rearm))
    ensures Inv(Step(s, HostTakes(s.v.bursts, word, rearm)))
  {
    var w, t := s.v.(word := word), s.current.value;
    if rearm.Some? && Accepted(s.v, rearm.value) {
      FullIsActive(s.v, w, t, rearm.value);
    } else {
      FullIsIdle(s.v, w, t, rearm);
    }
  }

  /** Every run of IN bursts keeps the conservation law, and no event is ever refused. */
  lemma StepKeepsInv(s: State, a: Action)
    requires Inv(s) && Enabled(s, a)
    ensures Inv(Step(s, a))
  {
    match a
    case NewTransfer(r) => NewKeepsInv(s, r);
    case HostTakes(k, word, rearm) =>
      if k < s.v.bursts {
        PartialKeepsInv(s, k, word, rearm);
      } else {
        FullKeepsInv(s, word, rearm);
      }
  }

  /** The handler can always program the rest of the burst, whatever the host has taken. */
  lemma HandlerIsAlwaysSafe(s: State, k: nat, word: Fields)
    requires Inv(s) && s.current.Some? && Taken(s.v, s.v.(word := word), k) && (s.current.value.size == 0 ==> k == 1)
    ensures Enabled(s, HostTakes(k, word, None))
    ensures Completes(s.v.(word := word)) <==> k == s.v.bursts
  {
    var w, last := s.v.(word := word), LastPacket(s.current.value.size, s.v.maxPacket);
    if k < s.v.bursts {
      PartialAcceptance(s.v, w, last, k, None);
    } else {
      FullAcceptance(s.v, w, last, None);
    }
  }

  /** An idle endpoint always has the cleared word that tx_ready relies on. */
  lemma IdleEndpointIsCleared(s: State, r: Rearm)
    requires Inv(s) && s.current.None?
    ensures Enabled(s, NewTransfer(r))
  {
  }

  ghost predicate IsRun(states: seq<State>, actions: seq<Action>)
  {
    && |states| == |actions| + 1
    && Configured(states[0].v) && Cleared(states[0].v.word) && states[0].v.remaining == 0
    && states[0].started == [] && states[0].current.None? && states[0].finished == []
    && forall i :: 0 <= i < |actions| ==> Enabled(states[i], actions[i]) && states[i + 1] == Step(states[i], actions[i])
  }

  /** In every state of every run the conservation law holds, and each accepted buffer is completed
      exactly once, in order, with all its bytes taken. */
  lemma {:induction false} BurstRuns(states: seq<State>, actions: seq<Action>, i: nat)
    requires IsRun(states, actions) && i <= |actions|
    ensures Inv(states[i])
  {
    if i > 0 {
      BurstRuns(states, actions, i - 1);
      StepKeepsInv(states[i - 1], actions[i - 1]);
      assert states[i - 1 + 1] == states[i];
    }
  }

  /** The sequence number the hardware has last left in the control word. */
  function LastSequence(start: nat, actions: seq<Action>): nat
  {
    if actions == [] then start
    else
      var a := actions[|actions| - 1];
      if a.HostTakes? then a.word.seqNum else LastSequence(start, actions[..|actions| - 1])
  }

  lemma StepKeepsSequence(s: State, a: Action)
    requires Inv(s) && Enabled(s, a)
    ensures Step(s, a).v.word.seqNum == if a.HostTakes? then a.word.seqNum else s.v.word.seqNum
  {
    if a.HostTakes? {
      var w, last := s.v.(word := a.word), LastPacket(s.current.value.size, s.v.maxPacket);
      if a.k < s.v.bursts {
        PartialAcceptance(s.v, w, last, a.k, a.rearm);
      } else {
        FullAcceptance(s.v, w, last, a.rearm);
      }
    }
  }

  /** In every run the driver leaves the packet sequence number as the hardware has it: arming, offering
      again and finishing never touch it. */
  lemma {:induction false} SequenceIsKept(states: seq<State>, actions: seq<Action>, i: nat)
    requires IsRun(states, actions) && i <= |actions|
    ensures states[i].v.word.seqNum == LastSequence(states[0].v.word.seqNum, actions[..i])
  {
    if i > 0 {
      SequenceIsKept(states, actions, i - 1);
      BurstRuns(states, actions, i - 1);
      StepKeepsSequence(states[i - 1], actions[i - 1]);
      assert states[i - 1 + 1] == states[i] && actions[..i][..i - 1] == actions[..i - 1];
    }
  }

  // ------------------------------------------------------------ the driver

  class Usb3TxEndpoint {
    const maxPacket: nat
    const maxBurst: nat
    const maxPacketWithBurst: nat
    var buffer: nat
    var reg: bv32
    var addr: nat
    var remaining: nat
    var bursts: nat

    ghost function State(): Endpoint
      reads this
    {
      Endpoint(Decode(reg), addr, remaining, bursts, buffer, maxPacket, maxBurst, maxPacketWithBurst)
    }

    constructor (maxPacket: nat, maxBurst: nat, maxPacketWithBurst: nat)
      ensures Idle(State()) && this.maxPacket == maxPacket && this.maxBurst == maxBurst
      ensures this.maxPacketWithBurst == maxPacketWithBurst
    {
      this.maxPacket := maxPacket;
      this.maxBurst := maxBurst;
      this.maxPacketWithBurst := maxPacketWithBurst;
      reg := 0;
      buffer, addr, remaining, bursts := 0, 0, 0, 0;
    }

    /** usb3_endp_tx_ready */
    method EndpTxReady(size: nat)
      requires 0 < maxPacket <= 1024 && Cleared(Decode(reg)) && NumPackets(size, maxPacket) < 32
      modifies this
      ensures State() == TxReady(old(State()), size)
    {
      var total, last := CutIntoPackets(size);
      addr := buffer;
      remaining := size;
      bursts := total;
      ArmBurst(total, last);
    }

    method CutIntoPackets(size: nat) returns (total: nat, last: nat)
      requires 0 < maxPacket
      ensures total == NumPackets(size, maxPacket) && last == LastPacket(size, maxPacket) <= maxPacket
    {
      var fullPackets := size / maxPacket;
      var remainder := size % maxPacket;
      if fullPackets > 0 && remainder == 0 {
        last := maxPacket;
      } else {
        last := remainder;
      }
      total := (fullPackets + (if last != maxPacket then 1 else 0)) % 256;
    }

    method ArmBurst(nump: nat, last: nat)
      requires Cleared(Decode(reg)) && nump < 32 && last < 0x800
      modifies this`reg
      ensures Decode(reg) == Offering(Decode(old(reg)), nump, last)
    {
      InSetOnCleared(reg, true, ACK, nump, last);
      reg := InSet(reg, true, ACK, nump, last);
    }

    /** usb30_ep_in_handler */
    method EpInHandler(rearm: Option<Rearm>)
      requires Configured(State()) && (!Completes(State()) ==> Rearmable(State()))
      modifies this
      ensures State() == InHandler(old(State()), rearm)
    {
      var nump := Decode(reg).nump;
      var sent := (bursts - nump) % 256;
      TakePackets(sent);
      if remaining == 0 {
        FinishTransfer(rearm);
      } else {
        if nump > maxBurst {
          nump := maxBurst;
        }
        OfferAgain(nump);
        bursts := bursts - sent;
      }
    }

    /** All packets are gone: tx_complete, then NRDY unless new data is armed. */
    method FinishTransfer(rearm: Option<Rearm>)
      requires Configured(State()) && remaining == 0
      modifies this
      ensures State() == Finished(old(State()), rearm)
    {
      ClearKeepsSequence(reg);
      reg := Clear(reg);
      if rearm.Some? && rearm.value.size <= maxPacketWithBurst && rearm.value.ptr != 0 {
        buffer := rearm.value.ptr;
        SplitSize(rearm.value.size, maxPacket, maxBurst);
        EndpTxReady(rearm.value.size);
      }
      if Decode(reg).nump == 0 {
        addr := 0;
      }
    }

    method OfferAgain(nump: nat)
      requires nump < 32 && 0 <= RearmLength(remaining, nump, maxPacket) < 0x800
      modifies this`reg
      ensures Decode(reg) == Offering(Decode(old(reg)), nump, RearmLength(remaining, nump, maxPacket))
    {
      var last := if remaining >= nump * maxPacket then maxPacket else remaining - (nump - 1) * maxPacket;
      ClearKeepsSequence(reg);
      reg := Clear(reg);
      ArmBurst(nump, last);
    }

    /** The decrement loop of usb30_ep_in_handler. */
    method TakePackets(sent: nat)
      modifies this`remaining
      ensures remaining == Drain(old(remaining), sent, maxPacket)
    {
      for i := 0 to sent
        invariant Drain(remaining, sent - i, maxPacket) == Drain(old(remaining), sent, maxPacket)
      {
        if remaining >= maxPacket {
          remaining := remaining - maxPacket;
        } else {
          remaining := 0;
        }
      }
    }
  }
}
