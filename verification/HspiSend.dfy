/**
 What the steps of the HSPI driver achieve: hspi_send puts its task into the queue unless a resource
 is exhausted, whatever receive interrupts come in between, and every receive arms a new buffer.
 */
module HspiSend {
  import opened BlockTable
  import opened Common
  import opened Pool
  import opened Hspi
  import opened HspiProofs
  import opened HspiLeaks

  /** The receive interrupts that come between two steps, for the first or the second buffer. */
  ghost function Receives(s: State, firsts: seq<bool>): (t: State)
    requires |s.args| == s.Slots()
    ensures |t.args| == t.Slots() == s.Slots()
  {
    if firsts == [] then s
    else ReceiveStep(Receives(s, firsts[..|firsts| - 1]), firsts[|firsts| - 1])
  }

  /** `t` differs from `s` by receives that leave the send under way alone. */
  ghost predicate SendUntouched(s: State, t: State)
  {
    && Inv(t) && t.send == s.send && t.packetBlocks == s.packetBlocks && t.Slots() == s.Slots()
    && s.queue <= t.queue && t.cleaning == s.cleaning
    && (!s.send.NoSend? && s.send.slot < |s.args| == |t.args| ==> t.args[s.send.slot] == s.args[s.send.slot])
  }

  lemma ReceiveLeavesSend(s: State, first: bool)
    requires Inv(s)
    ensures SendUntouched(s, ReceiveStep(s, first))
  {
    ReceiveKeepsInv(s, first);
    if !s.send.NoSend? {
      SendSlotInUse(s);
    }
    if Get(s.inUse).1.Some? {
      ReceiveSlots(s, first);
    }
  }

  lemma SendSlotInUse(s: State)
    requires SlotsOk(s) && !s.send.NoSend?
    ensures s.send.slot < s.Slots() && s.inUse[s.send.slot]
  {
    var xs := s.running + s.queue + CleaningSlot(s);
    assert Referred(s) == xs + [s.send.slot];
    assert s.send.slot in Referred(s);
  }

  lemma {:induction false} ReceivesLeaveSend(s: State, firsts: seq<bool>)
    requires Inv(s)
    ensures SendUntouched(s, Receives(s, firsts))
    decreases |firsts|
  {
    if firsts != [] {
      var m := |firsts| - 1;
      ReceivesLeaveSend(s, firsts[..m]);
      ReceiveLeavesSend(Receives(s, firsts[..m]), firsts[m]);
    }
  }

  /** hspi_send is refused at once exactly when all slots are in use; else it takes a free one. */
  lemma SendStarts(s: State, source: Option<nat>)
    requires Inv(s) && Enabled(s, SendGet(source))
    ensures
      var t := Step(s, SendGet(source));
      && Inv(t)
      && (t.send.GotSlot? <==> exists k :: 0 <= k < s.Slots() && !s.inUse[k])
      && (!t.send.GotSlot? ==> t == s)
      && (t.send.GotSlot? ==>
            && t.send.source == source && t.send.slot < s.Slots() && !s.inUse[t.send.slot]
            && t == s.(inUse := s.inUse[t.send.slot := true], send := t.send))
  {
    SendGetKeepsInv(s, source);
    var t := Step(s, SendGet(source));
    if t.send.GotSlot? {
      assert t.inUse == s.inUse[t.send.slot := true];
    }
  }

  /** The buffer a send without a failure ends up with: the caller's, or the first fit. */
  ghost predicate SendsBuffer(s: State, source: Option<nat>, buffer: Option<nat>)
  {
    buffer.Some? &&
    if source.Some? then buffer == source
    else IsFirstFit(s.ram.heap, |s.ram.table.len|, s.packetBlocks, buffer)
  }

  /** The arguments are filled unless the send fails for want of a buffer. */
  lemma SendFills(s: State)
    requires Inv(s) && Enabled(s, SendBuffer)
    ensures
      var t := Step(s, SendBuffer);
      && Inv(t) && t.queue == s.queue
      && (FailedSend(s, SendBuffer) ==> t.send.NoSend?)
      && (!FailedSend(s, SendBuffer) ==>
            && t.send == HasBuffer(s.send.slot) && s.send.slot < |t.args|
            && SendsBuffer(s, s.send.source, t.args[s.send.slot]))
  {
    SendBufferKeepsInv(s);
    NoWindow(s.ram, s.packetBlocks);
    AllocRefines(s.ram.table, s.ram.heap, s.packetBlocks);
  }

  /** The task goes to the end of the queue. */
  lemma SendQueues(s: State)
    requires Inv(s) && Enabled(s, SendEnqueue)
    ensures
      var t := Step(s, SendEnqueue);
      && Inv(t) && t.queue == s.queue + [s.send.slot] && t.send.NoSend? && t.args == s.args
  {
    SendEnqueueKeepsInv(s);
    SendSlotIsOutside(s);
    QueueHasRoom(s, s.send.slot);
  }

  /** hspi_send with receives `before` and `after` the arguments are filled: the states it goes through. */
  datatype Sending = Sending(got: State, filling: State, filled: State, queueing: State, queued: State)

  ghost predicate IsSending(s: State, source: Option<nat>, before: seq<bool>, after: seq<bool>, p: Sending)
  {
    && Enabled(s, SendGet(source)) && p.got == Step(s, SendGet(source))
    && |p.got.args| == p.got.Slots() && p.filling == Receives(p.got, before)
    && Enabled(p.filling, SendBuffer) && p.filled == Step(p.filling, SendBuffer)
    && |p.filled.args| == p.filled.Slots() && p.queueing == Receives(p.filled, after)
    && (p.queueing.send.HasBuffer? ==> Enabled(p.queueing, SendEnqueue) && p.queued == Step(p.queueing, SendEnqueue))
  }

  /** The send returns an error for want of a buffer, or puts exactly one task at the end of the queue,
      behind whatever the receives have put there, with its buffer as the argument. */
  ghost predicate Outcome(s: State, source: Option<nat>, p: Sending)
  {
    && s.queue <= p.filling.queue <= p.queueing.queue
    && if FailedSend(p.filling, SendBuffer) then p.filled.send.NoSend? && p.filled.queue == p.filling.queue
       else
         p.got.send.GotSlot? &&
         var k := p.got.send.slot;
         && p.queueing.send.HasBuffer? && p.queued.queue == p.queueing.queue + [k]
         && k < |p.queued.args| && SendsBuffer(p.filling, source, p.queued.args[k]) && p.queued.send.NoSend?
  }

  lemma SendGoesThrough(s: State, source: Option<nat>, before: seq<bool>, after: seq<bool>, p: Sending)
    requires Inv(s) && IsSending(s, source, before, after, p) && p.got.send.GotSlot?
    ensures Outcome(s, source, p)
  {
    SendStarts(s, source);
    ReceivesLeaveSend(p.got, before);
    SendFills(p.filling);
    ReceivesLeaveSend(p.filled, after);
    if !FailedSend(p.filling, SendBuffer) {
      SendQueues(p.queueing);
    }
  }

  /** The steps of a send are always enabled, as long as the caller's buffer has fewer than 255 owners. */
  lemma SendIsEnabled(s: State, source: Option<nat>, before: seq<bool>, after: seq<bool>) returns (p: Sending)
    requires Inv(s) && Enabled(s, SendGet(source)) && Step(s, SendGet(source)).send.GotSlot?
    requires
      var got := Step(s, SendGet(source));
      |got.args| == got.Slots() && (source.Some? ==> Owners(Receives(got, before).ram.heap, source.value) < 255)
    ensures IsSending(s, source, before, after, p)
  {
    SendStarts(s, source);
    var got := Step(s, SendGet(source));
    ReceivesLeaveSend(got, before);
    var filling := Receives(got, before);
    SendSlotInUse(filling);
    DriverUsesLiveBuffers(filling);
    SendFills(filling);
    var filled := Step(filling, SendBuffer);
    ReceivesLeaveSend(filled, after);
    var queueing := Receives(filled, after);
    if queueing.send.HasBuffer? {
      SendSlotInUse(queueing);
      p := Sending(got, filling, filled, queueing, Step(queueing, SendEnqueue));
    } else {
      p := Sending(got, filling, filled, queueing, queueing);
    }
  }

  /** hspi_send in every reachable state: with all slots in use it is refused and changes nothing, and
      otherwise it has the outcome above, whatever receives come between its steps. */
  lemma SendAfterRun(
    states: seq<State>, actions: seq<Action>, i: nat, source: Option<nat>, before: seq<bool>, after: seq<bool>)
    returns (p: Sending)
    requires HspiProofs.IsRun(states, actions) && i <= |actions| && Enabled(states[i], SendGet(source))
    requires
      var got := Step(states[i], SendGet(source));
      |got.args| == got.Slots() &&
      (got.send.GotSlot? && source.Some? ==> Owners(Receives(got, before).ram.heap, source.value) < 255)
    ensures
      var s := states[i];
      if forall k :: 0 <= k < s.Slots() ==> s.inUse[k] then Step(s, SendGet(source)) == s
      else IsSending(s, source, before, after, p) && Outcome(s, source, p)
  {
    var s := states[i];
    RunKeepsInv(states, actions, i);
    SendStarts(s, source);
    if Step(s, SendGet(source)).send.GotSlot? {
      p := SendIsEnabled(s, source, before, after);
      SendGoesThrough(s, source, before, after, p);
    } else {
      p := Sending(s, s, s, s, s);
    }
  }

  // ------------------------------------------------------------ buffers that are armed or handed out

  /** A receive arms the first fit in place of the filled buffer, null exactly when there is none. */
  lemma ReceiveRearms(s: State, first: bool)
    requires Inv(s)
    ensures
      var t := ReceiveStep(s, first);
      && IsFirstFit(s.ram.heap, |s.ram.table.len|, s.packetBlocks, if first then t.rx0 else t.rx1)
      && (if first then t.rx1 == s.rx1 else t.rx0 == s.rx0)
  {
    HandOverArmsNothing(s, if first then s.rx0 else s.rx1);
    FirstFits(s.ram, s.packetBlocks);
  }

  lemma HandOverArmsNothing(s: State, filled: Option<nat>)
    requires |s.args| == s.Slots()
    ensures
      var t := HandOver(s, filled);
      t.ram == s.ram && t.rx0 == s.rx0 && t.rx1 == s.rx1 && t.packetBlocks == s.packetBlocks
  {
  }

  /** Initialisation frees all slots and gets four buffers, each the first fit of what is left: two are
      armed for receiving, two are for transmission. */
  lemma ReinitArms(s: State)
    requires Inv(s)
    ensures
      var t, num, n := Rearmed(s), |s.ram.table.len|, s.packetBlocks;
      && IsFirstFit(s.ram.heap, num, n, t.rx0)
      && var h1 := HeapAfterAlloc(s.ram.heap, n, t.rx0);
      && IsFirstFit(h1, num, n, t.rx1)
      && var h2 := HeapAfterAlloc(h1, n, t.rx1);
      && (exists a, b ::
            IsFirstFit(h2, num, n, a) && IsFirstFit(HeapAfterAlloc(h2, n, a), num, n, b) && t.tx == Bag(a) + Bag(b))
      && forall k :: 0 <= k < t.Slots() ==> !t.inUse[k]
  {
    var n := s.packetBlocks;
    var (r0, _) := RamAlloc(s.ram, n);
    var (r1, _) := RamAlloc(r0, n);
    var (r2, a) := RamAlloc(r1, n);
    var (r3, b) := RamAlloc(r2, n);
    FirstFits(s.ram, n);
    FirstFits(r0, n);
    FirstFits(r1, n);
    FirstFits(r2, n);
    assert Rearmed(s).tx == Bag(a) + Bag(b);
  }

  lemma FirstFits(r: Ram, n: nat)
    requires RamOk(r)
    ensures
      var (r', b) := RamAlloc(r, n);
      && RamOk(r') && |r'.table.len| == |r.table.len| && IsFirstFit(r.heap, |r.table.len|, n, b)
      && r'.heap == HeapAfterAlloc(r.heap, n, b)
  {
    AllocRefines(r.table, r.heap, n);
  }

  /** The application gets the first fit, one more owner, or one fewer. */
  lemma UserSteps(s: State, a: Action)
    requires Inv(s) && Enabled(s, a)
    ensures a.UserAlloc? ==>
              exists b :: IsFirstFit(s.ram.heap, |s.ram.table.len|, a.n, b) && Step(s, a).user == s.user + Bag(b)
    ensures a.UserTake? ==>
              Step(s, a).user == s.user + multiset{a.b}
              && Owners(Step(s, a).ram.heap, a.b) == Owners(s.ram.heap, a.b) + 1
    ensures a.UserFree? ==>
              Step(s, a).user == s.user - multiset{a.b}
              && Owners(Step(s, a).ram.heap, a.b) == Owners(s.ram.heap, a.b) - 1
  {
    match a
    case UserAlloc(n) =>
      AllocRefines(s.ram.table, s.ram.heap, n);
      var b := RamAlloc(s.ram, n).1;
      assert IsFirstFit(s.ram.heap, |s.ram.table.len|, n, b) && Step(s, a).user == s.user + Bag(b);
    case UserTake(b) => OwnersAfterTake(s.ram.heap, b, b);
    case UserFree(b) => OwnersAfterFree(s.ram.heap, b, b);
    case _ =>
  }
}
