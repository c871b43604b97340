/**
 Argument slots that hspi_send keeps when it finds no buffer for a copy. They are the only slots
 that are lost, and once all are lost the driver can neither send nor hand over what it receives.
 */
module HspiLeaks {
  import opened BlockTable
  import opened Common
  import opened Pool
  import opened Hspi
  import opened HspiProofs

  /** A send of data outside the pool that finds no window for a packet. */
  ghost predicate FailedSend(s: State, a: Action)
  {
    && a.SendBuffer? && s.send.GotSlot? && s.send.source.None?
    && (s.packetBlocks == 0 || forall i :: !Vacant(s.ram.heap, |s.ram.table.len|, i, s.packetBlocks))
  }

  /** A failed send leaks its slot, reinitialisation recovers all slots, and nothing else changes which
      slots are leaked. */
  lemma LeaksExactly(s: State, a: Action)
    requires Inv(s) && Enabled(s, a)
    ensures FailedSend(s, a) ==> s.send.slot !in s.leaked && Step(s, a).leaked == s.leaked + {s.send.slot}
    ensures a.Reinit? ==> Step(s, a).leaked == {}
    ensures !FailedSend(s, a) && !a.Reinit? ==> Step(s, a).leaked == s.leaked
  {
    match a
    case SendBuffer => SendBufferLeaks(s);
    case SendEnqueue => EnqueueLeaksNothing(s);
    case Receive(first) => ReceiveLeaksNothing(s, first);
    case _ =>
  }

  lemma SendBufferLeaks(s: State)
    requires Inv(s) && Enabled(s, SendBuffer)
    ensures s.send.slot !in s.leaked
    ensures Step(s, SendBuffer).leaked == s.leaked + (if FailedSend(s, SendBuffer) then {s.send.slot} else {})
  {
    SendSlotIsOutside(s);
    NoWindow(s.ram, s.packetBlocks);
  }

  lemma NoWindow(r: Ram, n: nat)
    requires RamOk(r)
    ensures RamAlloc(r, n).1.None? <==> n == 0 || forall i :: !Vacant(r.heap, |r.table.len|, i, n)
  {
    AllocRefines(r.table, r.heap, n);
  }

  lemma EnqueueLeaksNothing(s: State)
    requires SlotsOk(s) && s.send.HasBuffer?
    ensures s.send.slot < |s.args| && Enqueue(s, s.send.slot).leaked == s.leaked
  {
    SendSlotIsOutside(s);
    QueueHasRoom(s, s.send.slot);
  }

  lemma ReceiveLeaksNothing(s: State, first: bool)
    requires SlotsOk(s)
    ensures ReceiveStep(s, first).leaked == s.leaked
  {
    if Get(s.inUse).1.Some? {
      ReceiveSlots(s, first);
    }
  }

  /** Failed sends since the driver was last initialised. */
  ghost function FailedSends(states: seq<State>, actions: seq<Action>, i: nat): nat
    requires i <= |actions| < |states|
  {
    if i == 0 || actions[i - 1].Reinit? then 0
    else FailedSends(states, actions, i - 1) + (if FailedSend(states[i - 1], actions[i - 1]) then 1 else 0)
  }

  /** In every run the leaked slots are as many as the sends that have failed. */
  lemma {:induction false} LeaksAreFailedSends(states: seq<State>, actions: seq<Action>, i: nat)
    requires HspiProofs.IsRun(states, actions) && i <= |actions|
    ensures |states[i].leaked| == FailedSends(states, actions, i)
  {
    if i == 0 {
      StartsWithoutLeaks(states, actions);
    } else {
      LeaksAreFailedSends(states, actions, i - 1);
      RunKeepsInv(states, actions, i - 1);
      OneMoreLeak(states[i - 1], actions[i - 1]);
      assert states[i - 1 + 1] == states[i];
    }
  }

  lemma StartsWithoutLeaks(states: seq<State>, actions: seq<Action>)
    requires HspiProofs.IsRun(states, actions)
    ensures states[0].leaked == {}
  {
    var num: nat, slots: nat, n: nat :| num < 256 && states[0] == Rearmed(Blank(num, slots, n));
  }

  lemma OneMoreLeak(s: State, a: Action)
    requires Inv(s) && Enabled(s, a)
    ensures
      |Step(s, a).leaked| == if a.Reinit? then 0 else |s.leaked| + (if FailedSend(s, a) then 1 else 0)
  {
    LeaksExactly(s, a);
  }

  /** A set of `n` numbers below `n` holds all of them. */
  lemma {:induction false} FullSet(xs: set<nat>, n: nat)
    requires |xs| == n && forall x :: x in xs ==> x < n
    ensures forall x :: 0 <= x < n ==> x in xs
  {
    if n > 0 {
      if n - 1 !in xs {
        TooMany(xs, n - 1);
        assert false;
      }
      FullSet(xs - {n - 1}, n - 1);
    }
  }

  lemma {:induction false} TooMany(xs: set<nat>, n: nat)
    requires forall x :: x in xs ==> x < n
    ensures |xs| <= n
  {
    if n == 0 {
      assert xs == {};
    } else {
      TooMany(xs - {n - 1}, n - 1);
    }
  }

  /** Once as many sends have failed as there are slots, every receive drops its buffer and every send is
      refused, until the driver is initialised again. */
  lemma ExhaustedByFailedSends(states: seq<State>, actions: seq<Action>, i: nat)
    requires HspiProofs.IsRun(states, actions) && i < |actions| && FailedSends(states, actions, i) == states[i].Slots()
    ensures
      var s, t := states[i], states[i + 1];
      && s.running == s.queue == []
      && (actions[i].SendGet? ==> t == s)
      && (actions[i].Receive? ==>
            t.queue == s.queue && t.dropped == s.dropped + Bag(if actions[i].first then s.rx0 else s.rx1))
  {
    var s := states[i];
    RunKeepsInv(states, actions, i);
    LeaksAreFailedSends(states, actions, i);
    FullSet(s.leaked, s.Slots());
    assert Get(s.inUse).1.None?;
    NobodyRefers(s);
  }

  lemma NobodyRefers(s: State)
    requires SlotsOk(s) && forall k :: 0 <= k < s.Slots() ==> k in s.leaked
    ensures s.running == s.queue == []
  {
    FirstIn(Referred(s));
    assert Referred(s) == [];
  }

  lemma FirstIn(xs: seq<nat>)
    ensures xs != [] ==> xs[0] in xs
  {
  }
}
