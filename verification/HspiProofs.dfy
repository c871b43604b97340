/** Safety of scheduled HSPI over every interleaving of the main program and the interrupt. */
module HspiProofs {
  import opened BlockTable
  import opened Common
  import opened Pool
  import opened Hspi

  // ------------------------------------------------------------ counting references

  lemma {:induction false} CountAppend(args: seq<Option<nat>>, xs: seq<nat>, ys: seq<nat>, b: nat)
    ensures CountIn(args, xs + ys, b) == CountIn(args, xs, b) + CountIn(args, ys, b)
    decreases |ys|
  {
    if ys == [] {
      assert xs + ys == xs;
    } else {
      assert (xs + ys)[..|xs + ys| - 1] == xs + ys[..|ys| - 1];
      CountAppend(args, xs, ys[..|ys| - 1], b);
    }
  }

  lemma CountSingle(args: seq<Option<nat>>, k: nat, b: nat)
    requires k < |args|
    ensures CountIn(args, [k], b) == One(args[k], b)
  {
    assert [k][..0] == [];
  }

  /** Storing into a slot that no listed task uses changes no count. */
  lemma {:induction false} CountUpdate(args: seq<Option<nat>>, xs: seq<nat>, k: nat, v: Option<nat>, b: nat)
    requires k < |args| && k !in xs
    ensures CountIn(args[k := v], xs, b) == CountIn(args, xs, b)
    decreases |xs|
  {
    if xs != [] {
      assert xs[|xs| - 1] in xs;
      CountUpdate(args, xs[..|xs| - 1], k, v, b);
    }
  }

  lemma {:induction false} CountPositive(args: seq<Option<nat>>, xs: seq<nat>, i: nat, b: nat)
    requires i < |xs| && xs[i] < |args| && args[xs[i]] == Some(b)
    ensures CountIn(args, xs, b) >= 1
    decreases |xs|
  {
    if i < |xs| - 1 {
      CountPositive(args, xs[..|xs| - 1], i, b);
    }
  }

  // ------------------------------------------------------------ allocator calls

  lemma OwnersAfterAlloc(h: Heap, n: nat, got: Option<nat>, b: nat)
    requires got.Some? ==> got.value !in h
    ensures Owners(HeapAfterAlloc(h, n, got), b) == Owners(h, b) + One(got, b)
  {
  }

  lemma OwnersAfterTake(h: Heap, x: nat, b: nat)
    requires x in h
    ensures Owners(h[x := Run(h[x].len, h[x].owners + 1)], b) == Owners(h, b) + One(Some(x), b)
  {
  }

  lemma OwnersAfterFree(h: Heap, x: nat, b: nat)
    requires x in h && 1 <= h[x].owners
    ensures Owners(HeapAfterFree(h, x), b) == Owners(h, b) - One(Some(x), b)
  {
  }

  ghost predicate RamOk(r: Ram) { Rep(r.table, r.heap) }

  lemma RamAllocOk(r: Ram, n: nat, b: nat)
    requires RamOk(r)
    ensures
      var (r', got) := RamAlloc(r, n);
      RamOk(r') && Owners(r'.heap, b) == Owners(r.heap, b) + One(got, b)
  {
    AllocRefines(r.table, r.heap, n);
    OwnersAfterAlloc(r.heap, n, Alloc(r.table, n).1, b);
  }

  lemma RamTakeOk(r: Ram, x: nat, b: nat)
    requires RamOk(r) && CanTake(r, x)
    ensures RamOk(RamTake(r, x)) && Owners(RamTake(r, x).heap, b) == Owners(r.heap, b) + One(Some(x), b)
  {
    assert RamOk(RamTake(r, x)) by { TakeRefines(r.table, r.heap, x); }
    OwnersAfterTake(r.heap, x, b);
  }

  lemma RamFreeOk(r: Ram, x: nat, b: nat)
    requires RamOk(r) && CanFree(r, x)
    ensures RamOk(RamFree(r, x)) && Owners(RamFree(r, x).heap, b) == Owners(r.heap, b) - One(Some(x), b)
  {
    FreeRefines(r.table, r.heap, x);
    OwnersAfterFree(r.heap, x, b);
  }

  /** A buffer with a holder is live, so its release stays inside the pool. */
  lemma HeldIsLive(s: State, b: nat)
    requires Inv(s) && Held(s, b) > 0
    ensures CanFree(s.ram, b)
    ensures s.ram.heap[b].owners < 255 ==> CanTake(s.ram, b)
  {
    assert Owners(s.ram.heap, b) == Held(s, b) + s.dropped[b];
    LiveRun(s.ram.table, s.ram.heap, b);
  }

  lemma UsableIsHeld(s: State, b: nat)
    requires Usable(s, b)
    ensures Held(s, b) > 0
  {
    if b !in s.user {
      var i :| 0 <= i < |s.running| && s.running[i] < |s.args| && s.args[s.running[i]] == Some(b);
      CountPositive(s.args, s.running, i, b);
    }
  }

  // ------------------------------------------------------------ slots

  lemma NoDupInsert(xs: seq<nat>, ys: seq<nat>, k: nat)
    requires NoDup(xs + ys) && k !in xs + ys
    ensures NoDup(xs + [k] + ys)
  {
    var zs, ws := xs + [k] + ys, xs + ys;
    forall i, j | 0 <= i < j < |zs| ensures zs[i] != zs[j] {
      var i', j' := if i > |xs| then i - 1 else i, if j > |xs| then j - 1 else j;
      assert i != |xs| ==> zs[i] == ws[i'];
      assert j != |xs| ==> zs[j] == ws[j'];
    }
  }

  lemma NoDupRemove(xs: seq<nat>, ys: seq<nat>, k: nat)
    requires NoDup(xs + [k] + ys)
    ensures NoDup(xs + ys) && k !in xs + ys
  {
    var zs, ws := xs + [k] + ys, xs + ys;
    assert zs[|xs|] == k;
    forall i | 0 <= i < |ws| ensures ws[i] != k {
      var i' := if i < |xs| then i else i + 1;
      assert ws[i] == zs[i'] && (i' < |xs| || |xs| < i');
    }
    forall i, j | 0 <= i < j < |ws| ensures ws[i] != ws[j] {
      var i', j' := if i < |xs| then i else i + 1, if j < |xs| then j else j + 1;
      assert zs[i'] != zs[j'];
    }
  }

  /** Distinct numbers below n are at most n. */
  lemma {:induction false} Pigeonhole(xs: seq<nat>, n: nat)
    requires NoDup(xs) && forall k :: k in xs ==> k < n
    ensures |xs| <= n
    decreases n
  {
    if xs != [] {
      assert xs[0] in xs;
      if n - 1 in xs {
        var i :| 0 <= i < |xs| && xs[i] == n - 1;
        var ys := xs[..i] + xs[i + 1..];
        assert xs == xs[..i] + [n - 1] + xs[i + 1..];
        NoDupRemove(xs[..i], xs[i + 1..], n - 1);
        forall k | k in ys ensures k < n - 1 {
          assert k in xs;
        }
        Pigeonhole(ys, n - 1);
      } else {
        forall k | k in xs ensures k < n - 1 {
        }
        Pigeonhole(xs, n - 1);
      }
    }
  }

  /** A slot just handed out by the pool is not referred to and not leaked. */
  lemma FreshSlot(s: State)
    requires SlotsOk(s) && Get(s.inUse).1.Some?
    ensures
      var k := Get(s.inUse).1.value;
      k < s.Slots() && k !in Referred(s) && k !in s.leaked && Get(s.inUse).0 == s.inUse[k := true]
  {
  }

  /** The queue always has room for a task whose slot is not yet queued. */
  lemma QueueHasRoom(s: State, k: nat)
    requires SlotsOk(s) && k < s.Slots() && k !in s.running + s.queue
    ensures |s.running| + |s.queue| < s.Slots()
  {
    var xs := s.running + s.queue;
    TasksFit(s);
    NoDupInsert(xs, [], k);
    assert xs + [] == xs && xs + [k] + [] == xs + [k];
    Pigeonhole(xs + [k], s.Slots());
  }

  /** Slots stay consistent when the tasks and calls refer to the same slots as before. */
  lemma SlotsRearranged(s: State, t: State)
    requires SlotsOk(s) && t.inUse == s.inUse && t.leaked == s.leaked && |t.args| == |s.args|
    requires Referred(t) == Referred(s)
    ensures SlotsOk(t)
  {
  }

  // ------------------------------------------------------------ hspi_send

  lemma SendGetKeepsInv(s: State, source: Option<nat>)
    requires Inv(s) && Enabled(s, SendGet(source))
    ensures Inv(Step(s, SendGet(source)))
  {
    var t := Step(s, SendGet(source));
    if t != s {
      FreshSlot(s);
      var k, r := t.send.slot, Referred(s);
      assert r + [k] + [] == Referred(t);
      assert r + [] == r;
      NoDupInsert(r, [], k);
      forall b: nat ensures Owners(t.ram.heap, b) == Held(t, b) + t.dropped[b] {
        assert Owners(s.ram.heap, b) == Held(s, b) + s.dropped[b];
      }
    }
  }

  lemma SendSlotIsOutside(s: State)
    requires SlotsOk(s) && !s.send.NoSend?
    ensures s.send.slot < s.Slots() && s.send.slot !in s.running && s.send.slot !in s.queue
    ensures s.send.slot !in s.leaked
  {
    var k, xs := s.send.slot, s.running + s.queue + CleaningSlot(s);
    assert Referred(s) == xs + [k] + [];
    NoDupRemove(xs, [], k);
    assert k in Referred(s);
  }

  lemma SendBufferSlots(s: State)
    requires SlotsOk(s) && Enabled(s, SendBuffer)
    ensures SlotsOk(Step(s, SendBuffer))
  {
    var t, k := Step(s, SendBuffer), s.send.slot;
    if t.send.HasBuffer? {
      SlotsRearranged(s, t);
    } else {
      var xs := Referred(t);
      assert Referred(s) == xs + [k] + [] && xs + [] == xs;
      NoDupRemove(xs, [], k);
      assert forall x :: x in xs ==> x in Referred(s);
      assert forall x :: x in Referred(s) ==> x in xs || x == k;
      assert k in Referred(s);
    }
  }

  lemma SendBufferCounts(s: State, b: nat)
    requires Inv(s) && Enabled(s, SendBuffer)
    ensures
      var t := Step(s, SendBuffer);
      RamOk(t.ram) && Owners(t.ram.heap, b) == Held(t, b) + t.dropped[b]
  {
    var t, k := Step(s, SendBuffer), s.send.slot;
    assert Owners(s.ram.heap, b) == Held(s, b) + s.dropped[b];
    SendSlotIsOutside(s);
    if s.send.source.Some? {
      RamTakeOk(s.ram, s.send.source.value, b);
    } else {
      RamAllocOk(s.ram, s.packetBlocks, b);
    }
    if t.send.HasBuffer? {
      CountUpdate(s.args, s.running, k, t.args[k], b);
      CountUpdate(s.args, s.queue, k, t.args[k], b);
      CountSingle(t.args, k, b);
    }
  }

  lemma SendBufferKeepsInv(s: State)
    requires Inv(s) && Enabled(s, SendBuffer)
    ensures Inv(Step(s, SendBuffer))
  {
    SendBufferSlots(s);
    SendBufferCounts(s, 0);
    var t := Step(s, SendBuffer);
    forall b: nat ensures Owners(t.ram.heap, b) == Held(t, b) + t.dropped[b] {
      SendBufferCounts(s, b);
    }
  }

  lemma SendEnqueueKeepsInv(s: State)
    requires Inv(s) && Enabled(s, SendEnqueue)
    ensures Inv(Step(s, SendEnqueue)) && Step(s, SendEnqueue).queue == s.queue + [s.send.slot]
  {
    var t, k := Step(s, SendEnqueue), s.send.slot;
    SendSlotIsOutside(s);
    QueueHasRoom(s, k);
    SendEnqueueSlots(s);
    forall b: nat ensures Owners(t.ram.heap, b) == Held(t, b) + t.dropped[b] {
      assert Owners(s.ram.heap, b) == Held(s, b) + s.dropped[b];
      CountAppend(s.args, s.queue, [k], b);
    }
  }

  lemma SendEnqueueSlots(s: State)
    requires SlotsOk(s) && Enabled(s, SendEnqueue) && |s.queue| < s.Slots()
    ensures SlotsOk(Step(s, SendEnqueue))
  {
    var t, k := Step(s, SendEnqueue), s.send.slot;
    var front, back := s.running + s.queue, CleaningSlot(s);
    assert Referred(s) == front + back + [k] + [] && front + back + [] == front + back;
    NoDupRemove(front + back, [], k);
    NoDupInsert(front, back, k);
    assert Referred(t) == front + [k] + back;
    assert forall x :: x in Referred(t) <==> x in Referred(s);
  }

  // ------------------------------------------------------------ receive interrupt

  /** A fresh slot becomes the last task of the queue. */
  lemma SlotsWithTask(s: State, t: State, k: nat)
    requires SlotsOk(s) && k < s.Slots() && k !in Referred(s) && k !in s.leaked
    requires t.inUse == s.inUse[k := true] && t.leaked == s.leaked && |t.args| == |s.args|
    requires t.running == s.running && t.queue == s.queue + [k] && t.cleaning == s.cleaning && t.send == s.send
    ensures SlotsOk(t)
  {
    var front, back := s.running + s.queue, CleaningSlot(s) + SendSlot(s);
    assert Referred(s) == front + back;
    NoDupInsert(front, back, k);
    assert Referred(t) == front + [k] + back;
    Inserted(front, back, k);
    assert forall x :: x in Referred(t) <==> x in Referred(s) || x == k;
  }

  lemma Inserted(front: seq<nat>, back: seq<nat>, k: nat)
    ensures forall x :: x in front + [k] + back <==> x in front + back || x == k
  {
  }

  lemma QueuedIsReferred(s: State, k: nat)
    requires k !in Referred(s)
    ensures k !in s.running && k !in s.queue && k !in s.running + s.queue && k !in Pending(s)
  {
    assert forall x :: x in s.running || x in s.queue || x in SendSlot(s) ==> x in Referred(s);
  }

  lemma HandOverSlots(s: State, filled: Option<nat>)
    requires SlotsOk(s)
    ensures SlotsOk(HandOver(s, filled))
    ensures
      var slot := Get(s.inUse).1;
      slot.Some? ==>
        HandOver(s, filled) ==
        s.(inUse := s.inUse[slot.value := true], args := s.args[slot.value := filled], queue := s.queue + [slot.value])
  {
    if Get(s.inUse).1.Some? {
      FreshSlot(s);
      var k := Get(s.inUse).1.value;
      QueuedIsReferred(s, k);
      QueueHasRoom(s, k);
      SlotsWithTask(s, HandOver(s, filled), k);
    } else {
      assert Referred(HandOver(s, filled)) == Referred(s);
    }
  }

  lemma ReceiveSlots(s: State, first: bool)
    requires SlotsOk(s)
    ensures SlotsOk(ReceiveStep(s, first))
    ensures Get(s.inUse).1.Some? ==> ReceiveStep(s, first).queue == s.queue + [Get(s.inUse).1.value]
  {
    var s1, t := HandOver(s, if first then s.rx0 else s.rx1), ReceiveStep(s, first);
    HandOverSlots(s, if first then s.rx0 else s.rx1);
    assert Referred(t) == Referred(s1);
    SlotsRearranged(s1, t);
  }

  /** The buffer that moves from the receive address to the task in slot `k` keeps its reference. */
  lemma MovedToTask(s: State, k: nat, v: Option<nat>, b: nat)
    requires k < |s.args| && k !in s.running && k !in s.queue && k !in Pending(s)
    ensures
      var args := s.args[k := v];
      && CountIn(args, s.running, b) == CountIn(s.args, s.running, b)
      && CountIn(args, s.queue + [k], b) == CountIn(s.args, s.queue, b) + One(v, b)
      && CountIn(args, Pending(s), b) == CountIn(s.args, Pending(s), b)
  {
    var args := s.args[k := v];
    CountAppend(args, s.queue, [k], b);
    CountSingle(args, k, b);
    CountUpdate(s.args, s.running, k, v, b);
    CountUpdate(s.args, s.queue, k, v, b);
    CountUpdate(s.args, Pending(s), k, v, b);
  }

  /** Handing over adds one holder, or one dropped reference, for the filled buffer. */
  lemma HandOverCounts(s: State, filled: Option<nat>, b: nat)
    requires SlotsOk(s)
    ensures
      var t := HandOver(s, filled);
      Held(t, b) + t.dropped[b] == Held(s, b) + s.dropped[b] + One(filled, b)
  {
    var slot := Get(s.inUse).1;
    if slot.Some? {
      HandOverSlots(s, filled);
      FreshSlot(s);
      QueuedIsReferred(s, slot.value);
      MovedToTask(s, slot.value, filled, b);
      assert Pending(HandOver(s, filled)) == Pending(s);
    } else {
      assert (s.dropped + Bag(filled))[b] == s.dropped[b] + One(filled, b);
      assert Pending(HandOver(s, filled)) == Pending(s);
    }
  }

  lemma ReceiveCounts(s: State, first: bool, b: nat)
    requires Inv(s)
    ensures
      var t := ReceiveStep(s, first);
      RamOk(t.ram) && Owners(t.ram.heap, b) == Held(t, b) + t.dropped[b]
  {
    var filled := if first then s.rx0 else s.rx1;
    var s1, t := HandOver(s, filled), ReceiveStep(s, first);
    assert Owners(s.ram.heap, b) == Held(s, b) + s.dropped[b];
    HandOverCounts(s, filled, b);
    RamAllocOk(s.ram, s.packetBlocks, b);
    assert Held(t, b) + One(filled, b) == Held(s1, b) + One(RamAlloc(s.ram, s.packetBlocks).1, b);
  }

  lemma ReceiveKeepsInv(s: State, first: bool)
    requires Inv(s)
    ensures Inv(ReceiveStep(s, first))
  {
    ReceiveSlots(s, first);
    ReceiveCounts(s, first, 0);
    var t := ReceiveStep(s, first);
    forall b: nat ensures Owners(t.ram.heap, b) == Held(t, b) + t.dropped[b] {
      ReceiveCounts(s, first, b);
    }
    if s.send.GotSlot? && s.send.source.Some? {
      ReceiveKeepsUsable(s, first, s.send.source.value);
    }
  }

  lemma ReceiveKeepsUsable(s: State, first: bool, b: nat)
    requires SlotsOk(s) && Usable(s, b)
    ensures Usable(ReceiveStep(s, first), b)
  {
    var t := ReceiveStep(s, first);
    if b !in s.user {
      var i :| 0 <= i < |s.running| && s.running[i] < |s.args| && s.args[s.running[i]] == Some(b);
      assert Referred(s)[i] == s.running[i];
      if Get(s.inUse).1.Some? {
        FreshSlot(s);
      }
      assert t.args[t.running[i]] == Some(b);
    }
  }

  // ------------------------------------------------------------ running and freeing tasks

  lemma TakeTaskKeepsInv(s: State)
    requires Inv(s) && Enabled(s, TakeTask)
    ensures Inv(Step(s, TakeTask))
  {
    var t := Step(s, TakeTask);
    assert Referred(t) == Referred(s);
    SlotsRearranged(s, t);
    forall b: nat ensures Owners(t.ram.heap, b) == Held(t, b) + t.dropped[b] {
      assert Owners(s.ram.heap, b) == Held(s, b) + s.dropped[b];
      CountAppend(s.args, s.running, [s.queue[0]], b);
      CountAppend(s.args, [s.queue[0]], s.queue[1..], b);
      assert [s.queue[0]] + s.queue[1..] == s.queue;
    }
  }

  lemma FreeBufferSlots(s: State)
    requires SlotsOk(s) && Enabled(s, FreeBuffer)
    ensures SlotsOk(Step(s, FreeBuffer))
  {
    var t, k := Step(s, FreeBuffer), Innermost(s);
    var front, back := s.running[..|s.running| - 1], s.queue;
    assert Referred(s) == front + [k] + back;
    NoDupRemove(front, back, k);
    NoDupInsert(front + back, [], k);
    assert Referred(t) == front + back + [k] + [] && front + back + [] == front + back;
    assert forall x :: x in Referred(t) <==> x in Referred(s);
  }

  lemma FreeBufferKeepsInv(s: State)
    requires Inv(s) && Enabled(s, FreeBuffer)
    ensures Inv(Step(s, FreeBuffer))
  {
    var t, k := Step(s, FreeBuffer), Innermost(s);
    FreeBufferSlots(s);
    if s.args[k].Some? {
      RamFreeOk(s.ram, s.args[k].value, 0);
    }
    forall b: nat ensures Owners(t.ram.heap, b) == Held(t, b) + t.dropped[b] {
      assert Owners(s.ram.heap, b) == Held(s, b) + s.dropped[b];
      if s.args[k].Some? {
        RamFreeOk(s.ram, s.args[k].value, b);
      }
    }
  }

  lemma FreeSlotKeepsInv(s: State)
    requires Inv(s) && Enabled(s, FreeSlot)
    ensures Inv(Step(s, FreeSlot))
  {
    var t, k := Step(s, FreeSlot), s.cleaning.value;
    var xs := s.running + s.queue;
    assert Referred(s) == xs + [k] + [] && Referred(t) == xs + [] == xs;
    NoDupRemove(xs, [], k);
    assert k in Referred(s);
    assert forall x :: x in Referred(s) <==> x in Referred(t) || x == k;
    forall b: nat ensures Owners(t.ram.heap, b) == Held(t, b) + t.dropped[b] {
      assert Owners(s.ram.heap, b) == Held(s, b) + s.dropped[b];
    }
  }

  // ------------------------------------------------------------ the application

  lemma UserKeepsInv(s: State, a: Action)
    requires Inv(s) && Enabled(s, a) && (a.UserAlloc? || a.UserTake? || a.UserFree?)
    ensures Inv(Step(s, a))
  {
    var t := Step(s, a);
    assert Referred(t) == Referred(s);
    SlotsRearranged(s, t);
    UserCounts(s, a, 0);
    forall b: nat ensures Owners(t.ram.heap, b) == Held(t, b) + t.dropped[b] {
      UserCounts(s, a, b);
    }
  }

  lemma UserCounts(s: State, a: Action, b: nat)
    requires Inv(s) && Enabled(s, a) && (a.UserAlloc? || a.UserTake? || a.UserFree?)
    ensures
      var t := Step(s, a);
      RamOk(t.ram) && Owners(t.ram.heap, b) == Held(t, b) + t.dropped[b]
  {
    assert Owners(s.ram.heap, b) == Held(s, b) + s.dropped[b];
    match a
    case UserAlloc(n) => UserAllocCounts(s, n, b);
    case UserTake(x) => UserTakeCounts(s, x, b);
    case UserFree(x) => UserFreeCounts(s, x, b);
  }

  lemma UserAllocCounts(s: State, n: nat, b: nat)
    requires RamOk(s.ram) && Owners(s.ram.heap, b) == Held(s, b) + s.dropped[b]
    ensures
      var (ram, got) := RamAlloc(s.ram, n);
      var t := s.(ram := ram, user := s.user + Bag(got));
      RamOk(ram) && Owners(ram.heap, b) == Held(t, b) + t.dropped[b]
  {
    RamAllocOk(s.ram, n, b);
  }

  lemma UserTakeCounts(s: State, x: nat, b: nat)
    requires RamOk(s.ram) && Owners(s.ram.heap, b) == Held(s, b) + s.dropped[b] && CanTake(s.ram, x)
    ensures
      var t := s.(ram := RamTake(s.ram, x), user := s.user + multiset{x});
      RamOk(t.ram) && Owners(t.ram.heap, b) == Held(t, b) + t.dropped[b]
  {
    RamTakeOk(s.ram, x, b);
  }

  lemma UserFreeCounts(s: State, x: nat, b: nat)
    requires RamOk(s.ram) && Owners(s.ram.heap, b) == Held(s, b) + s.dropped[b]
    requires CanFree(s.ram, x) && x in s.user
    ensures
      var t := s.(ram := RamFree(s.ram, x), user := s.user - multiset{x});
      RamOk(t.ram) && Owners(t.ram.heap, b) == Held(t, b) + t.dropped[b]
  {
    RamFreeOk(s.ram, x, b);
  }

  lemma FourAllocs(r: Ram, n: nat, b: nat)
    requires RamOk(r)
    ensures
      var (r0, w) := RamAlloc(r, n);
      var (r1, x) := RamAlloc(r0, n);
      var (r2, y) := RamAlloc(r1, n);
      var (r3, z) := RamAlloc(r2, n);
      && RamOk(r3)
      && Owners(r3.heap, b) == Owners(r.heap, b) + One(w, b) + One(x, b) + One(y, b) + One(z, b)
  {
    var (r0, _) := RamAlloc(r, n);
    var (r1, _) := RamAlloc(r0, n);
    var (r2, _) := RamAlloc(r1, n);
    RamAllocOk(r, n, b);
    RamAllocOk(r0, n, b);
    RamAllocOk(r1, n, b);
    RamAllocOk(r2, n, b);
  }

  lemma ReplacedCounts(s: State, r: Ram, w: Option<nat>, x: Option<nat>, tx: multiset<nat>, gone: multiset<nat>, b: nat)
    requires s.running == [] && s.queue == [] && s.send.NoSend?
    requires gone[b] == One(s.rx0, b) + One(s.rx1, b) + s.tx[b]
    ensures
      var t := Replaced(s, r, w, x, tx, gone);
      Held(t, b) + t.dropped[b] == Held(s, b) + s.dropped[b] + One(w, b) + One(x, b) + tx[b]
  {
    var t := Replaced(s, r, w, x, tx, gone);
    assert t.dropped[b] == s.dropped[b] + gone[b];
    assert Pending(t) == Pending(s);
  }

  lemma BagPair(x: Option<nat>, y: Option<nat>, b: nat)
    ensures (Bag(x) + Bag(y))[b] == One(x, b) + One(y, b)
  {
  }

  lemma ReinitCounts(s: State, b: nat)
    requires Inv(s) && Enabled(s, Reinit)
    ensures
      var t := Rearmed(s);
      RamOk(t.ram) && Owners(t.ram.heap, b) == Held(t, b) + t.dropped[b]
  {
    assert Owners(s.ram.heap, b) == Held(s, b) + s.dropped[b];
    var n := s.packetBlocks;
    FourAllocs(s.ram, n, b);
    var (r0, w) := RamAlloc(s.ram, n);
    var (r1, x) := RamAlloc(r0, n);
    var (r2, y) := RamAlloc(r1, n);
    var (r3, z) := RamAlloc(r2, n);
    BagPair(y, z, b);
    BagPair(s.rx0, s.rx1, b);
    var gone := Bag(s.rx0) + Bag(s.rx1) + s.tx;
    assert gone[b] == (Bag(s.rx0) + Bag(s.rx1))[b] + s.tx[b];
    ReplacedCounts(s, r3, w, x, Bag(y) + Bag(z), gone, b);
  }

  lemma ReinitKeepsInv(s: State)
    requires Inv(s) && Enabled(s, Reinit)
    ensures Inv(Step(s, Reinit))
  {
    var t := Rearmed(s);
    assert Referred(t) == [];
    ReinitCounts(s, 0);
    forall b: nat ensures Owners(t.ram.heap, b) == Held(t, b) + t.dropped[b] {
      ReinitCounts(s, b);
    }
  }

  // ------------------------------------------------------------ runs

  lemma StepKeepsInv(s: State, a: Action)
    requires Inv(s) && Enabled(s, a)
    ensures Inv(Step(s, a))
  {
    match a
    case SendGet(source) => SendGetKeepsInv(s, source);
    case SendBuffer => SendBufferKeepsInv(s);
    case SendEnqueue => SendEnqueueKeepsInv(s);
    case Receive(first) => ReceiveKeepsInv(s, first);
    case TakeTask => TakeTaskKeepsInv(s);
    case FreeBuffer => FreeBufferKeepsInv(s);
    case FreeSlot => FreeSlotKeepsInv(s);
    case UserAlloc(_) => UserKeepsInv(s, a);
    case UserTake(_) => UserKeepsInv(s, a);
    case UserFree(_) => UserKeepsInv(s, a);
    case Reinit => ReinitKeepsInv(s);
  }

  /** Before hspi_init: an empty allocator, and nothing in use. */
  function Blank(num: nat, slots: nat, packetBlocks: nat): State
  {
    State(Ram(EmptyTable(num), map[]), packetBlocks, seq(slots, _ => false), seq(slots, _ => None), [], [], None,
          NoSend, multiset{}, None, None, multiset{}, multiset{}, {})
  }

  /** A run starts with hspi_init, which allocates and arms as hspi_reinit_buffers does. */
  ghost predicate IsRun(states: seq<State>, actions: seq<Action>)
  {
    && |states| == |actions| + 1
    && (exists num: nat, slots: nat, n: nat :: num < 256 && states[0] == Rearmed(Blank(num, slots, n)))
    && forall i :: 0 <= i < |actions| ==> Enabled(states[i], actions[i]) && states[i + 1] == Step(states[i], actions[i])
  }

  lemma BlankInv(num: nat, slots: nat, packetBlocks: nat)
    requires num < 256
    ensures Inv(Blank(num, slots, packetBlocks))
  {
    EmptyRep(num);
  }

  lemma {:induction false} RunKeepsInv(states: seq<State>, actions: seq<Action>, i: nat)
    requires IsRun(states, actions) && i <= |actions|
    ensures Inv(states[i])
  {
    if i == 0 {
      var num: nat, slots: nat, n: nat :| num < 256 && states[0] == Rearmed(Blank(num, slots, n));
      BlankInv(num, slots, n);
      ReinitKeepsInv(Blank(num, slots, n));
    } else {
      RunKeepsInv(states, actions, i - 1);
      StepKeepsInv(states[i - 1], actions[i - 1]);
      assert states[i - 1 + 1] == states[i];
    }
  }

  /** In every state of every interleaving the reference count of each buffer is at least its number
      of holders, exactly that number plus the references dropped, and a new allocation of any size
      touches no block of a buffer that somebody holds. */
  lemma BufferSafety(states: seq<State>, actions: seq<Action>, i: nat, b: nat, n: nat)
    requires IsRun(states, actions) && i <= |actions|
    ensures Owners(states[i].ram.heap, b) == Held(states[i], b) + states[i].dropped[b]
    ensures
      var s := states[i];
      var got := RamAlloc(s.ram, n).1;
      Held(s, b) > 0 && got.Some? ==>
        b in s.ram.heap && (b + s.ram.heap[b].len <= got.value || got.value + n <= b)
  {
    RunKeepsInv(states, actions, i);
    var s := states[i];
    assert Owners(s.ram.heap, b) == Held(s, b) + s.dropped[b];
    AllocRefines(s.ram.table, s.ram.heap, n);
  }

  /** References are only dropped by a receive interrupt that finds no argument slot and by
      hspi_reinit_buffers. */
  lemma DropsOnlyWhenExhausted(s: State, a: Action)
    requires Inv(s) && Enabled(s, a) && Step(s, a).dropped != s.dropped
    ensures a.Reinit? || (a.Receive? && Get(s.inUse).1.None?)
  {
    if a.SendEnqueue? {
      SendSlotIsOutside(s);
      QueueHasRoom(s, s.send.slot);
    } else if a.Receive? && Get(s.inUse).1.Some? {
      ReceiveSlots(s, a.first);
    }
  }

  /** While the argument pool is never exhausted in the interrupt and the driver is not reinitialised,
      reference counts are exactly the numbers of holders. */
  lemma {:induction false} CountsAreExact(states: seq<State>, actions: seq<Action>, i: nat, b: nat)
    requires IsRun(states, actions) && i <= |actions|
    requires forall j :: 0 <= j < i ==> !actions[j].Reinit? && (actions[j].Receive? ==> Get(states[j].inUse).1.Some?)
    ensures Owners(states[i].ram.heap, b) == Held(states[i], b)
  {
    NothingDropped(states, actions, i);
    BufferSafety(states, actions, i, b, 0);
  }

  lemma {:induction false} NothingDropped(states: seq<State>, actions: seq<Action>, i: nat)
    requires IsRun(states, actions) && i <= |actions|
    requires forall j :: 0 <= j < i ==> !actions[j].Reinit? && (actions[j].Receive? ==> Get(states[j].inUse).1.Some?)
    ensures states[i].dropped == multiset{}
  {
    if i > 0 {
      NothingDropped(states, actions, i - 1);
      RunKeepsInv(states, actions, i - 1);
      assert states[i - 1 + 1] == states[i];
      if states[i].dropped != states[i - 1].dropped {
        DropsOnlyWhenExhausted(states[i - 1], actions[i - 1]);
      }
    }
  }

  /** Every task whose arguments got a slot is queued: the queue never overflows, even if interrupts
      come between the slot and the enqueue. */
  lemma QueueNeverOverflows(states: seq<State>, actions: seq<Action>, i: nat)
    requires IsRun(states, actions) && i < |actions|
    ensures
      var s, t := states[i], states[i + 1];
      && (actions[i].SendEnqueue? ==> t.queue == s.queue + [s.send.slot])
      && (actions[i].Receive? && Get(s.inUse).1.Some? ==> t.queue == s.queue + [Get(s.inUse).1.value])
      && |s.running| + |s.queue| <= s.Slots()
  {
    var s := states[i];
    RunKeepsInv(states, actions, i);
    if actions[i].SendEnqueue? {
      SendEnqueueKeepsInv(s);
    } else if actions[i].Receive? {
      ReceiveSlots(s, actions[i].first);
    }
    TasksFit(s);
  }

  /** The tasks running and queued occupy distinct slots. */
  lemma TasksFit(s: State)
    requires SlotsOk(s)
    ensures NoDup(s.running + s.queue) && forall x :: x in s.running + s.queue ==> x < s.Slots()
    ensures |s.running| + |s.queue| <= s.Slots()
  {
    var xs := s.running + s.queue;
    assert forall i :: 0 <= i < |xs| ==> xs[i] == Referred(s)[i];
    forall x | x in xs ensures x < s.Slots() {
      var i :| 0 <= i < |xs| && xs[i] == x;
      assert Referred(s)[i] in Referred(s);
    }
    Pigeonhole(xs, s.Slots());
  }

  /** No step of the driver ever frees or shares a buffer that is not live: the allocator's own
      preconditions hold in every reachable state, as long as counts stay below 255. */
  lemma DriverUsesLiveBuffers(s: State)
    requires Inv(s)
    ensures s.running != [] && Innermost(s) < |s.args| && s.args[Innermost(s)].Some? ==>
              CanFree(s.ram, s.args[Innermost(s)].value)
    ensures s.send.GotSlot? && s.send.source.Some? ==>
              var b := s.send.source.value; b in s.ram.heap && (s.ram.heap[b].owners < 255 ==> CanTake(s.ram, b))
    ensures forall b :: b in s.user ==> CanFree(s.ram, b)
  {
    if s.running != [] && Innermost(s) < |s.args| && s.args[Innermost(s)].Some? {
      var b := s.args[Innermost(s)].value;
      CountPositive(s.args, s.running, |s.running| - 1, b);
      HeldIsLive(s, b);
    }
    if s.send.GotSlot? && s.send.source.Some? {
      UsableIsHeld(s, s.send.source.value);
      HeldIsLive(s, s.send.source.value);
    }
    forall b | b in s.user ensures CanFree(s.ram, b) {
      HeldIsLive(s, b);
    }
  }

  // ------------------------------------------------------------ the packet header

  /** _hspi_send: size and custom register share the 26-bit user-defined field. */
  function PackHeader(size: bv32, custom: bv32): bv32
  {
    ((size & 0x1fff) | ((custom << 13) & !0x1fff)) & 0x03ff_ffff
  }

  /** HSPI_IRQHandler: the size and the custom register of a received header. */
  function UnpackSize(udf: bv32): bv32 { (udf & 0x03ff_ffff) & 0x1fff }

  function UnpackCustom(udf: bv32): bv32 { (udf & 0x03ff_ffff) >> 13 }

  lemma ThirteenBits(x: bv32)
    requires x < 0x2000
    ensures x & 0x1fff == x
  {
  }

  lemma MoreThanThirteenBits(x: bv32)
    requires x & 0x1fff == x
    ensures x < 0x2000
  {
  }

  lemma Unpacked(size: bv32, custom: bv32)
    ensures UnpackSize(PackHeader(size, custom)) == size & 0x1fff
    ensures UnpackCustom(PackHeader(size, custom)) == custom & 0x1fff
  {
  }

  /** The size is below, the custom register above bit 13, and nothing else is in the 26 bits. */
  lemma HeaderLayout(size: bv32, custom: bv32)
    ensures PackHeader(size, custom) == (custom % 0x2000) * 0x2000 + size % 0x2000
  {
  }

  /** The receiver reads both numbers cut to 13 bits: they survive exactly when both are below 0x2000. */
  lemma HeaderRoundTrip(size: bv32, custom: bv32)
    ensures
      var udf := PackHeader(size, custom);
      UnpackSize(udf) == size && UnpackCustom(udf) == custom <==> size < 0x2000 && custom < 0x2000
  {
    Unpacked(size, custom);
    if size & 0x1fff == size {
      MoreThanThirteenBits(size);
    }
    if custom & 0x1fff == custom {
      MoreThanThirteenBits(custom);
    }
    if size < 0x2000 && custom < 0x2000 {
      ThirteenBits(size);
      ThirteenBits(custom);
    }
  }
}
