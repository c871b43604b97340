/**
 Scheduled HSPI (hspi_scheduled/hspi_scheduled.c) as the interleaving of the main program
 and the receive interrupt over three shared structures: the argument pool, the task queue
 and the reference-counted block allocator. Every critical section is one step; the
 interrupt handler runs to completion and may come between any two steps of hspi_send, of
 running the queue or of freeing it.

 Buffers are named by their first block. A task in the queue is the slot of its arguments.
 */
module Hspi {
  import opened BlockTable
  import opened Common
  import opened Pool

  /** The allocator's table together with the heap it pictures. */
  datatype Ram = Ram(table: Table, heap: Heap)

  /** hspi_send, from the slot it got to the enqueue. The caller's buffer is in the pool or outside. */
  datatype Send = NoSend | GotSlot(slot: nat, source: Option<nat>) | HasBuffer(slot: nat)

  /** `args` gives the buffer stored in each slot, `running` the tasks being executed (innermost last),
      `cleaning` a task whose buffer is freed and whose slot is not. `user`, `rx0`, `rx1` and `tx` are
      the references of the application, of the armed receive addresses and of the unused transmit
      buffers. `dropped` and `leaked` record references and slots that nobody holds any more. */
  datatype State = State(
    ram: Ram, packetBlocks: nat,
    inUse: seq<bool>, args: seq<Option<nat>>, queue: seq<nat>,
    running: seq<nat>, cleaning: Option<nat>, send: Send,
    user: multiset<nat>, rx0: Option<nat>, rx1: Option<nat>, tx: multiset<nat>,
    dropped: multiset<nat>, leaked: set<nat>)
  {
    function Slots(): nat { |inUse| }
  }

  datatype Action =
    | SendGet(source: Option<nat>)
    | SendBuffer
    | SendEnqueue
    | Receive(first: bool)
    | TakeTask
    | FreeBuffer
    | FreeSlot
    | UserAlloc(n: nat)
    | UserTake(b: nat)
    | UserFree(b: nat)
    | Reinit

  // ------------------------------------------------------------ allocator calls

  ghost function RamAlloc(r: Ram, n: nat): (Ram, Option<nat>)
  {
    var (t, b) := Alloc(r.table, n);
    (Ram(t, HeapAfterAlloc(r.heap, n, b)), b)
  }

  ghost predicate CanTake(r: Ram, b: nat)
  {
    b in r.heap && r.heap[b].owners < 255 && b < |r.table.len| == |r.table.ref| && b + r.table.len[b] <= |r.table.len|
  }

  ghost function RamTake(r: Ram, b: nat): Ram
    requires CanTake(r, b)
  {
    Ram(Take(r.table, b), r.heap[b := Run(r.heap[b].len, r.heap[b].owners + 1)])
  }

  ghost predicate CanFree(r: Ram, b: nat)
  {
    b in r.heap && 1 <= r.heap[b].owners && b < |r.table.len| == |r.table.ref| && b + r.table.len[b] <= |r.table.len|
  }

  ghost function RamFree(r: Ram, b: nat): Ram
    requires CanFree(r, b)
  {
    Ram(Free(r.table, b), HeapAfterFree(r.heap, b))
  }

  /** Reference count of a buffer. */
  ghost function Owners(h: Heap, b: nat): nat { if b in h then h[b].owners else 0 }

  function One(o: Option<nat>, b: nat): nat { if o == Some(b) then 1 else 0 }

  function Bag(o: Option<nat>): multiset<nat> { if o.Some? then multiset{o.value} else multiset{} }

  // ------------------------------------------------------------ steps

  /** The main program is between two calls. */
  predicate MainIdle(s: State) { s.send.NoSend? && s.cleaning.None? }

  /** The application may use a buffer it owns a reference of, or one lent to a running callback. */
  ghost predicate Usable(s: State, b: nat)
  {
    b in s.user || exists i :: 0 <= i < |s.running| && s.running[i] < |s.args| && s.args[s.running[i]] == Some(b)
  }

  ghost predicate Enabled(s: State, a: Action)
  {
    match a
    case SendGet(source) => MainIdle(s) && (source.Some? ==> Usable(s, source.value))
    case SendBuffer =>
      s.send.GotSlot? && s.send.slot < |s.args| && (s.send.source.Some? ==> CanTake(s.ram, s.send.source.value))
    case SendEnqueue => s.send.HasBuffer? && s.send.slot < |s.args|
    case Receive(_) => |s.args| == s.Slots()
    case TakeTask => MainIdle(s) && s.queue != []
    case FreeBuffer =>
      MainIdle(s) && s.running != [] && Innermost(s) < |s.args| &&
      (s.args[Innermost(s)].Some? ==> CanFree(s.ram, s.args[Innermost(s)].value))
    case FreeSlot => s.cleaning.Some? && s.send.NoSend?
    case UserAlloc(n) => MainIdle(s) && n < 256
    case UserTake(b) => MainIdle(s) && Usable(s, b) && CanTake(s.ram, b)
    case UserFree(b) => MainIdle(s) && b in s.user && CanFree(s.ram, b)
    case Reinit => MainIdle(s) && s.queue == [] && s.running == []
  }

  function Innermost(s: State): nat
    requires s.running != []
  {
    s.running[|s.running| - 1]
  }

  /** hydra_interrupt_queue_set_next_task; a full queue would lose the slot and its buffer. */
  function Enqueue(s: State, slot: nat): State
    requires slot < |s.args|
  {
    if |s.queue| < s.Slots() then s.(queue := s.queue + [slot])
    else s.(leaked := s.leaked + {slot}, dropped := s.dropped + Bag(s.args[slot]))
  }

  /** The filled receive buffer moves to a task, or is dropped when there is no slot for one. */
  ghost function HandOver(s: State, filled: Option<nat>): State
    requires |s.args| == s.Slots()
  {
    var (inUse, slot) := Get(s.inUse);
    if slot.Some? then Enqueue(s.(inUse := inUse, args := s.args[slot.value := filled]), slot.value)
    else s.(dropped := s.dropped + Bag(filled))
  }

  /** HSPI_IRQHandler for one of the two receive buffers: it is handed over and a new one armed. */
  ghost function ReceiveStep(s: State, first: bool): State
    requires |s.args| == s.Slots()
  {
    var s1 := HandOver(s, if first then s.rx0 else s.rx1);
    var (ram, b) := RamAlloc(s1.ram, s.packetBlocks);
    if first then s1.(ram := ram, rx0 := b) else s1.(ram := ram, rx1 := b)
  }

  ghost function Step(s: State, a: Action): State
    requires Enabled(s, a)
  {
    match a
    case SendGet(source) =>
      var (inUse, slot) := Get(s.inUse);
      if slot.None? then s else s.(inUse := inUse, send := GotSlot(slot.value, source))
    case SendBuffer =>
      var slot := s.send.slot;
      if s.send.source.Some? then
        var b := s.send.source.value;
        s.(ram := RamTake(s.ram, b), args := s.args[slot := Some(b)], send := HasBuffer(slot))
      else
        var (ram, b) := RamAlloc(s.ram, s.packetBlocks);
        if b.None? then s.(ram := ram, send := NoSend, leaked := s.leaked + {slot})
        else s.(ram := ram, args := s.args[slot := b], send := HasBuffer(slot))
    case SendEnqueue => Enqueue(s, s.send.slot).(send := NoSend)
    case Receive(first) => ReceiveStep(s, first)
    case TakeTask => s.(running := s.running + [s.queue[0]], queue := s.queue[1..])
    case FreeBuffer =>
      var slot := Innermost(s);
      var ram := if s.args[slot].Some? then RamFree(s.ram, s.args[slot].value) else s.ram;
      s.(ram := ram, running := s.running[..|s.running| - 1], cleaning := Some(slot))
    case FreeSlot => s.(inUse := Put(s.inUse, s.cleaning.value), cleaning := None)
    case UserAlloc(n) =>
      var (ram, b) := RamAlloc(s.ram, n);
      s.(ram := ram, user := s.user + Bag(b))
    case UserTake(b) => s.(ram := RamTake(s.ram, b), user := s.user + multiset{b})
    case UserFree(b) => s.(ram := RamFree(s.ram, b), user := s.user - multiset{b})
    case Reinit => Rearmed(s)
  }

  /** hspi_reinit_buffers: the argument pool is zeroed and four buffers are allocated. */
  ghost function Rearmed(s: State): State
  {
    var (r0, a) := RamAlloc(s.ram, s.packetBlocks);
    var (r1, b) := RamAlloc(r0, s.packetBlocks);
    var (r2, c) := RamAlloc(r1, s.packetBlocks);
    var (r3, d) := RamAlloc(r2, s.packetBlocks);
    Replaced(s, r3, a, b, Bag(c) + Bag(d), Bag(s.rx0) + Bag(s.rx1) + s.tx)
  }

  /** The argument pool after hydra_pool_clean. */
  function Zeroed(s: State): State
  {
    s.(inUse := seq(s.Slots(), _ => false), args := seq(s.Slots(), _ => None), leaked := {})
  }

  /** New receive and transmit buffers in a zeroed pool; the references `gone` to the old ones are forgotten. */
  function Replaced(
    s: State, ram: Ram, rx0: Option<nat>, rx1: Option<nat>, tx: multiset<nat>, gone: multiset<nat>): State
  {
    Zeroed(s).(ram := ram, rx0 := rx0, rx1 := rx1, tx := tx, dropped := s.dropped + gone)
  }

  // ------------------------------------------------------------ holders

  /** How many of the slots hold buffer `b`. */
  function CountIn(args: seq<Option<nat>>, slots: seq<nat>, b: nat): nat
  {
    if slots == [] then 0
    else
      var k := slots[|slots| - 1];
      CountIn(args, slots[..|slots| - 1], b) + (if k < |args| then One(args[k], b) else 0)
  }

  function Pending(s: State): seq<nat> { if s.send.HasBuffer? then [s.send.slot] else [] }

  /** The references to `b` that somebody still holds: the application, the tasks running and queued,
      the send under way, the two armed receive addresses and the transmit buffers. */
  function Held(s: State, b: nat): nat
  {
    s.user[b] + CountIn(s.args, s.running, b) + CountIn(s.args, s.queue, b) + CountIn(s.args, Pending(s), b)
    + One(s.rx0, b) + One(s.rx1, b) + s.tx[b]
  }

  /** The reference count of every buffer is its number of holders, plus the references dropped. */
  ghost predicate Conserved(s: State)
  {
    forall b: nat :: Owners(s.ram.heap, b) == Held(s, b) + s.dropped[b]
  }

  // ------------------------------------------------------------ slots

  function SendSlot(s: State): seq<nat> { if s.send.NoSend? then [] else [s.send.slot] }

  function CleaningSlot(s: State): seq<nat> { if s.cleaning.Some? then [s.cleaning.value] else [] }

  /** All slots that somebody refers to. */
  function Referred(s: State): seq<nat>
  {
    s.running + s.queue + CleaningSlot(s) + SendSlot(s)
  }

  ghost predicate NoDup(xs: seq<nat>)
  {
    forall i, j :: 0 <= i < j < |xs| ==> xs[i] != xs[j]
  }

  /** A slot is in use exactly if one task or call refers to it or it was leaked. */
  ghost predicate SlotsOk(s: State)
  {
    && |s.args| == s.Slots()
    && NoDup(Referred(s))
    && (forall k :: k in Referred(s) ==> k < s.Slots() && s.inUse[k] && k !in s.leaked)
    && (forall k :: k in s.leaked ==> k < s.Slots() && s.inUse[k])
    && forall k :: 0 <= k < s.Slots() && s.inUse[k] ==> k in Referred(s) || k in s.leaked
  }

  ghost predicate Inv(s: State)
  {
    && Rep(s.ram.table, s.ram.heap)
    && SlotsOk(s)
    && Conserved(s)
    && (s.send.GotSlot? && s.send.source.Some? ==> Usable(s, s.send.source.value))
  }
}
