/**
 The scheduled HSPI driver on the real structures: the block allocator, the argument pool,
 the task queue and the argument records. Each method is one critical section, and is shown
 to be the step of Hspi with the same name. Buffers are addresses here, 0 is the null pointer.
 */
module HspiDriver {
  import opened BlockTable
  import opened Common
  import opened BlockPools
  import opened Fifo
  import opened Hspi
  import HspiProofs
  import Pool

  /** A new buffer for one of the two receive addresses. */
  ghost function Armed(s: State, first: bool): State
  {
    var (r, b) := RamAlloc(s.ram, s.packetBlocks);
    if first then s.(ram := r, rx0 := b) else s.(ram := r, rx1 := b)
  }

  lemma ReceiveParts(s: State, first: bool, handed: State, t: State)
    requires |s.args| == s.Slots()
    requires handed == HandOver(s, if first then s.rx0 else s.rx1) && t == Armed(handed, first)
    ensures t == Step(s, Receive(first))
  {
  }

  /** The two transmit buffers, which nothing uses. */
  ghost function WithTransmit(s: State): State
  {
    var (r0, b0) := RamAlloc(s.ram, s.packetBlocks);
    var (r1, b1) := RamAlloc(r0, s.packetBlocks);
    s.(ram := r1, tx := Bag(b0) + Bag(b1))
  }

  /** References to the receive and transmit buffers that are about to be replaced. */
  function OldBuffers(s: State): multiset<nat> { Bag(s.rx0) + Bag(s.rx1) + s.tx }

  lemma ReinitParts(s: State, t: State)
    requires Enabled(s, Reinit)
    requires
      var gone := s.(dropped := s.dropped + OldBuffers(s));
      t == WithTransmit(Armed(Armed(Zeroed(gone), true), false))
    ensures t == Step(s, Reinit)
  {
  }

  class Driver {
    const ram: RamxPool
    const pool: Pool.HydraPool
    const queue: Ring<nat>
    const args: array<nat>
    const packetSize: nat
    var rx0: nat
    var rx1: nat

    // What the registers and pointers above do not show: who else holds references.
    ghost var heap: Heap
    ghost var running: seq<nat>
    ghost var cleaning: Option<nat>
    ghost var send: Send
    ghost var user: multiset<nat>
    ghost var tx: multiset<nat>
    ghost var dropped: multiset<nat>
    ghost var leaked: set<nat>

    ghost predicate Valid()
      reads this, ram, ram.refs, queue, args
    {
      && ram.Valid() && ram.Geometry() && ram.blockSize < 0x1_0000_0000 && packetSize < 0x1_0000
      && queue.Valid() && queue.size == args.Length + 1 && pool.poolManager.Length == args.Length
      && args != ram.blocks && args != ram.refs && args != queue.buffer
      && queue.buffer != ram.blocks && queue.buffer != ram.refs
      && IsPointer(rx0) && IsPointer(rx1) && forall k :: 0 <= k < args.Length ==> IsPointer(args[k])
    }

    ghost predicate IsPointer(ptr: nat) { ptr == 0 || ram.pool <= ptr }

    /** The buffer an address stands for. */
    ghost function Buffer(ptr: nat): Option<nat>
      requires 0 < ram.blockSize
    {
      if ptr == 0 then None else Some(if ptr < ram.pool then 0 else (ptr - ram.pool) / ram.blockSize)
    }

    ghost function Buffers(ptrs: seq<nat>): (bs: seq<Option<nat>>)
      requires 0 < ram.blockSize
      ensures |bs| == |ptrs| && forall i :: 0 <= i < |bs| ==> bs[i] == Buffer(ptrs[i])
    {
      seq(|ptrs|, i requires 0 <= i < |ptrs| => Buffer(ptrs[i]))
    }

    ghost function View(): State
      requires Valid()
      reads this, ram, ram.blocks, ram.refs, pool.poolManager, queue, queue.buffer, args
    {
      State(Ram(ram.State(), heap), BlocksNeeded(packetSize, ram.blockSize),
            pool.poolManager[..], Buffers(args[..]), queue.Contents(), running, cleaning, send,
            user, Buffer(rx0), Buffer(rx1), tx, dropped, leaked)
    }

    /** Everything as it is before hspi_init. */
    constructor (base: nat, blockSize: nat, num: nat, slots: nat, taskSize: nat, packetSize: nat)
      requires 0 < base && 0 < blockSize && num < 256 && base + num * blockSize < 0x1_0000_0000
      requires blockSize < 0x1_0000_0000 && packetSize < 0x1_0000
      requires 0 < taskSize && slots + 1 < 0x1_0000 && slots * taskSize < 0x1_0000
      ensures Valid()
      ensures View() == HspiProofs.Blank(num, slots, BlocksNeeded(packetSize, blockSize))
    {
      ram := new RamxPool(base, blockSize, num);
      pool := new Pool.HydraPool(slots);
      queue := new Ring(slots, taskSize, 0);
      args := new nat[slots](_ => 0);
      this.packetSize := packetSize;
      rx0, rx1 := 0, 0;
      heap, running, cleaning, send := map[], [], None, NoSend;
      user, tx, dropped, leaked := multiset{}, multiset{}, multiset{}, {};
    }

    lemma BufferOfAddress(r: Option<nat>)
      requires 0 < ram.blockSize && 0 < ram.pool
      ensures Buffer(ram.Address(r)) == r && IsPointer(ram.Address(r))
    {
      if r.Some? {
        AddressRoundTrip(ram.pool, ram.blockSize, r.value);
      }
    }

    /** ramx_pool_alloc_bytes(hspi_packet_size) */
    method AllocPacket() returns (ptr: nat)
      requires Valid()
      modifies this`heap, ram`blocksUsed, ram.blocks, ram.refs
      ensures Valid() && IsPointer(ptr)
      ensures (View().ram, Buffer(ptr)) == RamAlloc(old(View()).ram, old(View()).packetBlocks)
      ensures View() == old(View()).(ram := View().ram)
    {
      ghost var before := ram.State();
      ptr := ram.AllocBytes(packetSize);
      ghost var got := Alloc(before, BlocksNeeded(packetSize, ram.blockSize)).1;
      BufferOfAddress(got);
      heap := HeapAfterAlloc(heap, BlocksNeeded(packetSize, ram.blockSize), got);
    }

    /** hydra_interrupt_queue_set_next_task with the arguments in `slot`. */
    method EnqueueTask(slot: nat)
      requires Valid() && slot < args.Length
      modifies this`leaked, this`dropped, queue, queue.buffer
      ensures Valid() && View() == Enqueue(old(View()), slot)
    {
      var ok := WriteTask(slot);
      if !ok {
        leaked := leaked + {slot};
        dropped := dropped + Bag(Buffer(args[slot]));
      }
    }

    method WriteTask(slot: nat) returns (ok: bool)
      requires Valid()
      modifies queue, queue.buffer
      ensures Valid() && (ok <==> |old(View()).queue| < args.Length)
      ensures View() == if ok then old(View()).(queue := old(View()).queue + [slot]) else old(View())
    {
      var task := new nat[1](_ => slot);
      var written := queue.Write(task, 1);
      ok := written != 0;
      assert task[..1] == [slot];
      assert ram.State() == old(ram.State()) && args[..] == old(args[..]);
      assert pool.poolManager[..] == old(pool.poolManager[..]);
    }

    method StoreArgument(slot: nat, ptr: nat)
      requires Valid() && slot < args.Length && IsPointer(ptr)
      modifies args
      ensures Valid() && View() == old(View()).(args := old(View()).args[slot := Buffer(ptr)])
    {
      args[slot] := ptr;
      assert Buffers(args[..]) == old(Buffers(args[..]))[slot := Buffer(ptr)];
    }

    // ------------------------------------------------------------ the receive interrupt

    /** HSPI_IRQHandler, the part that passes a filled buffer on. */
    method PassOn(filled: nat)
      requires Valid() && IsPointer(filled)
      modifies this`leaked, this`dropped, pool.poolManager, args, queue, queue.buffer
      ensures Valid() && View() == HandOver(old(View()), Buffer(filled))
    {
      var slot := pool.GetMember();
      if slot.Some? {
        StoreArgument(slot.value, filled);
        EnqueueTask(slot.value);
      } else {
        dropped := dropped + Bag(Buffer(filled));
      }
    }

    method ArmReceive(first: bool)
      requires Valid()
      modifies this`rx0, this`rx1, this`heap, ram`blocksUsed, ram.blocks, ram.refs
      ensures Valid() && View() == Armed(old(View()), first)
    {
      var ptr := AllocPacket();
      if first {
        rx0 := ptr;
      } else {
        rx1 := ptr;
      }
    }

    /** HSPI_IRQHandler for a packet received without error. */
    method HandleReceive(first: bool)
      requires Valid()
      modifies this, ram`blocksUsed, ram.blocks, ram.refs, pool.poolManager, args, queue, queue.buffer
      ensures Valid() && View() == Step(old(View()), Receive(first))
    {
      ghost var s := View();
      PassOn(if first then rx0 else rx1);
      ghost var handed := View();
      ArmReceive(first);
      ReceiveParts(s, first, handed, View());
    }

    // ------------------------------------------------------------ hspi_send

    /** The pool buffer hspi_send shares, none when the data has to be copied into a new one. */
    ghost function Source(buffer: nat): Option<nat>
      requires 0 < ram.blockSize
      reads ram
    {
      if ram.AddressInPool(buffer) then Buffer(buffer) else None
    }

    /** hspi_send up to hydra_pool_get */
    method SendTakesSlot(buffer: nat) returns (slot: Option<nat>)
      requires Valid() && Enabled(View(), SendGet(Source(buffer)))
      modifies this`send, pool.poolManager
      ensures Valid() && View() == Step(old(View()), SendGet(Source(buffer)))
      ensures slot.None? <==> forall k :: 0 <= k < args.Length ==> old(pool.poolManager[..])[k]
      ensures slot.Some? ==> send == GotSlot(slot.value, Source(buffer)) && slot.value < args.Length
    {
      slot := pool.GetMember();
      if slot.Some? {
        send := GotSlot(slot.value, Source(buffer));
      }
    }

    /** hspi_send from the slot to the filled arguments: it shares the caller's buffer or allocates one. */
    method SendFillsArguments(slot: nat, buffer: nat) returns (ok: bool)
      requires Valid() && send == GotSlot(slot, Source(buffer)) && Enabled(View(), SendBuffer)
      modifies this, ram`blocksUsed, ram.blocks, ram.refs, args
      ensures Valid() && View() == Step(old(View()), SendBuffer)
      ensures ok <==> send == HasBuffer(slot)
    {
      if !ram.AddressInPool(buffer) {
        ok := SendCopies(slot);
      } else {
        ShareBuffer(buffer);
        StoreArgument(slot, buffer);
        send := HasBuffer(slot);
        ok := true;
      }
    }

    /** The data is copied to a new buffer; without one hspi_send gives up and keeps the slot. */
    method SendCopies(slot: nat) returns (ok: bool)
      requires Valid() && send == GotSlot(slot, None) && slot < args.Length
      modifies this, ram`blocksUsed, ram.blocks, ram.refs, args
      ensures Valid() && View() == Step(old(View()), SendBuffer)
      ensures ok <==> send == HasBuffer(slot)
    {
      var newBuffer := AllocPacket();
      if newBuffer == 0 {
        send, leaked := NoSend, leaked + {slot};
        return false;
      }
      StoreArgument(slot, newBuffer);
      send := HasBuffer(slot);
      return true;
    }

    /** ramx_take_ownership of a live buffer */
    method ShareBuffer(buffer: nat)
      requires Valid() && ram.AddressInPool(buffer) && CanTake(View().ram, ram.BlockOf(buffer))
      modifies this`heap, ram.refs
      ensures Valid() && View() == old(View()).(ram := RamTake(old(View()).ram, ram.BlockOf(buffer)))
    {
      ghost var b := ram.BlockOf(buffer);
      ram.TakeOwnership(buffer);
      heap := heap[b := Run(heap[b].len, heap[b].owners + 1)];
    }

    /** hspi_send, the enqueue */
    method SendQueuesTask(slot: nat)
      requires Valid() && send == HasBuffer(slot) && slot < args.Length
      modifies this, queue, queue.buffer
      ensures Valid() && View() == Step(old(View()), SendEnqueue)
    {
      EnqueueTask(slot);
      send := NoSend;
    }

    // ------------------------------------------------------------ running and cleaning tasks

    /** hydra_interrupt_queue_run and free_all: the next task leaves the queue. */
    method TakeNextTask() returns (slot: nat)
      requires Valid() && Enabled(View(), TakeTask)
      modifies this`running, queue
      ensures Valid() && View() == Step(old(View()), TakeTask)
      ensures slot == Innermost(View())
    {
      var dst := new nat[1](_ => 0);
      var n := queue.ReadN(dst, 1);
      slot := dst[0];
      running := running + [slot];
    }

    /** _hspi_cleanup, ramx_pool_free of the task's buffer */
    method CleanupFreesBuffer(slot: nat)
      requires Valid() && Enabled(View(), FreeBuffer) && slot == Innermost(View())
      modifies this, ram`blocksUsed, ram.blocks, ram.refs
      ensures Valid() && View() == Step(old(View()), FreeBuffer)
      ensures cleaning == Some(slot)
    {
      FreeLive(args[slot]);
      running := running[..|running| - 1];
      cleaning := Some(slot);
    }

    /** ramx_pool_free of a live buffer or of the null pointer */
    method FreeLive(ptr: nat)
      requires Valid() && IsPointer(ptr) && (ptr != 0 ==> CanFree(View().ram, Buffer(ptr).value))
      modifies this`heap, ram`blocksUsed, ram.blocks, ram.refs
      ensures Valid()
      ensures View() == if ptr == 0 then old(View())
                        else old(View()).(ram := RamFree(old(View()).ram, Buffer(ptr).value))
    {
      ram.Release(ptr);
      if ptr != 0 {
        heap := HeapAfterFree(heap, Buffer(ptr).value);
      }
    }

    /** _hspi_cleanup, hydra_pool_free of the arguments */
    method CleanupFreesSlot(slot: nat)
      requires Valid() && Enabled(View(), FreeSlot) && cleaning == Some(slot)
      modifies this`cleaning, pool.poolManager
      ensures Valid() && View() == Step(old(View()), FreeSlot)
    {
      pool.FreeMember(slot);
      cleaning := None;
    }

    // ------------------------------------------------------------ initialisation

    /** hspi_init and hspi_reinit_buffers while no task is outstanding */
    method ReinitBuffers()
      requires Valid() && Enabled(View(), Reinit)
      modifies this, ram`blocksUsed, ram.blocks, ram.refs, pool.poolManager, args
      ensures Valid() && View() == Step(old(View()), Reinit)
    {
      ghost var s := View();
      dropped := dropped + OldBuffers(s);
      CleanArguments();
      ArmReceive(true);
      ArmReceive(false);
      AllocTransmit();
      ReinitParts(s, View());
    }

    method AllocTransmit()
      requires Valid()
      modifies this`tx, this`heap, ram`blocksUsed, ram.blocks, ram.refs
      ensures Valid() && View() == WithTransmit(old(View()))
    {
      var tx0 := AllocPacket();
      var tx1 := AllocPacket();
      tx := Bag(Buffer(tx0)) + Bag(Buffer(tx1));
    }

    /** hydra_pool_clean: the flags and the records are zeroed. */
    method CleanArguments()
      requires Valid()
      modifies this`leaked, pool.poolManager, args
      ensures Valid() && View() == Zeroed(old(View()))
    {
      ghost var s := View();
      Zero(args);
      pool.Clean();
      leaked := {};
      assert pool.poolManager[..] == Zeroed(s).inUse;
      assert Buffers(args[..]) == Zeroed(s).args;
    }
  }

  method Zero(a: array<nat>)
    modifies a
    ensures forall k :: 0 <= k < a.Length ==> a[k] == 0
  {
    for i := 0 to a.Length
      invariant forall k :: 0 <= k < i ==> a[k] == 0
    {
      a[i] := 0;
    }
  }
}
