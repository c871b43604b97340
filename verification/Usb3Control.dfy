/**
 Descriptor reads on endpoint 0 of the USB3 device engine (usb/usb30.c): the
 GET_DESCRIPTOR part of usb30_standard_req_handler, ep0_in_handler and the EP0 branches
 of USBSS_IRQHandler.
 */
module Usb3Control {
  import opened Common
  import opened FlatMemory
  import opened Usb3Word

  const MAX_PACKET := 512

  /** `head` and `left` are pDescr and SetupLen, `loaded` the length of the packet armed, `count` the
      static counter of USBSS_IRQHandler and `txCtrl` the register UEP0_TX_CTRL. `statusArmed` says that
      the OUT direction waits for the status stage. */
  datatype Ep0 = Ep0(
    mem: seq<bv8>, head: nat, left: nat, loaded: nat, count: nat, statusArmed: bool, txCtrl: Fields)

  ghost predicate Fits(mem: seq<bv8>, ep0: nat, head: nat, left: nat)
  {
    head + left <= |mem| && ep0 + MAX_PACKET <= |mem|
  }

  /** Copies the next packet to the EP0 buffer and moves on. */
  function LoadPacket(ep0: nat, s: Ep0): Ep0
    requires Fits(s.mem, ep0, s.head, s.left)
  {
    var len := if s.left >= MAX_PACKET then MAX_PACKET else s.left;
    s.(mem := Copy(s.mem, ep0, s.head, len), head := s.head + len, left := s.left - len, loaded := len)
  }

  /** GET_DESCRIPTOR of a descriptor that is set. */
  function GetDescriptor(ep0: nat, s: Ep0, descr: Blob, wLength: nat): Ep0
    requires Fits(s.mem, ep0, descr.ptr, descr.len)
  {
    var s' := LoadPacket(ep0, s.(head := descr.ptr, left := if wLength > descr.len then descr.len else wLength));
    s'.(statusArmed := false, txCtrl := FirstFields(s'.loaded))
  }

  /** An IN event: ep0_in_handler and the branch of USBSS_IRQHandler around it. */
  function InEvent(ep0: nat, s: Ep0): Ep0
    requires s.head != 0 ==> Fits(s.mem, ep0, s.head, s.left)
  {
    Counted(if s.head != 0 then LoadPacket(ep0, s) else s.(loaded := 0))
  }

  /** What follows the loading: the status stage is armed with an empty packet, or a further packet. */
  function Counted(s: Ep0): Ep0
  {
    if s.loaded == 0 then s.(count := 0, statusArmed := true, txCtrl := FirstFields(0))
    else
      var count := (s.count + 1) % 0x1_0000_0000;
      s.(count := count, statusArmed := false, txCtrl := FurtherFields(s.txCtrl, count, s.loaded))
  }

  /** What the hardware sends: the start of the EP0 buffer, as far as the control word says. */
  ghost function Armed(ep0: nat, s: Ep0): seq<bv8>
    requires ep0 + s.txCtrl.len <= |s.mem|
  {
    s.mem[ep0..ep0 + s.txCtrl.len]
  }

  /** The control word offers exactly one packet, and the packet is `p`. */
  ghost predicate Offers(ep0: nat, s: Ep0, p: seq<bv8>)
  {
    s.txCtrl.nump == 1 && s.txCtrl.endOfBurst && ep0 + s.txCtrl.len <= |s.mem| && Armed(ep0, s) == p
  }

  /** The pieces a read is answered with, and the empty packet that ends it. */
  function Pieces(payload: seq<bv8>): (ps: seq<seq<bv8>>)
    ensures 2 <= |ps|
  {
    if |payload| <= MAX_PACKET then [payload, []] else [payload[..MAX_PACKET]] + Pieces(payload[MAX_PACKET..])
  }

  /** The pieces make up the payload, none is longer than a packet, and there are finitely many. */
  lemma {:induction false} PiecesMakeUpPayload(payload: seq<bv8>)
    ensures Flatten(Pieces(payload)) == payload
    ensures forall k :: 0 <= k < |Pieces(payload)| ==> |Pieces(payload)[k]| <= MAX_PACKET
    ensures |Pieces(payload)| == (if payload == [] then 2 else (|payload| + MAX_PACKET - 1) / MAX_PACKET + 1)
  {
    if |payload| <= MAX_PACKET {
      var ps := [payload, []];
      assert ps[..1] == [payload] && [payload][..0] == [];
      assert Flatten([payload]) == payload;
    } else {
      PiecesMakeUpPayload(payload[MAX_PACKET..]);
      FlattenCons(payload[..MAX_PACKET], Pieces(payload[MAX_PACKET..]));
    }
  }

  /** The host is offered exactly `ps` from number `i` on, one per IN event, and the status stage is
      armed together with the last and with no earlier one. */
  ghost predicate LoadsFrom(ep0: nat, s: Ep0, ps: seq<seq<bv8>>, i: nat)
    requires i < |ps|
    decreases |ps| - i
  {
    && Offers(ep0, s, ps[i])
    && (s.statusArmed <==> i == |ps| - 1)
    && (i < |ps| - 1 ==>
          (s.head != 0 ==> Fits(s.mem, ep0, s.head, s.left)) && LoadsFrom(ep0, InEvent(ep0, s), ps, i + 1))
  }

  ghost predicate Loads(ep0: nat, s: Ep0, ps: seq<seq<bv8>>)
    requires ps != []
  {
    LoadsFrom(ep0, s, ps, 0)
  }

  /** A piece ending at offset `off` of the payload is armed and the rest is intact. */
  ghost predicate Reading(ep0: nat, s: Ep0, b: Blob, payload: seq<bv8>, off: nat)
  {
    && Fits(s.mem, ep0, b.ptr, b.len) && Placed(b, ep0, MAX_PACKET) && b.ptr != 0
    && |payload| == b.len && off <= b.len && (off == b.len || MAX_PACKET <= off)
    && s.txCtrl.len == s.loaded && s.txCtrl.nump == 1 && s.txCtrl.endOfBurst
    && s.loaded <= off && s.loaded <= MAX_PACKET && s.head == b.ptr + off && s.left == b.len - off && !s.statusArmed
    && Same(s.mem, ep0, payload, off - s.loaded, s.loaded)
    && Same(s.mem, b.ptr + off, payload, off, b.len - off)
  }

  lemma ReadingGoesOn(ep0: nat, s: Ep0, b: Blob, payload: seq<bv8>, off: nat, n: nat)
    requires Reading(ep0, s, b, payload, off) && off < b.len && n == Min(MAX_PACKET, b.len - off)
    ensures Reading(ep0, InEvent(ep0, s), b, payload, off + n) && InEvent(ep0, s).loaded == n
  {
    LoadNext(s.mem, ep0, b.ptr + off, payload, off, b.len - off, n);
  }

  lemma ReadingEnds(ep0: nat, s: Ep0, b: Blob, payload: seq<bv8>)
    requires Reading(ep0, s, b, payload, b.len)
    ensures InEvent(ep0, s).statusArmed && Offers(ep0, InEvent(ep0, s), [])
  {
  }

  /** Piece `p` waits for the host and is not the last one. */
  ghost predicate Ready(ep0: nat, s: Ep0, p: seq<bv8>)
  {
    && Offers(ep0, s, p) && !s.statusArmed
    && (s.head != 0 ==> Fits(s.mem, ep0, s.head, s.left))
  }

  lemma PieceIsReady(ep0: nat, s: Ep0, b: Blob, payload: seq<bv8>, off: nat)
    requires Reading(ep0, s, b, payload, off)
    ensures Ready(ep0, s, payload[off - s.loaded..off])
  {
    SameSlice(s.mem, ep0, payload, off - s.loaded, s.loaded);
  }

  /** The pieces of `ps` from number `i` on are the payload from offset `off` on, cut as Pieces does. */
  ghost predicate PiecesAt(payload: seq<bv8>, ps: seq<seq<bv8>>, i: nat, off: nat)
    requires i < |ps| && off <= |payload|
    decreases |ps| - i
  {
    if i == |ps| - 1 then off == |payload| && ps[i] == []
    else
      var n := Min(MAX_PACKET, |payload| - off);
      (off < |payload| || i == 0) && ps[i] == payload[off..off + n] && PiecesAt(payload, ps, i + 1, off + n)
  }

  lemma {:induction false} CutFrom(payload: seq<bv8>, pre: seq<seq<bv8>>, off: nat)
    requires off < |payload| || (off == |payload| == 0 && pre == [])
    ensures PiecesAt(payload, pre + Pieces(payload[off..]), |pre|, off)
    decreases |payload| - off
  {
    var n, all := Min(MAX_PACKET, |payload| - off), pre + Pieces(payload[off..]);
    if off + n == |payload| {
      assert payload[off..off + n] == payload[off..];
      assert PiecesAt(payload, all, |pre| + 1, off + n);
    } else {
      CutFrom(payload, pre + [payload[off..off + n]], off + n);
      assert payload[off..][MAX_PACKET..] == payload[off + n..];
      assert payload[off..][..MAX_PACKET] == payload[off..off + n];
      assert all == (pre + [payload[off..off + n]]) + Pieces(payload[off + n..]);
    }
  }

  lemma PiecesAreCut(payload: seq<bv8>)
    ensures PiecesAt(payload, Pieces(payload), 0, 0)
  {
    CutFrom(payload, [], 0);
    assert payload[0..] == payload && [] + Pieces(payload) == Pieces(payload);
  }

  lemma {:induction false} LoadsTheRest(
    ep0: nat, s: Ep0, b: Blob, payload: seq<bv8>, off: nat, ps: seq<seq<bv8>>, i: nat)
    requires Reading(ep0, s, b, payload, off) && i + 1 < |ps|
    requires ps[i] == payload[off - s.loaded..off] && PiecesAt(payload, ps, i + 1, off)
    ensures LoadsFrom(ep0, s, ps, i)
    decreases |ps| - i
  {
    PieceIsReady(ep0, s, b, payload, off);
    if off == b.len {
      ReadingEnds(ep0, s, b, payload);
      LoadsLast(ep0, InEvent(ep0, s), ps, i + 1);
    } else {
      var n := Min(MAX_PACKET, b.len - off);
      ReadingGoesOn(ep0, s, b, payload, off, n);
      LoadsTheRest(ep0, InEvent(ep0, s), b, payload, off + n, ps, i + 1);
    }
    LoadsOne(ep0, s, ps, i);
  }

  lemma LoadsLast(ep0: nat, s: Ep0, ps: seq<seq<bv8>>, i: nat)
    requires i == |ps| - 1 && ps[i] == [] && s.statusArmed && Offers(ep0, s, [])
    ensures LoadsFrom(ep0, s, ps, i)
  {
  }

  lemma LoadsOne(ep0: nat, s: Ep0, ps: seq<seq<bv8>>, i: nat)
    requires i + 1 < |ps| && Ready(ep0, s, ps[i]) && LoadsFrom(ep0, InEvent(ep0, s), ps, i + 1)
    ensures LoadsFrom(ep0, s, ps, i)
  {
  }

  /** A read of a descriptor of any length with any wLength: from any earlier state, the host is
      offered the first min(wLength, length) bytes in pieces of at most 512, then an empty packet
      with the status stage armed, one piece per IN event. */
  lemma DescriptorRead(ep0: nat, s: Ep0, descr: Blob, wLength: nat)
    requires Fits(s.mem, ep0, descr.ptr, descr.len) && Placed(descr, ep0, MAX_PACKET) && descr.ptr != 0
    ensures Loads(ep0, GetDescriptor(ep0, s, descr, wLength),
                  Pieces(s.mem[descr.ptr..descr.ptr + Min(wLength, descr.len)]))
  {
    var b := Blob(descr.ptr, Min(wLength, descr.len));
    var payload := s.mem[b.ptr..b.ptr + b.len];
    var s' := GetDescriptor(ep0, s, descr, wLength);
    var n := Min(MAX_PACKET, b.len);
    FirstPiece(ep0, s, descr, wLength, b, payload, n);
    PiecesAreCut(payload);
    LoadsTheRest(ep0, s', b, payload, n, Pieces(payload), 0);
  }

  lemma FirstPiece(ep0: nat, s: Ep0, descr: Blob, wLength: nat, b: Blob, payload: seq<bv8>, n: nat)
    requires Fits(s.mem, ep0, descr.ptr, descr.len) && Placed(descr, ep0, MAX_PACKET) && descr.ptr != 0
    requires b == Blob(descr.ptr, Min(wLength, descr.len)) && payload == s.mem[b.ptr..b.ptr + b.len]
    requires n == Min(MAX_PACKET, b.len)
    ensures
      var s' := GetDescriptor(ep0, s, descr, wLength);
      Reading(ep0, s', b, payload, n) && s'.loaded == n
  {
    SameOwn(s.mem, b.ptr, b.len, b.len);
    LoadNext(s.mem, ep0, b.ptr, payload, 0, b.len, n);
  }

  class Usb3ControlDriver {
    const ep0: nat
    const mem: array<bv8>
    var pDescr: nat
    var setupLen: nat
    var loaded: nat
    var count: nat
    var statusArmed: bool
    var txCtrl: bv32

    ghost function State(): Ep0
      reads this, mem
    {
      Ep0(mem[..], pDescr, setupLen, loaded, count, statusArmed, Decode(txCtrl))
    }

    constructor (ep0: nat, mem: array<bv8>)
      ensures this.ep0 == ep0 && this.mem == mem && pDescr == 0 && count == 0
    {
      this.ep0 := ep0;
      this.mem := mem;
      pDescr, setupLen, loaded, count, statusArmed, txCtrl := 0, 0, 0, 0, false, 0;
    }

    method Memcpy(dst: nat, src: nat, n: nat)
      requires dst + n <= mem.Length && src + n <= mem.Length
      modifies mem
      ensures mem[..] == Copy(old(mem[..]), dst, src, n)
    {
      forall i | 0 <= i < n {
        mem[dst + i] := mem[src + i];
      }
      forall i | 0 <= i < mem.Length ensures mem[i] == Copy(old(mem[..]), dst, src, n)[i] {
        CopyAt(old(mem[..]), dst, src, n, i);
      }
    }

    method LoadNextPacket()
      requires Fits(mem[..], ep0, pDescr, setupLen)
      modifies this`pDescr, this`setupLen, this`loaded, mem
      ensures State() == LoadPacket(ep0, old(State())) && loaded <= MAX_PACKET
    {
      loaded := if setupLen >= MAX_PACKET then MAX_PACKET else setupLen;
      Memcpy(ep0, pDescr, loaded);
      setupLen := setupLen - loaded;
      pDescr := pDescr + loaded;
    }

    /** The GET_DESCRIPTOR case of usb30_standard_req_handler, for a descriptor that is set. */
    method HandleGetDescriptor(descr: Blob, wLength: nat)
      requires Fits(mem[..], ep0, descr.ptr, descr.len)
      modifies this, mem
      ensures State() == GetDescriptor(ep0, old(State()), descr, wLength)
    {
      setupLen := wLength;
      if setupLen > descr.len {
        setupLen := descr.len;
      }
      pDescr := descr.ptr;
      LoadNextPacket();
      ArmFirst();
    }

    /** The end of the SETUP branch of USBSS_IRQHandler. */
    method ArmFirst()
      requires loaded <= MAX_PACKET
      modifies this`statusArmed, this`txCtrl
      ensures State() == old(State()).(statusArmed := false, txCtrl := FirstFields(loaded))
    {
      statusArmed := false;
      FirstDecodes(loaded);
      txCtrl := FirstWord(loaded);
    }

    /** ep0_in_handler and the branch of USBSS_IRQHandler that calls it. */
    method HandleIn()
      requires pDescr != 0 ==> Fits(mem[..], ep0, pDescr, setupLen)
      modifies this, mem
      ensures State() == InEvent(ep0, old(State()))
    {
      if pDescr != 0 {
        LoadNextPacket();
      } else {
        loaded := 0;
      }
      ArmNext();
    }

    /** The rest of that branch: counter and control words. */
    method ArmNext()
      requires loaded <= MAX_PACKET
      modifies this`count, this`statusArmed, this`txCtrl
      ensures State() == Counted(old(State()))
    {
      count := (count + 1) % 0x1_0000_0000;
      if loaded == 0 {
        count := 0;
        statusArmed := true;
        FirstDecodes(0);
        txCtrl := FirstWord(0);
      } else {
        statusArmed := false;
        FurtherDecodes(txCtrl, count, loaded);
        txCtrl := FurtherWord(txCtrl, count, loaded);
      }
    }
  }
}
