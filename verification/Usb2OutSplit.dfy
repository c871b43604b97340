/**
 endp_rx_set_state without a critical section: the callback loads the RX control register and stores
 it again, and an OUT transaction may come in between. It is one step, as in Usb2Out, only inside a
 handler or with interrupts off.
 */
module Usb2OutSplit {
  import opened Common
  import opened Usb2Registers
  import opened Usb2Bulk
  import opened Usb2Out

  /** `pending` is the value that a call under way will store. */
  datatype Split = Split(s: State, pending: Option<Ctrl>)

  datatype Move =
    | Lost
    | Packet(ackLost: bool, reply: Resp)
    | Load(state: Resp)
    | Store

  function Put(s: State, ctrl: Ctrl): State
  {
    s.(v := s.v.(hw := s.v.hw.(ctrl := ctrl)))
  }

  function Make(t: Split, m: Move): Split
  {
    match m
    case Lost => t.(s := Step(t.s, DataLost))
    case Packet(ackLost, reply) => t.(s := Step(t.s, Transact(ackLost, reply)))
    case Load(state) =>
      Split(t.s.(v := t.s.v.(ep := t.s.v.ep.(state := state))), Some(SetRxState(t.s.v, state).hw.ctrl))
    case Store => if t.pending.Some? then Split(Put(t.s, t.pending.value), None) else t
  }

  /** A call that nothing breaks into is one step of Usb2Out. */
  lemma UnbrokenCall(s: State, state: Resp)
    ensures Make(Make(Split(s, None), Load(state)), Store) == Split(Step(s, UserState(state)), None)
  {
  }

  /** A call is only begun when none is under way and the endpoint does not answer ACK. */
  predicate Careful(t: Split, m: Move)
  {
    m.Load? ==> t.pending.None? && t.s.v.hw.ctrl.resp != ACK
  }

  function Play(t: Split, moves: seq<Move>): Split
  {
    if moves == [] then t else Make(Play(t, moves[..|moves| - 1]), moves[|moves| - 1])
  }

  ghost predicate CarefulPlay(t: Split, moves: seq<Move>)
  {
    forall i :: 0 <= i < |moves| ==> Careful(Play(t, moves[..i]), moves[i])
  }

  /** The value to be stored is what the call would have left, had it been one step. */
  ghost predicate SplitInv(t: Split)
  {
    && Inv(t.s)
    && (t.pending.Some? ==>
          t.s.v.hw.ctrl.resp != ACK && t.pending.value == SetRxState(t.s.v, t.pending.value.resp).hw.ctrl)
  }

  lemma MoveKeepsInv(t: Split, m: Move)
    requires SplitInv(t) && Careful(t, m)
    ensures SplitInv(Make(t, m))
  {
    match m
    case Lost =>
    case Packet(ackLost, reply) => StepKeepsInv(t.s, Transact(ackLost, reply));
    case Load(state) =>
    case Store =>
      if t.pending.Some? {
        StepKeepsInv(t.s, UserState(t.pending.value.resp));
      }
  }

  lemma CarefulPrefix(t: Split, moves: seq<Move>, m: nat)
    requires CarefulPlay(t, moves) && m <= |moves|
    ensures CarefulPlay(t, moves[..m])
  {
    forall i | 0 <= i < m ensures Careful(Play(t, moves[..m][..i]), moves[..m][i]) {
      assert moves[..m][..i] == moves[..i];
    }
  }

  lemma {:induction false} PlayKeepsInv(t: Split, moves: seq<Move>)
    requires SplitInv(t) && CarefulPlay(t, moves)
    ensures SplitInv(Play(t, moves))
    decreases |moves|
  {
    if moves != [] {
      var m := |moves| - 1;
      CarefulPrefix(t, moves, m);
      PlayKeepsInv(t, moves[..m]);
      MoveKeepsInv(Play(t, moves[..m]), moves[m]);
    }
  }

  /** Delivery is exactly once in everything that can follow the beginning of a call. */
  ghost predicate SafeAfter(t: Split)
  {
    forall moves :: CarefulPlay(t, moves) ==> ExactlyOnce(Play(t, moves).s)
  }

  lemma PlayOne(t: Split, m: Move)
    ensures Play(t, [m]) == Make(t, m)
  {
    assert [m][..0] == [];
  }

  lemma PlayMore(t: Split, moves: seq<Move>, m: Move)
    ensures Play(t, moves + [m]) == Make(Play(t, moves), m)
    ensures CarefulPlay(t, moves) && Careful(Play(t, moves), m) ==> CarefulPlay(t, moves + [m])
  {
    var all := moves + [m];
    assert all[..|moves|] == moves;
    if CarefulPlay(t, moves) && Careful(Play(t, moves), m) {
      forall i | 0 <= i < |all| ensures Careful(Play(t, all[..i]), all[i]) {
        if i < |moves| {
          assert all[..i] == moves[..i];
        }
      }
    }
  }

  /** An unsafe end makes every beginning unsafe that carefully leads to it. */
  lemma UnsafeBefore(t: Split, moves: seq<Move>)
    requires CarefulPlay(t, moves) && !ExactlyOnce(Play(t, moves).s)
    ensures !SafeAfter(t)
  {
  }

  /** A re-arm begun while the endpoint answers ACK: a packet that is delivered before the store loses its
      toggle, and the next packet is acknowledged and dropped. */
  lemma InterruptedRearm(s: State)
    requires Inv(s) && s.v.hw.ctrl.resp == ACK && s.next == |s.delivered|
    ensures !SafeAfter(Make(Split(s, None), Load(ACK)))
  {
    var t := Make(Split(s, None), Load(ACK));
    var moves := [Packet(false, ACK), Store, Packet(false, ACK)];
    PlayThree(t, moves);
    var e := Play(t, moves).s;
    assert e.next == s.next + 2 && |e.delivered| == s.next + 1;
    UnsafeBefore(t, moves);
  }

  /** The same if the host has yet to hear that its last packet arrived. */
  lemma InterruptedRearmLater(s: State)
    requires Inv(s) && s.v.hw.ctrl.resp == ACK && s.next + 1 == |s.delivered|
    ensures !SafeAfter(Make(Split(s, None), Load(ACK)))
  {
    var t := Make(Split(s, None), Load(ACK));
    var three, four := [Packet(false, ACK), Packet(false, ACK), Store], Packet(false, ACK);
    PlayThree(t, three);
    PlayMore(t, three, four);
    var e := Play(t, three + [four]).s;
    assert e.next == s.next + 3 && |e.delivered| == s.next + 2;
    UnsafeBefore(t, three + [four]);
  }

  /** Any other state set while the endpoint answers ACK spoils the toggle even without an interrupt. */
  lemma LeavingAck(s: State, state: Resp)
    requires Inv(s) && s.v.hw.ctrl.resp == ACK && state != ACK
    ensures !SafeAfter(Make(Split(s, None), Load(state)))
  {
    var t := Make(Split(s, None), Load(state));
    var three, four := [Store, Load(ACK), Store], Packet(false, ACK);
    PlayThree(t, three);
    PlayMore(t, three, four);
    var d, e := |s.delivered|, Play(t, three + [four]).s;
    if s.next == d {
      assert e.next == d + 1 && |e.delivered| == d;
    } else {
      assert e.delivered[d] == s.next != d;
    }
    UnsafeBefore(t, three + [four]);
  }

  lemma PlayThree(t: Split, moves: seq<Move>)
    requires |moves| == 3
    ensures Play(t, moves) == Make(Make(Make(t, moves[0]), moves[1]), moves[2])
    ensures
      var t1 := Make(t, moves[0]);
      Careful(t, moves[0]) && Careful(t1, moves[1]) && Careful(Make(t1, moves[1]), moves[2]) ==> CarefulPlay(t, moves)
  {
    assert moves[..0] == [] && moves[..1] == [moves[0]];
    assert moves[..2] == [moves[0]] + [moves[1]] && moves == moves[..2] + [moves[2]];
    PlayOne(t, moves[0]);
    PlayMore(t, [moves[0]], moves[1]);
    assert Play(t, moves[..2]) == Make(Make(t, moves[0]), moves[1]);
  }

  /** A call that interrupts may break into is safe if and only if it begins while the endpoint does not
      answer ACK, whatever state it sets. */
  lemma SplitCallIsSafe(s: State, state: Resp)
    requires Inv(s)
    ensures SafeAfter(Make(Split(s, None), Load(state))) <==> s.v.hw.ctrl.resp != ACK
  {
    var t := Make(Split(s, None), Load(state));
    if s.v.hw.ctrl.resp != ACK {
      forall moves | CarefulPlay(t, moves) ensures ExactlyOnce(Play(t, moves).s) {
        PlayKeepsInv(t, moves);
      }
    } else if state != ACK {
      LeavingAck(s, state);
    } else if s.next == |s.delivered| {
      InterruptedRearm(s);
    } else {
      InterruptedRearmLater(s);
    }
  }
}
