/**
 The data stages of control transfers on endpoint 0: what an IN stage puts on the wire and
 how an OUT stage is put together.

 Endpoint 0 has one address register for both directions. The handlers copy a packet to the
 EP0 buffer, and the hardware sends and receives where the register points.
 */
module Usb2ControlRuns {
  import opened Arithmetic
  import opened Common
  import opened FlatMemory
  import opened Usb2Registers
  import opened Usb2Control

  // ------------------------------------------------------------ IN data stage

  /** The packet that is armed: what the address register points to, as far as the length register says. */
  ghost function Armed(s: Ep0): seq<bv8>
    requires s.dma + s.tLen <= |s.mem|
  {
    s.mem[s.dma..s.dma + s.tLen]
  }

  /** A payload cut into packets of `m` bytes as section 8.5.3.2 of USB 2.0 asks: full packets, then
      one strictly shorter packet, possibly empty. */
  function Packets(payload: seq<bv8>, m: nat): (ps: seq<seq<bv8>>)
    requires 0 < m
    ensures ps != []
  {
    if |payload| < m then [payload] else [payload[..m]] + Packets(payload[m..], m)
  }

  /** There are L/M + 1 packets; they are full but for the last and make up the payload. */
  lemma {:induction false} PacketsMakeUpPayload(payload: seq<bv8>, m: nat)
    requires 0 < m
    ensures
      var ps := Packets(payload, m);
      && |ps| == |payload| / m + 1
      && Flatten(ps) == payload
      && |ps[|ps| - 1]| < m && forall k :: 0 <= k < |ps| - 1 ==> |ps[k]| == m
  {
    if |payload| < m {
      DivModUnique(|payload|, m, 0, |payload|);
      assert Flatten([payload]) == Flatten([]) + payload by { assert [payload][..0] == []; }
    } else {
      var rest := Packets(payload[m..], m);
      PacketsMakeUpPayload(payload[m..], m);
      DivMinus(|payload|, m);
      FlattenCons(payload[..m], rest);
    }
  }

  /** Packet `p` waits for the host. */
  ghost predicate Ready(c: Config, s: Ep0, p: seq<bv8>)
  {
    (s.req.dirIn ==> Sending(c, s)) && s.dma + s.tLen <= |s.mem| && s.tx.resp == ACK && Armed(s) == p
  }

  /** After its last packet the device has nothing more to send and receives again. If it was the data
      stage of an IN request, the empty OUT packet of the status stage is taken and ends the request. */
  ghost predicate Finished(c: Config, s: Ep0)
  {
    && s.tx.resp == NAK && s.rx == Ctrl(ACK, true)
    && (s.req.dirIn ==> OutHandler(c, s, 0) == s.(rx := Ctrl(ACK, false), tLen := 0))
  }

  /** From this state the host is sent exactly the packets `ps` from number `i` on, on toggles that
      alternate from `tog`, and then no more; the status stage of an IN request is served. */
  ghost predicate SendsFrom(c: Config, s: Ep0, ps: seq<seq<bv8>>, i: nat, tog: bool)
    requires i < |ps|
    decreases |ps| - i
  {
    && Ready(c, s, ps[i]) && s.tx.tog == tog
    && if i == |ps| - 1 then Finished(c, InHandler(c, s))
       else SendsFrom(c, InHandler(c, s), ps, i + 1, !tog)
  }

  ghost predicate Sends(c: Config, s: Ep0, ps: seq<seq<bv8>>, tog: bool)
    requires ps != []
  {
    SendsFrom(c, s, ps, 0, tog)
  }

  /** The address register is at the EP0 buffer, the packet at offset `off` of the payload is armed
      and everything behind it is intact. */
  ghost predicate InProgress(c: Config, s: Ep0, b: Blob, payload: seq<bv8>, off: nat)
  {
    && s.req.dirIn && 0 < c.maxPacket && InMemory(c, s.mem, b) && Placed(b, c.ep0, c.maxPacket)
    && s.dma == c.ep0
    && |payload| == b.len && off <= b.len && (off == 0 || c.maxPacket <= off)
    && s.head == b.ptr + off && s.remaining == b.len - off
    && (Whole(s.transferSize, c.maxPacket) <==> Whole(b.len - off, c.maxPacket))
    && s.tLen == Min(c.maxPacket, b.len - off) && s.tx.resp == ACK
    && Same(s.mem, c.ep0, payload, off, s.tLen)
    && Same(s.mem, b.ptr + off + s.tLen, payload, off + s.tLen, b.len - off - s.tLen)
  }

  lemma LoadIsInProgress(c: Config, s: Ep0, b: Blob)
    requires 0 < c.maxPacket && InMemory(c, s.mem, b) && Placed(b, c.ep0, c.maxPacket)
    requires s.req.dirIn && s.dma == c.ep0
    ensures
      var len := Min(b.len, c.maxPacket);
      var s' := Load(c, s, b).(transferSize := b.len, tLen := len, tx := Ctrl(ACK, true));
      InProgress(c, s', b, s.mem[b.ptr..b.ptr + b.len], 0)
  {
    var len, payload := Min(b.len, c.maxPacket), s.mem[b.ptr..b.ptr + b.len];
    SameOwn(s.mem, b.ptr, b.len, b.len);
    LoadNext(s.mem, c.ep0, b.ptr, payload, 0, b.len, len);
  }

  /** A full packet is followed by the next one ... */
  lemma NextPacket(c: Config, s: Ep0, b: Blob, payload: seq<bv8>, off: nat, s': Ep0)
    requires InProgress(c, s, b, payload, off) && off + c.maxPacket < b.len
    requires s' == s.(remaining := s.remaining - c.maxPacket, head := s.head + c.maxPacket)
    ensures Sending(c, s') && InProgress(c, NextData(c, s'), b, payload, off + c.maxPacket)
  {
    var off' := off + c.maxPacket;
    NextBytes(c, s, b, payload, off, off', Min(b.len - off', c.maxPacket));
    Progressed(c, s, b, payload, off, NextData(c, s'));
  }

  lemma Progressed(c: Config, s: Ep0, b: Blob, payload: seq<bv8>, off: nat, t: Ep0)
    requires InProgress(c, s, b, payload, off) && off + c.maxPacket < b.len
    requires t.req == s.req && t.dma == s.dma && |t.mem| == |s.mem| && t.transferSize == s.transferSize
    requires t.head == s.head + c.maxPacket && t.remaining == s.remaining - c.maxPacket && t.tx.resp == ACK
    requires
      var off' := off + c.maxPacket;
      && t.tLen == Min(b.len - off', c.maxPacket) && Same(t.mem, c.ep0, payload, off', t.tLen)
      && Same(t.mem, b.ptr + off' + t.tLen, payload, off' + t.tLen, b.len - off' - t.tLen)
    ensures InProgress(c, t, b, payload, off + c.maxPacket)
  {
  }

  lemma NextBytes(c: Config, s: Ep0, b: Blob, payload: seq<bv8>, off: nat, off': nat, n: nat)
    requires InProgress(c, s, b, payload, off)
    requires off' == off + c.maxPacket < b.len && n == Min(b.len - off', c.maxPacket)
    ensures
      var mem := Copy(s.mem, c.ep0, b.ptr + off', n);
      Same(mem, c.ep0, payload, off', n) && Same(mem, b.ptr + off' + n, payload, off' + n, b.len - off' - n)
  {
    LoadNext(s.mem, c.ep0, b.ptr + off', payload, off', b.len - off', n);
  }

  /** ... or by an empty one if nothing is left. */
  lemma ZeroLengthPacket(c: Config, s: Ep0, b: Blob, payload: seq<bv8>, off: nat, s': Ep0)
    requires InProgress(c, s, b, payload, off) && off + c.maxPacket == b.len
    requires s' == s.(remaining := 0, head := s.head + c.maxPacket)
    ensures InProgress(c, EndOfData(c, s', c.maxPacket), b, payload, b.len)
  {
    WholeOnce(c.maxPacket);
  }

  lemma FullPacketGoesOn(c: Config, s: Ep0, b: Blob, payload: seq<bv8>, off: nat)
    requires InProgress(c, s, b, payload, off) && off + c.maxPacket <= b.len
    ensures Sending(c, s) && InProgress(c, InHandler(c, s), b, payload, off + c.maxPacket)
    ensures InHandler(c, s).tx == Ctrl(ACK, !s.tx.tog)
  {
    var s' := s.(remaining := s.remaining - c.maxPacket, head := s.head + c.maxPacket);
    if off + c.maxPacket < b.len {
      NextPacket(c, s, b, payload, off, s');
    } else {
      ZeroLengthPacket(c, s, b, payload, off, s');
      WholeOnce(c.maxPacket);
    }
  }

  /** A short packet ends the data stage and arms the status stage. */
  lemma ShortPacketEnds(c: Config, s: Ep0, b: Blob, payload: seq<bv8>, off: nat)
    requires InProgress(c, s, b, payload, off) && b.len < off + c.maxPacket
    ensures Sending(c, s) && Finished(c, InHandler(c, s))
  {
  }

  lemma PacketIsReady(c: Config, s: Ep0, b: Blob, payload: seq<bv8>, off: nat)
    requires InProgress(c, s, b, payload, off)
    ensures Ready(c, s, payload[off..off + s.tLen])
  {
    SameSlice(s.mem, c.ep0, payload, off, s.tLen);
  }

  /** The packets of `ps` from number `i` on are the payload from offset `off` on, cut as Packets does. */
  ghost predicate CutAt(payload: seq<bv8>, m: nat, ps: seq<seq<bv8>>, i: nat, off: nat)
    requires 0 < m && i < |ps| && off <= |payload|
    decreases |ps| - i
  {
    if i == |ps| - 1 then |payload| < off + m && ps[i] == payload[off..]
    else off + m <= |payload| && ps[i] == payload[off..off + m] && CutAt(payload, m, ps, i + 1, off + m)
  }

  lemma {:induction false} CutFrom(payload: seq<bv8>, m: nat, pre: seq<seq<bv8>>, off: nat)
    requires 0 < m && off <= |payload|
    ensures CutAt(payload, m, pre + Packets(payload[off..], m), |pre|, off)
    decreases |payload| - off
  {
    if off + m <= |payload| {
      var p, rest := payload[off..off + m], Packets(payload[off + m..], m);
      CutFrom(payload, m, pre + [p], off + m);
      assert payload[off..][m..] == payload[off + m..] && payload[off..][..m] == p;
      assert pre + ([p] + rest) == (pre + [p]) + rest;
    }
  }

  lemma PacketsAreCut(payload: seq<bv8>, m: nat)
    requires 0 < m
    ensures CutAt(payload, m, Packets(payload, m), 0, 0)
  {
    CutFrom(payload, m, [], 0);
    assert payload[0..] == payload;
    assert [] + Packets(payload, m) == Packets(payload, m);
  }

  lemma {:induction false} SendsTheRest(
    c: Config, s: Ep0, b: Blob, payload: seq<bv8>, off: nat, ps: seq<seq<bv8>>, i: nat)
    requires InProgress(c, s, b, payload, off) && i < |ps| && CutAt(payload, c.maxPacket, ps, i, off)
    ensures SendsFrom(c, s, ps, i, s.tx.tog)
    decreases |ps| - i
  {
    PacketIsReady(c, s, b, payload, off);
    if i == |ps| - 1 {
      ShortPacketEnds(c, s, b, payload, off);
      assert payload[off..off + s.tLen] == payload[off..];
    } else {
      FullPacketGoesOn(c, s, b, payload, off);
      SendsTheRest(c, InHandler(c, s), b, payload, off + c.maxPacket, ps, i + 1);
    }
  }

  /** What an IN request makes the device send: the answer of the user callback, or a descriptor. */
  ghost predicate Answers(c: Config, req: Setup, reply: Blob, b: Blob)
  {
    if req.standard then req.request.GetDescriptor? && IsDescriptor(c, req, b)
    else reply == b && 0 < b.len && b.ptr != 0
  }

  /** The bytes `b` are what the request asks for: the first min(wLength, length) bytes of the device or of
      the configuration descriptor, or all of a string descriptor. */
  predicate IsDescriptor(c: Config, req: Setup, b: Blob)
  {
    match req.descr
    case DeviceDescr => c.device.Some? && IsFirstOf(b, c.device.value, req.wLength)
    case ConfigDescr => c.config.Some? && IsFirstOf(b, c.config.value, req.wLength)
    case StringDescr => req.valueLow in c.strings && b == c.strings[req.valueLow]
    case OtherDescr => false
  }

  predicate IsFirstOf(b: Blob, all: Blob, n: nat)
  {
    b.ptr == all.ptr && b.len <= n && b.len <= all.len && (b.len == n || b.len == all.len)
  }

  /** The descriptor asked for is set. */
  predicate HasDescriptor(c: Config, req: Setup)
  {
    match req.descr
    case DeviceDescr => c.device.Some?
    case ConfigDescr => c.config.Some?
    case StringDescr => req.valueLow in c.strings
    case OtherDescr => false
  }

  /** Wanted picks the descriptor of the request. */
  lemma WantedIsDescriptor(c: Config, req: Setup)
    ensures Wanted(c, req).Some? <==> HasDescriptor(c, req)
    ensures forall b :: IsDescriptor(c, req, b) <==> Wanted(c, req) == Some(b)
  {
    forall b ensures IsDescriptor(c, req, b) <==> Wanted(c, req) == Some(b) {
      assert req.descr.DeviceDescr? && c.device.Some? && IsFirstOf(b, c.device.value, req.wLength) ==>
          b == c.device.value.(len := Min(c.device.value.len, req.wLength));
      assert req.descr.ConfigDescr? && c.config.Some? && IsFirstOf(b, c.config.value, req.wLength) ==>
          b == c.config.value.(len := Min(c.config.value.len, req.wLength));
    }
  }

  /** An IN request answered with `b`; all registers point into memory. */
  ghost predicate InRequest(c: Config, s: Ep0, reply: Blob, b: Blob)
  {
    && s.req.dirIn && Answers(c, s.req, reply, b) && 0 < c.maxPacket < UNSUPPORTED
    && InMemory(c, s.mem, b) && Placed(b, c.ep0, c.maxPacket) && s.dma + c.maxPacket <= |s.mem|
  }

  lemma AnswerIsLoaded(c: Config, s: Ep0, reply: Blob, b: Blob)
    requires InRequest(c, s, reply, b)
    ensures Sendable(c, s.mem, s.req, reply)
    ensures SetupStage(c, s, reply) ==
            Load(c, s, b).(transferSize := b.len, tLen := Min(b.len, c.maxPacket), tx := Ctrl(ACK, true))
  {
    WantedIsDescriptor(c, s.req);
  }

  /** With the contents `mem` of the memory, the host is sent exactly the payload: cut into full
      packets and a strictly shorter last one, on toggles that alternate from DATA1, and then the
      status stage is armed. */
  ghost predicate Delivers(c: Config, s: Ep0, reply: Blob, b: Blob, mem: seq<bv8>)
    requires InRequest(c, s, reply, b) && |mem| == |s.mem|
  {
    AnswerIsLoaded(c, s.(mem := mem), reply, b);
    Sends(c, SetupStage(c, s.(mem := mem), reply), Packets(mem[b.ptr..b.ptr + b.len], c.maxPacket), true)
  }

  lemma DeliversFromBuffer(c: Config, s: Ep0, reply: Blob, b: Blob, mem: seq<bv8>)
    requires InRequest(c, s, reply, b) && |mem| == |s.mem| && s.dma == c.ep0
    ensures Delivers(c, s, reply, b, mem)
  {
    var s1, payload := s.(mem := mem), mem[b.ptr..b.ptr + b.len];
    AnswerIsLoaded(c, s1, reply, b);
    LoadIsInProgress(c, s1, b);
    PacketsAreCut(payload, c.maxPacket);
    SendsTheRest(c, SetupStage(c, s1, reply), b, payload, 0, Packets(payload, c.maxPacket), 0);
  }

  /** A payload of at most one packet is also sent when the register happens to point at it. */
  lemma DeliversInPlace(c: Config, s: Ep0, reply: Blob, b: Blob, mem: seq<bv8>)
    requires InRequest(c, s, reply, b) && |mem| == |s.mem|
    requires b.len == 0 || (s.dma == b.ptr != c.ep0 && b.len <= c.maxPacket)
    ensures Delivers(c, s, reply, b, mem)
  {
    var s1, payload := s.(mem := mem), mem[b.ptr..b.ptr + b.len];
    AnswerIsLoaded(c, s1, reply, b);
    var s0 := SetupStage(c, s1, reply);
    InPlaceIsReady(c, s1, s0, b, payload);
    SendsInPlace(c, s0, payload);
  }

  /** A payload of at most one packet that is ready goes out, a full one followed by an empty packet. */
  lemma SendsInPlace(c: Config, s: Ep0, payload: seq<bv8>)
    requires s.req.dirIn && Ready(c, s, payload) && s.tx.tog && s.dma + c.maxPacket <= |s.mem|
    requires s.remaining == s.transferSize == |payload| <= c.maxPacket
    ensures Sends(c, s, Packets(payload, c.maxPacket), true)
  {
    WholeOnce(c.maxPacket);
    if |payload| == c.maxPacket {
      FullInPlace(payload);
      assert SendsFrom(c, InHandler(c, s), [payload, []], 1, false);
    }
  }

  lemma FullInPlace(payload: seq<bv8>)
    requires 0 < |payload|
    ensures Packets(payload, |payload|) == [payload, []]
  {
    assert payload[|payload|..] == [] && payload[..|payload|] == payload;
  }

  lemma InPlaceIsReady(c: Config, s: Ep0, s0: Ep0, b: Blob, payload: seq<bv8>)
    requires s.req.dirIn && 0 < c.maxPacket && InMemory(c, s.mem, b) && Placed(b, c.ep0, c.maxPacket)
    requires s.dma + c.maxPacket <= |s.mem| && payload == s.mem[b.ptr..b.ptr + b.len]
    requires b.len == 0 || (s.dma == b.ptr != c.ep0 && b.len <= c.maxPacket)
    requires s0 == Load(c, s, b).(transferSize := b.len, tLen := Min(b.len, c.maxPacket), tx := Ctrl(ACK, true))
    ensures Ready(c, s0, payload)
  {
    var p := Armed(s0);
    forall i | 0 <= i < b.len ensures p[i] == payload[i] {
      CopyAt(s.mem, c.ep0, b.ptr, b.len, b.ptr + i);
    }
  }

  /** Zeroes with a single one. */
  function Marked(n: nat, at: nat): (mem: seq<bv8>)
    ensures |mem| == n && forall i :: 0 <= i < n ==> mem[i] == if i == at then 1 else 0
  {
    seq(n, i => if i == at then 1 else 0)
  }

  /** Another first byte lies where the register points. */
  lemma NotReady(c: Config, s: Ep0, p: seq<bv8>)
    requires 0 < s.tLen && 0 < |p| && s.dma < |s.mem| && s.mem[s.dma] != p[0]
    ensures !Ready(c, s, p)
  {
    if s.dma + s.tLen <= |s.mem| {
      assert Armed(s)[0] == s.mem[s.dma];
    }
  }

  lemma FirstPacketIsWrong(c: Config, s: Ep0, s0: Ep0, b: Blob, mem: seq<bv8>)
    requires 0 < c.maxPacket && InMemory(c, s.mem, b) && s.dma + c.maxPacket <= |s.mem|
    requires s.mem == mem == Marked(|s.mem|, b.ptr)
    requires 0 < b.len && s.dma != c.ep0 && s.dma != b.ptr
    requires s0 == Load(c, s, b).(transferSize := b.len, tLen := Min(b.len, c.maxPacket), tx := Ctrl(ACK, true))
    ensures !Sends(c, s0, Packets(mem[b.ptr..b.ptr + b.len], c.maxPacket), true)
  {
    var payload := mem[b.ptr..b.ptr + b.len];
    CopyAt(mem, c.ep0, b.ptr, s0.tLen, s.dma);
    assert Packets(payload, c.maxPacket)[0][0] == payload[0] == 1;
    NotReady(c, s0, Packets(payload, c.maxPacket)[0]);
  }

  /** The second packet is copied to the EP0 buffer, and the register still points at the first. */
  lemma SecondPacketIsWrong(c: Config, s: Ep0, s0: Ep0, b: Blob, mem: seq<bv8>)
    requires s.req.dirIn && 0 < c.maxPacket < b.len && InMemory(c, s.mem, b) && Placed(b, c.ep0, c.maxPacket)
    requires s.mem == mem == Marked(|s.mem|, b.ptr) && s.dma == b.ptr != c.ep0 && s.dma + c.maxPacket <= |s.mem|
    requires s0 == Load(c, s, b).(transferSize := b.len, tLen := c.maxPacket, tx := Ctrl(ACK, true))
    ensures !Sends(c, s0, Packets(mem[b.ptr..b.ptr + b.len], c.maxPacket), true)
  {
    var payload, m := mem[b.ptr..b.ptr + b.len], c.maxPacket;
    StillTheFirst(c, s, s0, b, mem);
    SecondPiece(payload, m);
    var ps := Packets(payload, m);
    NotReady(c, InHandler(c, s0), ps[1]);
    assert !SendsFrom(c, InHandler(c, s0), ps, 1, false);
  }

  lemma StillTheFirst(c: Config, s: Ep0, s0: Ep0, b: Blob, mem: seq<bv8>)
    requires s.req.dirIn && 0 < c.maxPacket < b.len && InMemory(c, s.mem, b) && Placed(b, c.ep0, c.maxPacket)
    requires s.mem == mem == Marked(|s.mem|, b.ptr) && s.dma == b.ptr != c.ep0 && s.dma + c.maxPacket <= |s.mem|
    requires s0 == Load(c, s, b).(transferSize := b.len, tLen := c.maxPacket, tx := Ctrl(ACK, true))
    ensures
      var s1 := InHandler(c, s0);
      0 < s1.tLen && |s1.mem| == |s.mem| && s1.dma == b.ptr && s1.mem[b.ptr] == 1
  {
    var n := Min(b.len - c.maxPacket, c.maxPacket);
    CopyAt(mem, c.ep0, b.ptr, c.maxPacket, b.ptr);
    CopyAt(s0.mem, c.ep0, b.ptr + c.maxPacket, n, b.ptr);
  }

  lemma SecondPiece(payload: seq<bv8>, m: nat)
    requires 0 < m < |payload|
    ensures
      var ps := Packets(payload, m);
      |ps| > 1 && 0 < |ps[1]| && ps[1][0] == payload[m]
  {
    assert Packets(payload, m)[1] == Packets(payload[m..], m)[0];
    assert payload[m..][0] == payload[m];
  }

  lemma WrongAddress(c: Config, s: Ep0, reply: Blob, b: Blob)
    requires InRequest(c, s, reply, b) && s.dma != c.ep0 && 0 < b.len
    requires s.dma != b.ptr || c.maxPacket < b.len
    ensures !Delivers(c, s, reply, b, Marked(|s.mem|, b.ptr))
  {
    var mem := Marked(|s.mem|, b.ptr);
    var s1 := s.(mem := mem);
    AnswerIsLoaded(c, s1, reply, b);
    NotSent(c, s1, SetupStage(c, s1, reply), b, mem);
  }

  lemma NotSent(c: Config, s: Ep0, s0: Ep0, b: Blob, mem: seq<bv8>)
    requires s.req.dirIn && 0 < c.maxPacket && InMemory(c, s.mem, b) && Placed(b, c.ep0, c.maxPacket)
    requires s.mem == mem == Marked(|s.mem|, b.ptr) && s.dma + c.maxPacket <= |s.mem|
    requires s.dma != c.ep0 && 0 < b.len && (s.dma != b.ptr || c.maxPacket < b.len)
    requires s0 == Load(c, s, b).(transferSize := b.len, tLen := Min(b.len, c.maxPacket), tx := Ctrl(ACK, true))
    ensures !Sends(c, s0, Packets(mem[b.ptr..b.ptr + b.len], c.maxPacket), true)
  {
    if s.dma != b.ptr {
      FirstPacketIsWrong(c, s, s0, b, mem);
    } else {
      SecondPacketIsWrong(c, s, s0, b, mem);
    }
  }

  /** Where the register has to point for `b` to be sent. */
  predicate PointsRight(c: Config, dma: nat, b: Blob)
  {
    dma == c.ep0 || b.len == 0 || (dma == b.ptr && b.len <= c.maxPacket)
  }

  /** EP0 IN data stage of a request that is answered with bytes: whatever else was left by earlier
      transfers, the host is sent the payload for all contents of the memory if and only if the address
      register points at the EP0 buffer when the SETUP arrives, or else at a payload that fits one
      packet. The payload may be the EP0 buffer. */
  lemma InDataStage(c: Config, s: Ep0, reply: Blob, b: Blob)
    requires InRequest(c, s, reply, b)
    ensures (forall mem :: |mem| == |s.mem| ==> Delivers(c, s, reply, b, mem)) <==> PointsRight(c, s.dma, b)
  {
    if PointsRight(c, s.dma, b) {
      forall mem | |mem| == |s.mem| ensures Delivers(c, s, reply, b, mem) {
        if s.dma == c.ep0 {
          DeliversFromBuffer(c, s, reply, b, mem);
        } else {
          DeliversInPlace(c, s, reply, b, mem);
        }
      }
    } else {
      WrongAddress(c, s, reply, b);
    }
  }

  /** The bytes a request announces for its data stage; some requests leave the earlier number. */
  function Announced(c: Config, req: Setup, reply: Blob, left: nat): nat
  {
    if req.standard then
      match req.request
      case GetDescriptor => DescriptorLength(c, req, left)
      case SetAddress => req.wLength
      case _ => left
    else if req.dirIn then if reply.len > 0 && reply.ptr != 0 then reply.len else left
    else if req.wLength > 0 then req.wLength
    else left
  }

  /** The length of what IsDescriptor describes. */
  function DescriptorLength(c: Config, req: Setup, left: nat): nat
  {
    match req.descr
    case DeviceDescr => if c.device.Some? then Min(req.wLength, c.device.value.len) else left
    case ConfigDescr => if c.config.Some? then Min(req.wLength, c.config.value.len) else left
    case StringDescr => if req.valueLow in c.strings then c.strings[req.valueLow].len else left
    case OtherDescr => left
  }

  /** SET_CONFIGURATION and the ENDPOINT_HALT feature set the endpoints up again. */
  predicate SetsUpEndpoints(req: Setup)
  {
    req.standard && (req.request.SetConfiguration? || (req.request.SetFeature? && req.valueIsZero))
  }

  lemma SetupEffects(c: Config, s: Ep0, reply: Blob)
    requires Sendable(c, s.mem, s.req, reply)
    ensures
      var s' := SetupStage(c, s, reply);
      && s'.remaining == Announced(c, s.req, reply, s.remaining) && s'.req == s.req
      && s'.dma == (if SetsUpEndpoints(s.req) then c.ep0 else s.dma)
      && (s.state != POWERED ==> s'.state != POWERED)
  {
  }

  /** An IN request that the firmware answers with nothing: the user callback has no bytes, the
      descriptor is not set, or the standard request is none that sends data. */
  predicate AnswersNothing(c: Config, req: Setup, reply: Blob)
  {
    req.dirIn &&
    if req.standard then req.request.GetDescriptor? ==> !req.descr.OtherDescr? && !HasDescriptor(c, req)
    else reply.len == 0
  }

  /** An IN request that is refused: an unknown descriptor, or an answer without a buffer. */
  predicate Refused(req: Setup, reply: Blob)
  {
    req.dirIn &&
    if req.standard then req.request.GetDescriptor? && req.descr.OtherDescr? else 0 < reply.len && reply.ptr == 0
  }

  /** Every IN request is answered with bytes, answered with nothing or refused. */
  lemma InRequestsAreCovered(c: Config, req: Setup, reply: Blob)
    requires req.dirIn
    ensures AnswersNothing(c, req, reply) || Refused(req, reply) || exists b :: Answers(c, req, reply, b)
    ensures !(AnswersNothing(c, req, reply) && Refused(req, reply))
    ensures AnswersNothing(c, req, reply) || Refused(req, reply) ==> forall b :: !Answers(c, req, reply, b)
  {
    if req.standard {
      WantedIsDescriptor(c, req);
      if req.request.GetDescriptor? && HasDescriptor(c, req) {
        assert Answers(c, req, reply, Wanted(c, req).value);
      }
    } else if 0 < reply.len && reply.ptr != 0 {
      assert Answers(c, req, reply, reply);
    }
  }

  /** A refused request stalls the IN direction and leaves the memory and the register alone. */
  lemma RefusedStalls(c: Config, s: Ep0, reply: Blob)
    requires Refused(s.req, reply)
    ensures Sendable(c, s.mem, s.req, reply)
    ensures
      var s' := SetupStage(c, s, reply);
      && s'.tx == Ctrl(STALL, false) && s'.rx == Ctrl(ACK, true)
      && s'.tLen == 0 && s'.mem == s.mem && s'.dma == s.dma
  {
  }

  /** An IN request answered with nothing; what earlier transfers left to be sent lies in memory. */
  ghost predicate EmptyRequest(c: Config, s: Ep0, reply: Blob)
  {
    && AnswersNothing(c, s.req, reply) && Sendable(c, s.mem, s.req, reply)
    && 0 < c.maxPacket < UNSUPPORTED && s.dma <= |s.mem| && c.ep0 + c.maxPacket <= |s.mem|
    && s.head + Announced(c, s.req, reply, s.remaining) <= |s.mem|
  }

  /** The firmware does not clear the count of bytes left by an earlier transfer. The host is sent one
      empty packet and then served its status stage if and only if that count is below a packet. */
  lemma EmptyAnswer(c: Config, s: Ep0, reply: Blob)
    requires EmptyRequest(c, s, reply)
    ensures Sends(c, SetupStage(c, s, reply), [[]], true)
            <==> Announced(c, s.req, reply, s.remaining) < c.maxPacket
  {
    var s0 := SetupStage(c, s, reply);
    EmptyIsArmed(c, s, reply);
    WholeOnce(c.maxPacket);
    assert Ready(c, s0, []);
  }

  lemma EmptyIsArmed(c: Config, s: Ep0, reply: Blob)
    requires EmptyRequest(c, s, reply)
    ensures
      var s0 := SetupStage(c, s, reply);
      && s0.tLen == 0 && s0.tx == Ctrl(ACK, true) && s0.req == s.req && s0.head == s.head && s0.mem == s.mem
      && s0.remaining == s0.transferSize == Announced(c, s.req, reply, s.remaining)
      && s0.dma <= |s0.mem|
  {
  }

  // ------------------------------------------------------------ requests without a data stage

  /** Every OUT request without data, SET_ADDRESS and SET_CONFIGURATION among them, is answered by exactly
      one empty packet on DATA1, the status stage, and then the device waits for the next request. */
  lemma NoDataStage(c: Config, s: Ep0, reply: Blob)
    requires !s.req.dirIn && s.req.wLength == 0 && Sendable(c, s.mem, s.req, reply)
    requires s.dma <= |s.mem| && c.ep0 <= |s.mem|
    ensures Sends(c, SetupStage(c, s, reply), [[]], true)
  {
    assert Ready(c, SetupStage(c, s, reply), []);
  }

  // ------------------------------------------------------------ OUT data stage

  /** A packet arrives: the hardware stores it at the DMA address, then the handler runs. */
  ghost function Receive(c: Config, s: Ep0, data: seq<bv8>): Ep0
  {
    if s.dma + |data| <= |s.mem| then
      OutHandler(c, s.(mem := Store(s.mem, s.dma, data)), |data|)
    else s
  }

  ghost function AfterOut(c: Config, s: Ep0, ps: seq<seq<bv8>>): Ep0
  {
    if ps == [] then s else Receive(c, AfterOut(c, s, ps[..|ps| - 1]), ps[|ps| - 1])
  }

  /** Number of calls of the user's control-request callback while `ps` arrive. */
  ghost function UserCalls(c: Config, s: Ep0, ps: seq<seq<bv8>>): nat
  {
    if ps == [] then 0
    else
      var init := ps[..|ps| - 1];
      UserCalls(c, s, init) + (if OutCallsUser(AfterOut(c, s, init), |ps[|ps| - 1]|) then 1 else 0)
  }

  /** `ps` splits `total` bytes so that only the last packet reaches the end. */
  ghost predicate Splits(ps: seq<seq<bv8>>, total: nat)
  {
    ps != [] && |Flatten(ps)| == total && forall i :: 0 <= i < |ps| ==> |Flatten(ps[..i])| < total
  }

  /** `got` has arrived, in `k` packets. */
  ghost predicate Collecting(s0: Ep0, s: Ep0, got: seq<bv8>, k: nat)
  {
    && s.req == s0.req && |s.mem| == |s0.mem|
    && s.remaining == s0.remaining - |got| && s.dma == s0.dma + |got|
    && s0.dma + |got| <= |s.mem| && s.mem[s0.dma..s0.dma + |got|] == got
    && s.rx == Ctrl(ACK, k % 2 == 0)
  }

  ghost predicate OutPending(s0: Ep0)
  {
    !s0.req.dirIn && 0 < s0.remaining < 0x1_0000 && s0.dma + s0.remaining <= |s0.mem|
  }

  /** Before the last byte the handler only moves on; 16-bit arithmetic does not wrap. */
  lemma OutMovesOn(c: Config, s: Ep0, n: nat)
    requires !s.req.dirIn && n < s.remaining < 0x1_0000
    ensures !OutCallsUser(s, n)
    ensures OutHandler(c, s, n) == s.(remaining := s.remaining - n, dma := s.dma + n, rx := Ctrl(ACK, !s.rx.tog))
  {
  }

  lemma ReceiveMore(c: Config, s0: Ep0, s: Ep0, got: seq<bv8>, k: nat, data: seq<bv8>)
    requires OutPending(s0) && Collecting(s0, s, got, k) && |got| + |data| < s0.remaining
    ensures !OutCallsUser(s, |data|) && Collecting(s0, Receive(c, s, data), got + data, k + 1)
  {
    StoreExtends(s.mem, s0.dma, got, data);
    OutMovesOn(c, s.(mem := Store(s.mem, s.dma, data)), |data|);
  }

  lemma ReceiveLast(c: Config, s0: Ep0, s: Ep0, got: seq<bv8>, k: nat, data: seq<bv8>)
    requires OutPending(s0) && Collecting(s0, s, got, k) && |got| + |data| == s0.remaining
    ensures OutCallsUser(s, |data|)
    ensures
      var r := Receive(c, s, data);
      && |r.mem| == |s0.mem| && r.mem[s0.dma..s0.dma + s0.remaining] == got + data
      && r.dma == c.ep0 && r.tx == Ctrl(ACK, true) && r.tLen == 0 && r.req == s0.req
  {
    StoreExtends(s.mem, s0.dma, got, data);
  }

  lemma {:induction false} CollectPrefix(c: Config, s0: Ep0, ps: seq<seq<bv8>>, i: nat)
    requires OutPending(s0)
    requires s0.rx == Ctrl(ACK, true) && Splits(ps, s0.remaining) && i < |ps|
    ensures Collecting(s0, AfterOut(c, s0, ps[..i]), Flatten(ps[..i]), i) && UserCalls(c, s0, ps[..i]) == 0
  {
    if i > 0 {
      CollectPrefix(c, s0, ps, i - 1);
      assert ps[..i][..i - 1] == ps[..i - 1];
      assert |Flatten(ps[..i])| < s0.remaining;
      ReceiveMore(c, s0, AfterOut(c, s0, ps[..i - 1]), Flatten(ps[..i - 1]), i - 1, ps[i - 1]);
    }
  }

  /** EP0 OUT data stage: however wLength bytes are split, every packet finds the toggle it expects,
      the user callback runs exactly once, after the last byte, when the bytes lie together where the
      address register stood, and the register is back at the EP0 buffer. Then the host is sent the
      empty packet of the status stage and no more. */
  lemma OutDataStage(c: Config, s: Ep0, reply: Blob, ps: seq<seq<bv8>>)
    requires !s.req.dirIn && !s.req.standard && 0 < s.req.wLength < 0x1_0000
    requires s.dma + s.req.wLength <= |s.mem| && Splits(ps, s.req.wLength)
    ensures
      var s0 := SetupStage(c, s, reply);
      var done := AfterOut(c, s0, ps);
      && (forall i :: 0 <= i < |ps| ==>
            AfterOut(c, s0, ps[..i]).rx == Ctrl(ACK, i % 2 == 0) && UserCalls(c, s0, ps[..i]) == 0)
      && UserCalls(c, s0, ps) == 1 && !SetupCallsUser(s.req)
      && |done.mem| == |s.mem| && done.mem[s.dma..s.dma + s.req.wLength] == Flatten(ps)
      && done.dma == c.ep0 && done.tx == Ctrl(ACK, true) && done.tLen == 0
      && (c.ep0 <= |s.mem| ==> Sends(c, done, [[]], true))
  {
    var s0 := SetupStage(c, s, reply);
    forall i | 0 <= i < |ps|
      ensures AfterOut(c, s0, ps[..i]).rx == Ctrl(ACK, i % 2 == 0) && UserCalls(c, s0, ps[..i]) == 0
    {
      CollectPrefix(c, s0, ps, i);
    }
    var m := |ps| - 1;
    CollectPrefix(c, s0, ps, m);
    ReceiveLast(c, s0, AfterOut(c, s0, ps[..m]), Flatten(ps[..m]), m, ps[m]);
  }

  /** Whether the request's bytes end up at the start of the EP0 buffer, where the user reads them. */
  ghost predicate LandsInBuffer(c: Config, s: Ep0, reply: Blob, ps: seq<seq<bv8>>)
    requires !s.req.dirIn && !s.req.standard
  {
    var done := AfterOut(c, SetupStage(c, s, reply), ps);
    c.ep0 + s.req.wLength <= |done.mem| && done.mem[c.ep0..c.ep0 + s.req.wLength] == Flatten(ps)
  }

  lemma OnePacket(c: Config, s0: Ep0, data: seq<bv8>)
    requires 0 < |data|
    ensures Splits([data], |data|) && Flatten([data]) == data && AfterOut(c, s0, [data]) == Receive(c, s0, data)
  {
    assert [data][..0] == [];
    assert Flatten([data]) == Flatten([]) + data;
  }

  /** A SETUP does not move the DMA address back. Unless it stands at the EP0 buffer, some answer of
      the host is not where the user reads it. */
  lemma Misplaced(c: Config, s: Ep0, reply: Blob) returns (data: seq<bv8>)
    requires !s.req.dirIn && !s.req.standard && 0 < s.req.wLength < 0x1_0000
    requires s.dma + s.req.wLength <= |s.mem| && c.ep0 + s.req.wLength <= |s.mem| && s.dma != c.ep0
    ensures Splits([data], s.req.wLength) && !LandsInBuffer(c, s, reply, [data])
  {
    data := StoreMisses(s.mem, s.dma, c.ep0, s.req.wLength);
    var s0 := SetupStage(c, s, reply);
    OnePacket(c, s0, data);
    assert s0.mem == s.mem && s0.dma == s.dma;
    assert Receive(c, s0, data).mem == Store(s.mem, s.dma, data);
  }

  lemma StoreMisses(mem: seq<bv8>, at: nat, base: nat, n: nat) returns (data: seq<bv8>)
    requires at != base && at + n <= |mem| && base + n <= |mem| && 0 < n
    ensures |data| == n && Store(mem, at, data)[base..base + n] != data
  {
    var k := if base < at then 0 else n - 1;
    data := seq(n, _ => if mem[base + k] == 0 then 1 else 0);
    assert Store(mem, at, data)[base..base + n][k] == mem[base + k] != data[k];
  }

  /** The buffer holds what the host sent, for every split, if and only if the address register points
      at the EP0 buffer when the SETUP arrives. */
  lemma BufferHoldsOutData(c: Config, s: Ep0, reply: Blob)
    requires !s.req.dirIn && !s.req.standard && 0 < s.req.wLength < 0x1_0000
    requires s.dma + s.req.wLength <= |s.mem| && c.ep0 + s.req.wLength <= |s.mem|
    ensures s.dma == c.ep0 <==> forall ps :: Splits(ps, s.req.wLength) ==> LandsInBuffer(c, s, reply, ps)
  {
    if s.dma == c.ep0 {
      forall ps | Splits(ps, s.req.wLength) ensures LandsInBuffer(c, s, reply, ps) {
        OutDataStage(c, s, reply, ps);
      }
    } else {
      var data := Misplaced(c, s, reply);
      assert Splits([data], s.req.wLength);
    }
  }
}
