/**
 Runs of endpoint 0 under everything the bus may do: bus resets, SETUP packets at any time and
 completed IN and OUT transactions. What the device holds is compared with what can be read off
 the events alone: the bytes of OUT data stages that were left unfinished, and the address the
 host has given.
 */
module Usb2ControlBus {
  import opened Common
  import opened FlatMemory
  import opened Usb2Registers
  import opened Usb2Control
  import opened Usb2ControlRuns

  /** A SETUP comes with the memory as the hardware and the user callback leave it. */
  datatype Event = Reset | SetupPacket(req: Setup, reply: Blob, mem: seq<bv8>) | InDone | OutDone(n: nat)

  /** USBHS_IRQHandler for endpoint 0. */
  ghost function Step(c: Config, s: Ep0, e: Event): Ep0
  {
    match e
    case Reset => BusReset(c, s)
    case SetupPacket(req, reply, mem) =>
      var s' := s.(req := req, mem := mem);
      if s.state != POWERED && Sendable(c, mem, req, reply) then SetupStage(c, s', reply) else s
    case InDone => if s.state != POWERED && (s.req.dirIn ==> Sending(c, s)) then InHandler(c, s) else s
    case OutDone(n) => if s.state != POWERED then OutHandler(c, s, n) else s
  }

  ghost function Run(c: Config, s: Ep0, events: seq<Event>): Ep0
  {
    if events == [] then s else Step(c, Run(c, s, events[..|events| - 1]), events[|events| - 1])
  }

  ghost predicate JustReset(s: Ep0)
  {
    s.devAd == 0 && s.addr == 0 && s.state != POWERED && s.tx.resp == NAK && s.rx.resp == NAK
  }

  // ------------------------------------------------------------ the address register of endpoint 0

  /** What endpoint 0 was doing before the first event: its last request and the bytes left of it. */
  datatype Past = Past(req: Setup, left: nat)

  /** The request being served: the last SETUP. */
  function Serving(past: Past, events: seq<Event>): Setup
  {
    if events == [] then past.req
    else
      var e := events[|events| - 1];
      if e.SetupPacket? then e.req else Serving(past, events[..|events| - 1])
  }

  /** The bytes announced and not yet transferred. */
  function Awaited(c: Config, past: Past, events: seq<Event>): nat
  {
    if events == [] then past.left
    else
      var before := events[..|events| - 1];
      var left, sends := Awaited(c, past, before), Serving(past, before).dirIn;
      match events[|events| - 1]
      case Reset => left
      case SetupPacket(req, reply, _) => Announced(c, req, reply, left)
      case InDone => if sends then left - Min(left, c.maxPacket) else left
      case OutDone(n) => if sends then left else (left - n) % 0x1_0000
  }

  /** The bytes of OUT data stages received and not followed by the end of the stage, a bus reset or
      a request that sets the endpoints up again. */
  function Outstanding(c: Config, past: Past, events: seq<Event>): nat
  {
    if events == [] then 0
    else
      var before := events[..|events| - 1];
      var n := Outstanding(c, past, before);
      match events[|events| - 1]
      case Reset => 0
      case SetupPacket(req, _, _) => if SetsUpEndpoints(req) then 0 else n
      case InDone => n
      case OutDone(k) =>
        if Serving(past, before).dirIn then n
        else if (Awaited(c, past, before) - k) % 0x1_0000 == 0 then 0
        else n + k
  }

  /** Nothing outside the memory is ever sent. */
  ghost predicate WithinMemory(c: Config, s: Ep0, events: seq<Event>)
  {
    forall i :: 0 <= i < |events| ==> EventWithinMemory(c, Run(c, s, events[..i]), events[i])
  }

  ghost predicate EventWithinMemory(c: Config, s: Ep0, e: Event)
  {
    match e
    case SetupPacket(req, reply, mem) => Sendable(c, mem, req, reply)
    case InDone => s.req.dirIn ==> Sending(c, s)
    case _ => true
  }

  lemma WithinMemoryPrefix(c: Config, s: Ep0, events: seq<Event>, m: nat)
    requires WithinMemory(c, s, events) && m <= |events|
    ensures WithinMemory(c, s, events[..m])
  {
    forall i | 0 <= i < m ensures EventWithinMemory(c, Run(c, s, events[..m][..i]), events[..m][i]) {
      assert events[..m][..i] == events[..i];
    }
  }

  ghost predicate FollowsBus(c: Config, past: Past, s: Ep0, events: seq<Event>)
  {
    && s.state != POWERED && s.req == Serving(past, events) && s.remaining == Awaited(c, past, events)
    && s.dma == c.ep0 + Outstanding(c, past, events)
  }

  lemma StepFollowsBus(c: Config, past: Past, s: Ep0, before: seq<Event>, e: Event)
    requires FollowsBus(c, past, s, before) && EventWithinMemory(c, s, e)
    ensures FollowsBus(c, past, Step(c, s, e), before + [e])
  {
    assert (before + [e])[..|before|] == before;
    if e.SetupPacket? {
      SetupEffects(c, s.(req := e.req, mem := e.mem), e.reply);
    }
  }

  /** In every run the register stands behind the EP0 buffer by exactly the bytes of OUT data stages
      that were left unfinished. */
  lemma {:induction false} AddressRegisterFollowsBus(c: Config, s: Ep0, events: seq<Event>)
    requires s.state != POWERED && s.dma == c.ep0 && WithinMemory(c, s, events)
    ensures FollowsBus(c, Past(s.req, s.remaining), Run(c, s, events), events)
    decreases |events|
  {
    if events != [] {
      var m := |events| - 1;
      WithinMemoryPrefix(c, s, events, m);
      AddressRegisterFollowsBus(c, s, events[..m]);
      StepFollowsBus(c, Past(s.req, s.remaining), Run(c, s, events[..m]), events[..m], events[m]);
      assert events[..m] + [events[m]] == events;
    }
  }

  /** An IN request after any run: the host is sent the payload, for all contents of the memory, if and
      only if no byte of an OUT data stage is outstanding (or the payload lies where the register
      points and fits one packet). */
  lemma InAfterRun(c: Config, s: Ep0, events: seq<Event>, req: Setup, reply: Blob, b: Blob, memory: seq<bv8>)
    requires s.state != POWERED && s.dma == c.ep0 && WithinMemory(c, s, events)
    requires InRequest(c, Run(c, s, events).(req := req, mem := memory), reply, b)
    ensures
      var n := Outstanding(c, Past(s.req, s.remaining), events);
      (forall mem :: |mem| == |memory| ==>
         Delivers(c, Run(c, s, events).(req := req, mem := memory), reply, b, mem))
      <==> n == 0 || b.len == 0 || (b.ptr == c.ep0 + n && b.len <= c.maxPacket)
  {
    AddressRegisterFollowsBus(c, s, events);
    InDataStage(c, Run(c, s, events).(req := req, mem := memory), reply, b);
  }

  /** A class or vendor OUT request after any run: the EP0 buffer holds what the host sends, for every
      split, if and only if no byte of an earlier OUT data stage is outstanding. */
  lemma OutAfterRun(c: Config, s: Ep0, events: seq<Event>, req: Setup, reply: Blob, memory: seq<bv8>)
    requires s.state != POWERED && s.dma == c.ep0 && WithinMemory(c, s, events)
    requires !req.dirIn && !req.standard && 0 < req.wLength < 0x1_0000
    requires c.ep0 + Outstanding(c, Past(s.req, s.remaining), events) + req.wLength <= |memory|
    ensures
      Outstanding(c, Past(s.req, s.remaining), events) == 0
      <==> forall ps :: Splits(ps, req.wLength) ==>
             LandsInBuffer(c, Run(c, s, events).(req := req, mem := memory), reply, ps)
  {
    AddressRegisterFollowsBus(c, s, events);
    BufferHoldsOutData(c, Run(c, s, events).(req := req, mem := memory), reply);
  }

  /** An IN request without an answer after any run: the host is sent the empty packet and then its
      status stage is served if and only if fewer bytes than a packet are awaited of earlier transfers. */
  lemma EmptyAnswerAfterRun(c: Config, s: Ep0, events: seq<Event>, req: Setup, reply: Blob, memory: seq<bv8>)
    requires s.state != POWERED && s.dma == c.ep0 && WithinMemory(c, s, events)
    requires EmptyRequest(c, Run(c, s, events).(req := req, mem := memory), reply)
    ensures
      Sends(c, SetupStage(c, Run(c, s, events).(req := req, mem := memory), reply), [[]], true)
      <==> Announced(c, req, reply, Awaited(c, Past(s.req, s.remaining), events)) < c.maxPacket
  {
    AddressRegisterFollowsBus(c, s, events);
    EmptyAnswer(c, Run(c, s, events).(req := req, mem := memory), reply);
  }

  /** A vendor IN request for more than one packet that the host abandons, followed by a standard IN
      request that the firmware has no answer to, such as GET_STATUS: after the empty packet a packet
      of the abandoned transfer is armed on DATA0, and the host's status stage is refused. */
  lemma AbandonedInSpoilsEmptyAnswer(c: Config, s: Ep0, vendor: Setup, b: Blob, req: Setup)
    requires s.state != POWERED && s.dma <= |s.mem| && 0 < c.maxPacket < UNSUPPORTED
    requires vendor.dirIn && !vendor.standard && c.maxPacket < b.len && b.ptr != 0 && InMemory(c, s.mem, b)
    requires req.dirIn && req.standard && req.request.OtherRequest?
    ensures
      var t := Run(c, s, [SetupPacket(vendor, b, s.mem)]).(req := req);
      && EmptyRequest(c, t, Blob(0, 0)) && !Sends(c, SetupStage(c, t, Blob(0, 0)), [[]], true)
      && var s1 := InHandler(c, SetupStage(c, t, Blob(0, 0)));
         && s1.tx == Ctrl(ACK, false) && s1.tLen == Min(b.len - c.maxPacket, c.maxPacket)
         && OutHandler(c, s1, 0).rx.resp == NAK
  {
    var events := [SetupPacket(vendor, b, s.mem)];
    assert events[..0] == [];
    assert Run(c, s, events[..0]) == s;
    var t := Run(c, s, events).(req := req);
    assert t.remaining == b.len && t.head == b.ptr && |t.mem| == |s.mem| && t.dma == s.dma;
    EmptyAnswer(c, t, Blob(0, 0));
  }

  /** An OUT request of `wLength` bytes that the host abandons after a packet of `n`. */
  function AbandonedOut(req: Setup, mem: seq<bv8>, n: nat): seq<Event>
  {
    [SetupPacket(req, Blob(0, 0), mem), OutDone(n)]
  }

  /** After it the register is `n` bytes behind the EP0 buffer, and the answer to the next IN request,
      which is loaded into the buffer and armed, is not what the host is sent. */
  lemma AbandonedOutSpoilsNextIn(c: Config, s: Ep0, out: Setup, n: nat, req: Setup, reply: Blob, b: Blob)
    requires s.state != POWERED && s.dma == c.ep0
    requires !out.dirIn && !out.standard && 0 < n < out.wLength < 0x1_0000
    requires InRequest(c, s.(req := req, dma := c.ep0 + n), reply, b) && 0 < b.len && b.ptr != c.ep0 + n
    ensures
      var t := Run(c, s, AbandonedOut(out, s.mem, n)).(req := req);
      && t.dma == c.ep0 + n && t.mem == s.mem && InRequest(c, t, reply, b)
      && Answered(Step(c, s, AbandonedOut(out, s.mem, n)[0]), OutDone(n))
      && SetupStage(c, t, reply).tx == Ctrl(ACK, true) && SetupStage(c, t, reply).tLen == Min(b.len, c.maxPacket)
      && exists mem :: |mem| == |s.mem| && !Delivers(c, t, reply, b, mem)
  {
    var t := AfterAbandonedOut(c, s, out, n);
    AnswerIsLoaded(c, t.(req := req), reply, b);
    WrongAddress(c, t.(req := req), reply, b);
  }

  lemma AfterAbandonedOut(c: Config, s: Ep0, out: Setup, n: nat) returns (t: Ep0)
    requires s.state != POWERED && s.dma == c.ep0
    requires !out.dirIn && !out.standard && 0 < n < out.wLength < 0x1_0000
    ensures t == Run(c, s, AbandonedOut(out, s.mem, n)) && t.dma == c.ep0 + n && t.mem == s.mem
  {
    var events := AbandonedOut(out, s.mem, n);
    t := Run(c, s, events);
    assert events[..1][..0] == [];
    assert Run(c, s, events[..1]) == Step(c, s, events[0]);
    OutMovesOn(c, Run(c, s, events[..1]), n);
  }

  // ------------------------------------------------------------ addressing

  /** A transaction is completed only while the device answers it. */
  ghost predicate Answered(s: Ep0, e: Event)
  {
    (e.InDone? ==> s.tx.resp == ACK) && (e.OutDone? ==> s.rx.resp == ACK)
  }

  /** The request being served, read off the bus alone: the last SETUP since the last reset. */
  function Pending(events: seq<Event>): Option<Setup>
  {
    if events == [] then None
    else
      var e := events[|events| - 1];
      if e.SetupPacket? then Some(e.req) else if e.Reset? then None else Pending(events[..|events| - 1])
  }

  /** A standard SET_ADDRESS. */
  predicate GivesAddress(r: Setup) { r.standard && !r.dirIn && r.request.SetAddress? }

  /** Completion of the status stage of a SET_ADDRESS with a legal address. */
  predicate CompletesSetAddress(before: seq<Event>, e: Event)
  {
    e.InDone? && Pending(before).Some? &&
    GivesAddress(Pending(before).value) && Pending(before).value.valueLow <= 0x7f
  }

  /** The address the host has given the device, read off the bus alone (section 9.4.6 of USB 2.0). */
  function GivenAddress(events: seq<Event>): (a: nat)
    ensures a <= 0x7f
  {
    if events == [] then 0
    else
      var before, e := events[..|events| - 1], events[|events| - 1];
      if e.Reset? then 0
      else if CompletesSetAddress(before, e) then Pending(before).value.valueLow
      else GivenAddress(before)
  }

  /** The state the host has brought the device into, read off the bus alone. */
  function GivenState(start: DeviceState, events: seq<Event>): DeviceState
  {
    if events == [] then start
    else
      var before, e := events[..|events| - 1], events[|events| - 1];
      if e.Reset? then DEFAULT
      else if CompletesSetAddress(before, e) then ADDRESS
      else if e.SetupPacket? && Configures(e.req) then CONFIGURED
      else GivenState(start, before)
  }

  /** A SET_CONFIGURATION of a configuration other than 0. */
  predicate Configures(r: Setup) { r.standard && r.request.SetConfiguration? && r.valueLow != 0 }

  /** A class or vendor OUT request that happens to have the number of SET_ADDRESS. */
  predicate LooksLikeSetAddress(r: Setup) { !r.standard && !r.dirIn && r.request.SetAddress? }

  /** All requests are in `requests`, and what they send lies in memory. */
  ghost predicate Admissible(c: Config, requests: iset<Setup>, events: seq<Event>)
  {
    forall i :: 0 <= i < |events| && events[i].SetupPacket? ==>
      events[i].req in requests && Sendable(c, events[i].mem, events[i].req, events[i].reply)
  }

  /** Only transactions that the device answers are completed. */
  ghost predicate AllAnswered(c: Config, s: Ep0, events: seq<Event>)
  {
    forall i :: 0 <= i < |events| ==> Answered(Run(c, s, events[..i]), events[i])
  }

  /** The handler's notion of the pending request and of the new address agrees with the bus. */
  ghost predicate AddressInv(start: DeviceState, s: Ep0, events: seq<Event>)
  {
    && s.state == GivenState(start, events) != POWERED && s.devAd == GivenAddress(events)
    && match Pending(events)
       case Some(r) => s.req == r && (r.request.SetAddress? && !r.dirIn ==> r.standard && s.addr == r.valueLow)
       case None => s.addr == 0 && s.devAd == 0
  }

  lemma SetupKeepsAddress(c: Config, s: Ep0, reply: Blob)
    requires Sendable(c, s.mem, s.req, reply)
    ensures
      var s' := SetupStage(c, s, reply);
      && s'.devAd == s.devAd && s'.req == s.req && s'.state == (if Configures(s.req) then CONFIGURED else s.state)
      && s'.addr == if s.req.standard && s.req.request.SetAddress? then s.req.valueLow else s.addr
  {
  }

  /** After a reset that was not followed by a request, an IN event could only complete a stale request;
      the device answers none then. */
  ghost predicate Quiet(s: Ep0, events: seq<Event>)
  {
    Pending(events).None? ==> s.tx.resp != ACK && s.rx.resp != ACK
  }

  lemma AddressStep(
    c: Config, start: DeviceState, s: Ep0, before: seq<Event>, e: Event)
    requires AddressInv(start, s, before) && Quiet(s, before) && Answered(s, e)
    requires e.SetupPacket? ==> !LooksLikeSetAddress(e.req) && Sendable(c, e.mem, e.req, e.reply)
    ensures AddressInv(start, Step(c, s, e), before + [e]) && Quiet(Step(c, s, e), before + [e])
  {
    assert (before + [e])[..|before|] == before;
    if e.SetupPacket? {
      SetupKeepsAddress(c, s.(req := e.req, mem := e.mem), e.reply);
    }
  }

  lemma AnsweredPrefix(c: Config, s: Ep0, events: seq<Event>, m: nat)
    requires AllAnswered(c, s, events) && m <= |events|
    ensures AllAnswered(c, s, events[..m])
  {
    forall i | 0 <= i < m ensures Answered(Run(c, s, events[..m][..i]), events[..m][i]) {
      assert events[..m][..i] == events[..i];
    }
  }

  lemma {:induction false} AddressRun(c: Config, s: Ep0, requests: iset<Setup>, events: seq<Event>)
    requires JustReset(s) && Admissible(c, requests, events) && AllAnswered(c, s, events)
    requires forall r :: r in requests ==> !LooksLikeSetAddress(r)
    ensures AddressInv(s.state, Run(c, s, events), events) && Quiet(Run(c, s, events), events)
    decreases |events|
  {
    if events != [] {
      var m := |events| - 1;
      AnsweredPrefix(c, s, events, m);
      AddressRun(c, s, requests, events[..m]);
      AddressStep(c, s.state, Run(c, s, events[..m]), events[..m], events[m]);
      assert events[..m] + [events[m]] == events;
    }
  }

  /** Without such requests the address register is always the address the host gave in a completed
      SET_ADDRESS, 0 after a reset, it changes in no other event, and the device is in the state the
      host has brought it into. */
  lemma AddressIsGiven(c: Config, s: Ep0, requests: iset<Setup>, events: seq<Event>, e: Event)
    requires JustReset(s) && Admissible(c, requests, events + [e]) && AllAnswered(c, s, events + [e])
    requires forall r :: r in requests ==> !LooksLikeSetAddress(r)
    ensures Run(c, s, events).devAd == GivenAddress(events) <= 0x7f
    ensures Run(c, s, events).state == GivenState(s.state, events)
    ensures Run(c, s, events + [e]).devAd != Run(c, s, events).devAd ==> e.Reset? || CompletesSetAddress(events, e)
  {
    var all := events + [e];
    assert all[..|events|] == events;
    assert forall i :: 0 <= i < |events| ==> all[i] == events[i];
    AnsweredPrefix(c, s, all, |events|);
    AddressRun(c, s, requests, events);
    AddressRun(c, s, requests, all);
  }

  /** The transactions that serve an OUT request: its data, if it has any, and the status stage. */
  function Transactions(req: Setup): seq<Event>
  {
    if req.wLength == 0 then [InDone] else [OutDone(req.wLength), InDone]
  }

  /** The states that a SET_ADDRESS, or a request that looks like one, goes through: each transaction is
      answered, and the address that was last given takes effect. */
  lemma RequestIsServed(c: Config, s: Ep0, req: Setup, reply: Blob, mem: seq<bv8>)
    requires s.state != POWERED && !req.dirIn && req.request.SetAddress?
    ensures
      var s0 := Step(c, s, SetupPacket(req, reply, mem));
      && AllAnswered(c, s0, Transactions(req))
      && var t := Run(c, s0, Transactions(req));
         var addr := if req.standard then req.valueLow else s.addr;
         t.devAd == (if addr <= 0x7f then addr else s.devAd) && t.state == (if addr <= 0x7f then ADDRESS else s.state)
  {
    var s0, ts := Step(c, s, SetupPacket(req, reply, mem)), Transactions(req);
    assert ts[..0] == [] && Run(c, s0, []) == s0;
    if req.wLength > 0 {
      assert ts[..1] == [ts[0]] && [ts[0]][..0] == [];
      assert Run(c, s0, ts[..1]) == OutHandler(c, s0, req.wLength);
    }
  }

  lemma {:induction false} RunConcat(c: Config, s: Ep0, es: seq<Event>, fs: seq<Event>)
    ensures Run(c, s, es + fs) == Run(c, Run(c, s, es), fs)
    decreases |fs|
  {
    if fs == [] {
      assert es + fs == es;
    } else {
      var m := |fs| - 1;
      RunConcat(c, s, es, fs[..m]);
      assert (es + fs)[..|es + fs| - 1] == es + fs[..m];
    }
  }

  lemma AnsweredConcat(c: Config, s: Ep0, es: seq<Event>, fs: seq<Event>)
    requires AllAnswered(c, s, es) && AllAnswered(c, Run(c, s, es), fs)
    ensures AllAnswered(c, s, es + fs)
  {
    var all := es + fs;
    forall i | 0 <= i < |all| ensures Answered(Run(c, s, all[..i]), all[i]) {
      if i < |es| {
        assert all[..i] == es[..i];
      } else {
        assert all[..i] == es + fs[..i - |es|];
        RunConcat(c, s, es, fs[..i - |es|]);
      }
    }
  }

  lemma OneSetup(c: Config, s: Ep0, e: Event)
    requires e.SetupPacket?
    ensures Run(c, s, [e]) == Step(c, s, e) && AllAnswered(c, s, [e])
  {
    assert [e][..0] == [] && Run(c, s, []) == s;
  }

  /** After any run whose transactions are answered, a SET_ADDRESS with a legal address can complete, and
      then the device answers to that address. */
  lemma SetAddressCompletes(c: Config, s: Ep0, events: seq<Event>, req: Setup, reply: Blob, mem: seq<bv8>)
    requires Run(c, s, events).state != POWERED && AllAnswered(c, s, events)
    requires GivesAddress(req) && req.valueLow <= 0x7f
    ensures
      var all := events + [SetupPacket(req, reply, mem)] + Transactions(req);
      && AllAnswered(c, s, all) && Run(c, s, all).devAd == req.valueLow && Run(c, s, all).state == ADDRESS
  {
    var e := SetupPacket(req, reply, mem);
    OneSetup(c, Run(c, s, events), e);
    RunConcat(c, s, events, [e]);
    AnsweredConcat(c, s, events, [e]);
    RequestIsServed(c, Run(c, s, events), req, reply, mem);
    RunConcat(c, s, events + [e], Transactions(req));
    AnsweredConcat(c, s, events + [e], Transactions(req));
  }

  /** A SET_ADDRESS that the host abandons for a request that looks like one, and serves to its end. */
  function Confusion(given: Setup, vendor: Setup, mem: seq<bv8>): seq<Event>
  {
    [SetupPacket(given, Blob(0, 0), mem)] + [SetupPacket(vendor, Blob(0, 0), mem)] + Transactions(vendor)
  }

  /** Its address takes effect, although the host has given none. */
  lemma VendorRequestCommitsAddress(c: Config, s: Ep0, given: Setup, vendor: Setup)
    requires JustReset(s)
    requires GivesAddress(given) && 0 < given.valueLow <= 0x7f && LooksLikeSetAddress(vendor)
    ensures
      var events := Confusion(given, vendor, s.mem);
      AllAnswered(c, s, events) && Run(c, s, events).devAd == given.valueLow && GivenAddress(events) == 0
  {
    var e, f := SetupPacket(given, Blob(0, 0), s.mem), SetupPacket(vendor, Blob(0, 0), s.mem);
    OneSetup(c, s, e);
    OneSetup(c, Step(c, s, e), f);
    RunConcat(c, s, [e], [f]);
    AnsweredConcat(c, s, [e], [f]);
    RequestIsServed(c, Step(c, s, e), vendor, Blob(0, 0), s.mem);
    RunConcat(c, s, [e] + [f], Transactions(vendor));
    AnsweredConcat(c, s, [e] + [f], Transactions(vendor));
    NoAddressGiven(given, vendor, s.mem);
  }

  lemma NoAddressGiven(given: Setup, vendor: Setup, mem: seq<bv8>)
    requires LooksLikeSetAddress(vendor)
    ensures GivenAddress(Confusion(given, vendor, mem)) == 0
  {
    var events := Confusion(given, vendor, mem);
    var two := [events[0], events[1]];
    assert two[..1][..0] == [] && GivenAddress(two[..1]) == 0;
    assert GivenAddress(two) == 0 && Pending(two) == Some(vendor);
    if vendor.wLength == 0 {
      assert events[..2] == two;
    } else {
      assert events[..3][..2] == two && Pending(events[..3]) == Some(vendor) && GivenAddress(events[..3]) == 0;
    }
  }

  /** The device answers to the address the host has given it, in every run with these requests. */
  ghost predicate AnswersToGivenAddress(c: Config, s: Ep0, requests: iset<Setup>)
  {
    forall events :: Admissible(c, requests, events) && AllAnswered(c, s, events) ==>
      Run(c, s, events).devAd == GivenAddress(events)
  }

  /** Among requests that can give an address at all, addressing is right if and only if no class or
      vendor OUT request has the number of SET_ADDRESS. */
  lemma AddressingIsRight(c: Config, s: Ep0, requests: iset<Setup>, given: Setup)
    requires JustReset(s) && given in requests && GivesAddress(given) && 0 < given.valueLow <= 0x7f
    ensures AnswersToGivenAddress(c, s, requests) <==> forall r :: r in requests ==> !LooksLikeSetAddress(r)
  {
    if r :| r in requests && LooksLikeSetAddress(r) {
      VendorRequestCommitsAddress(c, s, given, r);
      assert Admissible(c, requests, Confusion(given, r, s.mem));
    } else {
      forall events | Admissible(c, requests, events) && AllAnswered(c, s, events)
        ensures Run(c, s, events).devAd == GivenAddress(events)
      {
        AddressRun(c, s, requests, events);
      }
    }
  }
}
