/**
 Sequence numbers on endpoint 0 of the USB3 device engine. Every further packet of a read is armed
 with a counter that counts IN events and that no SETUP resets; a USB 3 host expects the number of
 the packet within its data stage, modulo 32.
 */
module Usb3Numbering {
  import opened Arithmetic
  import opened Common
  import opened FlatMemory
  import opened Usb3Word
  import opened Usb3Control

  /** The word offers packet number `i` of its data stage: sequence number and status ACK. */
  predicate Numbered(word: Fields, i: nat)
  {
    word.seqNum == i % 32 && word.status == ACK
  }

  // ------------------------------------------------------------ one read

  /** The next IN event, if what it sends lies in memory. */
  ghost function Next(ep0: nat, s: Ep0): Ep0
  {
    if s.head != 0 ==> Fits(s.mem, ep0, s.head, s.left) then InEvent(ep0, s) else s
  }

  ghost function After(ep0: nat, s: Ep0, i: nat): Ep0
  {
    if i == 0 then s else Next(ep0, After(ep0, s, i - 1))
  }

  /** Number of packets for `left` bytes. */
  function Further(left: nat): nat { (left + MAX_PACKET - 1) / MAX_PACKET }

  /** Whether bit 6 of the counter has been set since it stood at `count`, `i` packets ago. */
  predicate Spoiled(count: nat, i: nat)
  {
    i > 0 && (Spoiled(count, i - 1) || BitSix(count + i))
  }

  ghost predicate InRead(ep0: nat, s: Ep0)
  {
    s.head != 0 && Fits(s.mem, ep0, s.head, s.left)
  }

  /** `t` is `i` further packets after `s`. */
  ghost predicate Follows(s: Ep0, t: Ep0, i: nat)
  {
    && t.left == (if MAX_PACKET * i <= s.left then s.left - MAX_PACKET * i else 0)
    && t.count % 0x1_0000_0000 == (s.count + i) % 0x1_0000_0000
    && (i > 0 ==> t.txCtrl.seqNum == (s.count + i) % 32)
    && t.txCtrl.status == (if Spoiled(s.count, i) then 3 else ACK)
  }

  lemma OneMore(ep0: nat, s: Ep0, t: Ep0, i: nat)
    requires InRead(ep0, t) && Follows(s, t, i) && 0 < t.left
    ensures InRead(ep0, Next(ep0, t)) && Follows(s, Next(ep0, t), i + 1)
  {
    CounterWraps(s.count, t.count, i);
  }

  /** The counter wraps at 32 bits, which no field notices. */
  lemma CounterWraps(start: nat, count: nat, i: nat)
    requires count % 0x1_0000_0000 == (start + i) % 0x1_0000_0000
    ensures
      var n := (count + 1) % 0x1_0000_0000;
      && n % 0x1_0000_0000 == (start + i + 1) % 0x1_0000_0000
      && n % 32 == (start + i + 1) % 32 && (BitSix(n) <==> BitSix(start + i + 1))
  {
    var n := (count + 1) % 0x1_0000_0000;
    assert n == (start + i + 1) % 0x1_0000_0000;
    Wrapped(start + i + 1);
  }

  lemma Wrapped(n: nat)
    ensures n % 0x1_0000_0000 % 32 == n % 32 && (BitSix(n % 0x1_0000_0000) <==> BitSix(n))
  {
    ModOfMod(n, 32, 0x800_0000);
    ModOfMod(n, 128, 0x200_0000);
  }

  lemma {:induction false} AfterPackets(ep0: nat, s: Ep0, i: nat)
    requires InRead(ep0, s) && i <= Further(s.left) && s.txCtrl.status == ACK
    ensures InRead(ep0, After(ep0, s, i)) && Follows(s, After(ep0, s, i), i)
  {
    if i > 0 {
      AfterPackets(ep0, s, i - 1);
      OneMore(ep0, s, After(ep0, s, i - 1), i - 1);
    }
  }

  /** The counter runs into bit 6 once it has passed the next multiple of 64. */
  lemma {:induction false} SpoiledAfter(count: nat, i: nat)
    requires count % 32 == 0 && 0 < i
    ensures Spoiled(count, i) <==> count % 128 + i >= 64
  {
    if i > 1 {
      SpoiledAfter(count, i - 1);
    }
    BitSixAfter(count, i);
  }

  lemma BitSixAfter(count: nat, i: nat)
    requires count % 32 == 0 && 0 < i
    ensures count % 128 + i < 64 ==> !BitSix(count + i)
    ensures count % 128 >= 64 && i == 1 ==> BitSix(count + i)
    ensures count % 128 + i == 64 ==> BitSix(count + i)
  {
    if count % 128 + i < 128 {
      ModSum(count, i);
    } else {
      Multiple(count);
    }
  }

  lemma ModSum(n: nat, i: nat)
    requires n % 128 + i < 128
    ensures (n + i) % 128 == n % 128 + i
  {
  }

  /** A multiple of 32 is at most 96 modulo 128. */
  lemma Multiple(n: nat)
    requires n % 32 == 0
    ensures n % 128 <= 96
  {
  }

  /** Packets 0 to `k` carry their numbers. */
  ghost predicate AllNumbered(ep0: nat, s: Ep0, k: nat)
  {
    forall i :: 0 <= i <= k ==> Numbered(After(ep0, s, i).txCtrl, i)
  }

  /** The counter at the SETUP lets `k` further packets carry their numbers. */
  predicate CounterAllows(count: nat, k: nat)
  {
    k == 0 || (count % 32 == 0 && count % 128 + k < 64)
  }

  /** A counter that stood at `count` at the SETUP gives packet `i` its number. */
  predicate CounterGives(count: nat, i: nat)
  {
    i == 0 || ((count + i) % 32 == i % 32 && !Spoiled(count, i))
  }

  lemma PacketIsNumbered(ep0: nat, s: Ep0, i: nat)
    requires InRead(ep0, s) && i <= Further(s.left) && s.txCtrl == FirstFields(s.loaded)
    ensures Numbered(After(ep0, s, i).txCtrl, i) <==> CounterGives(s.count, i)
  {
    AfterPackets(ep0, s, i);
  }

  lemma AllRight(count: nat, k: nat)
    ensures (forall i :: 0 <= i <= k ==> CounterGives(count, i)) <==> CounterAllows(count, k)
  {
    if k > 0 {
      SameModulo(count);
      if count % 32 == 0 {
        SpoiledAfter(count, k);
        forall i | 0 <= i <= k && CounterAllows(count, k) ensures CounterGives(count, i) {
          if i > 0 {
            SpoiledAfter(count, i);
          }
        }
        assert CounterGives(count, k) ==> CounterAllows(count, k);
      } else {
        assert !CounterGives(count, 1);
      }
    }
  }

  lemma SameModulo(count: nat)
    ensures (count + 1) % 32 == 1 <==> count % 32 == 0
    ensures count % 32 == 0 ==> forall i: nat {:trigger CounterGives(count, i)} :: (count + i) % 32 == i % 32
  {
  }

  lemma DataIsNumbered(ep0: nat, s: Ep0, descr: Blob, wLength: nat)
    requires Fits(s.mem, ep0, descr.ptr, descr.len) && descr.ptr != 0
    ensures
      var t := GetDescriptor(ep0, s, descr, wLength);
      AllNumbered(ep0, t, Further(t.left)) <==> CounterAllows(s.count, Further(t.left))
  {
    var t := GetDescriptor(ep0, s, descr, wLength);
    var k := Further(t.left);
    forall i | 0 <= i <= k ensures Numbered(After(ep0, t, i).txCtrl, i) <==> CounterGives(s.count, i) {
      PacketIsNumbered(ep0, t, i);
    }
    AllRight(s.count, k);
  }

  /** The host fetches the closing empty packet too, if it asked for more than `n` bytes and no shorter
      packet has told it that there are no more. */
  predicate FetchesClosing(n: nat, wLength: nat)
  {
    0 < n < wLength && n % MAX_PACKET == 0
  }

  /** The number of the last packet that the host takes of a read. */
  function LastTaken(descr: Blob, wLength: nat): nat
  {
    var n := Min(wLength, descr.len);
    Further(n - Min(MAX_PACKET, n)) + (if FetchesClosing(n, wLength) then 1 else 0)
  }

  /** When all packets of a read are numbered rightly, by the counter at its SETUP. The closing packet
      goes out as number 0. */
  predicate ReadsRight(count: nat, descr: Blob, wLength: nat)
  {
    var n := Min(wLength, descr.len);
    && CounterAllows(count, Further(n - Min(MAX_PACKET, n)))
    && (FetchesClosing(n, wLength) ==> LastTaken(descr, wLength) % 32 == 0)
  }

  /** A read from any earlier state: every packet the host takes carries its number modulo 32 and status
      ACK if and only if (1) there is one packet with data, or the counter is a multiple of 32 and neither
      it nor the number of packets brings it into bit 6, and (2) the host does not fetch the closing
      empty packet, or number 0 is due for it. */
  lemma ReadIsNumbered(ep0: nat, s: Ep0, descr: Blob, wLength: nat)
    requires Fits(s.mem, ep0, descr.ptr, descr.len) && descr.ptr != 0
    ensures
      AllNumbered(ep0, GetDescriptor(ep0, s, descr, wLength), LastTaken(descr, wLength))
      <==> ReadsRight(s.count, descr, wLength)
  {
    var t := GetDescriptor(ep0, s, descr, wLength);
    DataIsNumbered(ep0, s, descr, wLength);
    ReadResetsCounter(ep0, s, descr, wLength);
    OneMoreNumbered(ep0, t, Further(t.left));
  }

  lemma OneMoreNumbered(ep0: nat, s: Ep0, k: nat)
    ensures AllNumbered(ep0, s, k + 1) <==> AllNumbered(ep0, s, k) && Numbered(After(ep0, s, k + 1).txCtrl, k + 1)
  {
  }

  /** A fresh device and a descriptor of exactly one packet, of which the host asks for more: the closing
      packet goes out as number 0 where number 1 is due. */
  lemma ClosingPacketIsMisnumbered(ep0: nat, s: Ep0, descr: Blob, wLength: nat)
    requires Fits(s.mem, ep0, descr.ptr, descr.len) && descr.ptr != 0
    requires s.count == 0 && descr.len == MAX_PACKET < wLength
    ensures LastTaken(descr, wLength) == 1
    ensures
      var t := GetDescriptor(ep0, s, descr, wLength);
      Numbered(t.txCtrl, 0) && Numbered(After(ep0, t, 1).txCtrl, 0) && !Numbered(After(ep0, t, 1).txCtrl, 1)
  {
    ReadResetsCounter(ep0, s, descr, wLength);
  }

  /** The number of pieces of DescriptorRead: the first, the further ones and the empty one. */
  lemma PiecesOfRead(ep0: nat, s: Ep0, descr: Blob, wLength: nat)
    requires Fits(s.mem, ep0, descr.ptr, descr.len)
    ensures
      var payload := s.mem[descr.ptr..descr.ptr + Min(wLength, descr.len)];
      |Pieces(payload)| == Further(GetDescriptor(ep0, s, descr, wLength).left) + 2
  {
    PiecesMakeUpPayload(s.mem[descr.ptr..descr.ptr + Min(wLength, descr.len)]);
  }

  /** A read that goes to its end resets the counter. */
  lemma ReadResetsCounter(ep0: nat, s: Ep0, descr: Blob, wLength: nat)
    requires Fits(s.mem, ep0, descr.ptr, descr.len) && descr.ptr != 0
    ensures
      var t := GetDescriptor(ep0, s, descr, wLength);
      var end := After(ep0, t, Further(t.left) + 1);
      end.count == 0 && end.statusArmed && end.txCtrl == FirstFields(0)
  {
    var t := GetDescriptor(ep0, s, descr, wLength);
    AfterPackets(ep0, t, Further(t.left));
  }

  // ------------------------------------------------------------ runs

  /** A read, any other request, or the end of an IN transaction. A class or vendor IN request, which sets
      pDescr to its answer, is a read; other requests leave some number in SetupLen and some word in the
      control register. */
  datatype Event = Read(descr: Blob, wLength: nat) | OtherRequest(left: nat, word: Fields) | InDone

  ghost function Step(ep0: nat, s: Ep0, e: Event): Ep0
  {
    match e
    case Read(descr, wLength) =>
      if Fits(s.mem, ep0, descr.ptr, descr.len) then GetDescriptor(ep0, s, descr, wLength) else s
    case OtherRequest(left, word) => s.(left := left, txCtrl := word)
    case InDone => Next(ep0, s)
  }

  ghost function Run(ep0: nat, s: Ep0, events: seq<Event>): Ep0
  {
    if events == [] then s else Step(ep0, Run(ep0, s, events[..|events| - 1]), events[|events| - 1])
  }

  /** Descriptors are set, and nothing outside the memory is sent. */
  ghost predicate EventWithinMemory(ep0: nat, s: Ep0, e: Event)
  {
    match e
    case Read(descr, _) => descr.ptr != 0 && Fits(s.mem, ep0, descr.ptr, descr.len)
    case OtherRequest(_, _) => true
    case InDone => s.head != 0 ==> Fits(s.mem, ep0, s.head, s.left)
  }

  ghost predicate WithinMemory(ep0: nat, s: Ep0, events: seq<Event>)
  {
    forall i :: 0 <= i < |events| ==> EventWithinMemory(ep0, Run(ep0, s, events[..i]), events[i])
  }

  lemma WithinMemoryPrefix(ep0: nat, s: Ep0, events: seq<Event>, m: nat)
    requires WithinMemory(ep0, s, events) && m <= |events|
    ensures WithinMemory(ep0, s, events[..m])
  {
    forall i | 0 <= i < m ensures EventWithinMemory(ep0, Run(ep0, s, events[..m][..i]), events[..m][i]) {
      assert events[..m][..i] == events[..i];
    }
  }

  predicate AnyRead(events: seq<Event>)
  {
    events != [] && (events[|events| - 1].Read? || AnyRead(events[..|events| - 1]))
  }

  /** The bytes announced and not yet loaded, read off the events. */
  function ToLoad(events: seq<Event>): nat
  {
    if events == [] then 0
    else
      var left := ToLoad(events[..|events| - 1]);
      match events[|events| - 1]
      case Read(descr, wLength) => Min(wLength, descr.len) - Min(MAX_PACKET, Min(wLength, descr.len))
      case OtherRequest(n, _) => n
      case InDone => if AnyRead(events) then left - Min(MAX_PACKET, left) else left
  }

  /** The further packets armed since the last empty one, over all reads that were abandoned. */
  function Carried(events: seq<Event>): nat
  {
    if events == [] then 0
    else
      var before := events[..|events| - 1];
      if !events[|events| - 1].InDone? then Carried(before)
      else if AnyRead(before) && ToLoad(before) > 0 then (Carried(before) + 1) % 0x1_0000_0000
      else 0
  }

  /** As the firmware starts: no descriptor, nothing to load and the counter at 0. */
  ghost predicate Start(s: Ep0) { s.head == 0 && s.left == 0 && s.count == 0 }

  ghost predicate FollowsBus(s: Ep0, events: seq<Event>)
  {
    (s.head != 0 <==> AnyRead(events)) && s.left == ToLoad(events) && s.count == Carried(events)
  }

  lemma StepFollowsBus(ep0: nat, s: Ep0, before: seq<Event>, e: Event)
    requires FollowsBus(s, before) && EventWithinMemory(ep0, s, e)
    ensures FollowsBus(Step(ep0, s, e), before + [e])
  {
    assert (before + [e])[..|before|] == before;
  }

  /** In every run the counter is the number of further packets since the last empty one. */
  lemma {:induction false} CounterIsCarried(ep0: nat, s: Ep0, events: seq<Event>)
    requires Start(s) && WithinMemory(ep0, s, events)
    ensures FollowsBus(Run(ep0, s, events), events)
    decreases |events|
  {
    if events != [] {
      var m := |events| - 1;
      WithinMemoryPrefix(ep0, s, events, m);
      CounterIsCarried(ep0, s, events[..m]);
      StepFollowsBus(ep0, Run(ep0, s, events[..m]), events[..m], events[m]);
      assert events[..m] + [events[m]] == events;
    }
  }

  /** A read after any run is numbered rightly exactly by what earlier reads have carried over. */
  lemma ReadAfterRun(ep0: nat, s: Ep0, events: seq<Event>, descr: Blob, wLength: nat)
    requires Start(s) && WithinMemory(ep0, s, events)
    requires Fits(Run(ep0, s, events).mem, ep0, descr.ptr, descr.len) && descr.ptr != 0
    ensures
      AllNumbered(ep0, GetDescriptor(ep0, Run(ep0, s, events), descr, wLength), LastTaken(descr, wLength))
      <==> ReadsRight(Carried(events), descr, wLength)
  {
    CounterIsCarried(ep0, s, events);
    ReadIsNumbered(ep0, Run(ep0, s, events), descr, wLength);
  }

  /** A read of more than one packet, abandoned after one IN event: the second packet of the next read
      goes out as number 2. Without the first read it goes out as number 1. */
  lemma AbandonedReadMisnumbersNext(ep0: nat, s: Ep0, descr: Blob, wLength: nat)
    requires Start(s) && Fits(s.mem, ep0, descr.ptr, descr.len) && descr.ptr != 0
    requires MAX_PACKET < Min(wLength, descr.len)
    ensures Numbered(After(ep0, Run(ep0, s, [Read(descr, wLength)]), 1).txCtrl, 1)
    ensures
      var events := [Read(descr, wLength), InDone, Read(descr, wLength)];
      Numbered(After(ep0, Run(ep0, s, events), 1).txCtrl, 2) && !Numbered(After(ep0, Run(ep0, s, events), 1).txCtrl, 1)
  {
    var events := [Read(descr, wLength), InDone, Read(descr, wLength)];
    var first := GetDescriptor(ep0, s, descr, wLength);
    RunOfThree(ep0, s, events);
    var carried := Next(ep0, first);
    SecondPacket(ep0, first);
    SecondPacket(ep0, GetDescriptor(ep0, carried, descr, wLength));
  }

  lemma RunOfThree(ep0: nat, s: Ep0, events: seq<Event>)
    requires |events| == 3
    ensures Run(ep0, s, [events[0]]) == Step(ep0, s, events[0])
    ensures Run(ep0, s, events) == Step(ep0, Step(ep0, Step(ep0, s, events[0]), events[1]), events[2])
  {
    var one, two := [events[0]], events[..2];
    assert one[..0] == [] && two[..1] == one && two[1] == events[1];
    assert Run(ep0, s, []) == s;
    assert Run(ep0, s, one) == Step(ep0, s, events[0]);
    assert Run(ep0, s, two) == Step(ep0, Run(ep0, s, one), events[1]);
  }

  lemma SecondPacket(ep0: nat, s: Ep0)
    requires InRead(ep0, s) && 0 < s.left && s.count < 2 && s.txCtrl.status == ACK
    ensures Next(ep0, s).count == s.count + 1 && After(ep0, s, 1) == Next(ep0, s)
    ensures Numbered(Next(ep0, s).txCtrl, s.count + 1)
  {
    assert After(ep0, s, 0) == s;
  }
}
