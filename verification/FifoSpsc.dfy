/**
 The FIFO used without critical sections by one producer and one consumer, as the
 header of memory/fifo.h allows. A call is cut into its loads of the shared indices,
 its element copies and its final index store, and the steps of the two sides
 interleave in any order.
 */
module FifoSpsc {
  import opened Arithmetic
  import opened Fifo

  /** Where the producer stands inside fifo_write. */
  datatype Producer<T> =
    | PIdle
    | PLoadedRd(data: seq<T>, rd: nat)
    | PCopying(data: seq<T>, wr: nat, done: nat)

  /** What the consumer asked for: fifo_read, fifo_read_n or fifo_peek_n. */
  datatype Request = All | Exactly(n: nat) | Look(n: nat)

  /** Where the consumer stands inside its call. */
  datatype Consumer<T> =
    | CIdle
    | CLoadedRd(req: Request, rd: nat)
    | CCopying(req: Request, rd: nat, n: nat, out: seq<T>)

  /** The shared ring, the two sides, and the history of elements written and taken. */
  datatype State<T> = State(
    buffer: seq<T>, rd: nat, wr: nat,
    producer: Producer<T>, consumer: Consumer<T>,
    written: seq<T>, taken: seq<T>)
  {
    function Size(): nat { |buffer| }

    predicate WellFormed() { rd < Size() && wr < Size() }
  }

  ghost predicate Init<T>(s: State<T>)
  {
    0 < s.Size() && s.rd == 0 && s.wr == 0 && s.producer == PIdle && s.consumer == CIdle &&
    s.written == [] && s.taken == []
  }

  ghost predicate ProducerStep<T(!new)>(s: State<T>, t: State<T>)
    requires s.WellFormed()
  {
    match s.producer
    case PIdle =>
      exists data :: t == s.(producer := PLoadedRd(data, s.rd))
    case PLoadedRd(data, rd) =>
      rd < s.Size() &&
      if FreeSpace(rd, s.wr, s.Size()) < |data| then t == s.(producer := PIdle)
      else t == s.(producer := PCopying(data, s.wr, 0))
    case PCopying(data, wr, done) =>
      wr < s.Size() && done <= |data| < s.Size() &&
      if done < |data| then
        t == s.(buffer := s.buffer[Slot(wr, done, s.Size()) := data[done]], producer := PCopying(data, wr, done + 1))
      else
        t == s.(wr := Advance(s.wr, |data|, s.Size()), producer := PIdle, written := s.written + data)
  }

  /** Number of elements a call moves, given the indices it loaded. */
  function Granted(req: Request, rd: nat, wr: nat, size: nat): nat
    requires rd < size && wr < size
  {
    match req
    case All => Count(rd, wr, size)
    case Exactly(n) => if n <= Count(rd, wr, size) then n else 0
    case Look(n) => if n <= Count(rd, wr, size) then n else 0
  }

  ghost predicate ConsumerStep<T>(s: State<T>, t: State<T>)
    requires s.WellFormed()
  {
    match s.consumer
    case CIdle =>
      exists req :: t == s.(consumer := CLoadedRd(req, s.rd))
    case CLoadedRd(req, rd) =>
      rd < s.Size() &&
      t == s.(consumer := CCopying(req, rd, Granted(req, rd, s.wr, s.Size()), []))
    case CCopying(req, rd, n, out) =>
      rd < s.Size() && |out| <= n < s.Size() &&
      if |out| < n then
        t == s.(consumer := CCopying(req, rd, n, out + [s.buffer[Slot(rd, |out|, s.Size())]]))
      else if req.Look? then
        t == s.(consumer := CIdle)
      else
        t == s.(rd := Advance(s.rd, n, s.Size()), consumer := CIdle, taken := s.taken + out)
  }

  ghost predicate IsRun<T(!new)>(run: seq<State<T>>)
  {
    0 < |run| && Init(run[0]) &&
    forall i :: 0 <= i < |run| - 1 ==>
      run[i].WellFormed() && (ProducerStep(run[i], run[i + 1]) || ConsumerStep(run[i], run[i + 1]))
  }

  /** Slot of the i-th element ever written. */
  function Home(i: nat, size: nat): nat
    requires 0 < size
  {
    Wrap(i + 1, size)
  }

  ghost predicate Inv<T>(s: State<T>)
  {
    var w, r, size := |s.written|, |s.taken|, s.Size();
    && 0 < size && r <= w < r + size
    && s.rd == Wrap(r, size) && s.wr == Wrap(w, size)
    && s.taken == s.written[..r]
    && (forall i :: r <= i < w ==> s.buffer[Home(i, size)] == s.written[i])
    && ProducerInv(s, size - 1 - (w - r))
    && ConsumerInv(s)
  }

  /** The space the producer believes in is never more than the space there is. */
  ghost predicate ProducerInv<T>(s: State<T>, free: nat)
    requires s.WellFormed()
  {
    match s.producer
    case PIdle => true
    case PLoadedRd(data, rd) => rd < s.Size() && FreeSpace(rd, s.wr, s.Size()) <= free
    case PCopying(data, wr, done) =>
      && wr == s.wr && done <= |data| <= free
      && forall i :: |s.written| <= i < |s.written| + done ==> s.buffer[Home(i, s.Size())] == data[i - |s.written|]
  }

  /** The elements copied out so far are the next ones in the order of writing. */
  ghost predicate ConsumerInv<T>(s: State<T>)
    requires |s.taken| <= |s.written|
  {
    match s.consumer
    case CIdle => true
    case CLoadedRd(req, rd) => rd == s.rd
    case CCopying(req, rd, n, out) =>
      && rd == s.rd && |out| <= n <= |s.written| - |s.taken|
      && out == s.written[|s.taken|..|s.taken| + |out|]
  }

  lemma SlotIsHome(i: nat, k: nat, size: nat)
    requires 0 < size && k < size
    ensures Slot(Wrap(i, size), k, size) == Home(i + k, size)
  {
    WrapEarly(i, k + 1, size);
  }

  lemma AdvanceIsWrap(i: nat, n: nat, size: nat)
    requires 0 < size
    ensures Advance(Wrap(i, size), n, size) == Wrap(i + n, size)
  {
    WrapIsMod(Wrap(i, size) + n, size);
    WrapEarly(i, n, size);
  }

  /** Two elements less than `size` apart never share a slot. */
  lemma HomesDiffer(i: nat, j: nat, size: nat)
    requires 0 < size && i < j < i + size
    ensures Home(i, size) != Home(j, size)
  {
    WrapsDiffer(i + 1, j + 1, size);
  }

  lemma CountIsDistance(r: nat, w: nat, size: nat)
    requires 0 < size && r <= w < r + size
    ensures Count(Wrap(r, size), Wrap(w, size), size) == w - r
  {
    WrapEarly(r, w - r, size);
  }

  lemma InitInv<T>(s: State<T>)
    requires Init(s)
    ensures Inv(s)
  {
  }

  /** Writing one element into a free slot touches no unread element and none just copied. */
  lemma CopyInKeepsInv<T>(s: State<T>, t: State<T>)
    requires Inv(s) && s.producer.PCopying? && s.producer.done < |s.producer.data|
    requires t == s.(buffer := s.buffer[Slot(s.producer.wr, s.producer.done, s.Size()) :=
                                          s.producer.data[s.producer.done]],
                     producer := s.producer.(done := s.producer.done + 1))
    ensures Inv(t)
  {
    var w, r, size, done := |s.written|, |s.taken|, s.Size(), s.producer.done;
    SlotIsHome(w, done, size);
    forall i | r <= i < w + done ensures Home(i, size) != Home(w + done, size) {
      HomesDiffer(i, w + done, size);
    }
    forall i | r <= i < w ensures t.buffer[Home(i, size)] == t.written[i] {
      assert s.buffer[Home(i, size)] == s.written[i];
    }
  }

  /** Storing the write index makes the copied elements unread ones. */
  lemma PublishKeepsInv<T>(s: State<T>, t: State<T>)
    requires Inv(s) && s.producer.PCopying? && s.producer.done == |s.producer.data|
    requires t == s.(wr := Wrap(|s.written| + |s.producer.data|, s.Size()), producer := PIdle,
                     written := s.written + s.producer.data)
    ensures Inv(t)
  {
    var w, r, size := |s.written|, |s.taken|, s.Size();
    forall i | r <= i < |t.written| ensures t.buffer[Home(i, size)] == t.written[i] {
      if i < w {
        assert s.buffer[Home(i, size)] == s.written[i];
      } else {
        assert s.buffer[Home(i, size)] == s.producer.data[i - w];
      }
    }
  }

  lemma ProducerKeepsInv<T(!new)>(s: State<T>, t: State<T>)
    requires Inv(s) && ProducerStep(s, t)
    ensures Inv(t)
  {
    match s.producer
    case PIdle => CountIsDistance(|s.taken|, |s.written|, s.Size());
    case PLoadedRd(data, rd) =>
    case PCopying(data, wr, done) =>
      if done < |data| {
        CopyInKeepsInv(s, t);
      } else {
        AdvanceIsWrap(|s.written|, |data|, s.Size());
        PublishKeepsInv(s, t);
      }
  }

  lemma SplitPrefix<T>(xs: seq<T>, lo: nat, hi: nat)
    requires lo <= hi <= |xs|
    ensures xs[..hi] == xs[..lo] + xs[lo..hi]
  {
  }

  lemma SliceSnoc<T>(xs: seq<T>, lo: nat, hi: nat)
    requires lo <= hi < |xs|
    ensures xs[lo..hi + 1] == xs[lo..hi] + [xs[hi]]
  {
  }

  /** The element copied out is the next one in the order of writing. */
  lemma CopyOutKeepsInv<T>(s: State<T>, t: State<T>)
    requires Inv(s) && s.consumer.CCopying? && |s.consumer.out| < s.consumer.n
    requires
      var next := s.buffer[Slot(s.consumer.rd, |s.consumer.out|, s.Size())];
      t == s.(consumer := s.consumer.(out := s.consumer.out + [next]))
    ensures Inv(t)
  {
    NextOut(s);
  }

  lemma NextOut<T>(s: State<T>)
    requires Inv(s) && s.consumer.CCopying? && |s.consumer.out| < s.consumer.n
    ensures
      var r, k := |s.taken|, |s.consumer.out|;
      s.consumer.out + [s.buffer[Slot(s.consumer.rd, k, s.Size())]] == s.written[r..r + k + 1]
  {
    var r, k := |s.taken|, |s.consumer.out|;
    SlotIsHome(r, k, s.Size());
    assert s.buffer[Home(r + k, s.Size())] == s.written[r + k];
    SliceSnoc(s.written, r, r + k);
  }

  /** Storing the read index frees the slots read. */
  lemma ReleaseKeepsInv<T>(s: State<T>, t: State<T>)
    requires Inv(s) && s.consumer.CCopying? && |s.consumer.out| == s.consumer.n
    requires t == s.(rd := Wrap(|s.taken| + s.consumer.n, s.Size()), consumer := CIdle,
                     taken := s.taken + s.consumer.out)
    ensures Inv(t)
  {
    var r, n := |s.taken|, s.consumer.n;
    SplitPrefix(s.written, r, r + n);
  }

  lemma ConsumerKeepsInv<T>(s: State<T>, t: State<T>)
    requires Inv(s) && ConsumerStep(s, t)
    ensures Inv(t)
  {
    match s.consumer
    case CIdle =>
    case CLoadedRd(req, rd) => CountIsDistance(|s.taken|, |s.written|, s.Size());
    case CCopying(req, rd, n, out) =>
      if |out| < n {
        CopyOutKeepsInv(s, t);
      } else if !req.Look? {
        AdvanceIsWrap(|s.taken|, n, s.Size());
        ReleaseKeepsInv(s, t);
      }
  }

  lemma {:induction false} RunKeepsInv<T(!new)>(run: seq<State<T>>, i: nat)
    requires IsRun(run) && i < |run|
    ensures Inv(run[i])
  {
    if i == 0 {
      InitInv(run[0]);
    } else {
      RunKeepsInv(run, i - 1);
      var s, t := run[i - 1], run[i];
      assert run[i - 1 + 1] == t;
      if ProducerStep(s, t) {
        ProducerKeepsInv(s, t);
      } else {
        ConsumerKeepsInv(s, t);
      }
    }
  }

  // ------------------------------------------------------------ what a completed call moves

  lemma {:induction false} WriteUnderWay<T(!new)>(run: seq<State<T>>, i: nat, k: nat)
    requires IsRun(run) && i <= k < |run| && run[i].producer.PLoadedRd? && run[i].WellFormed()
    requires run[i].producer.rd < run[i].Size()
    requires forall j :: i <= j <= k ==> !run[j].producer.PIdle?
    ensures
      var s, t := run[i], run[k];
      && t.written == s.written && t.wr == s.wr && t.Size() == s.Size() && t.producer.data == s.producer.data
      && (t.producer.PLoadedRd? ==> t.producer == s.producer)
      && (t.producer.PCopying? ==> |s.producer.data| <= FreeSpace(s.producer.rd, s.wr, s.Size()))
  {
    if k > i {
      WriteUnderWay(run, i, k - 1);
      assert run[k - 1 + 1] == run[k];
    }
  }

  /** A write that has ended was published whole if it fits the space it loaded, and not at all if not. */
  lemma WriteIsWhole<T(!new)>(run: seq<State<T>>, i: nat, j: nat)
    requires IsRun(run) && i < j < |run| && run[i].producer.PLoadedRd? && run[j].producer.PIdle?
    requires forall k :: i <= k < j ==> !run[k].producer.PIdle?
    ensures run[i].WellFormed() && run[i].producer.rd < run[i].Size()
    ensures
      var s := run[i];
      var fits := |s.producer.data| <= FreeSpace(s.producer.rd, s.wr, s.Size());
      run[j].written == s.written + if fits then s.producer.data else []
  {
    RunKeepsInv(run, i);
    WriteUnderWay(run, i, j - 1);
    RunKeepsInv(run, j - 1);
    assert run[j - 1 + 1] == run[j];
  }

  /** The space a write loads is what is free at that moment. */
  lemma SpaceIsLoaded<T(!new)>(run: seq<State<T>>, i: nat)
    requires IsRun(run) && i + 1 < |run| && run[i].producer.PIdle? && run[i + 1].producer.PLoadedRd?
    ensures
      var s := run[i + 1];
      && s.WellFormed() && s.producer.rd < s.Size()
      && FreeSpace(s.producer.rd, s.wr, s.Size()) == s.Size() - 1 - (|run[i].written| - |run[i].taken|)
  {
    RunKeepsInv(run, i);
    RunKeepsInv(run, i + 1);
    CountIsDistance(|run[i].taken|, |run[i].written|, run[i].Size());
  }

  /** How many of `unread` elements a request moves. */
  function Due(req: Request, unread: nat): nat
  {
    match req
    case All => unread
    case Exactly(n) => if n <= unread then n else 0
    case Look(n) => if n <= unread then n else 0
  }

  lemma {:induction false} ReadUnderWay<T(!new)>(run: seq<State<T>>, i: nat, k: nat)
    requires IsRun(run) && i <= k < |run| && run[i].consumer.CCopying?
    requires forall j :: i <= j <= k ==> run[j].consumer.CCopying?
    ensures
      var s, t := run[i], run[k];
      && t.taken == s.taken && s.written <= t.written
      && t.consumer.req == s.consumer.req && t.consumer.n == s.consumer.n
  {
    if k > i {
      ReadUnderWay(run, i, k - 1);
      assert run[k - 1 + 1] == run[k];
    }
  }

  /** A read that has ended moved the elements due of those unread when it loaded the write index in
      state `i`, in order; a peek has copied them and taken nothing. */
  lemma ReadIsWhole<T(!new)>(run: seq<State<T>>, i: nat, j: nat)
    requires IsRun(run) && i + 1 < j < |run|
    requires run[i].consumer.CLoadedRd? && run[j].consumer.CIdle?
    requires forall k :: i < k < j ==> run[k].consumer.CCopying?
    ensures |run[i].taken| <= |run[i].written|
    ensures
      var s := run[i];
      var r, n := |s.taken|, Due(s.consumer.req, |s.written| - |s.taken|);
      && run[j - 1].consumer.out == s.written[r..r + n]
      && run[j].taken == s.taken + if s.consumer.req.Look? then [] else s.written[r..r + n]
  {
    ReadBegins(run, i);
    ReadUnderWay(run, i + 1, j - 1);
    ReadEnds(run, j - 1);
    SamePrefix(run[i].written, run[j - 1].written, |run[i].taken|, |run[i].taken| + run[j - 1].consumer.n);
  }

  lemma ReadBegins<T(!new)>(run: seq<State<T>>, i: nat)
    requires IsRun(run) && i + 1 < |run| && run[i].consumer.CLoadedRd? && run[i + 1].consumer.CCopying?
    ensures
      var s, t := run[i], run[i + 1];
      && t.taken == s.taken && t.written == s.written && t.consumer.req == s.consumer.req
      && |s.taken| <= |s.written| && t.consumer.n == Due(s.consumer.req, |s.written| - |s.taken|)
  {
    RunKeepsInv(run, i);
    StartsCopying(run[i], run[i + 1]);
  }

  lemma ReadEnds<T(!new)>(run: seq<State<T>>, i: nat)
    requires IsRun(run) && i + 1 < |run| && run[i].consumer.CCopying? && run[i + 1].consumer.CIdle?
    ensures
      var s, t := run[i], run[i + 1];
      && |s.taken| + s.consumer.n <= |s.written|
      && s.consumer.out == s.written[|s.taken|..|s.taken| + s.consumer.n]
      && t.taken == s.taken + if s.consumer.req.Look? then [] else s.consumer.out
  {
    RunKeepsInv(run, i);
    StopsCopying(run[i], run[i + 1]);
  }

  lemma StartsCopying<T(!new)>(s: State<T>, t: State<T>)
    requires Inv(s) && (ProducerStep(s, t) || ConsumerStep(s, t))
    requires s.consumer.CLoadedRd? && t.consumer.CCopying?
    ensures t.taken == s.taken && t.written == s.written && t.consumer.req == s.consumer.req
    ensures t.consumer.n == Due(s.consumer.req, |s.written| - |s.taken|)
  {
    CountIsDistance(|s.taken|, |s.written|, s.Size());
  }

  lemma StopsCopying<T(!new)>(s: State<T>, t: State<T>)
    requires Inv(s) && (ProducerStep(s, t) || ConsumerStep(s, t))
    requires s.consumer.CCopying? && t.consumer.CIdle?
    ensures s.consumer.out == s.written[|s.taken|..|s.taken| + s.consumer.n]
    ensures t.taken == s.taken + if s.consumer.req.Look? then [] else s.consumer.out
  {
  }

  lemma SamePrefix<T>(xs: seq<T>, ys: seq<T>, lo: nat, hi: nat)
    requires xs <= ys && lo <= hi <= |xs|
    ensures ys[lo..hi] == xs[lo..hi]
  {
  }

  // ------------------------------------------------------------ safety

  /** The slot the producer is about to overwrite, if it is inside a copy. */
  ghost predicate AboutToWrite<T>(s: State<T>, slot: nat)
  {
    s.producer.PCopying? && s.producer.done < |s.producer.data| && s.producer.done < s.Size() &&
    s.producer.wr < s.Size() && slot == Slot(s.producer.wr, s.producer.done, s.Size())
  }

  /** A slot that the consumer's copy in progress has read or is still to read. */
  ghost predicate BeingRead<T>(s: State<T>, slot: nat)
  {
    s.consumer.CCopying? && s.consumer.rd < s.Size() &&
    exists k :: 0 <= k < s.consumer.n && k < s.Size() && slot == Slot(s.consumer.rd, k, s.Size())
  }

  /** In every interleaving what was taken is a prefix of what was written, so is what it becomes
      with the copy in progress, and the producer never writes into a slot being read. */
  lemma SpscSafety<T(!new)>(run: seq<State<T>>, i: nat)
    requires IsRun(run) && i < |run|
    ensures run[i].taken <= run[i].written
    ensures run[i].consumer.CCopying? ==> run[i].taken + run[i].consumer.out <= run[i].written
    ensures forall slot :: AboutToWrite(run[i], slot) ==> !BeingRead(run[i], slot)
  {
    RunKeepsInv(run, i);
    var s := run[i];
    var w, r, size := |s.written|, |s.taken|, s.Size();
    forall slot | AboutToWrite(s, slot) && BeingRead(s, slot) ensures false {
      var k :| 0 <= k < s.consumer.n && k < size && slot == Slot(s.consumer.rd, k, size);
      SlotIsHome(w, s.producer.done, size);
      SlotIsHome(r, k, size);
      HomesDiffer(r + k, w + s.producer.done, size);
    }
  }
}
