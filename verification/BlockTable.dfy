/**
 The block table of memory/ramx_alloc.h and memory/alloc.c as a value, the heap of
 runs it stands for, and the proof that every operation on the table is the
 corresponding operation on the heap.
 */
module BlockTable {
  import opened Common

  /** blocks, blocks_reference_counter and blocks_used; the three hold 8-bit numbers. */
  datatype Table = Table(len: seq<nat>, ref: seq<nat>, used: nat)

  /** The blocks i..i+n exist and are free. */
  ghost predicate Window(len: seq<nat>, i: nat, n: nat)
  {
    i + n <= |len| && forall k :: i <= k < i + n ==> len[k] == 0
  }

  /** The least start not below `i` of a window of `n` free blocks. */
  ghost function SearchFrom(len: seq<nat>, n: nat, i: nat): (r: Option<nat>)
    ensures r.None? ==> forall s :: i <= s ==> !Window(len, s, n)
    ensures r.Some? ==> i <= r.value && Window(len, r.value, n)
    ensures r.Some? ==> forall s :: i <= s < r.value ==> !Window(len, s, n)
    decreases |len| - i
  {
    if i + n > |len| then None
    else if Window(len, i, n) then Some(i)
    else if i < |len| then SearchFrom(len, n, i + 1)
    else None
  }

  ghost function FirstFit(len: seq<nat>, n: nat): Option<nat>
  {
    if n == 0 || n > |len| then None else SearchFrom(len, n, 0)
  }

  function Fill(s: seq<nat>, i: nat, n: nat, v: nat): (r: seq<nat>)
    ensures |r| == |s|
  {
    seq(|s|, k requires 0 <= k < |s| => if i <= k < i + n then v else s[k])
  }

  function NonZero(s: seq<nat>): (c: nat)
    ensures c <= |s|
  {
    if s == [] then 0 else NonZero(s[..|s| - 1]) + (if s[|s| - 1] == 0 then 0 else 1)
  }

  // ------------------------------------------------------------ table operations

  /** ramx_pool_alloc_blocks: the new table and the first block handed out, if any. */
  ghost function Alloc(t: Table, n: nat): (r: (Table, Option<nat>))
  {
    match FirstFit(t.len, n)
    case None => (t, None)
    case Some(i) => (Table(Fill(t.len, i, n, n), Fill(t.ref, i, n, 1), (t.used + n) % 256), Some(i))
  }

  /** Increment of a uint8_t. */
  function Increment(x: nat): nat { if x >= 255 then 0 else x + 1 }

  /** ramx_take_ownership of the run that starts at block `i`. */
  function Take(t: Table, i: nat): Table
    requires i < |t.len| == |t.ref|
  {
    var n := t.len[i];
    t.(ref := seq(|t.ref|, k requires 0 <= k < |t.ref| => if i <= k < i + n then Increment(t.ref[k]) else t.ref[k]))
  }

  /** Number of blocks of i..i+n that lose their last owner. */
  function Released(ref: seq<nat>, i: nat, n: nat): nat
    requires i + n <= |ref|
  {
    if n == 0 then 0 else Released(ref, i, n - 1) + (if ref[i + n - 1] <= 1 then 1 else 0)
  }

  /** ramx_pool_free of the run that starts at block `i`. */
  function Free(t: Table, i: nat): Table
    requires i < |t.len| == |t.ref| && i + t.len[i] <= |t.len|
  {
    var n := t.len[i];
    Table(
      seq(|t.len|, k requires 0 <= k < |t.len| => if i <= k < i + n && t.ref[k] <= 1 then 0 else t.len[k]),
      seq(|t.ref|, k requires 0 <= k < |t.ref| => if i <= k < i + n && t.ref[k] > 1 then t.ref[k] - 1 else t.ref[k]),
      (t.used - Released(t.ref, i, n)) % 256)
  }

  // ------------------------------------------------------------ the heap of runs

  /** A live allocation: its number of blocks and its number of owners. */
  datatype Run = Run(len: nat, owners: nat)

  type Heap = map<nat, Run>

  ghost predicate Covers(h: Heap, b: nat, k: int)
  {
    b in h && b <= k < b + h[b].len
  }

  /** No live run touches the blocks i..i+n of a pool of `num` blocks. */
  ghost predicate Vacant(h: Heap, num: nat, i: nat, n: nat)
  {
    i + n <= num && forall b :: b in h ==> b + h[b].len <= i || i + n <= b
  }

  ghost predicate Disjoint(h: Heap)
  {
    forall b, c :: b in h && c in h && b < c ==> b + h[b].len <= c
  }

  ghost predicate HeapOk(h: Heap, num: nat)
  {
    && Disjoint(h)
    && forall b :: b in h ==> 0 < h[b].len && b + h[b].len <= num && 1 <= h[b].owners <= 255
  }

  /** Every block of a run stores the length of the run. */
  ghost predicate LenOk(len: seq<nat>, h: Heap)
  {
    forall b, k :: Covers(h, b, k) ==> k < |len| && len[k] == h[b].len
  }

  /** Every block of a run stores its number of owners. */
  ghost predicate RefOk(ref: seq<nat>, h: Heap)
  {
    forall b, k :: Covers(h, b, k) ==> k < |ref| && ref[k] == h[b].owners
  }

  /** Every used block belongs to a run. */
  ghost predicate Complete(len: seq<nat>, h: Heap)
  {
    forall k :: 0 <= k < |len| && len[k] != 0 ==> exists b :: Covers(h, b, k)
  }

  /** The table is an exact picture of the heap. */
  ghost predicate Rep(t: Table, h: Heap)
  {
    && |t.len| == |t.ref| < 256
    && HeapOk(h, |t.len|)
    && LenOk(t.len, h) && RefOk(t.ref, h) && Complete(t.len, h)
    && t.used == NonZero(t.len)
  }

  // ------------------------------------------------------------ counting

  /** Turning the free blocks i..i+n into used ones adds them to the count. */
  lemma {:induction false} NonZeroGrows(s: seq<nat>, s': seq<nat>, i: nat, n: nat)
    requires |s| == |s'|
    requires forall k :: 0 <= k < |s| ==>
      if i <= k < i + n then s[k] == 0 && s'[k] != 0 else (s[k] == 0 <==> s'[k] == 0)
    ensures NonZero(s') == NonZero(s) + (if |s| <= i then 0 else if |s| <= i + n then |s| - i else n)
  {
    if s != [] {
      NonZeroGrows(s[..|s| - 1], s'[..|s| - 1], i, n);
    }
  }

  lemma {:induction false} ReleasedAll(ref: seq<nat>, i: nat, n: nat)
    requires i + n <= |ref| && forall k :: i <= k < i + n ==> ref[k] <= 1
    ensures Released(ref, i, n) == n
  {
    if n > 0 {
      ReleasedAll(ref, i, n - 1);
    }
  }

  lemma {:induction false} ReleasedNone(ref: seq<nat>, i: nat, n: nat)
    requires i + n <= |ref| && forall k :: i <= k < i + n ==> ref[k] > 1
    ensures Released(ref, i, n) == 0
  {
    if n > 0 {
      ReleasedNone(ref, i, n - 1);
    }
  }

  // ------------------------------------------------------------ refinement

  lemma WindowIsVacant(t: Table, h: Heap, i: nat, n: nat)
    requires Rep(t, h) && 0 < n
    ensures Window(t.len, i, n) <==> Vacant(h, |t.len|, i, n)
  {
    if Window(t.len, i, n) {
      forall b | b in h ensures b + h[b].len <= i || i + n <= b {
        if !(b + h[b].len <= i || i + n <= b) {
          assert Covers(h, b, if b < i then i else b);
        }
      }
    }
    if Vacant(h, |t.len|, i, n) {
      forall k | i <= k < i + n ensures t.len[k] == 0 {
        assert t.len[k] != 0 ==> exists b :: Covers(h, b, k);
      }
    }
  }

  /** First fit: the least vacant start, and a refusal exactly when there is none. */
  ghost predicate IsFirstFit(h: Heap, num: nat, n: nat, r: Option<nat>)
  {
    match r
    case None => n == 0 || forall s :: !Vacant(h, num, s, n)
    case Some(i) => 0 < n && Vacant(h, num, i, n) && forall s :: 0 <= s < i ==> !Vacant(h, num, s, n)
  }

  ghost function HeapAfterAlloc(h: Heap, n: nat, r: Option<nat>): Heap
  {
    match r
    case None => h
    case Some(i) => h[i := Run(n, 1)]
  }

  lemma AllocRefines(t: Table, h: Heap, n: nat)
    requires Rep(t, h)
    ensures
      var (t', r) := Alloc(t, n);
      && IsFirstFit(h, |t.len|, n, r)
      && (r.Some? ==> r.value !in h)
      && Rep(t', HeapAfterAlloc(h, n, r))
  {
    var (t', r) := Alloc(t, n);
    if n > 0 {
      forall s: nat ensures Window(t.len, s, n) <==> Vacant(h, |t.len|, s, n) {
        WindowIsVacant(t, h, s, n);
      }
    }
    if r.Some? {
      var i := r.value;
      AllocKeepsRep(t, h, n, i);
    }
  }

  lemma AllocKeepsRep(t: Table, h: Heap, n: nat, i: nat)
    requires Rep(t, h) && 0 < n && i !in h && Window(t.len, i, n) && Vacant(h, |t.len|, i, n)
    ensures Rep(Table(Fill(t.len, i, n, n), Fill(t.ref, i, n, 1), (t.used + n) % 256), h[i := Run(n, 1)])
  {
    assert (t.used + n) % 256 == NonZero(Fill(t.len, i, n, n)) by {
      NonZeroGrows(t.len, Fill(t.len, i, n, n), i, n);
    }
    HeapOkAdd(h, |t.len|, n, i);
    LenOkAdd(t.len, h, n, i);
    RefOkAdd(t.ref, h, n, i);
  }

  lemma HeapOkAdd(h: Heap, num: nat, n: nat, i: nat)
    requires HeapOk(h, num) && 0 < n && i !in h && Vacant(h, num, i, n)
    ensures HeapOk(h[i := Run(n, 1)], num)
  {
  }

  lemma LenOkAdd(len: seq<nat>, h: Heap, n: nat, i: nat)
    requires LenOk(len, h) && Complete(len, h) && Vacant(h, |len|, i, n) && i !in h
    ensures LenOk(Fill(len, i, n, n), h[i := Run(n, 1)]) && Complete(Fill(len, i, n, n), h[i := Run(n, 1)])
  {
    var len', h' := Fill(len, i, n, n), h[i := Run(n, 1)];
    forall b, k | Covers(h', b, k) ensures k < |len'| && len'[k] == h'[b].len {
      assert b != i ==> Covers(h, b, k);
    }
    forall k | 0 <= k < |len'| && len'[k] != 0 ensures exists b :: Covers(h', b, k) {
      if i <= k < i + n {
        assert Covers(h', i, k);
      } else {
        var b :| Covers(h, b, k);
        assert Covers(h', b, k);
      }
    }
  }

  lemma RefOkAdd(ref: seq<nat>, h: Heap, n: nat, i: nat)
    requires RefOk(ref, h) && Vacant(h, |ref|, i, n) && i !in h
    ensures RefOk(Fill(ref, i, n, 1), h[i := Run(n, 1)])
  {
    var ref', h' := Fill(ref, i, n, 1), h[i := Run(n, 1)];
    forall b, k | Covers(h', b, k) ensures k < |ref'| && ref'[k] == h'[b].owners {
      assert b != i ==> Covers(h, b, k);
    }
  }

  /** Changing the number of owners of a run leaves every block where it was. */
  lemma RefOkUpdate(ref: seq<nat>, h: Heap, b: nat, v: nat)
    requires RefOk(ref, h) && Disjoint(h) && b in h
    ensures RefOk(Fill(ref, b, h[b].len, v), h[b := Run(h[b].len, v)])
  {
    var ref', h' := Fill(ref, b, h[b].len, v), h[b := Run(h[b].len, v)];
    forall c, k | Covers(h', c, k) ensures k < |ref'| && ref'[k] == h'[c].owners {
      assert Covers(h, c, k);
    }
  }

  lemma LenOkUpdate(len: seq<nat>, h: Heap, b: nat, v: nat)
    requires LenOk(len, h) && Complete(len, h) && Disjoint(h) && b in h
    ensures
      var h' := h[b := Run(h[b].len, v)];
      LenOk(len, h') && Complete(len, h') && Disjoint(h')
  {
    var h' := h[b := Run(h[b].len, v)];
    assert forall c, k :: Covers(h', c, k) <==> Covers(h, c, k);
    assert forall c :: c in h ==> h'[c].len == h[c].len;
  }

  lemma OwnersUpdate(t: Table, h: Heap, b: nat, v: nat, t': Table)
    requires Rep(t, h) && b in h && 1 <= v <= 255 && t' == t.(ref := Fill(t.ref, b, h[b].len, v))
    ensures Rep(t', h[b := Run(h[b].len, v)])
  {
    LenOkUpdate(t.len, h, b, v);
    RefOkUpdate(t.ref, h, b, v);
  }

  /** Blocks b..b+n form a run with `v` owners in the table. */
  ghost predicate IsRun(t: Table, b: nat, n: nat, v: nat)
  {
    && |t.len| == |t.ref| && b + n <= |t.len| && 0 < n
    && forall k :: b <= k < b + n ==> t.len[k] == n && t.ref[k] == v
  }

  /** What a live run looks like in the table. */
  lemma LiveRun(t: Table, h: Heap, b: nat)
    requires Rep(t, h) && b in h
    ensures IsRun(t, b, h[b].len, h[b].owners)
  {
    assert forall k :: b <= k < b + h[b].len ==> Covers(h, b, k);
  }

  /** Taking ownership of a run adds an owner to each of its blocks, and nothing else changes. */
  lemma TakeOfRun(t: Table, b: nat, n: nat, v: nat)
    requires IsRun(t, b, n, v) && v < 255
    ensures Take(t, b) == t.(ref := Fill(t.ref, b, n, v + 1))
  {
    assert Take(t, b).ref == Fill(t.ref, b, n, v + 1);
  }

  lemma TakeRefines(t: Table, h: Heap, b: nat)
    requires Rep(t, h) && b in h && h[b].owners < 255
    ensures b < |t.len| && Rep(Take(t, b), h[b := Run(h[b].len, h[b].owners + 1)])
  {
    LiveRun(t, h, b);
    TakeOneOwner(t, h, b);
  }

  lemma TakeOneOwner(t: Table, h: Heap, b: nat)
    requires Rep(t, h) && b in h && IsRun(t, b, h[b].len, h[b].owners) && h[b].owners < 255
    ensures Rep(Take(t, b), h[b := Run(h[b].len, h[b].owners + 1)])
  {
    TakeOfRun(t, b, h[b].len, h[b].owners);
    OwnersUpdate(t, h, b, h[b].owners + 1, Take(t, b));
  }

  /** One owner fewer; the run disappears with its last owner. */
  ghost function HeapAfterFree(h: Heap, b: nat): Heap
    requires b in h && 1 <= h[b].owners
  {
    if h[b].owners == 1 then h - {b} else h[b := Run(h[b].len, h[b].owners - 1)]
  }

  lemma FreeRefines(t: Table, h: Heap, b: nat)
    requires Rep(t, h) && b in h
    ensures b < |t.len| && b + t.len[b] <= |t.len| && Rep(Free(t, b), HeapAfterFree(h, b))
  {
    LiveRun(t, h, b);
    if h[b].owners == 1 {
      FreeLastOwner(t, h, b);
    } else {
      FreeOneOwner(t, h, b);
    }
  }

  /** A run with one owner is cleared, one with more loses an owner, and nothing else changes. */
  lemma FreeOfRun(t: Table, b: nat, n: nat, v: nat)
    requires IsRun(t, b, n, v) && 1 <= v && n <= t.used < 256
    ensures v == 1 ==> Free(t, b) == Table(Fill(t.len, b, n, 0), t.ref, t.used - n)
    ensures v > 1 ==> Free(t, b) == t.(ref := Fill(t.ref, b, n, v - 1))
  {
    var t' := Free(t, b);
    if v == 1 {
      ReleasedAll(t.ref, b, n);
      assert t'.len == Fill(t.len, b, n, 0);
      assert t'.ref == t.ref;
    } else {
      ReleasedNone(t.ref, b, n);
      assert t'.len == t.len;
      assert t'.ref == Fill(t.ref, b, n, v - 1);
    }
  }

  lemma FreeOneOwner(t: Table, h: Heap, b: nat)
    requires Rep(t, h) && b in h && IsRun(t, b, h[b].len, h[b].owners) && h[b].owners > 1
    ensures Rep(Free(t, b), h[b := Run(h[b].len, h[b].owners - 1)])
  {
    RunIsUsed(t, b, h[b].len, h[b].owners);
    FreeOfRun(t, b, h[b].len, h[b].owners);
    OwnersUpdate(t, h, b, h[b].owners - 1, Free(t, b));
  }

  lemma RunIsUsed(t: Table, b: nat, n: nat, v: nat)
    requires IsRun(t, b, n, v)
    ensures n <= NonZero(t.len)
  {
    NonZeroGrows(Fill(t.len, b, n, 0), t.len, b, n);
  }

  lemma FreeLastOwner(t: Table, h: Heap, b: nat)
    requires Rep(t, h) && b in h && IsRun(t, b, h[b].len, 1) && h[b].owners == 1
    ensures Rep(Free(t, b), h - {b})
  {
    NonZeroGrows(Fill(t.len, b, h[b].len, 0), t.len, b, h[b].len);
    FreeOfRun(t, b, h[b].len, 1);
    RunRemoved(t.len, t.ref, h, b);
  }

  lemma RunRemoved(len: seq<nat>, ref: seq<nat>, h: Heap, b: nat)
    requires LenOk(len, h) && RefOk(ref, h) && Complete(len, h) && Disjoint(h) && b in h
    ensures
      var len', h' := Fill(len, b, h[b].len, 0), h - {b};
      LenOk(len', h') && RefOk(ref, h') && Complete(len', h')
  {
    var len', h' := Fill(len, b, h[b].len, 0), h - {b};
    forall c, k | Covers(h', c, k) ensures k < |ref| && ref[k] == h'[c].owners && k < |len'| && len'[k] == h'[c].len {
      assert Covers(h, c, k);
    }
    forall k | 0 <= k < |len'| && len'[k] != 0 ensures exists c :: Covers(h', c, k) {
      var c :| Covers(h, c, k);
      assert Covers(h', c, k);
    }
  }

  /** With 255 owners the counter wraps: taking ownership makes it 0 and the next free
      releases the run although 255 owners are left. */
  lemma OwnersWrapAt255(t: Table, h: Heap, b: nat)
    requires Rep(t, h) && b in h && h[b].owners == 255
    ensures b + h[b].len <= |t.len| && Take(t, b).len[b] == h[b].len
    ensures forall k :: b <= k < b + h[b].len ==> Take(t, b).ref[k] == 0 && Free(Take(t, b), b).len[k] == 0
  {
    LiveRun(t, h, b);
  }

  // ------------------------------------------------------------ runs

  datatype Op = AllocOp(n: nat) | TakeOp(b: nat) | FreeOp(b: nat)

  /** One call on the table. A run that leaves the table is out of bounds in the firmware. */
  ghost function TableStep(t: Table, op: Op): (Table, Option<nat>)
  {
    match op
    case AllocOp(n) => Alloc(t, n)
    case TakeOp(b) => (if b < |t.len| == |t.ref| then Take(t, b) else t, None)
    case FreeOp(b) => (if b < |t.len| == |t.ref| && b + t.len[b] <= |t.len| then Free(t, b) else t, None)
  }

  ghost function HeapFitFrom(h: Heap, num: nat, n: nat, i: nat): (r: Option<nat>)
    ensures r.None? ==> forall s :: i <= s ==> !Vacant(h, num, s, n)
    ensures r.Some? ==> i <= r.value && Vacant(h, num, r.value, n)
    ensures r.Some? ==> forall s :: i <= s < r.value ==> !Vacant(h, num, s, n)
    decreases num - i
  {
    if i + n > num then None
    else if Vacant(h, num, i, n) then Some(i)
    else if i < num then HeapFitFrom(h, num, n, i + 1)
    else None
  }

  ghost function HeapFit(h: Heap, num: nat, n: nat): (r: Option<nat>)
    ensures IsFirstFit(h, num, n, r)
  {
    if n == 0 then None else HeapFitFrom(h, num, n, 0)
  }

  lemma FirstFitUnique(h: Heap, num: nat, n: nat, r: Option<nat>)
    requires IsFirstFit(h, num, n, r)
    ensures r == HeapFit(h, num, n)
  {
    var q := HeapFit(h, num, n);
    if r.Some? && q.Some? {
      assert !(r.value < q.value) && !(q.value < r.value);
    }
  }

  /** One call on the heap of runs; freeing or taking a block that no run starts at does nothing. */
  ghost function HeapStep(h: Heap, num: nat, op: Op): (Heap, Option<nat>)
  {
    match op
    case AllocOp(n) =>
      var r := HeapFit(h, num, n);
      (HeapAfterAlloc(h, n, r), r)
    case TakeOp(b) => (if b in h then h[b := Run(h[b].len, h[b].owners + 1)] else h, None)
    case FreeOp(b) => (if b in h && 1 <= h[b].owners then HeapAfterFree(h, b) else h, None)
  }

  /** Frees and takes name the start of a live run, or a free block (a second free), and
      no run gets more than 255 owners. */
  ghost predicate Legal(h: Heap, num: nat, op: Op)
  {
    match op
    case AllocOp(n) => n < 256
    case TakeOp(b) => if b in h then h[b].owners < 255 else Vacant(h, num, b, 1)
    case FreeOp(b) => b in h || Vacant(h, num, b, 1)
  }

  ghost function TableRun(t: Table, ops: seq<Op>): (Table, seq<Option<nat>>)
  {
    if ops == [] then (t, [])
    else
      var (t1, rs) := TableRun(t, ops[..|ops| - 1]);
      var (t2, r) := TableStep(t1, ops[|ops| - 1]);
      (t2, rs + [r])
  }

  ghost function HeapRun(h: Heap, num: nat, ops: seq<Op>): (Heap, seq<Option<nat>>)
  {
    if ops == [] then (h, [])
    else
      var (h1, rs) := HeapRun(h, num, ops[..|ops| - 1]);
      var (h2, r) := HeapStep(h1, num, ops[|ops| - 1]);
      (h2, rs + [r])
  }

  ghost predicate LegalRun(h: Heap, num: nat, ops: seq<Op>)
  {
    forall i :: 0 <= i < |ops| ==> Legal(HeapRun(h, num, ops[..i]).0, num, ops[i])
  }

  lemma LegalPrefix(h: Heap, num: nat, ops: seq<Op>, m: nat)
    requires LegalRun(h, num, ops) && m <= |ops|
    ensures LegalRun(h, num, ops[..m])
  {
    forall i | 0 <= i < m ensures Legal(HeapRun(h, num, ops[..m][..i]).0, num, ops[..m][i]) {
      assert ops[..m][..i] == ops[..i];
    }
  }

  lemma IdleBlock(t: Table, h: Heap, b: nat)
    requires Rep(t, h) && Vacant(h, |t.len|, b, 1)
    ensures b < |t.len| && t.len[b] == 0 && Take(t, b) == t && Free(t, b) == t
  {
    WindowIsVacant(t, h, b, 1);
    assert Take(t, b).ref == t.ref;
    assert Free(t, b).len == t.len && Free(t, b).ref == t.ref;
  }

  /** One call answers alike on table and heap, and keeps the picture exact. */
  ghost predicate StepAgrees(t: Table, h: Heap, op: Op)
  {
    var ((t', r), (h', r')) := (TableStep(t, op), HeapStep(h, |t.len|, op));
    Rep(t', h') && r == r' && |t'.len| == |t.len|
  }

  lemma AllocAgrees(t: Table, h: Heap, n: nat)
    requires Rep(t, h)
    ensures StepAgrees(t, h, AllocOp(n))
  {
    AllocRefines(t, h, n);
    FirstFitUnique(h, |t.len|, n, Alloc(t, n).1);
  }

  lemma TakeAgrees(t: Table, h: Heap, b: nat)
    requires Rep(t, h) && Legal(h, |t.len|, TakeOp(b))
    ensures StepAgrees(t, h, TakeOp(b))
  {
    if b in h {
      TakeRefines(t, h, b);
    } else {
      IdleBlock(t, h, b);
    }
  }

  lemma FreeAgrees(t: Table, h: Heap, b: nat)
    requires Rep(t, h) && Legal(h, |t.len|, FreeOp(b))
    ensures StepAgrees(t, h, FreeOp(b))
  {
    if b in h {
      FreeRefines(t, h, b);
    } else {
      IdleBlock(t, h, b);
    }
  }

  lemma StepRefines(t: Table, h: Heap, op: Op)
    requires Rep(t, h) && Legal(h, |t.len|, op)
    ensures StepAgrees(t, h, op)
  {
    match op
    case AllocOp(n) => AllocAgrees(t, h, n);
    case TakeOp(b) => TakeAgrees(t, h, b);
    case FreeOp(b) => FreeAgrees(t, h, b);
  }

  /** Every legal sequence of calls gives the same answers on the table as on the heap, and
      leaves a table that pictures the heap exactly. */
  lemma {:induction false} RunRefines(t: Table, h: Heap, ops: seq<Op>)
    requires Rep(t, h) && LegalRun(h, |t.len|, ops)
    ensures Rep(TableRun(t, ops).0, HeapRun(h, |t.len|, ops).0)
    ensures TableRun(t, ops).1 == HeapRun(h, |t.len|, ops).1
    ensures |TableRun(t, ops).0.len| == |t.len|
    decreases |ops|
  {
    if ops != [] {
      var m := |ops| - 1;
      LegalPrefix(h, |t.len|, ops, m);
      RunRefines(t, h, ops[..m]);
      StepRefines(TableRun(t, ops[..m]).0, HeapRun(h, |t.len|, ops[..m]).0, ops[m]);
    }
  }

  function EmptyTable(num: nat): (t: Table)
  {
    Table(seq(num, _ => 0), seq(num, _ => 0), 0)
  }

  lemma {:induction false} NoneUsed(s: seq<nat>)
    requires forall k :: 0 <= k < |s| ==> s[k] == 0
    ensures NonZero(s) == 0
  {
    if s != [] {
      NoneUsed(s[..|s| - 1]);
    }
  }

  /** ramx_pool_init gives the table of the empty heap. */
  lemma EmptyRep(num: nat)
    requires num < 256
    ensures Rep(EmptyTable(num), map[])
  {
    NoneUsed(EmptyTable(num).len);
  }

  // ------------------------------------------------------------ the allocator without counts

  /** The block table of alloc.c. */
  datatype Plain = Plain(len: seq<nat>, used: nat)

  ghost function PlainAlloc(p: Plain, n: nat): (Plain, Option<nat>)
  {
    match FirstFit(p.len, n)
    case None => (p, None)
    case Some(i) => (Plain(Fill(p.len, i, n, n), (p.used + n) % 256), Some(i))
  }

  function PlainFree(p: Plain, i: nat): Plain
    requires i < |p.len|
  {
    Plain(Fill(p.len, i, p.len[i], 0), (p.used - p.len[i]) % 256)
  }

  ghost function PlainStep(p: Plain, op: Op): (Plain, Option<nat>)
  {
    match op
    case AllocOp(n) => PlainAlloc(p, n)
    case TakeOp(b) => (p, None)
    case FreeOp(b) => (if b < |p.len| && b + p.len[b] <= |p.len| then PlainFree(p, b) else p, None)
  }

  ghost function PlainRun(p: Plain, ops: seq<Op>): (Plain, seq<Option<nat>>)
  {
    if ops == [] then (p, [])
    else
      var (p1, rs) := PlainRun(p, ops[..|ops| - 1]);
      var (p2, r) := PlainStep(p1, ops[|ops| - 1]);
      (p2, rs + [r])
  }

  ghost predicate SoleOwners(h: Heap)
  {
    forall b :: b in h ==> h[b].owners == 1
  }

  ghost predicate Same(t: Table, p: Plain)
  {
    t.len == p.len && t.used == p.used
  }

  lemma PlainFreeOfRun(t: Table, b: nat, n: nat)
    requires IsRun(t, b, n, 1) && n <= t.used < 256
    ensures Same(Free(t, b), PlainFree(Plain(t.len, t.used), b))
  {
    FreeOfRun(t, b, n, 1);
  }

  lemma PlainFreeAgrees(t: Table, h: Heap, b: nat)
    requires Rep(t, h) && SoleOwners(h) && (b in h || Vacant(h, |t.len|, b, 1))
    ensures b < |t.len| && b + t.len[b] <= |t.len| && Same(Free(t, b), PlainFree(Plain(t.len, t.used), b))
  {
    if b in h {
      LiveRun(t, h, b);
      NonZeroGrows(Fill(t.len, b, h[b].len, 0), t.len, b, h[b].len);
      PlainFreeOfRun(t, b, h[b].len);
    } else {
      IdleBlock(t, h, b);
      assert Fill(t.len, b, 0, 0) == t.len;
    }
  }

  lemma PlainStepAgrees(t: Table, h: Heap, p: Plain, op: Op)
    requires Rep(t, h) && Legal(h, |t.len|, op) && !op.TakeOp? && SoleOwners(h) && Same(t, p)
    ensures Same(TableStep(t, op).0, PlainStep(p, op).0)
    ensures TableStep(t, op).1 == PlainStep(p, op).1
    ensures SoleOwners(HeapStep(h, |t.len|, op).0)
  {
    if op.FreeOp? {
      PlainFreeAgrees(t, h, op.b);
    }
  }

  /** Without ownership transfers the two allocators cannot be told apart: same block table,
      same used count, same blocks handed out, on every sequence of calls. */
  lemma {:induction false} AllocatorsAgree(t: Table, h: Heap, p: Plain, ops: seq<Op>)
    requires Rep(t, h) && LegalRun(h, |t.len|, ops) && SoleOwners(h) && Same(t, p)
    requires forall i :: 0 <= i < |ops| ==> !ops[i].TakeOp?
    ensures Same(TableRun(t, ops).0, PlainRun(p, ops).0)
    ensures TableRun(t, ops).1 == PlainRun(p, ops).1
    ensures SoleOwners(HeapRun(h, |t.len|, ops).0)
    decreases |ops|
  {
    if ops != [] {
      var m := |ops| - 1;
      LegalPrefix(h, |t.len|, ops, m);
      AllocatorsAgree(t, h, p, ops[..m]);
      RunRefines(t, h, ops[..m]);
      PlainStepAgrees(TableRun(t, ops[..m]).0, HeapRun(h, |t.len|, ops[..m]).0, PlainRun(p, ops[..m]).0, ops[m]);
    }
  }
}
