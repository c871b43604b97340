/**
 The ring FIFO of memory/fifo.h.

 `size` is one more than the capacity, the unread elements occupy the slots after
 `rdIdx` up to and including `wrIdx`, modulo `size`, and the FIFO is empty when the
 two indices are equal.
 */
module Fifo {
  import opened Arithmetic

  /** Number of unread elements: the distance from `rd` to `wr` going up modulo `size`. */
  function Count(rd: nat, wr: nat, size: nat): (c: nat)
    requires rd < size && wr < size
    ensures c < size && (rd + c == wr || rd + c == wr + size)
  {
    if wr >= rd then wr - rd else size - rd + wr
  }

  /** Number of elements that can be written without `wr` joining `rd`. */
  function FreeSpace(rd: nat, wr: nat, size: nat): (f: nat)
    requires rd < size && wr < size
    ensures Count(rd, wr, size) + f == size - 1
  {
    if rd > wr then rd - wr - 1 else size - wr + rd - 1
  }

  /** Slot of the k-th element of a copy that starts behind `idx`: the linear part up to
      the end of the buffer first, then the wrapped part from slot 0. */
  function Slot(idx: nat, k: nat, size: nat): (slot: nat)
    requires idx < size && k < size
    ensures slot < size
  {
    if k < size - 1 - idx then idx + 1 + k else k - (size - 1 - idx)
  }

  /** _fifo_advance_read and _fifo_advance_write. */
  function Advance(idx: nat, offset: nat, size: nat): (r: nat)
    requires idx < size
    ensures r < size
  {
    (idx + offset) % size
  }

  /** Reduction modulo `size` subtracts it at most once for offsets below `size`. */
  lemma AdvanceWraps(idx: nat, offset: nat, size: nat)
    requires idx < size && offset < size
    ensures Advance(idx, offset, size) == if idx + offset < size then idx + offset else idx + offset - size
  {
    if idx + offset >= size {
      assert (idx + offset) % size == (idx + offset - size) % size by {
        ModPlus(idx + offset - size, size);
      }
    }
  }

  lemma ModPlus(x: nat, size: nat)
    requires 0 < size
    ensures (x + size) % size == x % size
  {
    var q, r := x / size, x % size;
    assert x + size == (q + 1) * size + r;
    DivModUnique(x + size, size, q + 1, r);
  }

  /** How many elements a copy really moves: the byte count is held in a uint16_t. */
  function Copied(count: nat, typeSize: nat): nat
    requires typeSize > 0
  {
    (count * typeSize) % 0x1_0000 / typeSize
  }

  /** A copy moves all its elements exactly when its byte count fits 16 bits. */
  lemma CopiedIsExact(count: nat, typeSize: nat)
    requires typeSize > 0
    ensures Copied(count, typeSize) == count <==> count * typeSize < 0x1_0000
  {
    var bytes := count * typeSize;
    if bytes < 0x1_0000 {
      DivModUnique(bytes, typeSize, count, 0);
    } else {
      var kept := bytes % 0x1_0000;
      assert kept == kept / typeSize * typeSize + kept % typeSize;
      assert kept < bytes;
    }
  }

  lemma CopiedAtMost(count: nat, typeSize: nat)
    requires typeSize > 0
    ensures Copied(count, typeSize) <= count
  {
    var bytes := count * typeSize;
    var kept := bytes % 0x1_0000;
    assert kept == kept / typeSize * typeSize + kept % typeSize <= bytes;
    MulCancel(kept / typeSize, count, typeSize);
  }

  /** The abstract value: the unread elements, oldest first. */
  ghost function Unread<T>(buffer: seq<T>, rd: nat, wr: nat): (s: seq<T>)
    requires rd < |buffer| && wr < |buffer|
    ensures |s| == Count(rd, wr, |buffer|)
  {
    seq(Count(rd, wr, |buffer|), i requires 0 <= i < Count(rd, wr, |buffer|) => buffer[Slot(rd, i, |buffer|)])
  }

  /** Writing `data` behind `wr` and moving `wr` over it appends `data` to the unread elements. */
  lemma WriteAppends<T>(before: seq<T>, after: seq<T>, rd: nat, wr: nat, data: seq<T>)
    requires |before| == |after| && rd < |before| && wr < |before|
    requires |data| <= FreeSpace(rd, wr, |before|)
    requires forall k :: 0 <= k < |data| ==> after[Slot(wr, k, |before|)] == data[k]
    requires forall k :: |data| <= k < |before| ==> after[Slot(wr, k, |before|)] == before[Slot(wr, k, |before|)]
    ensures Unread(after, rd, Advance(wr, |data|, |before|)) == Unread(before, rd, wr) + data
  {
    var size, c := |before|, Count(rd, wr, |before|);
    AdvanceWraps(wr, |data|, size);
    assert Count(rd, Advance(wr, |data|, size), size) == c + |data|;
    forall i | 0 <= i < c + |data|
      ensures after[Slot(rd, i, size)] == (Unread(before, rd, wr) + data)[i]
    {
      if i < c {
        assert Slot(rd, i, size) == Slot(wr, size - c + i, size);
      } else {
        assert Slot(rd, i, size) == Slot(wr, i - c, size);
      }
    }
  }

  /** The buffer after a new ring was filled in one write: as many elements as the copy moves. Elements
      are all or nothing here; the source also copies the first bytes of the next one. */
  function Filled<T>(before: seq<T>, data: seq<T>, typeSize: nat): (after: seq<T>)
    requires |before| == |data| + 1 && typeSize > 0
    ensures |after| == |before|
  {
    CopiedAtMost(|data|, typeSize);
    seq(|before|, i requires 0 <= i < |before| =>
      if 1 <= i <= Copied(|data|, typeSize) then data[i - 1] else before[i])
  }

  /** A new ring can be filled in one write, whatever the data, if and only if its capacity in bytes
      fits 16 bits. */
  lemma RingLimit<T(!new)>(before: seq<T>, typeSize: nat, x: T, y: T)
    requires 0 < |before| && typeSize > 0 && x != y
    ensures
      (|before| - 1) * typeSize < 0x1_0000
      <==> forall data: seq<T> :: |data| == |before| - 1 ==>
             Unread(Filled(before, data, typeSize), 0, |data|) == data
  {
    var n := |before| - 1;
    CopiedIsExact(n, typeSize);
    CopiedAtMost(n, typeSize);
    if n * typeSize >= 0x1_0000 {
      var k := Copied(n, typeSize);
      var data := seq(n, _ => if before[k + 1] == x then y else x);
      assert Unread(Filled(before, data, typeSize), 0, n)[k] == before[k + 1] != data[k];
    }
  }

  method Memcpy<T>(dst: array<T>, dstAt: nat, src: array<T>, srcAt: nat, n: nat)
    requires dst != src && dstAt + n <= dst.Length && srcAt + n <= src.Length
    modifies dst
    ensures forall j :: dstAt <= j < dstAt + n ==> dst[j] == src[srcAt + (j - dstAt)]
    ensures forall j :: 0 <= j < dst.Length && !(dstAt <= j < dstAt + n) ==> dst[j] == old(dst[j])
  {
    forall i | 0 <= i < n {
      dst[dstAt + i] := src[srcAt + i];
    }
  }

  class Ring<T(0)> {
    const size: nat
    const typeSize: nat
    const zero: T
    const buffer: array<T>
    var rdIdx: nat
    var wrIdx: nat

    /** The indices are in the buffer; `size` is a uint16_t. */
    ghost predicate Shaped()
      reads this
    {
      0 < size == buffer.Length < 0x1_0000 && rdIdx < size && wrIdx < size && 0 < typeSize
    }

    /** No copy is longer than the capacity, so that every byte count fits 16 bits. */
    ghost predicate Valid()
      reads this
    {
      Shaped() && (size - 1) * typeSize < 0x1_0000
    }

    ghost function Contents(): (s: seq<T>)
      requires Shaped()
      reads this, buffer
      ensures |s| < size
    {
      Unread(buffer[..], rdIdx, wrIdx)
    }

    constructor (capacity: nat, typeSize: nat, zero: T)
      requires 0 < typeSize && capacity + 1 < 0x1_0000 && capacity * typeSize < 0x1_0000
      ensures Valid() && Contents() == [] && size == capacity + 1 && this.typeSize == typeSize
      ensures fresh(buffer)
    {
      size := capacity + 1;
      this.typeSize := typeSize;
      this.zero := zero;
      buffer := new T[capacity + 1](_ => zero);
      rdIdx, wrIdx := 0, 0;
    }

    /** _fifo_read_n: copies `n` elements, or none when there are not as many. */
    method CopyOut(dst: array<T>, n: nat, rd: nat, wr: nat) returns (count: nat)
      requires Valid() && rd == rdIdx && wr == wrIdx
      requires dst != buffer && (n < size ==> n <= dst.Length)
      modifies dst
      ensures count == if n <= |Contents()| then n else 0
      ensures count <= dst.Length && dst[..] == Contents()[..count] + old(dst[count..])
    {
      if rd == wr || n > Count(rd, wr, size) {
        return 0;
      }
      if wr > rd {
        var linear := if n < wr - rd then n else wr - rd;
        CopiedFits(linear);
        Memcpy(dst, 0, buffer, rd + 1, Copied(linear, typeSize));
        return linear;
      }
      var linear := if n < size - 1 - rd then n else size - 1 - rd;
      CopiedFits(linear);
      Memcpy(dst, 0, buffer, rd + 1, Copied(linear, typeSize));
      if n > linear {
        var wrap := if wr + 1 < n - linear then wr + 1 else n - linear;
        CopiedFits(wrap);
        Memcpy(dst, Copied(linear, typeSize), buffer, 0, Copied(wrap, typeSize));
        return linear + wrap;
      }
      return linear;
    }

    lemma CopiedFits(count: nat)
      requires Shaped() && count < size
      ensures Copied(count, typeSize) <= count
      ensures Valid() ==> Copied(count, typeSize) == count
    {
      CopiedAtMost(count, typeSize);
      MulMonotone(count, size - 1, typeSize);
      CopiedIsExact(count, typeSize);
    }

    /** _fifo_write_n: copies `n` elements behind the write index, or none when they do not fit. */
    method CopyIn(src: array<T>, n: nat, rd: nat, wr: nat) returns (count: nat)
      requires Shaped() && rd == rdIdx && wr == wrIdx
      requires src != buffer && (n < size ==> n <= src.Length)
      modifies buffer
      ensures count == if n <= size - 1 - old(|Contents()|) then n else 0
      ensures count <= src.Length
      ensures Valid() ==> forall k :: 0 <= k < count ==> buffer[Slot(wr, k, size)] == src[k]
      ensures forall k :: count <= k < size ==> buffer[Slot(wr, k, size)] == old(buffer[Slot(wr, k, size)])
      ensures rd == wr == 0 && n == size - 1 ==> buffer[..] == Filled(old(buffer[..]), src[..n], typeSize)
    {
      var free := FreeSpace(rd, wr, size);
      if free < n {
        return 0;
      }
      if rd > wr {
        var linear := if free < n then free else n;
        CopiedFits(linear);
        Memcpy(buffer, wr + 1, src, 0, Copied(linear, typeSize));
        return linear;
      }
      var linear := if size - 1 - wr < n then size - 1 - wr else n;
      CopiedFits(linear);
      Memcpy(buffer, wr + 1, src, 0, Copied(linear, typeSize));
      if n > linear {
        var wrap := if rd < n - linear then rd else n - linear;
        CopiedFits(wrap);
        Memcpy(buffer, 0, src, Copied(linear, typeSize), Copied(wrap, typeSize));
        return linear + wrap;
      }
      return linear;
    }

    /** fifo_read_n: takes exactly `n` elements, or nothing. */
    method ReadN(dst: array<T>, n: nat) returns (count: nat)
      requires Valid() && dst != buffer && (n < size ==> n <= dst.Length)
      modifies this`rdIdx, dst
      ensures Valid() && buffer[..] == old(buffer[..])
      ensures count == if n <= |old(Contents())| then n else 0
      ensures count <= dst.Length && dst[..] == old(Contents())[..count] + old(dst[count..])
      ensures Contents() == old(Contents())[count..]
    {
      var rd, wr := rdIdx, wrIdx;
      count := CopyOut(dst, n, rd, wr);
      AdvanceRead(count);
    }

    /** fifo_peek_n: what ReadN would return, with the FIFO left as it is. */
    method PeekN(dst: array<T>, n: nat) returns (count: nat)
      requires Valid() && dst != buffer && (n < size ==> n <= dst.Length)
      modifies dst
      ensures Valid() && Contents() == old(Contents())
      ensures count == if n <= |Contents()| then n else 0
      ensures count <= dst.Length && dst[..] == Contents()[..count] + old(dst[count..])
    {
      var rd, wr := rdIdx, wrIdx;
      count := CopyOut(dst, n, rd, wr);
    }

    /** fifo_read: takes everything. */
    method Read(dst: array<T>) returns (count: nat)
      requires Valid() && dst != buffer && |Contents()| <= dst.Length
      modifies this`rdIdx, dst
      ensures Valid() && Contents() == []
      ensures count == |old(Contents())| && dst[..] == old(Contents()) + old(dst[count..])
    {
      var rd, wr := rdIdx, wrIdx;
      count := CopyOut(dst, Count(rd, wr, size), rd, wr);
      AdvanceRead(count);
    }

    method AdvanceRead(offset: nat)
      requires Valid() && offset <= |Contents()|
      modifies this`rdIdx
      ensures Valid() && Contents() == old(Contents())[offset..]
    {
      AdvanceWraps(rdIdx, offset, size);
      rdIdx := Advance(rdIdx, offset, size);
    }

    /** fifo_write: appends all `n` elements, or nothing. */
    method Write(src: array<T>, n: nat) returns (count: nat)
      requires Valid() && src != buffer && (n < size ==> n <= src.Length)
      modifies this`wrIdx, buffer
      ensures Valid()
      ensures count == if n <= size - 1 - |old(Contents())| then n else 0
      ensures count <= src.Length && Contents() == old(Contents()) + src[..count]
    {
      var rd, wr := rdIdx, wrIdx;
      count := CopyIn(src, n, rd, wr);
      WriteAppends(old(buffer[..]), buffer[..], rdIdx, wrIdx, src[..count]);
      wrIdx := Advance(wrIdx, count, size);
    }

    /** fifo_count */
    method Size() returns (count: nat)
      requires Valid()
      ensures count == |Contents()|
    {
      count := Count(rdIdx, wrIdx, size);
    }

    /** fifo_clean */
    method Clean()
      requires Valid()
      modifies this, buffer
      ensures Valid() && Contents() == [] && forall i :: 0 <= i < size ==> buffer[i] == zero
    {
      rdIdx, wrIdx := 0, 0;
      forall i | 0 <= i < size {
        buffer[i] := zero;
      }
    }
  }

  /** One call of the public interface, with the data it passes in. */
  datatype Op<T> = Write(data: seq<T>) | ReadN(n: nat) | PeekN(n: nat) | Read | Size | Clean

  /** What a call gives back: its return value and the elements it stored at the caller's buffer. */
  datatype Reply<T> = Reply(count: nat, data: seq<T>)

  /** The bounded queue that the ring stands for: `cap` elements at most, all-or-nothing transfers. */
  function QueueStep<T>(q: seq<T>, cap: nat, op: Op<T>): (seq<T>, Reply<T>)
  {
    match op
    case Write(data) => if |q| + |data| <= cap then (q + data, Reply(|data|, [])) else (q, Reply(0, []))
    case ReadN(n) => if n <= |q| then (q[n..], Reply(n, q[..n])) else (q, Reply(0, []))
    case PeekN(n) => if n <= |q| then (q, Reply(n, q[..n])) else (q, Reply(0, []))
    case Read => ([], Reply(|q|, q))
    case Size => (q, Reply(|q|, []))
    case Clean => ([], Reply(0, []))
  }

  function QueueRun<T>(q: seq<T>, cap: nat, ops: seq<Op<T>>): (seq<T>, seq<Reply<T>>)
    decreases |ops|
  {
    if ops == [] then (q, [])
    else
      var (q1, replies) := QueueRun(q, cap, ops[..|ops| - 1]);
      var (q2, reply) := QueueStep(q1, cap, ops[|ops| - 1]);
      (q2, replies + [reply])
  }

  /** One call on the ring, with a caller's buffer of the right length. */
  method Call<T(0)>(ring: Ring<T>, op: Op<T>) returns (reply: Reply<T>)
    requires ring.Valid()
    modifies ring, ring.buffer
    ensures ring.Valid()
    ensures (ring.Contents(), reply) == QueueStep(old(ring.Contents()), ring.size - 1, op)
  {
    ghost var q := ring.Contents();
    assert q[0..] == q && q + [] == q;
    match op
    case Write(data) =>
      var src := new T[|data|](i requires 0 <= i < |data| => data[i]);
      assert src[..] == data;
      var count := ring.Write(src, |data|);
      assert src[..count] == data[..count] && data[..0] == [] && data[..|data|] == data;
      reply := Reply(count, []);
    case ReadN(n) =>
      var dst := new T[n];
      var count := ring.ReadN(dst, n);
      assert dst[..count] == q[..count];
      reply := Reply(count, dst[..count]);
    case PeekN(n) =>
      var dst := new T[n];
      var count := ring.PeekN(dst, n);
      assert dst[..count] == q[..count];
      reply := Reply(count, dst[..count]);
    case Read =>
      var dst := new T[ring.size];
      var count := ring.Read(dst);
      assert dst[..count] == q;
      reply := Reply(count, dst[..count]);
    case Size =>
      var count := ring.Size();
      reply := Reply(count, []);
    case Clean =>
      ring.Clean();
      reply := Reply(0, []);
  }

  /** Any sequence of calls on the ring is indistinguishable from the bounded queue. */
  method Execute<T(0)>(ring: Ring<T>, ops: seq<Op<T>>) returns (replies: seq<Reply<T>>)
    requires ring.Valid()
    modifies ring, ring.buffer
    ensures ring.Valid()
    ensures (ring.Contents(), replies) == QueueRun(old(ring.Contents()), ring.size - 1, ops)
  {
    replies := [];
    for i := 0 to |ops|
      invariant ring.Valid()
      invariant (ring.Contents(), replies) == QueueRun(old(ring.Contents()), ring.size - 1, ops[..i])
    {
      var reply := Call(ring, ops[i]);
      assert ops[..i + 1][..i] == ops[..i];
      replies := replies + [reply];
    }
    assert ops[..|ops|] == ops;
  }
}
