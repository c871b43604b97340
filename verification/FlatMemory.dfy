/** The memory of the device as one byte sequence, with addresses as indices. */
module FlatMemory {

  /** Bytes in memory: a descriptor or the answer of a user callback. */
  datatype Blob = Blob(ptr: nat, len: nat)

  /** memcpy, byte by byte. */
  function Copy(mem: seq<bv8>, dst: nat, src: nat, n: nat): (r: seq<bv8>)
    requires dst + n <= |mem| && src + n <= |mem|
    ensures |r| == |mem|
  {
    if n == 0 then mem else Copy(mem, dst, src, n - 1)[dst + n - 1 := mem[src + n - 1]]
  }

  lemma {:induction false} CopyAt(mem: seq<bv8>, dst: nat, src: nat, n: nat, i: nat)
    requires dst + n <= |mem| && src + n <= |mem| && i < |mem|
    ensures Copy(mem, dst, src, n)[i] == if dst <= i < dst + n then mem[src + (i - dst)] else mem[i]
  {
    if n > 0 {
      CopyAt(mem, dst, src, n - 1, i);
    }
  }

  /** The memory after the hardware has stored a packet. */
  function Store(mem: seq<bv8>, at: nat, data: seq<bv8>): (r: seq<bv8>)
    requires at + |data| <= |mem|
    ensures |r| == |mem|
  {
    seq(|mem|, i requires 0 <= i < |mem| => if at <= i < at + |data| then data[i - at] else mem[i])
  }

  /** The blob does not partly overlap the `n` bytes at `at`: it starts there or lies clear of them. */
  ghost predicate Placed(b: Blob, at: nat, n: nat)
  {
    b.ptr == at || b.ptr + b.len <= at || at + n <= b.ptr
  }

  /** The `n` bytes at `at` are the bytes of `payload` from `off` on. */
  ghost predicate Same(mem: seq<bv8>, at: nat, payload: seq<bv8>, off: nat, n: nat)
    requires at + n <= |mem| && off + n <= |payload|
  {
    n == 0 || (mem[at + n - 1] == payload[off + n - 1] && Same(mem, at, payload, off, n - 1))
  }

  lemma {:induction false} SameAt(mem: seq<bv8>, at: nat, payload: seq<bv8>, off: nat, n: nat, i: nat)
    requires at + n <= |mem| && off + n <= |payload| && i < n && Same(mem, at, payload, off, n)
    ensures mem[at + i] == payload[off + i]
  {
    if i < n - 1 {
      SameAt(mem, at, payload, off, n - 1, i);
    }
  }

  lemma SameSlice(mem: seq<bv8>, at: nat, payload: seq<bv8>, off: nat, n: nat)
    requires at + n <= |mem| && off + n <= |payload| && Same(mem, at, payload, off, n)
    ensures mem[at..at + n] == payload[off..off + n]
  {
    var a, b := mem[at..at + n], payload[off..off + n];
    forall i | 0 <= i < n ensures a[i] == b[i] {
      SameAt(mem, at, payload, off, n, i);
    }
  }

  lemma {:induction false} SamePart(mem: seq<bv8>, at: nat, payload: seq<bv8>, off: nat, n: nat, lo: nat, k: nat)
    requires at + n <= |mem| && off + n <= |payload| && lo + k <= n && Same(mem, at, payload, off, n)
    ensures Same(mem, at + lo, payload, off + lo, k)
    decreases k
  {
    if k > 0 {
      SameAt(mem, at, payload, off, n, lo + k - 1);
      SamePart(mem, at, payload, off, n, lo, k - 1);
    }
  }

  lemma {:induction false} SameOwn(mem: seq<bv8>, at: nat, len: nat, n: nat)
    requires at + len <= |mem| && n <= len
    ensures Same(mem, at, mem[at..at + len], 0, n)
    decreases n
  {
    if n > 0 {
      SameOwn(mem, at, len, n - 1);
    }
  }

  lemma {:induction false} SameCopied(mem: seq<bv8>, dst: nat, src: nat, n: nat, payload: seq<bv8>, off: nat, k: nat)
    requires dst + n <= |mem| && src + n <= |mem| && off + n <= |payload| && k <= n
    requires Same(mem, src, payload, off, n)
    ensures Same(Copy(mem, dst, src, n), dst, payload, off, k)
    decreases k
  {
    if k > 0 {
      CopyAt(mem, dst, src, n, dst + k - 1);
      SameAt(mem, src, payload, off, n, k - 1);
      SameCopied(mem, dst, src, n, payload, off, k - 1);
    }
  }

  lemma {:induction false} SameKept(
    mem: seq<bv8>, dst: nat, src: nat, n: nat, at: nat, payload: seq<bv8>, off: nat, k: nat)
    requires dst + n <= |mem| && src + n <= |mem| && at + k <= |mem| && off + k <= |payload|
    requires at + k <= dst || dst + n <= at || k == 0
    requires Same(mem, at, payload, off, k)
    ensures Same(Copy(mem, dst, src, n), at, payload, off, k)
    decreases k
  {
    if k > 0 {
      CopyAt(mem, dst, src, n, at + k - 1);
      SameKept(mem, dst, src, n, at, payload, off, k - 1);
    }
  }

  /** Loading the next `n` of `left` bytes into a buffer destroys nothing that is still to be sent,
      even if they lie in that buffer. */
  lemma LoadNext(mem: seq<bv8>, buf: nat, at: nat, payload: seq<bv8>, off: nat, left: nat, n: nat)
    requires at + left <= |mem| && off + left <= |payload| && n <= left && buf + n <= |mem|
    requires Same(mem, at, payload, off, left)
    requires at + left <= buf || buf <= at || n == left
    ensures
      var r := Copy(mem, buf, at, n);
      Same(r, buf, payload, off, n) && Same(r, at + n, payload, off + n, left - n)
  {
    SamePart(mem, at, payload, off, left, 0, n);
    SameCopied(mem, buf, at, n, payload, off, n);
    SamePart(mem, at, payload, off, left, n, left - n);
    SameKept(mem, buf, at, n, at + n, payload, off + n, left - n);
  }

  /** Storing `data` right behind bytes already collected extends them. */
  lemma StoreExtends(mem: seq<bv8>, base: nat, got: seq<bv8>, data: seq<bv8>)
    requires base + |got| + |data| <= |mem| && mem[base..base + |got|] == got
    ensures Store(mem, base + |got|, data)[base..base + |got| + |data|] == got + data
  {
    var at, r := base + |got|, Store(mem, base + |got|, data);
    assert r[base..at] == mem[base..at];
    assert r[at..at + |data|] == data;
    assert r[base..at + |data|] == r[base..at] + r[at..at + |data|];
  }

  function Flatten(ps: seq<seq<bv8>>): seq<bv8>
  {
    if ps == [] then [] else Flatten(ps[..|ps| - 1]) + ps[|ps| - 1]
  }

  lemma {:induction false} FlattenCons(p: seq<bv8>, ps: seq<seq<bv8>>)
    ensures Flatten([p] + ps) == p + Flatten(ps)
    decreases |ps|
  {
    if ps == [] {
      assert [p] + ps == [p] && [p][..0] == [];
    } else {
      var m := |ps| - 1;
      FlattenCons(p, ps[..m]);
      assert ([p] + ps)[..m + 1] == [p] + ps[..m] && ([p] + ps)[m + 1] == ps[m];
      assert p + (Flatten(ps[..m]) + ps[m]) == (p + Flatten(ps[..m])) + ps[m];
    }
  }
}
