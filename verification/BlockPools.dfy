/**
 The two block allocators with their tables held in arrays: memory/ramx_alloc.h, which
 counts references, and memory/alloc.c, which does not. Addresses are numbers and 0 is
 the null pointer.
 */
module BlockPools {
  import opened Arithmetic
  import opened BlockTable
  import opened Common

  /** The nested search loops shared by both allocators. `spaceFound` keeps its value from one
      outer iteration to the next, as in the source. */
  method FindWindow(blocks: array<nat>, num: nat) returns (r: Option<nat>)
    requires 0 < num <= blocks.Length
    ensures r == FirstFit(blocks[..], num)
  {
    var spaceFound := true;
    var i := 0;
    while i <= blocks.Length - num
      invariant 0 <= i <= blocks.Length - num + 1
      invariant num == 1 ==> spaceFound
      invariant SearchFrom(blocks[..], num, 0) == SearchFrom(blocks[..], num, i)
    {
      if blocks[i] == 0 {
        var j := 1;
        while j < num
          invariant 1 <= j <= num
          invariant forall k :: i <= k < i + j ==> blocks[k] == 0
          invariant num == 1 || j > 1 ==> spaceFound
        {
          if blocks[i + j] != 0 {
            spaceFound := false;
            break;
          } else {
            spaceFound := true;
          }
          j := j + 1;
        }
        if spaceFound {
          return Some(i);
        }
      }
      i := i + 1;
    }
    return None;
  }

  /** DIV_ROUND_UP in 32-bit arithmetic, kept in a uint8_t. */
  function BlocksNeeded(bytes: nat, blockSize: nat): nat
    requires 0 < blockSize
  {
    (bytes + blockSize - 1) % 0x1_0000_0000 / blockSize % 256
  }

  /** The blocks asked for hold the requested bytes exactly when the addition does not wrap
      and at most 255 blocks are needed. */
  lemma BlocksNeededSuffice(bytes: nat, blockSize: nat)
    requires 0 < blockSize < 0x1_0000_0000 && 0 < bytes < 0x1_0000_0000
    ensures BlocksNeeded(bytes, blockSize) * blockSize >= bytes
            <==> bytes + blockSize - 1 < 0x1_0000_0000 && bytes <= 255 * blockSize
  {
    var sum := bytes + blockSize - 1;
    if sum < 0x1_0000_0000 {
      var q, r := sum / blockSize, sum % blockSize;
      assert BlocksNeeded(bytes, blockSize) == q % 256;
      CeilingCovers(bytes, blockSize, q, r);
    } else {
      WrappedSum(bytes, blockSize);
    }
  }

  lemma WrappedSum(bytes: nat, blockSize: nat)
    requires 0 < blockSize < 0x1_0000_0000 && 0 < bytes < 0x1_0000_0000 <= bytes + blockSize - 1
    ensures BlocksNeeded(bytes, blockSize) == 0
  {
    var rest := bytes + blockSize - 1 - 0x1_0000_0000;
    assert (bytes + blockSize - 1) % 0x1_0000_0000 == rest;
    DivModUnique(rest, blockSize, 0, rest);
  }

  lemma CeilingCovers(bytes: nat, blockSize: nat, q: nat, r: nat)
    requires 0 < bytes && r < blockSize && bytes + blockSize - 1 == q * blockSize + r
    ensures q % 256 * blockSize >= bytes <==> bytes <= 255 * blockSize
  {
    if q < 256 {
      MulMonotone(q, 255, blockSize);
    } else {
      MulMonotone(255, q - 1, blockSize);
      MulMonotone(q % 256, q - 1, blockSize);
      assert (q - 1) * blockSize == q * blockSize - blockSize;
    }
  }

  lemma RegionArithmetic(blockSize: nat, i: nat, n: nat, num: nat)
    requires 0 < blockSize && 0 < n && i + n <= num
    ensures blockSize * i + n * blockSize <= num * blockSize && blockSize * i < num * blockSize
  {
    MulDistributes(i, n, blockSize);
    MulMonotone(i + n, num, blockSize);
    MulAtLeast(n, blockSize);
  }

  /** The address of a block decodes back to the block. */
  lemma AddressRoundTrip(base: nat, blockSize: nat, i: nat)
    requires 0 < blockSize
    ensures (base + blockSize * i - base) / blockSize == i
  {
    assert blockSize * i == i * blockSize + 0;
    DivModUnique(blockSize * i, blockSize, i, 0);
  }

  class RamxPool {
    const pool: nat
    const endPool: nat
    const blockSize: nat
    const blocks: array<nat>
    const refs: array<nat>
    var blocksUsed: nat

    ghost predicate Valid()
      reads this, refs
    {
      && 0 < pool && 0 < blockSize && blocks != refs && blocks.Length == refs.Length < 256
      && forall k :: 0 <= k < refs.Length ==> refs[k] < 256
    }

    /** The pool is exactly its blocks, and its addresses fit 32 bits. */
    ghost predicate Geometry()
      reads this
    {
      endPool == pool + blocks.Length * blockSize < 0x1_0000_0000
    }

    ghost function State(): Table
      reads this, blocks, refs
    {
      Table(blocks[..], refs[..], blocksUsed)
    }

    /** Address of a block, null for none. */
    function Address(r: Option<nat>): nat
      reads this
    {
      match r
      case None => 0
      case Some(i) => pool + blockSize * i
    }

    /** ramx_pool_init */
    constructor (pool: nat, blockSize: nat, num: nat)
      requires 0 < pool && 0 < blockSize && num < 256 && pool + num * blockSize < 0x1_0000_0000
      ensures Valid() && Geometry() && fresh(blocks) && fresh(refs)
      ensures this.pool == pool && this.blockSize == blockSize
      ensures State() == EmptyTable(num) && Rep(State(), map[])
    {
      this.pool := pool;
      this.blockSize := blockSize;
      endPool := pool + num * blockSize;
      blocks := new nat[num](_ => 0);
      refs := new nat[num](_ => 0);
      blocksUsed := 0;
      new;
      EmptyRep(num);
      assert State() == EmptyTable(num);
    }

    /** ramx_address_in_pool */
    predicate AddressInPool(ptr: nat)
      reads this
    {
      ptr < endPool && ptr >= pool
    }

    /** The block an address lies in. */
    function BlockOf(ptr: nat): nat
      requires 0 < blockSize && pool <= ptr
      reads this
    {
      (ptr - pool) / blockSize
    }

    /** ramx_pool_alloc_blocks */
    method AllocBlocks(num: nat) returns (ptr: nat)
      requires Valid() && num < 256
      modifies this`blocksUsed, blocks, refs
      ensures Valid()
      ensures (State(), ptr) == (Alloc(old(State()), num).0, Address(Alloc(old(State()), num).1))
    {
      if num == 0 || num > blocks.Length {
        return 0;
      }
      var r := FindWindow(blocks, num);
      if r.None? {
        return 0;
      }
      MarkRun(r.value, num);
      blocksUsed := (blocksUsed + num) % 256;
      ptr := pool + blockSize * r.value;
    }

    /** The loop that writes the length and the first owner into every block of a new run. */
    method MarkRun(i: nat, num: nat)
      requires Valid() && i + num <= blocks.Length
      modifies blocks, refs
      ensures blocks[..] == Fill(old(blocks[..]), i, num, num) && refs[..] == Fill(old(refs[..]), i, num, 1)
    {
      for j := 0 to num
        invariant blocks[..] == Fill(old(blocks[..]), i, j, num)
        invariant refs[..] == Fill(old(refs[..]), i, j, 1)
      {
        blocks[i + j] := num;
        refs[i + j] := 1;
      }
    }

    /** ramx_pool_alloc_bytes: a region of at least `bytes` bytes inside the pool, for requests
        that fit 255 blocks. */
    method AllocBytes(bytes: nat) returns (ptr: nat)
      requires Valid() && Geometry() && bytes < 0x1_0000_0000 && blockSize < 0x1_0000_0000
      modifies this`blocksUsed, blocks, refs
      ensures Valid()
      ensures (State(), ptr) == (Alloc(old(State()), BlocksNeeded(bytes, blockSize)).0,
                                 Address(Alloc(old(State()), BlocksNeeded(bytes, blockSize)).1))
      ensures ptr != 0 && bytes + blockSize - 1 < 0x1_0000_0000 && bytes <= 255 * blockSize ==>
                AddressInPool(ptr) && ptr + bytes <= endPool
    {
      var n := BlocksNeeded(bytes, blockSize);
      ptr := AllocBlocks(n);
      if ptr != 0 {
        RegionInPool(Alloc(old(State()), n).1.value, n, bytes);
      }
    }

    lemma RegionInPool(i: nat, n: nat, bytes: nat)
      requires Valid() && Geometry() && bytes < 0x1_0000_0000 && blockSize < 0x1_0000_0000
      requires n == BlocksNeeded(bytes, blockSize) && 0 < n && i + n <= blocks.Length
      ensures AddressInPool(pool + blockSize * i)
      ensures bytes + blockSize - 1 < 0x1_0000_0000 && bytes <= 255 * blockSize ==>
                pool + blockSize * i + bytes <= endPool
    {
      if 0 < bytes {
        BlocksNeededSuffice(bytes, blockSize);
      }
      RegionArithmetic(blockSize, i, n, blocks.Length);
    }

    /** ramx_take_ownership */
    method TakeOwnership(ptr: nat)
      requires Valid()
      requires ptr != 0 ==> pool <= ptr && BlockOf(ptr) < blocks.Length
      requires ptr != 0 ==> BlockOf(ptr) + blocks[BlockOf(ptr)] <= blocks.Length
      modifies refs
      ensures Valid()
      ensures State() == if ptr == 0 then old(State()) else Take(old(State()), BlockOf(ptr))
    {
      if ptr == 0 {
        return;
      }
      var b := BlockOf(ptr);
      var n := blocks[b];
      for i := 0 to n
        invariant blocks[..] == old(blocks[..])
        invariant forall k :: 0 <= k < refs.Length ==>
          refs[k] == if b <= k < b + i then Increment(old(refs[k])) else old(refs[k])
      {
        refs[b + i] := (refs[b + i] + 1) % 256;
      }
      assert refs[..] == Take(old(State()), b).ref;
    }

    /** ramx_pool_free */
    method Release(ptr: nat)
      requires Valid()
      requires ptr != 0 ==> pool <= ptr && BlockOf(ptr) < blocks.Length
      requires ptr != 0 ==> BlockOf(ptr) + blocks[BlockOf(ptr)] <= blocks.Length
      modifies this`blocksUsed, blocks, refs
      ensures Valid()
      ensures State() == if ptr == 0 then old(State()) else Free(old(State()), BlockOf(ptr))
    {
      if ptr == 0 {
        return;
      }
      var b := BlockOf(ptr);
      var freed := DropOwner(b, blocks[b]);
      blocksUsed := (blocksUsed - freed) % 256;
    }

    /** The loop that takes one owner from every block of a run and clears the blocks left without. */
    method DropOwner(b: nat, n: nat) returns (freed: nat)
      requires Valid() && b < blocks.Length && n == blocks[b] && b + n <= blocks.Length
      modifies blocks, refs
      ensures freed == Released(old(refs[..]), b, n)
      ensures blocks[..] == Free(old(State()), b).len && refs[..] == Free(old(State()), b).ref
    {
      freed := 0;
      for i := 0 to n
        invariant forall k :: 0 <= k < blocks.Length ==>
          blocks[k] == if b <= k < b + i && old(refs[k]) <= 1 then 0 else old(blocks[k])
        invariant forall k :: 0 <= k < refs.Length ==>
          refs[k] == if b <= k < b + i && old(refs[k]) > 1 then old(refs[k]) - 1 else old(refs[k])
        invariant freed == Released(old(refs[..]), b, i)
      {
        if refs[b + i] <= 1 {
          blocks[b + i] := 0;
          freed := freed + 1;
        } else {
          refs[b + i] := refs[b + i] - 1;
        }
      }
    }
  }

  class RamPool {
    const pool: nat
    const blockSize: nat
    const blocks: array<nat>
    var blocksUsed: nat

    ghost predicate Valid()
      reads this
    {
      0 < pool && 0 < blockSize && blocks.Length < 256
    }

    ghost function State(): Plain
      reads this, blocks
    {
      Plain(blocks[..], blocksUsed)
    }

    /** pool_init */
    constructor (pool: nat, blockSize: nat, num: nat)
      requires 0 < pool && 0 < blockSize && num < 256
      ensures Valid() && fresh(blocks) && Same(EmptyTable(num), State())
    {
      this.pool := pool;
      this.blockSize := blockSize;
      blocks := new nat[num](_ => 0);
      blocksUsed := 0;
      new;
      assert blocks[..] == EmptyTable(num).len;
    }

    /** pool_alloc_blocks */
    method AllocBlocks(num: nat) returns (ptr: nat)
      requires Valid() && num < 256
      modifies this`blocksUsed, blocks
      ensures Valid() && State() == PlainAlloc(old(State()), num).0
      ensures ptr == match PlainAlloc(old(State()), num).1 case None => 0 case Some(i) => pool + blockSize * i
    {
      if num == 0 || num > blocks.Length {
        return 0;
      }
      var r := FindWindow(blocks, num);
      if r.None? {
        return 0;
      }
      var i := r.value;
      for j := 0 to num
        modifies blocks
        invariant blocks[..] == Fill(old(blocks[..]), i, j, num)
      {
        blocks[i + j] := num;
      }
      blocksUsed := (blocksUsed + num) % 256;
      ptr := pool + blockSize * i;
    }

    /** pool_free */
    method Release(ptr: nat)
      requires Valid()
      requires ptr != 0 ==> pool <= ptr && (ptr - pool) / blockSize < blocks.Length
      requires ptr != 0 ==> (ptr - pool) / blockSize + blocks[(ptr - pool) / blockSize] <= blocks.Length
      modifies this`blocksUsed, blocks
      ensures Valid()
      ensures State() == if ptr == 0 then old(State()) else PlainFree(old(State()), (ptr - pool) / blockSize)
    {
      if ptr == 0 {
        return;
      }
      var b := (ptr - pool) / blockSize;
      var n := blocks[b];
      for i := 0 to n
        modifies blocks
        invariant blocks[..] == Fill(old(blocks[..]), b, i, 0)
      {
        blocks[b + i] := 0;
      }
      blocksUsed := (blocksUsed - n) % 256;
    }
  }
}
