/**
 * The fixed-block memory pool of freertos.c: POOL_SIZE blocks of BLOCK_SIZE
 * bytes in a static array `memPool`, one used-flag per block in `memPoolUsed`,
 * and a mutex that serialises `poolMalloc` and `poolFree`.
 *
 * A block is handed out as the address of its first byte, `memPool[i]`, which
 * is `base + i * BlockSize` for the address `base` the linker gives the array.
 * The outcome of acquiring the mutex is an input (`acquired`), since the mutex
 * itself belongs to the RTOS.
 */
module MemPool {
  import opened Wrappers

  const PoolSize: nat := 10
  const BlockSize: nat := 32

  /** A `void*` as the pool sees it: NULL or an address. */
  datatype Ptr = Null | Addr(address: nat)

  /** The address `memPool[i]`. */
  function BlockPtr(base: nat, i: nat): Ptr {
    Addr(base + i * BlockSize)
  }

  /** Distinct blocks have distinct addresses. */
  lemma BlockPtrInjective(base: nat, i: nat, j: nat)
    ensures BlockPtr(base, i) == BlockPtr(base, j) <==> i == j
  {
  }

  /** `k` is the lowest index whose flag is clear. */
  ghost predicate IsLowestFree(flags: seq<bool>, k: nat) {
    k < |flags| && !flags[k] && forall j :: 0 <= j < k ==> flags[j]
  }

  /** The index a first-fit scan from the start of the pool stops at. */
  function FirstFree(flags: seq<bool>): (r: Option<nat>)
    ensures r.Some? ==> IsLowestFree(flags, r.value)
    ensures r.None? <==> forall j :: 0 <= j < |flags| ==> flags[j]
    decreases |flags|
  {
    if |flags| == 0 then None
    else if !flags[0] then Some(0)
    else match FirstFree(flags[1..])
      case None => None
      case Some(k) => Some(k + 1)
  }

  /** The index of the block whose address is `ptr`, among the first `n`. */
  function BlockIndex(base: nat, n: nat, ptr: Ptr): (r: Option<nat>)
    ensures r.Some? ==> r.value < n && BlockPtr(base, r.value) == ptr
    ensures r.None? ==> forall i :: 0 <= i < n ==> BlockPtr(base, i) != ptr
  {
    match ptr
    case Null => None
    case Addr(a) =>
      if base <= a && (a - base) % BlockSize == 0 && (a - base) / BlockSize < n
      then Some((a - base) / BlockSize)
      else
        assert forall i :: 0 <= i < n ==> BlockPtr(base, i) != ptr by {
          forall i | 0 <= i < n ensures BlockPtr(base, i) != ptr {
            BlockOffset(i);
          }
        }
        None
  }

  /** Block `i` starts exactly `i` blocks after the base. */
  lemma BlockOffset(i: nat)
    ensures (i * BlockSize) % BlockSize == 0 && (i * BlockSize) / BlockSize == i
  {
  }

  /** What one `poolMalloc` call returns and the flags it leaves. */
  datatype Alloc = Alloc(ptr: Ptr, flags: seq<bool>)

  /**
   * `poolMalloc`: with the mutex held, the first free block is marked used
   * and its address returned; otherwise NULL and the flags are untouched.
   */
  function Allocate(base: nat, flags: seq<bool>, acquired: bool): (r: Alloc)
    ensures r.ptr == Null <==> !acquired || forall j :: 0 <= j < |flags| ==> flags[j]
    ensures r.ptr == Null ==> r.flags == flags
    ensures r.ptr != Null ==>
      exists k: nat :: IsLowestFree(flags, k) && r.ptr == BlockPtr(base, k) && r.flags == flags[k := true]
  {
    if !acquired then Alloc(Null, flags)
    else match FirstFree(flags)
      case None => Alloc(Null, flags)
      case Some(k) => Alloc(BlockPtr(base, k), flags[k := true])
  }

  /**
   * `poolFree`: with the mutex held, the flag of the block whose address is
   * `ptr` is cleared; a pointer that is no block's address changes nothing.
   */
  function Release(base: nat, flags: seq<bool>, ptr: Ptr, acquired: bool): (r: seq<bool>)
    ensures |r| == |flags|
    ensures forall j :: 0 <= j < |flags| ==>
      r[j] == (flags[j] && !(acquired && ptr == BlockPtr(base, j)))
  {
    if !acquired then flags
    else match BlockIndex(base, |flags|, ptr)
      case None => flags
      case Some(i) =>
        assert forall j :: 0 <= j < |flags| && j != i ==> ptr != BlockPtr(base, j) by {
          forall j | 0 <= j < |flags| && j != i ensures ptr != BlockPtr(base, j) {
            BlockPtrInjective(base, i, j);
          }
        }
        flags[i := false]
  }

  /** The number of blocks whose flag is set. */
  function UsedCount(flags: seq<bool>): (n: nat)
    ensures n <= |flags|
  {
    if |flags| == 0 then 0 else (if flags[0] then 1 else 0) + UsedCount(flags[1..])
  }

  /** The addresses of the blocks currently lent out. */
  ghost function Held(base: nat, flags: seq<bool>): set<Ptr> {
    set j | 0 <= j < |flags| && flags[j] :: BlockPtr(base, j)
  }

  /** The flags of a pool whose first `k` blocks are used and the rest free. */
  function Prefix(k: nat): seq<bool> {
    seq(PoolSize, j => j < k)
  }

  // ---------------------------------------------------------------------------
  // Allocation

  /** A successful allocation returns the lowest free block and sets only its flag. */
  lemma AllocateFirstFit(base: nat, flags: seq<bool>, k: nat)
    requires IsLowestFree(flags, k)
    ensures Allocate(base, flags, true) == Alloc(BlockPtr(base, k), flags[k := true])
  {
  }

  /** Every block used, or the mutex not taken: NULL, and nothing changes. */
  lemma AllocateFails(base: nat, flags: seq<bool>, acquired: bool)
    requires !acquired || forall j :: 0 <= j < |flags| ==> flags[j]
    ensures Allocate(base, flags, acquired) == Alloc(Null, flags)
  {
  }

  /** The block handed out was not lent out before, and is lent out afterwards. */
  lemma AllocateLendsFreeBlock(base: nat, flags: seq<bool>, acquired: bool)
    ensures var r := Allocate(base, flags, acquired);
      r.ptr != Null ==> r.ptr !in Held(base, flags) && Held(base, r.flags) == Held(base, flags) + {r.ptr}
    ensures var r := Allocate(base, flags, acquired);
      r.ptr == Null ==> Held(base, r.flags) == Held(base, flags)
  {
  }

  // ---------------------------------------------------------------------------
  // Release

  /** Releasing block `i` clears exactly flag `i`. */
  lemma ReleaseBlock(base: nat, flags: seq<bool>, i: nat)
    requires i < |flags|
    ensures Release(base, flags, BlockPtr(base, i), true) == flags[i := false]
  {
  }

  /** A pointer that is no block's address, or a failed acquire, is a no-op. */
  lemma ReleaseUnknown(base: nat, flags: seq<bool>, ptr: Ptr, acquired: bool)
    requires !acquired || forall i :: 0 <= i < |flags| ==> BlockPtr(base, i) != ptr
    ensures Release(base, flags, ptr, acquired) == flags
  {
  }

  /** Releasing a block that is already free changes nothing. */
  lemma ReleaseFreeBlock(base: nat, flags: seq<bool>, i: nat, acquired: bool)
    requires i < |flags| && !flags[i]
    ensures Release(base, flags, BlockPtr(base, i), acquired) == flags
  {
  }

  /** Release is idempotent: a double free is the same as one free. */
  lemma ReleaseIdempotent(base: nat, flags: seq<bool>, ptr: Ptr, acquired: bool)
    ensures var once := Release(base, flags, ptr, acquired);
      Release(base, once, ptr, acquired) == once
  {
  }

  /** Releasing what `poolMalloc` returned restores the flags it started from. */
  lemma AllocateThenRelease(base: nat, flags: seq<bool>, acquired: bool)
    ensures var r := Allocate(base, flags, acquired);
      Release(base, r.flags, r.ptr, true) == flags
  {
  }

  /** Releasing block `i` takes exactly its address out of the lent-out set. */
  lemma ReleaseReturnsBlock(base: nat, flags: seq<bool>, i: nat)
    requires i < |flags|
    ensures Held(base, Release(base, flags, BlockPtr(base, i), true)) == Held(base, flags) - {BlockPtr(base, i)}
  {
  }

  /** The lent-out set determines the flags. */
  lemma HeldDeterminesFlags(base: nat, f: seq<bool>, g: seq<bool>)
    requires |f| == |g| && Held(base, f) == Held(base, g)
    ensures f == g
  {
    forall j | 0 <= j < |f| ensures f[j] == g[j] {
      if f[j] {
        assert BlockPtr(base, j) in Held(base, g);
        var j' :| 0 <= j' < |g| && g[j'] && BlockPtr(base, j') == BlockPtr(base, j);
        BlockPtrInjective(base, j, j');
      }
      if g[j] {
        assert BlockPtr(base, j) in Held(base, f);
        var j' :| 0 <= j' < |f| && f[j'] && BlockPtr(base, j') == BlockPtr(base, j);
        BlockPtrInjective(base, j, j');
      }
    }
  }

  // ---------------------------------------------------------------------------
  // The used-count

  /** Overwriting one flag moves the count by the difference of the old and new flag. */
  lemma {:induction false} UsedCountUpdate(flags: seq<bool>, i: nat, b: bool)
    requires i < |flags|
    ensures UsedCount(flags[i := b]) ==
      UsedCount(flags) - (if flags[i] then 1 else 0) + (if b then 1 else 0)
  {
    if i > 0 {
      UsedCountUpdate(flags[1..], i - 1, b);
      assert flags[i := b][1..] == flags[1..][i - 1 := b];
    }
  }

  /** A successful allocation raises the count by one; a failed one leaves it. */
  lemma AllocateCount(base: nat, flags: seq<bool>, acquired: bool)
    ensures var r := Allocate(base, flags, acquired);
      UsedCount(r.flags) == UsedCount(flags) + (if r.ptr != Null then 1 else 0)
  {
    var r := Allocate(base, flags, acquired);
    if r.ptr != Null {
      var k: nat :| IsLowestFree(flags, k) && r.ptr == BlockPtr(base, k) && r.flags == flags[k := true];
      UsedCountUpdate(flags, k, true);
    }
  }

  /** Releasing a used block lowers the count by one; anything else leaves it. */
  lemma ReleaseCount(base: nat, flags: seq<bool>, ptr: Ptr, acquired: bool)
    ensures var held := acquired && exists i :: 0 <= i < |flags| && flags[i] && ptr == BlockPtr(base, i);
      UsedCount(Release(base, flags, ptr, acquired)) == UsedCount(flags) - (if held then 1 else 0)
  {
    var idx := BlockIndex(base, |flags|, ptr);
    if acquired && idx.Some? {
      var i := idx.value;
      ReleaseBlock(base, flags, i);
      UsedCountUpdate(flags, i, false);
      forall i' | 0 <= i' < |flags| && ptr == BlockPtr(base, i') ensures i' == i {
        BlockPtrInjective(base, i, i');
      }
    } else {
      ReleaseUnknown(base, flags, ptr, acquired);
    }
  }

  // ---------------------------------------------------------------------------
  // The exhaustion and reuse scenario

  /** With blocks 0..k-1 used, the next allocation returns block k (or NULL at k = PoolSize). */
  lemma AllocatePrefix(base: nat, k: nat)
    requires k <= PoolSize
    ensures k < PoolSize ==> Allocate(base, Prefix(k), true) == Alloc(BlockPtr(base, k), Prefix(k + 1))
    ensures k == PoolSize ==> Allocate(base, Prefix(k), true) == Alloc(Null, Prefix(k))
  {
    if k < PoolSize {
      AllocateFirstFit(base, Prefix(k), k);
      assert Prefix(k)[k := true] == Prefix(k + 1);
    }
  }

  /** With every block used but block `i`, the next allocation returns block `i`. */
  lemma AllocateReusesOnlyFree(base: nat, i: nat)
    requires i < PoolSize
    ensures Allocate(base, Prefix(PoolSize)[i := false], true) ==
      Alloc(BlockPtr(base, i), Prefix(PoolSize))
  {
    var flags := Prefix(PoolSize)[i := false];
    AllocateFirstFit(base, flags, i);
    assert flags[i := true] == Prefix(PoolSize);
  }

  // ---------------------------------------------------------------------------
  // The pool object

  /** `memPool` / `memPoolUsed`: the array of used-flags and the pool's address. */
  class Pool {
    const base: nat
    const used: array<bool>

    ghost predicate Valid() {
      used.Length == PoolSize
    }

    /** The static initialiser `memPoolUsed[POOL_SIZE] = {0}`: every block free. */
    constructor (base: nat)
      ensures Valid() && fresh(used) && this.base == base
      ensures used[..] == Prefix(0)
    {
      this.base := base;
      used := new bool[PoolSize](_ => false);
    }

    /** `poolMalloc`: first-fit scan with early exit, under the mutex. */
    method PoolMalloc(acquired: bool) returns (ptr: Ptr)
      requires Valid()
      modifies used
      ensures Alloc(ptr, used[..]) == Allocate(base, old(used[..]), acquired)
    {
      ptr := Null;
      if acquired {
        for i := 0 to PoolSize
          invariant forall j :: 0 <= j < i ==> used[j]
          invariant used[..] == old(used[..])
        {
          if !used[i] {
            AllocateFirstFit(base, used[..], i);
            used[i] := true;
            ptr := BlockPtr(base, i);
            break;
          }
        }
      }
    }

    /** `poolFree`: scan for the block whose address is `ptr`, under the mutex. */
    method PoolFree(ptr: Ptr, acquired: bool)
      requires Valid()
      modifies used
      ensures used[..] == Release(base, old(used[..]), ptr, acquired)
    {
      ghost var found := false;
      if acquired {
        for i := 0 to PoolSize
          invariant forall j :: 0 <= j < i ==> BlockPtr(base, j) != ptr
          invariant used[..] == old(used[..]) && !found
        {
          if BlockPtr(base, i) == ptr {
            ReleaseBlock(base, used[..], i);
            used[i] := false;
            found := true;
            break;
          }
        }
      }
      if !found {
        ReleaseUnknown(base, old(used[..]), ptr, acquired);
      }
    }
  }

  /**
   * From an empty pool, ten allocations return blocks 0..9 in order, the
   * eleventh returns NULL, and after block 3 is freed the next allocation
   * returns block 3 again.
   */
  method ExhaustAndReuse(base: nat) returns (first: seq<Ptr>, eleventh: Ptr, reused: Ptr)
    ensures |first| == PoolSize
    ensures forall j :: 0 <= j < PoolSize ==> first[j] == BlockPtr(base, j)
    ensures eleventh == Null
    ensures reused == BlockPtr(base, 3)
  {
    var pool := new Pool(base);
    first := [];
    var k := 0;
    while k < PoolSize
      invariant 0 <= k <= PoolSize
      invariant |first| == k
      invariant forall j :: 0 <= j < k ==> first[j] == BlockPtr(base, j)
      invariant pool.used[..] == Prefix(k)
    {
      AllocatePrefix(base, k);
      var p := pool.PoolMalloc(true);
      first := first + [p];
      k := k + 1;
    }
    AllocatePrefix(base, PoolSize);
    eleventh := pool.PoolMalloc(true);
    ReleaseBlock(base, pool.used[..], 3);
    pool.PoolFree(BlockPtr(base, 3), true);
    AllocateReusesOnlyFree(base, 3);
    reused := pool.PoolMalloc(true);
  }

  /** The non-NULL pointers among `ps`. */
  ghost function NonNull(ps: seq<Ptr>): set<Ptr> {
    set p | p in ps && p != Null
  }

  /** The number of test blocks `MemPoolTest_Task` takes per round. */
  const TestBlocks: nat := 5

  /**
   * One round of `MemPoolTest_Task`: five allocations, then a release of
   * every one that succeeded. Every call waits forever on the same mutex, so
   * `acquired` is the one outcome of all ten acquires: all succeed, or (with
   * no mutex) all fail. The blocks it gets are distinct and were not lent
   * out before, and the round leaves the pool as it found it.
   */
  method PoolTestRound(pool: Pool, acquired: bool) returns (ptrs: seq<Ptr>)
    requires pool.Valid()
    modifies pool.used
    ensures |ptrs| == TestBlocks
    ensures forall p :: p in NonNull(ptrs) ==> p !in Held(pool.base, old(pool.used[..]))
    ensures forall a, b :: 0 <= a < b < |ptrs| && ptrs[a] != Null ==> ptrs[a] != ptrs[b]
    ensures pool.used[..] == old(pool.used[..])
  {
    ghost var start := pool.used[..];
    ptrs := [];
    var i := 0;
    while i < TestBlocks
      invariant |ptrs| == i <= TestBlocks
      invariant Held(pool.base, pool.used[..]) == Held(pool.base, start) + NonNull(ptrs)
      invariant forall p :: p in NonNull(ptrs) ==> p !in Held(pool.base, start)
      invariant forall p :: p in NonNull(ptrs) ==> exists j: nat :: j < PoolSize && p == BlockPtr(pool.base, j)
      invariant forall a, b :: 0 <= a < b < |ptrs| && ptrs[a] != Null ==> ptrs[a] != ptrs[b]
      invariant !acquired ==> NonNull(ptrs) == {}
    {
      ghost var before := pool.used[..];
      var p := pool.PoolMalloc(acquired);
      AllocateLendsFreeBlock(pool.base, before, acquired);
      if p != Null {
        ghost var k: nat :| IsLowestFree(before, k) && p == BlockPtr(pool.base, k);
      }
      assert NonNull(ptrs + [p]) == NonNull(ptrs) + (if p != Null then {p} else {});
      ptrs := ptrs + [p];
      i := i + 1;
    }
    i := 0;
    while i < TestBlocks
      invariant 0 <= i <= TestBlocks
      invariant Held(pool.base, pool.used[..]) == Held(pool.base, start) + NonNull(ptrs[i..])
      invariant !acquired ==> NonNull(ptrs) == {}
    {
      ghost var before := pool.used[..];
      assert NonNull(ptrs[i..]) == NonNull(ptrs[i + 1..]) + (if ptrs[i] != Null then {ptrs[i]} else {}) by {
        assert ptrs[i..] == [ptrs[i]] + ptrs[i + 1..];
      }
      if ptrs[i] != Null {
        assert ptrs[i] in NonNull(ptrs);
        ghost var j: nat :| j < PoolSize && ptrs[i] == BlockPtr(pool.base, j);
        pool.PoolFree(ptrs[i], acquired);
        ReleaseReturnsBlock(pool.base, before, j);
        assert ptrs[i] !in NonNull(ptrs[i + 1..]);
      }
      i := i + 1;
    }
    assert NonNull(ptrs[TestBlocks..]) == {};
    HeldDeterminesFlags(pool.base, pool.used[..], start);
  }
}
