/**
 * The two reporting tasks of freertos.c. `MemMonitor_Task` derives the used
 * heap and the usage percentage from the FreeRTOS heap size and the free
 * size the port reports; `Monitor_Task` names the run state of a task.
 * How the numbers and names are formatted and printed is not modelled.
 */
module Diagnostics {
  /** `size_t` is 32 bits wide on the Cortex-M target. */
  const SizeModulus: nat := 0x1_0000_0000

  type SizeT = x: int | 0 <= x < SizeModulus

  /** `usedHeap = totalHeap - freeHeap`, in unsigned 32-bit arithmetic. */
  function UsedHeap(total: SizeT, free: SizeT): SizeT {
    (total - free) % SizeModulus
  }

  /** `(usedHeap * 100) / totalHeap`, in unsigned 32-bit arithmetic. */
  function UsagePercent(total: SizeT, free: SizeT): SizeT
    requires total > 0
  {
    ((UsedHeap(total, free) * 100) % SizeModulus) / total
  }

  /**
   * While the free size does not exceed the heap size, the used size is
   * their difference; a larger free size would wrap around.
   */
  lemma UsedHeapDifference(total: SizeT, free: SizeT)
    ensures free <= total ==> UsedHeap(total, free) == total - free
    ensures free > total ==> UsedHeap(total, free) == total - free + SizeModulus
  {
  }

  lemma MulMonotone(a: nat, b: nat, d: nat)
    ensures a <= b ==> a * d <= b * d
  {
  }

  /** Truncating division keeps the order of its dividends. */
  lemma DivMonotone(a: nat, b: nat, d: nat)
    requires a <= b && d > 0
    ensures a / d <= b / d
  {
    assert b == (b / d) * d + b % d;
    MulMonotone(b / d + 1, a / d, d);
    assert (b / d + 1) * d == (b / d) * d + d;
  }

  /** A dividend below `q * d` has a quotient below `q`. */
  lemma DivBelow(x: nat, d: nat, q: nat)
    requires d > 0 && x < q * d
    ensures x / d < q
  {
  }

  /** A dividend of at least `q * d` has a quotient of at least `q`. */
  lemma DivAbove(x: nat, d: nat, q: nat)
    requires d > 0 && q * d <= x
    ensures q <= x / d
  {
    assert x == (x / d) * d + x % d;
    MulMonotone(x / d + 1, q, d);
    assert (x / d + 1) * d == (x / d) * d + d;
  }

  /** `used * 100 / total` for `used <= total` is a percentage, 100 only when all is used. */
  lemma PercentRange(used: nat, total: nat)
    requires 0 < total && used <= total
    ensures (used * 100) / total <= 100
    ensures (used * 100) / total == 100 <==> used == total
    ensures (used * 100) / total == 0 <==> used * 100 < total
  {
    var scaled := used * 100;
    MulMonotone(used, total, 100);
    DivBelow(scaled, total, 101);
    if used < total {
      MulMonotone(used + 1, total, 100);
      DivBelow(scaled, total, 100);
    } else {
      DivAbove(scaled, total, 100);
    }
    if scaled < total {
      DivBelow(scaled, total, 1);
    } else {
      DivAbove(scaled, total, 1);
    }
  }

  /** While `used * 100` fits in 32 bits, the percentage is the exact truncated quotient. */
  lemma UsagePercentExact(total: SizeT, free: SizeT)
    requires 0 < total && free <= total && (total - free) * 100 < SizeModulus
    ensures UsagePercent(total, free) == ((total - free) * 100) / total
  {
    var scaled := (total - free) * 100;
    assert UsedHeap(total, free) == total - free;
    assert scaled % SizeModulus == scaled;
  }

  /**
   * With the free size at most the heap size, the percentage never exceeds
   * 100, whatever the heap size: if `used * 100` wraps, the heap is so large
   * that the wrapped product still divides to less than 100.
   */
  lemma UsagePercentAtMost100(total: SizeT, free: SizeT)
    requires 0 < total && free <= total
    ensures UsagePercent(total, free) <= 100
  {
    var used := total - free;
    assert UsedHeap(total, free) == used;
    if used * 100 < SizeModulus {
      PercentRange(used, total);
    } else {
      MulMonotone(used, total, 100);
      DivBelow((used * 100) % SizeModulus, total, 100);
    }
  }

  /**
   * While `used * 100` fits in 32 bits, the percentage is 100 exactly when
   * nothing is free, and 0 exactly when less than a hundredth of the heap is
   * used.
   */
  lemma UsagePercentBounds(total: SizeT, free: SizeT)
    requires 0 < total && free <= total && (total - free) * 100 < SizeModulus
    ensures UsagePercent(total, free) <= 100
    ensures UsagePercent(total, free) == 100 <==> free == 0
    ensures UsagePercent(total, free) == 0 <==> (total - free) * 100 < total
  {
    UsagePercentExact(total, free);
    PercentRange(total - free, total);
  }

  /** The percentage never falls as the free size shrinks, while `used * 100` fits. */
  lemma UsagePercentMonotone(total: SizeT, free: SizeT, less: SizeT)
    requires 0 < total && less <= free <= total && (total - less) * 100 < SizeModulus
    ensures UsagePercent(total, free) <= UsagePercent(total, less)
  {
    MulMonotone(total - free, total - less, 100);
    UsagePercentExact(total, free);
    UsagePercentExact(total, less);
    DivMonotone((total - free) * 100, (total - less) * 100, total);
  }

  // ---------------------------------------------------------------------------
  // Thread state names

  /** The `osThreadState_t` codes the switch in `Monitor_Task` names. */
  const ThreadReady: int := 1
  const ThreadRunning: int := 2
  const ThreadBlocked: int := 3
  const ThreadTerminated: int := 4

  /** The label `Monitor_Task` prints for the state `osThreadGetState` returns. */
  function StateName(state: int): string {
    if state == ThreadReady then "Ready"
    else if state == ThreadRunning then "Running"
    else if state == ThreadBlocked then "Blocked"
    else if state == ThreadTerminated then "Terminated"
    else "Unknown"
  }

  /**
   * Every state gets one of five labels; "Unknown" is the label of exactly
   * the states other than ready, running, blocked and terminated (inactive,
   * error, or any other code).
   */
  lemma StateNameTotal(state: int)
    ensures StateName(state) in {"Ready", "Running", "Blocked", "Terminated", "Unknown"}
    ensures StateName(state) == "Unknown" <==>
      state !in {ThreadReady, ThreadRunning, ThreadBlocked, ThreadTerminated}
  {
  }

  /** The four named states get four different labels. */
  lemma StateNameDistinct(a: int, b: int)
    requires a in {ThreadReady, ThreadRunning, ThreadBlocked, ThreadTerminated}
    ensures StateName(a) == StateName(b) <==> a == b
  {
  }
}
