# freertos_learn application core, modelled in Dafny

This project models the application logic in `freertos.c` of an STM32 FreeRTOS
learning firmware:

- **the fixed-block memory pool**: 10 blocks of 32 bytes, a used-flag per block, `poolMalloc`
  (first-fit scan under the pool mutex) and `poolFree` (identity lookup of the block address
  under the mutex), plus the allocate-five/free-five round of `MemPoolTest_Task`;
- **the polling key task** `KEY_Task`: a falling-edge detector over successive pin samples that,
  on each press, posts to the key queue, releases the LED1 semaphore and sets `LED2_EVENT_BIT`;
- **the interrupt path**: the bits the EXTI callback sets for the key pin, and how `IntLed_Task`
  turns the returned event mask into independent LED1/LED2 toggles;
- **the diagnostics**: the used-heap and percentage arithmetic of `MemMonitor_Task` in 32-bit
  `size_t`, and the thread-state labels of `Monitor_Task`.

Modules: `MemPool` (mem_pool.dfy), `KeyTask` (key_task.dfy), `IntLed` (int_led.dfy),
`Diagnostics` (diagnostics.dfy), and `Wrappers` (wrappers.dfy, an `Option` type).

A block is handed out as the address `memPool[i]`, that is `base + 32 * i`, where `base` (the
array's link address) is a parameter of the pool; `void*` is `Ptr = Null | Addr(n)`. The used
flags are a `bool` array (`true` for the value 1 the source stores). The outcome of
`osMutexAcquire` is the parameter `acquired`. The pool's methods are proved against the
functions `Allocate` and `Release`, and the lemmas state what those promise. `KEY_Task` is a
method with a loop that keeps `key_last_state`, proved equal to the fold `Trace`. The RTOS calls
appear as the records `QueuePut`, `SemaphoreRelease` and `EventFlagsSet`, in the order the source
makes them.

Three facts about the code bear on the model:
- there are no software timers and no LED breath state;
- `KEY_Task` sets only `LED2_EVENT_BIT` (0x02) in the event group; the interrupt bits 0x04 and
  0x08 are set only by the EXTI callback;
- `osSemaphoreNew(1, 1, …)` (freertos.c:207) makes the LED semaphore start with its one unit
  already available.

## Model

| member | source | states |
|---|---|---|
| `MemPool.BlockPtr` | learn_project/Core/Src/freertos.c:118 | the address `memPool[i]`: the pool base plus i blocks of 32 bytes |
| `MemPool.BlockPtrInjective` | learn_project/Core/Src/freertos.c:118 | two blocks of the pool array have the same address iff they are the same block |
| `MemPool.FirstFree` | learn_project/Core/Src/freertos.c:480-483 | the scan yields the lowest index whose flag is clear, or nothing exactly when every flag is set |
| `MemPool.BlockIndex` | learn_project/Core/Src/freertos.c:506-508 | the index found is a block whose address equals the pointer; nothing is found iff no block of the pool has that address |
| `MemPool.Allocate` | learn_project/Core/Src/freertos.c:472-497 | NULL is returned iff the mutex was not acquired or every block is used, and then the flags are unchanged; otherwise the address of the lowest free block is returned and only its flag is set |
| `MemPool.Release` | learn_project/Core/Src/freertos.c:500-520 | flag j afterwards is flag j before, cleared iff the mutex was acquired and the pointer is the address of block j |
| `MemPool.UsedCount` | learn_project/Core/Src/freertos.c:42 | the number of used blocks never exceeds the number of blocks |
| `MemPool.AllocateFirstFit` | learn_project/Core/Src/freertos.c:480-488 | with k the lowest free block, allocation returns block k and sets flag k and no other |
| `MemPool.AllocateFails` | learn_project/Core/Src/freertos.c:474-496 | with every block used, or the mutex not acquired, allocation returns NULL and changes nothing |
| `MemPool.AllocateLendsFreeBlock` | learn_project/Core/Src/freertos.c:480-488 | a block handed out was not lent out before, and the lent-out set grows by exactly that block; a NULL result leaves the set as it was |
| `MemPool.ReleaseBlock` | learn_project/Core/Src/freertos.c:506-514 | freeing the address of block i clears flag i and no other |
| `MemPool.ReleaseUnknown` | learn_project/Core/Src/freertos.c:503-519 | a pointer that is no block's address (including NULL and interior pointers), or a failed mutex acquire, leaves the flags unchanged |
| `MemPool.ReleaseFreeBlock` | learn_project/Core/Src/freertos.c:506-514 | freeing a block that is already free leaves the flags unchanged |
| `MemPool.ReleaseIdempotent` | learn_project/Core/Src/freertos.c:506-515 | freeing the same pointer twice is the same as freeing it once |
| `MemPool.AllocateThenRelease` | learn_project/Core/Src/freertos.c:480-514 | freeing whatever an allocation returned restores the flags the allocation started from |
| `MemPool.ReleaseReturnsBlock` | learn_project/Core/Src/freertos.c:506-514 | freeing block i removes exactly its address from the lent-out set |
| `MemPool.UsedCountUpdate` | learn_project/Core/Src/freertos.c:484 | overwriting one flag moves the used count by the difference between the old and new flag |
| `MemPool.AllocateCount` | learn_project/Core/Src/freertos.c:480-488 | a successful allocation raises the used count by one; a failed one leaves it |
| `MemPool.ReleaseCount` | learn_project/Core/Src/freertos.c:506-514 | freeing a used block lowers the used count by one; any other free leaves it |
| `MemPool.AllocatePrefix` | learn_project/Core/Src/freertos.c:480-490 | with blocks 0..k-1 used and the rest free, allocation returns block k and uses blocks 0..k; with all 10 used it returns NULL |
| `MemPool.AllocateReusesOnlyFree` | learn_project/Core/Src/freertos.c:480-488 | with every block used but block i, allocation returns block i and fills the pool |
| `MemPool.Pool.constructor` | learn_project/Core/Src/freertos.c:119 | the pool starts with every block free |
| `MemPool.Pool.PoolMalloc` | learn_project/Core/Src/freertos.c:472-497 | the scan with early exit returns what `Allocate` gives and leaves the flags `Allocate` gives |
| `MemPool.Pool.PoolFree` | learn_project/Core/Src/freertos.c:500-520 | the scan with early exit leaves the flags `Release` gives |
| `MemPool.ExhaustAndReuse` | learn_project/Core/Src/freertos.c:472-520 | from an empty pool, ten allocations return blocks 0..9 in order, the eleventh returns NULL, and after block 3 is freed the next allocation returns block 3 |
| `MemPool.PoolTestRound` | learn_project/Core/Src/freertos.c:536-561 | with all ten mutex acquires of a round having the same outcome, the round's blocks are distinct and were not lent out before, and freeing them leaves the pool exactly as it was |
| `KeyTask.Step` | learn_project/Core/Src/freertos.c:324-338 | one loop pass: fires on sample 0 after state 1, and keeps the sample as the new state |
| `KeyTask.FanOut` | learn_project/Core/Src/freertos.c:329-335 | the three calls of a press in source order: queue post of the state, semaphore release, set of `LED2_EVENT_BIT` |
| `KeyTask.Trace` | learn_project/Core/Src/freertos.c:319-340 | the calls the task makes over a sequence of samples, folding the remembered state |
| `KeyTask.KeyTask` | learn_project/Core/Src/freertos.c:314-341 | the loop, starting with the last state 1, makes the calls of `Trace` and ends with the last sample remembered |
| `KeyTask.TraceAppend` | learn_project/Core/Src/freertos.c:324-338 | one more sample adds the calls of a press exactly when it is 0 and the sample before it is 1; the state ends as that sample |
| `KeyTask.FiresCountsEdges` | learn_project/Core/Src/freertos.c:317-338 | the number of firings over a run is the number of indices where a 0 follows a 1 (or the initial state 1) |
| `KeyTask.FanOutCounts` | learn_project/Core/Src/freertos.c:328-335 | a press makes one queue post of state 0, one semaphore release and one set of `LED2_EVENT_BIT` |
| `KeyTask.TraceCounts` | learn_project/Core/Src/freertos.c:324-336 | over any samples, the calls made are three per firing: exactly one queue post (of state 0), one semaphore release and one `LED2_EVENT_BIT` set per firing |
| `KeyTask.ReleasedPrefix` | learn_project/Core/Src/freertos.c:317-338 | samples of the released key before anything else fire nothing |
| `KeyTask.HeldDoesNotFire` | learn_project/Core/Src/freertos.c:324 | once the key is pressed, further pressed samples fire nothing |
| `KeyTask.HeldPressFiresOnce` | learn_project/Core/Src/freertos.c:317-338 | a press held over any number of samples, after any released period, fires exactly once |
| `KeyTask.FiresAtMostEveryOther` | learn_project/Core/Src/freertos.c:324-338 | the number of firings is at most half the number of samples, plus one half if the key starts released, because each firing needs a preceding sample of 1 |
| `IntLed.InterruptBits` | learn_project/Core/Src/freertos.c:685-692 | the bits the EXTI callback sets: 0x04 and 0x08 for the key pin, none for any other pin |
| `IntLed.HandleBits` | learn_project/Core/Src/freertos.c:718-727 | one wake of `IntLed_Task`: LED1 inverted if bit 0x04 is in the mask, LED2 if bit 0x08 is |
| `IntLed.HandleBitsToggles` | learn_project/Core/Src/freertos.c:718-727 | LED1 toggles iff bit 0x04 is in the mask, LED2 iff bit 0x08 is, independently of each other |
| `IntLed.HandleBitsIgnoresOtherBits` | learn_project/Core/Src/freertos.c:718-727 | mask bits other than 0x04 and 0x08 have no effect on the LEDs |
| `IntLed.HandleBitsTwice` | learn_project/Core/Src/freertos.c:720-725 | handling the same mask twice restores the LEDs |
| `IntLed.InterruptThenWake` | learn_project/Core/Src/freertos.c:685-692 | an interrupt on the key pin leads to both LEDs toggling; an interrupt on another pin sets no bit and toggles nothing |
| `IntLed.AfterWakes` | learn_project/Core/Src/freertos.c:706-728 | the LEDs after the task wakes once for each mask, in order |
| `IntLed.AfterWakesParity` | learn_project/Core/Src/freertos.c:706-728 | after any sequence of wakes, each LED is inverted iff an odd number of the masks carried its bit |
| `Diagnostics.UsedHeap` | learn_project/Core/Src/freertos.c:446-447 | total minus free in 32-bit unsigned `size_t` arithmetic |
| `Diagnostics.UsagePercent` | learn_project/Core/Src/freertos.c:462 | used times 100, wrapped to 32 bits, divided by total with truncation |
| `Diagnostics.UsedHeapDifference` | learn_project/Core/Src/freertos.c:446-447 | the used size is total minus free when free does not exceed total, and wraps modulo 2^32 otherwise |
| `Diagnostics.UsagePercentExact` | learn_project/Core/Src/freertos.c:462 | when free is at most total and `used * 100` fits in 32 bits, the percentage is the truncated quotient (total - free) * 100 / total |
| `Diagnostics.UsagePercentAtMost100` | learn_project/Core/Src/freertos.c:446-462 | with free at most total, the percentage is at most 100 for every heap size, wrap-around included |
| `Diagnostics.UsagePercentBounds` | learn_project/Core/Src/freertos.c:446-462 | with free at most total and `used * 100` fitting in 32 bits, the percentage is at most 100, is 100 iff nothing is free, and is 0 iff less than a hundredth of the heap is used |
| `Diagnostics.UsagePercentMonotone` | learn_project/Core/Src/freertos.c:446-462 | while the larger used size times 100 fits in 32 bits, the percentage never falls as the free size shrinks |
| `Diagnostics.StateName` | learn_project/Core/Src/freertos.c:354-371 | the label of a thread state: Ready, Running, Blocked and Terminated for codes 1 to 4, "Unknown" for every other code |
| `Diagnostics.StateNameTotal` | learn_project/Core/Src/freertos.c:354-371 | every state code gets one of five labels, and "Unknown" exactly for codes other than ready, running, blocked and terminated |
| `Diagnostics.StateNameDistinct` | learn_project/Core/Src/freertos.c:354-367 | the four named states get four different labels |

## Left out

- RTOS objects are not modelled: the mutex, the LED semaphore, the key queue (capacity 4, a full
  queue drops the post) and the LED event group are foreign library objects. Their calls are
  inputs (`acquired`, the mask a wait returns) or output records. Scheduling, preemption, wake
  order, `portYIELD_FROM_ISR` and the clear-on-exit of `xEventGroupWaitBits` are not modelled.
- Concurrency: each `poolMalloc`/`poolFree` is modelled as one atomic step, which is what the
  pool mutex provides. Interleavings of competing tasks are not modelled.
- `LED1_Task` and `LED2_Task` consume the semaphore and the event bit. The model stops at the
  calls the key task makes.
- `MemTest_Task`: it times `pvPortMalloc`/`vPortFree`, a foreign allocator, with the tick
  counter. Timing and that allocator are outside the model.
- `xPortGetFreeHeapSize` values are parameters. `xPortGetMinimumEverFreeHeapSize` is only
  printed, so it is not modelled.
- HAL GPIO reads and writes, `DEBUG_Print`, `DEBUG_PrintNum` and all `snprintf` formatting are
  I/O. The LEDs are two booleans, and the key samples are a sequence of `uint8` values.
- `MX_FREERTOS_Init`, `StartDefaultTask`, the task and object attribute tables and the
  `osDelay` intervals are board bring-up and timing.
- The bytes stored in the blocks, including the test fill of `MemPoolTest_Task`, are not
  modelled. A block is only its address.
- The value of `KEY1_Pin` is defined in main.h, which is not part of this model. It is a
  parameter of `IntLed.InterruptBits`.
- `configTOTAL_HEAP_SIZE` is defined in FreeRTOSConfig.h, which is not part of this model. The
  heap size is a parameter.
- Diagnostics.UsagePercentBounds: the "100 iff nothing is free" and "0 iff under a hundredth"
  clauses are proved only while `used * 100` fits in 32 bits. Beyond that the C expression wraps;
  `UsagePercent` computes the wrapped value, and only `UsagePercentAtMost100` is claimed for it.
- Diagnostics.UsagePercentMonotone: proved only while the larger used size times 100 fits in 32
  bits, and only while free does not exceed total.
- MemPool.PoolTestRound: assumes the ten acquires of one round have the same outcome. That holds
  for waits without timeout on one mutex; a round where only some acquires fail is not covered.
