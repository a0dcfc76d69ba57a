/**
 * The polling key task of freertos.c (`KEY_Task`). Every 20 ticks it reads
 * the key pin into `key_state`; on a falling edge (the previous sample was 1,
 * this one is 0) it posts the sample to the key queue, releases the LED1
 * semaphore and sets LED2_EVENT_BIT in the LED event group; then it remembers
 * the sample in `key_last_state`, which starts at 1 (key released).
 *
 * The RTOS calls are recorded as `Effect`s in the order the task makes them;
 * what the queue, semaphore and event group then do is not modelled.
 */
module KeyTask {
  /** `uint8_t`, the type of `key_state` and `key_last_state`. */
  newtype uint8 = x: int | 0 <= x < 256

  const Led2EventBit: bv32 := 0x02

  /** `key_last_state` before the first sample. */
  const InitialLast: uint8 := 1

  /** One RTOS call made by the key task. */
  datatype Effect =
    | QueuePut(keyState: uint8)      // a non-blocking post of the sampled state to the key queue
    | SemaphoreRelease               // one release of the semaphore LED1_Task waits on
    | EventFlagsSet(bits: bv32)      // setting `bits` in the LED event group

  /** The state of the detector after one sample, and whether it fired. */
  datatype StepResult = StepResult(fired: bool, last: uint8)

  /** One pass of the task's loop body on `sample`, with `last` the previous sample. */
  function Step(sample: uint8, last: uint8): StepResult {
    StepResult(sample == 0 && last == 1, sample)
  }

  /** The three calls a detected press makes, in source order. */
  function FanOut(keyState: uint8): seq<Effect> {
    [QueuePut(keyState), SemaphoreRelease, EventFlagsSet(Led2EventBit)]
  }

  /** The calls made while processing `samples`, starting from `last`. */
  function Trace(samples: seq<uint8>, last: uint8): seq<Effect> {
    if |samples| == 0 then []
    else
      var s := Step(samples[0], last);
      (if s.fired then FanOut(samples[0]) else []) + Trace(samples[1..], s.last)
  }

  /** How many of the steps over `samples` fire. */
  function Fires(samples: seq<uint8>, last: uint8): nat {
    if |samples| == 0 then 0
    else
      var s := Step(samples[0], last);
      (if s.fired then 1 else 0) + Fires(samples[1..], s.last)
  }

  /** `key_last_state` after `samples`. */
  function LastAfter(samples: seq<uint8>, last: uint8): uint8 {
    if |samples| == 0 then last else samples[|samples| - 1]
  }

  /** How many times `e` occurs in `es`. */
  function Count(es: seq<Effect>, e: Effect): nat {
    if |es| == 0 then 0 else (if es[0] == e then 1 else 0) + Count(es[1..], e)
  }

  /** How many queue posts `es` holds, whatever they carry. */
  function QueuePuts(es: seq<Effect>): nat {
    if |es| == 0 then 0 else (if es[0].QueuePut? then 1 else 0) + QueuePuts(es[1..])
  }

  /** `n` copies of `x`. */
  function Repeat(x: uint8, n: nat): (r: seq<uint8>)
    ensures |r| == n && forall i :: 0 <= i < n ==> r[i] == x
  {
    seq(n, _ => x)
  }

  /**
   * `KEY_Task` run over the samples the pin delivers: the loop keeps
   * `key_last_state` as a variable and emits the calls of each press.
   */
  method KeyTask(samples: seq<uint8>) returns (effects: seq<Effect>, last: uint8)
    ensures effects == Trace(samples, InitialLast)
    ensures last == LastAfter(samples, InitialLast)
  {
    effects := [];
    last := InitialLast;
    var i := 0;
    while i < |samples|
      invariant 0 <= i <= |samples|
      invariant effects + Trace(samples[i..], last) == Trace(samples, InitialLast)
      invariant LastAfter(samples[i..], last) == LastAfter(samples, InitialLast)
    {
      var keyState := samples[i];
      ghost var rest := samples[i..];
      assert rest[0] == keyState && rest[1..] == samples[i + 1..];
      assert Trace(rest, last) ==
        (if keyState == 0 && last == 1 then FanOut(keyState) else []) + Trace(samples[i + 1..], keyState);
      assert LastAfter(rest, last) == LastAfter(samples[i + 1..], keyState);
      if keyState == 0 && last == 1 {
        effects := effects + FanOut(keyState);
      }
      last := keyState;
      i := i + 1;
    }
  }

  // ---------------------------------------------------------------------------
  // Properties of the detector

  /**
   * Sample `i` is a falling edge: it is 0 and the sample before it (or the
   * initial state `last`, for the first sample) is 1.
   */
  ghost predicate EdgeAt(samples: seq<uint8>, last: uint8, i: nat)
    requires i < |samples|
  {
    samples[i] == 0 && (if i == 0 then last else samples[i - 1]) == 1
  }

  /** How many of the first `n` samples are falling edges, counted by index. */
  ghost function EdgesIn(samples: seq<uint8>, last: uint8, n: nat): nat
    requires n <= |samples|
  {
    if n == 0 then 0 else EdgesIn(samples, last, n - 1) + (if EdgeAt(samples, last, n - 1) then 1 else 0)
  }

  /**
   * Processing one more sample `x` appends the calls of a press exactly when
   * `x` is 0 and the sample before it (the state the run ends in) is 1: the
   * state the loop carries is always the previous sample.
   */
  lemma {:induction false} TraceAppend(samples: seq<uint8>, last: uint8, x: uint8)
    ensures Trace(samples + [x], last) == Trace(samples, last) +
      (if x == 0 && LastAfter(samples, last) == 1 then FanOut(x) else [])
    ensures LastAfter(samples + [x], last) == x
  {
    if |samples| == 0 {
      assert [x][1..] == [];
    } else {
      var t := samples + [x];
      var step := Step(samples[0], last);
      var head := if step.fired then FanOut(samples[0]) else [];
      var tail := if x == 0 && LastAfter(samples, last) == 1 then FanOut(x) else [];
      assert t[0] == samples[0] && t[1..] == samples[1..] + [x];
      TraceAppend(samples[1..], samples[0], x);
      assert LastAfter(samples[1..], samples[0]) == LastAfter(samples, last);
      calc {
        Trace(t, last);
        head + Trace(samples[1..] + [x], samples[0]);
        head + (Trace(samples[1..], samples[0]) + tail);
        (head + Trace(samples[1..], samples[0])) + tail;
        Trace(samples, last) + tail;
      }
    }
  }

  lemma {:induction false} EdgesInShift(samples: seq<uint8>, last: uint8, n: nat)
    requires 0 < n <= |samples|
    ensures EdgesIn(samples, last, n) ==
      (if EdgeAt(samples, last, 0) then 1 else 0) + EdgesIn(samples[1..], samples[0], n - 1)
  {
    if n > 1 {
      EdgesInShift(samples, last, n - 1);
      assert EdgeAt(samples, last, n - 1) == EdgeAt(samples[1..], samples[0], n - 2);
    }
  }

  /**
   * The number of firings over a run is the number of indices at which a
   * sample of 0 follows a sample of 1 (or the initial state 1).
   */
  lemma {:induction false} FiresCountsEdges(samples: seq<uint8>, last: uint8)
    ensures Fires(samples, last) == EdgesIn(samples, last, |samples|)
  {
    if |samples| > 0 {
      FiresCountsEdges(samples[1..], samples[0]);
      EdgesInShift(samples, last, |samples|);
    }
  }

  lemma {:induction false} CountConcat(a: seq<Effect>, b: seq<Effect>, e: Effect)
    ensures Count(a + b, e) == Count(a, e) + Count(b, e)
    ensures QueuePuts(a + b) == QueuePuts(a) + QueuePuts(b)
  {
    if |a| > 0 {
      assert (a + b)[1..] == a[1..] + b;
      CountConcat(a[1..], b, e);
    } else {
      assert a + b == b;
    }
  }

  /** The calls of one press, counted. */
  lemma FanOutCounts()
    ensures QueuePuts(FanOut(0)) == 1
    ensures Count(FanOut(0), QueuePut(0)) == 1
    ensures Count(FanOut(0), SemaphoreRelease) == 1
    ensures Count(FanOut(0), EventFlagsSet(Led2EventBit)) == 1
  {
    var f := FanOut(0);
    assert f[1..] == [SemaphoreRelease, EventFlagsSet(Led2EventBit)];
    assert f[1..][1..] == [EventFlagsSet(Led2EventBit)];
    assert f[1..][1..][1..] == [];
  }

  /**
   * Each firing makes exactly one queue post (carrying the pressed state 0),
   * one semaphore release and one LED2_EVENT_BIT set, and nothing else.
   */
  lemma {:induction false} TraceCounts(samples: seq<uint8>, last: uint8)
    ensures |Trace(samples, last)| == 3 * Fires(samples, last)
    ensures QueuePuts(Trace(samples, last)) == Fires(samples, last)
    ensures Count(Trace(samples, last), QueuePut(0)) == Fires(samples, last)
    ensures Count(Trace(samples, last), SemaphoreRelease) == Fires(samples, last)
    ensures Count(Trace(samples, last), EventFlagsSet(Led2EventBit)) == Fires(samples, last)
  {
    if |samples| > 0 {
      var s := Step(samples[0], last);
      var head := if s.fired then FanOut(samples[0]) else [];
      TraceCounts(samples[1..], s.last);
      FanOutCounts();
      assert s.fired ==> samples[0] == 0;
      CountConcat(head, Trace(samples[1..], s.last), QueuePut(0));
      CountConcat(head, Trace(samples[1..], s.last), SemaphoreRelease);
      CountConcat(head, Trace(samples[1..], s.last), EventFlagsSet(Led2EventBit));
    }
  }

  /** Samples of the released key in front change nothing. */
  lemma {:induction false} ReleasedPrefix(a: nat, rest: seq<uint8>)
    ensures Fires(Repeat(1, a) + rest, 1) == Fires(rest, 1)
  {
    if a > 0 {
      assert (Repeat(1, a) + rest)[1..] == Repeat(1, a - 1) + rest;
      ReleasedPrefix(a - 1, rest);
    } else {
      assert Repeat(1, a) + rest == rest;
    }
  }

  /** While the key stays pressed, nothing more fires. */
  lemma {:induction false} HeldDoesNotFire(b: nat)
    ensures Fires(Repeat(0, b), 0) == 0
  {
    if b > 0 {
      assert Repeat(0, b)[1..] == Repeat(0, b - 1);
      HeldDoesNotFire(b - 1);
    }
  }

  /**
   * A press held over many samples, after any time released, fires exactly
   * once; with no pressed sample it never fires.
   */
  lemma HeldPressFiresOnce(a: nat, b: nat)
    ensures Fires(Repeat(1, a) + Repeat(0, b), InitialLast) == if b > 0 then 1 else 0
  {
    ReleasedPrefix(a, Repeat(0, b));
    if b > 0 {
      assert Repeat(0, b)[1..] == Repeat(0, b - 1);
      HeldDoesNotFire(b - 1);
    }
  }

  /**
   * Two firings are always separated by a sample that is not 0, so at most
   * every other sample fires.
   */
  lemma {:induction false} FiresAtMostEveryOther(samples: seq<uint8>, last: uint8)
    ensures Fires(samples, last) <= (|samples| + (if last == 1 then 1 else 0)) / 2
  {
    if |samples| > 0 {
      var s := Step(samples[0], last);
      FiresAtMostEveryOther(samples[1..], s.last);
    }
  }
}
