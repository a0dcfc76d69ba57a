/**
 * The interrupt path of freertos.c: `HAL_GPIO_EXTI_Callback` sets the two
 * interrupt event bits from ISR context when the key pin fires, and
 * `IntLed_Task` waits for either bit (clearing them on exit) and toggles
 * LED1 for INT_LED1_EVENT_BIT and LED2 for INT_LED2_EVENT_BIT, each on its own.
 *
 * The event group is an RTOS object: the callback is modelled by the bits it
 * asks to set, the task by what it does with the mask the wait returns.
 */
module IntLed {
  const IntLed1EventBit: bv32 := 0x04
  const IntLed2EventBit: bv32 := 0x08

  /** The output levels of the two LED pins. */
  datatype Leds = Leds(led1: bool, led2: bool)

  /** The bits the EXTI callback sets for an interrupt on `pin`. */
  function InterruptBits(pin: bv16, keyPin: bv16): bv32 {
    if pin == keyPin then IntLed1EventBit | IntLed2EventBit else 0
  }

  /** One wake of `IntLed_Task` with the mask `bits` returned by the wait. */
  function HandleBits(bits: bv32, leds: Leds): Leds {
    var led1 := if bits & IntLed1EventBit != 0 then !leds.led1 else leds.led1;
    var led2 := if bits & IntLed2EventBit != 0 then !leds.led2 else leds.led2;
    Leds(led1, led2)
  }

  /** The LEDs after the task wakes once for each mask in `wakes`, in order. */
  function AfterWakes(wakes: seq<bv32>, leds: Leds): Leds {
    if |wakes| == 0 then leds else AfterWakes(wakes[1..], HandleBits(wakes[0], leds))
  }

  /** How many masks of `wakes` have `bit` set. */
  function CountSet(wakes: seq<bv32>, bit: bv32): nat {
    if |wakes| == 0 then 0 else (if wakes[0] & bit != 0 then 1 else 0) + CountSet(wakes[1..], bit)
  }

  /**
   * LED1 toggles iff INT_LED1_EVENT_BIT is in the mask and LED2 iff
   * INT_LED2_EVENT_BIT is, each whatever the other bit is.
   */
  lemma HandleBitsToggles(bits: bv32, leds: Leds)
    ensures HandleBits(bits, leds).led1 != leds.led1 <==> bits & IntLed1EventBit != 0
    ensures HandleBits(bits, leds).led2 != leds.led2 <==> bits & IntLed2EventBit != 0
  {
  }

  /** Bits other than the two interrupt bits (LED2_EVENT_BIT, say) are ignored. */
  lemma HandleBitsIgnoresOtherBits(bits: bv32, leds: Leds)
    ensures HandleBits(bits & (IntLed1EventBit | IntLed2EventBit), leds) == HandleBits(bits, leds)
  {
  }

  /** A second wake with the same mask restores the LEDs. */
  lemma HandleBitsTwice(bits: bv32, leds: Leds)
    ensures HandleBits(bits, HandleBits(bits, leds)) == leds
  {
  }

  /** A key-pin interrupt toggles both LEDs; any other pin sets no bit and toggles none. */
  lemma InterruptThenWake(pin: bv16, keyPin: bv16, leds: Leds)
    ensures pin == keyPin ==> HandleBits(InterruptBits(pin, keyPin), leds) == Leds(!leds.led1, !leds.led2)
    ensures pin != keyPin ==> InterruptBits(pin, keyPin) == 0
    ensures pin != keyPin ==> HandleBits(InterruptBits(pin, keyPin), leds) == leds
  {
  }

  /**
   * After any sequence of wakes, each LED has toggled once per mask that
   * carried its bit: it is back where it started iff that count is even.
   */
  lemma {:induction false} AfterWakesParity(wakes: seq<bv32>, leds: Leds)
    ensures AfterWakes(wakes, leds).led1 == (leds.led1 != (CountSet(wakes, IntLed1EventBit) % 2 == 1))
    ensures AfterWakes(wakes, leds).led2 == (leds.led2 != (CountSet(wakes, IntLed2EventBit) % 2 == 1))
  {
    if |wakes| > 0 {
      AfterWakesParity(wakes[1..], HandleBits(wakes[0], leds));
    }
  }
}
