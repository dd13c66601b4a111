/**
  Machine integers, the scripted clock/sensor trace and the log of external
  effects that stand in for the microcontroller's hardware in the infrared
  command model.
 */
module Hardware {

  type uint8 = x: int | 0 <= x < 0x100
  type uint16 = x: int | 0 <= x < 0x1_0000
  type uint32 = x: int | 0 <= x < 0x1_0000_0000

  /**
    `now - start` on two unsigned 32-bit clock readings: C's wrapping
    subtraction. It is the time that, added to `start` on the 32-bit counter,
    gives back `now`, also across a counter wrap.
   */
  function Elapsed(now: uint32, start: uint32): (r: uint32)
    ensures (start + r) % 0x1_0000_0000 == now
  {
    if start <= now then now - start else now - start + 0x1_0000_0000
  }

  /** Elapsed is subtraction modulo 2^32. */
  lemma ElapsedWraps(now: uint32, start: uint32)
    ensures Elapsed(now, start) == (now - start) % 0x1_0000_0000
  {
  }

  /** The `(uint16_t)` cast: keeps the low 16 bits. */
  function Truncate16(x: uint32): (r: uint16)
    ensures r <= x
    ensures x < 0x1_0000 ==> r == x
  {
    x % 0x1_0000
  }

  /**
    One poll of the hardware: the millisecond and microsecond counters and the
    IR sensor level (`high` is HIGH; the sensor reads LOW while a burst is seen).
    Every clock read consumes one sample; a sensor read in the same loop
    iteration sees the level of that same sample.
   */
  datatype Sample = Sample(ms: uint32, us: uint32, high: bool)

  /** What the outside world sees: emitter pin writes, feedback tones and store writes. */
  datatype Event =
    | BurstOn                                    // analogWrite(IR_LED_PIN, 128)
    | BurstOff                                   // analogWrite(IR_LED_PIN, 0)
    | LedLow                                     // digitalWrite(IR_LED_PIN, LOW)
    | Hold(limit: uint16)                        // busy-wait until more than `limit` us passed
    | Tone                                       // makeTone(TONE_IR, 0)
    | Save(name: string, timings: seq<uint16>)   // saveIRToEEPROM(name, timings, edges)
}
