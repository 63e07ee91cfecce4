/** The data types and constants of ContinuousServo.h: the per-channel
    record `servo_t`, the default pulse bounds and the refresh cycle. */
module ServoTypes {

  /** An AVR `uint8_t`. */
  type u8 = x: int | 0 <= x < 0x100

  /** An AVR `unsigned int` (16 bits), also the width of TCNT1 and OCR1A. */
  type u16 = x: int | 0 <= x < 0x1_0000

  /** `CONTINUOUS_SERVO_CLOCKSPEED`. ContinuousServo.cpp never reads it: its
      tick conversion uses the board's `clockCyclesPerMicrosecond()`. */
  const ClockSpeed: nat := 16000000
  /** Default lower pulse bound in microseconds. */
  const MinPulseDefault: u16 := 544
  /** Default upper pulse bound in microseconds. */
  const MaxPulseDefault: u16 := 2402
  /** Length of one refresh cycle in microseconds (20 ms). */
  const RefreshCycle: nat := 20000
  /** Number of slots in the static channel table `servos[12]`. */
  const Capacity: nat := 12

  /** A completion callback: NULL, or a foreign function identified by `id`.
      Its body is not modelled; invoking it appends `id` to a log. */
  datatype Callback = NoCallback | Isr(id: nat)

  datatype PinMode = Input | Output

  /** `servo_t`: one channel of the scheduler. `step` is the position,
      `stepSize` the pulse length in timer ticks. */
  datatype Channel = Channel(
    pin: u16,
    step: int,
    targetStep: int,
    direction: int,
    stepSize: u16,
    active: bool,
    callback: Callback)

  /** The zero-initialised contents of a static `servo_t`. */
  const Idle: Channel := Channel(0, 0, 0, 0, 0, false, NoCallback)
}
