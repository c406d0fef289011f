/**
 * The ThunderBorg command table and the fixed-point encoders and decoders
 * of each command family (tborg/tborg.py). Everything here is pure: levels,
 * colours and volts are exact reals, and Python's int() on a float is
 * truncation toward zero (Trunc).
 */
module Codec {
  import opened Outcomes

  type byte = x: int | 0 <= x < 256

  // Command codes
  const SET_LED1: byte := 1
  const GET_LED1: byte := 2
  const SET_LED2: byte := 3
  const GET_LED2: byte := 4
  const SET_LEDS: byte := 5
  const SET_LED_BATT_MON: byte := 6
  const GET_LED_BATT_MON: byte := 7
  const SET_A_FWD: byte := 8
  const SET_A_REV: byte := 9
  const GET_A: byte := 10
  const SET_B_FWD: byte := 11
  const SET_B_REV: byte := 12
  const GET_B: byte := 13
  const ALL_OFF: byte := 14
  const GET_DRIVE_A_FAULT: byte := 15
  const GET_DRIVE_B_FAULT: byte := 16
  const SET_ALL_FWD: byte := 17
  const SET_ALL_REV: byte := 18
  const SET_FAILSAFE: byte := 19
  const GET_FAILSAFE: byte := 20
  const GET_BATT_VOLT: byte := 21
  const SET_BATT_LIMITS: byte := 22
  const GET_BATT_LIMITS: byte := 23
  const WRITE_EXTERNAL_LED: byte := 24
  const GET_ID: byte := 0x99
  const SET_I2C_ADD: byte := 0xAA

  // Values carried in payloads and replies
  const VALUE_FWD: byte := 1
  const VALUE_REV: byte := 2
  const VALUE_OFF: byte := 0
  const VALUE_ON: byte := 1

  // Board constants
  const I2C_ID_THUNDERBORG: byte := 0x15
  const I2C_READ_LEN: int := 6
  const PWM_MAX: int := 255
  const VOLTAGE_PIN_MAX: real := 36.3
  const VOLTAGE_PIN_CORRECTION: real := 0.0
  const ANALOG_MAX: int := 0x3FF

  function Abs(x: real): real { if x < 0.0 then -x else x }

  function Min(a: int, b: int): int { if a < b then a else b }

  function Max(a: int, b: int): int { if a < b then b else a }

  /** Python's int() on a float: the integer part, rounded toward zero. */
  function Trunc(x: real): (n: int)
    ensures x >= 0.0 ==> 0 <= n && n as real <= x < n as real + 1.0
    ensures x < 0.0 ==> n <= 0 && n as real - 1.0 < x <= n as real
  {
    if x >= 0.0 then x.Floor else -((-x).Floor)
  }

  /** max(0, min(255, n)): how every colour and limit byte is bounded. */
  function ClampByte(n: int): (b: byte)
    ensures 0 <= n <= 255 ==> b == n
    ensures n < 0 ==> b == 0
    ensures n > 255 ==> b == 255
  {
    Max(0, Min(PWM_MAX, n))
  }

  // ---------------------------------------------------------------- motors

  /** The command _set_motor sends: the reverse code exactly when level < 0. */
  function MotorCommand(level: real, fwd: byte, rev: byte): byte
  {
    if level < 0.0 then rev else fwd
  }

  /** The PWM byte _set_motor sends: min(255, floor(255 * |level|)). */
  function MotorPwm(level: real): (pwm: byte)
    ensures pwm as real <= 255.0 * Abs(level)
    ensures pwm == 255 || 255.0 * Abs(level) < pwm as real + 1.0
    ensures 255.0 <= 255.0 * Abs(level) ==> pwm == 255
  {
    if level < 0.0 then Min(PWM_MAX, -Trunc(PWM_MAX as real * level))
    else Min(PWM_MAX, Trunc(PWM_MAX as real * level))
  }

  /** _get_motor's decoding of a reply: byte 2 over 255, negated for reverse. */
  function DecodeMotor(recv: seq<byte>): (r: Result<real>)
    ensures |recv| < 3 ==> r == Err(IndexError)
    ensures |recv| >= 3 && recv[1] != VALUE_FWD && recv[1] != VALUE_REV ==> r == Err(ThunderBorgException)
    ensures r.Ok? ==> -1.0 <= r.value <= 1.0 && 255.0 * Abs(r.value) == recv[2] as real
    ensures r.Ok? && r.value < 0.0 ==> recv[1] == VALUE_REV
    ensures r.Ok? && recv[1] == VALUE_FWD ==> r.value >= 0.0
    ensures r.Ok? && recv[1] == VALUE_REV ==> r.value <= 0.0
    ensures r.Ok? <==> |recv| >= 3 && (recv[1] == VALUE_FWD || recv[1] == VALUE_REV)
  {
    if |recv| < 3 then Err(IndexError)
    else
      var level := recv[2] as real / PWM_MAX as real;
      if recv[1] == VALUE_REV then Ok(-level)
      else if recv[1] != VALUE_FWD then Err(ThunderBorgException)
      else Ok(level)
  }

  /** The reply of a board that faithfully reports the last drive command it was sent. */
  function MotorReport(getCmd: byte, setCmd: byte, pwm: byte, fwd: byte): seq<byte>
  {
    [getCmd, if setCmd == fwd then VALUE_FWD else VALUE_REV, pwm, 0, 0, 0]
  }

  // ------------------------------------------------------------ board LEDs

  datatype Color = Color(red: real, green: real, blue: real)

  /** One colour channel as _set_led sends it: max(0, min(255, int(c * 255))). */
  function LedLevel(c: real): (b: byte)
    ensures c <= 0.0 ==> b == 0
    ensures c >= 1.0 ==> b == 255
    ensures 0.0 <= c <= 1.0 ==> b as real <= 255.0 * c < b as real + 1.0
  {
    ClampByte(Trunc(c * PWM_MAX as real))
  }

  /** The frame _set_led writes for command cmd. */
  function LedFrame(cmd: byte, c: Color): seq<byte>
  {
    [cmd, LedLevel(c.red), LedLevel(c.green), LedLevel(c.blue)]
  }

  /** _get_led's decoding: bytes 1..3 over 255. */
  function DecodeLed(recv: seq<byte>): (r: Result<Color>)
    ensures |recv| < 4 <==> r == Err(IndexError)
    ensures r.Ok? <==> |recv| >= 4
    ensures r.Ok? ==> 0.0 <= r.value.red <= 1.0 && 0.0 <= r.value.green <= 1.0 && 0.0 <= r.value.blue <= 1.0
    ensures r.Ok? ==> 255.0 * r.value.red == recv[1] as real && 255.0 * r.value.green == recv[2] as real
                      && 255.0 * r.value.blue == recv[3] as real
  {
    if |recv| < 4 then Err(IndexError)
    else Ok(Color(recv[1] as real / PWM_MAX as real, recv[2] as real / PWM_MAX as real,
                  recv[3] as real / PWM_MAX as real))
  }

  /** The reply of a board that reports the colour last written with `frame`. */
  function LedReport(getCmd: byte, frame: seq<byte>): seq<byte>
    requires |frame| == 4
  {
    [getCmd, frame[1], frame[2], frame[3], 0, 0]
  }

  // ----------------------------------------------------------------- flags

  /** COMMAND_VALUE_ON for true, COMMAND_VALUE_OFF for false. */
  function FlagByte(state: bool): byte
  {
    if state then VALUE_ON else VALUE_OFF
  }

  /** The flag getters: false exactly when byte 1 is COMMAND_VALUE_OFF. */
  function DecodeFlag(recv: seq<byte>): (r: Result<bool>)
    ensures |recv| < 2 <==> r == Err(IndexError)
    ensures r.Ok? <==> |recv| >= 2
    ensures r.Ok? ==> (r.value <==> recv[1] != 0)
  {
    if |recv| < 2 then Err(IndexError) else Ok(recv[1] != VALUE_OFF)
  }

  // --------------------------------------------------------------- battery

  datatype Limits = Limits(minimum: real, maximum: real)

  /** One battery-limit byte: max(0, min(255, int(volts / 36.3 * 255))). */
  function LimitByte(volts: real): (b: byte)
    ensures volts <= 0.0 ==> b == 0
    ensures volts >= VOLTAGE_PIN_MAX ==> b == 255
    ensures 0.0 <= volts <= VOLTAGE_PIN_MAX ==>
              b as real * VOLTAGE_PIN_MAX <= 255.0 * volts < (b as real + 1.0) * VOLTAGE_PIN_MAX
  {
    ClampByte(Trunc(volts / VOLTAGE_PIN_MAX * 0xFF as real))
  }

  /** The frame set_battery_monitoring_limits writes, minimum first. */
  function LimitsFrame(minimum: real, maximum: real): seq<byte>
  {
    [SET_BATT_LIMITS, LimitByte(minimum), LimitByte(maximum)]
  }

  /** get_battery_monitoring_limits: bytes 1 and 2 scaled to 36.3 V. */
  function DecodeLimits(recv: seq<byte>): (r: Result<Limits>)
    ensures |recv| < 3 <==> r == Err(IndexError)
    ensures r.Ok? <==> |recv| >= 3
    ensures r.Ok? ==> 0.0 <= r.value.minimum <= VOLTAGE_PIN_MAX && 0.0 <= r.value.maximum <= VOLTAGE_PIN_MAX
    ensures r.Ok? ==> 255.0 * r.value.minimum == recv[1] as real * VOLTAGE_PIN_MAX
                      && 255.0 * r.value.maximum == recv[2] as real * VOLTAGE_PIN_MAX
  {
    if |recv| < 3 then Err(IndexError)
    else Ok(Limits(recv[1] as real / 0xFF as real * VOLTAGE_PIN_MAX,
                   recv[2] as real / 0xFF as real * VOLTAGE_PIN_MAX))
  }

  /** The reply of a board that reports the limits last written with `frame`. */
  function LimitsReport(frame: seq<byte>): seq<byte>
    requires |frame| == 3
  {
    [GET_BATT_LIMITS, frame[1], frame[2], 0, 0, 0]
  }

  /** The 16-bit big-endian ADC reading in bytes 1 and 2 of a voltage reply. */
  function RawVoltage(recv: seq<byte>): int
    requires |recv| >= 3
  {
    recv[1] as int * 256 + recv[2] as int
  }

  /** get_battery_voltage: the raw reading over 0x3FF, times 36.3 V, plus the 0.0 correction. */
  function DecodeVoltage(recv: seq<byte>): (r: Result<real>)
    ensures |recv| < 3 <==> r == Err(IndexError)
    ensures r.Ok? <==> |recv| >= 3
    ensures r.Ok? ==> 0.0 <= r.value
    ensures r.Ok? ==> (r.value <= VOLTAGE_PIN_MAX <==> RawVoltage(recv) <= ANALOG_MAX)
    ensures r.Ok? ==> r.value * ANALOG_MAX as real == RawVoltage(recv) as real * VOLTAGE_PIN_MAX
  {
    if |recv| < 3 then Err(IndexError)
    else Ok(RawVoltage(recv) as real / ANALOG_MAX as real * VOLTAGE_PIN_MAX + VOLTAGE_PIN_CORRECTION)
  }

  /** The reply of a board whose ADC reads `raw`: the reading big-endian in bytes 1 and 2. */
  function VoltageReport(raw: int): seq<byte>
    requires 0 <= raw < 0x10000
  {
    [GET_BATT_VOLT, raw / 256, raw % 256, 0, 0, 0]
  }

  // ---------------------------------------------------------- external LEDs

  /** One byte of write_external_led_word: max(0, min(255, int(x))). */
  function WordByte(x: real): (b: byte)
    ensures x < 1.0 ==> b == 0
    ensures x >= 255.0 ==> b == 255
    ensures 0.0 <= x <= 255.0 ==> b as real <= x < b as real + 1.0
  {
    ClampByte(Trunc(x))
  }

  /** The frame write_external_led_word writes: the four clamped bytes, b0 first. */
  function ExternalLedFrame(b0: real, b1: real, b2: real, b3: real): seq<byte>
  {
    [WRITE_EXTERNAL_LED, WordByte(b0), WordByte(b1), WordByte(b2), WordByte(b3)]
  }

  /** The start marker set_external_led_colors sends before the colours. */
  function StartWord(): seq<byte>
  {
    ExternalLedFrame(0.0, 0.0, 0.0, 0.0)
  }

  /** The word set_external_led_colors sends for one colour: full brightness, then blue, green, red. */
  function ColorWord(c: Color): seq<byte>
  {
    ExternalLedFrame(255.0, 255.0 * c.blue, 255.0 * c.green, 255.0 * c.red)
  }

  // -------------------------------------------------------------- lemmas

  /**
   * Motor round trip through a board that echoes the drive command: the level
   * read back has the sign of the level set, lies at most one PWM step below it
   * in magnitude, and levels beyond +-1 read back as +-1.
   */
  lemma MotorRoundTrip(level: real, fwd: byte, rev: byte, getCmd: byte)
    requires fwd != rev
    ensures var r := DecodeMotor(MotorReport(getCmd, MotorCommand(level, fwd, rev), MotorPwm(level), fwd));
            && r.Ok?
            && (level >= 0.0 ==> r.value >= 0.0)
            && (level < 0.0 ==> r.value <= 0.0)
            && (-1.0 <= level <= 1.0 ==> Abs(r.value) <= Abs(level) < Abs(r.value) + 1.0 / 255.0)
            && (level >= 1.0 ==> r.value == 1.0)
            && (level <= -1.0 ==> r.value == -1.0)
  {
    var pwm := MotorPwm(level);
    var r := DecodeMotor(MotorReport(getCmd, MotorCommand(level, fwd, rev), pwm, fwd));
    assert Abs(r.value) == pwm as real / 255.0;
  }

  /** A board LED colour in the unit cube reads back at most one step (1/255) below each channel. */
  lemma LedRoundTrip(getCmd: byte, setCmd: byte, c: Color)
    ensures var r := DecodeLed(LedReport(getCmd, LedFrame(setCmd, c)));
            && r.Ok?
            && (0.0 <= c.red <= 1.0 ==> r.value.red <= c.red < r.value.red + 1.0 / 255.0)
            && (0.0 <= c.green <= 1.0 ==> r.value.green <= c.green < r.value.green + 1.0 / 255.0)
            && (0.0 <= c.blue <= 1.0 ==> r.value.blue <= c.blue < r.value.blue + 1.0 / 255.0)
            && (c.red <= 0.0 ==> r.value.red == 0.0) && (c.red >= 1.0 ==> r.value.red == 1.0)
            && (c.green <= 0.0 ==> r.value.green == 0.0) && (c.green >= 1.0 ==> r.value.green == 1.0)
            && (c.blue <= 0.0 ==> r.value.blue == 0.0) && (c.blue >= 1.0 ==> r.value.blue == 1.0)
  {
  }

  /** A flag written with FlagByte reads back as itself. */
  lemma FlagRoundTrip(getCmd: byte, state: bool)
    ensures DecodeFlag([getCmd, FlagByte(state), 0, 0, 0, 0]) == Ok(state)
  {
  }

  /**
   * Battery limits in 0..36.3 V read back at most one step (36.3/255 V) below
   * the value set, minimum and maximum each in its own place.
   */
  lemma LimitsRoundTrip(minimum: real, maximum: real)
    ensures var r := DecodeLimits(LimitsReport(LimitsFrame(minimum, maximum)));
            && r.Ok?
            && (0.0 <= minimum <= VOLTAGE_PIN_MAX ==>
                  r.value.minimum <= minimum < r.value.minimum + VOLTAGE_PIN_MAX / 255.0)
            && (0.0 <= maximum <= VOLTAGE_PIN_MAX ==>
                  r.value.maximum <= maximum < r.value.maximum + VOLTAGE_PIN_MAX / 255.0)
            && (minimum >= VOLTAGE_PIN_MAX ==> r.value.minimum == VOLTAGE_PIN_MAX)
            && (maximum >= VOLTAGE_PIN_MAX ==> r.value.maximum == VOLTAGE_PIN_MAX)
            && (minimum <= 0.0 ==> r.value.minimum == 0.0)
            && (maximum <= 0.0 ==> r.value.maximum == 0.0)
  {
    var r := DecodeLimits(LimitsReport(LimitsFrame(minimum, maximum)));
    assert r.value.minimum == LimitByte(minimum) as real * VOLTAGE_PIN_MAX / 255.0;
    assert r.value.maximum == LimitByte(maximum) as real * VOLTAGE_PIN_MAX / 255.0;
  }

  /**
   * A 16-bit ADC reading reaches get_battery_voltage intact: the volts it
   * reports, scaled back by 0x3FF / 36.3, give the reading, so distinct
   * readings report distinct voltages; a full-scale 10-bit reading is 36.3 V.
   */
  lemma VoltageRoundTrip(raw: int)
    requires 0 <= raw < 0x10000
    ensures var r := DecodeVoltage(VoltageReport(raw));
            && r.Ok?
            && r.value * ANALOG_MAX as real / VOLTAGE_PIN_MAX == raw as real
            && (raw == ANALOG_MAX ==> r.value == VOLTAGE_PIN_MAX)
  {
    assert RawVoltage(VoltageReport(raw)) == raw;
  }

  /**
   * The external LED chain encodes each channel exactly as the board LEDs do,
   * in blue-green-red order behind a full-brightness byte.
   */
  lemma ColorWordChannels(c: Color)
    ensures ColorWord(c) == [WRITE_EXTERNAL_LED, 255, LedLevel(c.blue), LedLevel(c.green), LedLevel(c.red)]
    ensures StartWord() == [WRITE_EXTERNAL_LED, 0, 0, 0, 0]
  {
    assert 255.0 * c.blue == c.blue * PWM_MAX as real;
    assert 255.0 * c.green == c.green * PWM_MAX as real;
    assert 255.0 * c.red == c.red * PWM_MAX as real;
  }
}
