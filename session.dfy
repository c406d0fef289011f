/**
 * The ThunderBorg class (tborg/tborg.py:34-1155) as a Dafny class. Its
 * fields are the session's streams and the trace of what went over them;
 * the hardware is the bus oracle it was constructed with. Every method is
 * proved to return the result and leave the state that the matching
 * function of Channel, Locator or Board prescribes, and the properties of
 * those functions are proved there.
 */
module Session {
  import opened Outcomes
  import opened Codec
  import opened Channel
  import opened Locator
  import opened Board

  /** A Python list handed to _write, which inserts the command at its head in place. */
  class PyList {
    var items: seq<int>

    constructor (items: seq<int>)
      ensures this.items == items
    {
      this.items := items;
    }
  }

  class ThunderBorg {
    /** The I2C hardware the session talks to. */
    const bus: Bus
    var streams: Streams
    var trace: seq<Event>

    /** The session as the specification functions see it. */
    function Now(): State
      reads this
    {
      State(streams, trace)
    }

    /** ThunderBorg(static_init=True): logging only, no bus traffic. */
    constructor Static(bus: Bus)
      ensures this.bus == bus && Now() == State(Unset, [])
    {
      this.bus := bus;
      streams := Unset;
      trace := [];
    }

    /** ThunderBorg(bus_num, address, auto_set_addr=...): construct, then _initialize_board. */
    static method Connect(bus: Bus, busNum: int, address: int, autoSetAddr: bool) returns (tb: ThunderBorg, r: Outcome)
      ensures fresh(tb) && tb.bus == bus
      ensures (r, tb.Now()) == Initialize(bus, State(Unset, []), busNum, address, autoSetAddr)
    {
      tb := new ThunderBorg.Static(bus);
      r := tb.InitializeBoard(busNum, address, autoSetAddr);
    }

    // ------------------------------------------------------------ streams

    /** close_streams: closes whatever streams were ever opened. */
    method CloseStreams()
      modifies this
      ensures Now() == Channel.CloseStreams(old(Now()))
    {
      if streams != Unset {
        streams := Closed;
      }
    }

    /** time.sleep(ms / 1000). */
    method Sleep(ms: nat)
      modifies this
      ensures Now() == Channel.Sleep(old(Now()), ms)
    {
      trace := trace + [Slept(ms)];
    }

    /** _init_bus: open the bus device, bind the address; close the streams on either failure. */
    method InitBus(busNum: int, address: int) returns (deviceFound: bool)
      modifies this
      ensures (deviceFound, Now()) == Channel.InitBus(bus, old(Now()), Endpoint(busNum, address))
    {
      deviceFound := false;
      var ep := Endpoint(busNum, address);
      if busNum !in bus.devices {
        CloseStreams();
      } else {
        streams := Closed;  // opened, but not yet bound
        if ep in bus.busy {
          CloseStreams();
        } else {
          streams := Open(ep);
          deviceFound := true;
        }
      }
    }

    /** _write: insert the command at the head of the caller's list, then send the list as bytes. */
    method Write(command: int, data: PyList) returns (r: Outcome)
      requires streams != Unset
      modifies this, data
      ensures data.items == [command] + old(data.items)
      ensures (r, Now()) == Channel.Write(bus, old(Now()), command, old(data.items))
    {
      data.items := [command] + data.items;
      var frame := data.items;
      if !IsBytes(frame) {
        return Raised(ValueError);
      }
      if streams.Closed? {
        return Raised(ThunderBorgException);
      }
      if bus.accepts(trace, streams.at) {
        trace := trace + [Wrote(streams.at, frame)];
        r := Done;
      } else {
        r := Raised(IOError);
      }
    }

    /** _i2c_read.read(length). */
    method Receive(length: int) returns (r: Result<seq<byte>>)
      requires streams.Open?
      modifies this
      ensures (r, Now()) == Channel.Receive(bus, old(Now()), length)
    {
      match bus.respond(trace, streams.at, length)
      case NoAnswer =>
        r := Err(IOError);
      case Answer(d) =>
        trace := trace + [Got(streams.at, d)];
        r := Ok(d);
    }

    /** _read: up to retryCount passes of write-then-read, stopping at the first reply that echoes command. */
    method Read(command: byte, length: int, retryCount: int) returns (r: Result<seq<byte>>)
      requires streams != Unset
      modifies this
      ensures (r, Now()) == Channel.Read(bus, old(Now()), command, length, retryCount)
    {
      if retryCount <= 0 {
        return Err(UnboundLocalError);
      }
      ghost var spec := Channel.Read(bus, Now(), command, length, retryCount);
      var data: seq<byte> := [];
      var i := 0;
      while i < retryCount
        invariant 0 <= i <= retryCount
        invariant streams == old(streams)
        invariant i < retryCount ==> spec == ReadAttempts(bus, Now(), command, length, retryCount - i)
        invariant i == retryCount ==> spec == (Ok(data), Now())
        decreases retryCount - i
      {
        ghost var before := Now();
        var empty := new PyList([]);
        var w := Write(command, empty);
        if w.Raised? {
          return Err(w.exc);
        }
        var recv := Receive(length);
        if recv.Err? {
          return recv;
        }
        data := recv.value;
        if data == [] {
          return Err(IndexError);  // data[0]
        }
        assert Exchange(bus, before, command, length) == (Ok(data), Now());
        i := i + 1;
        if command == data[0] {
          assert spec == (Ok(data), Now());
          break;
        }
      }
      return Ok(data);
    }

    // ------------------------------------------------------ board discovery

    /** _is_thunder_borg_board, with this session as tb. */
    method IsThunderBorgBoard(busNum: int, address: int) returns (r: Result<bool>)
      modifies this
      ensures (r, Now()) == Probe(bus, old(Now()), busNum, address)
    {
      var foundChip := false;
      var ok := InitBus(busNum, address);
      if ok {
        var recv := Read(GET_ID, I2C_READ_LEN, 3);
        if recv.Err? && recv.exc != IOError {
          return Err(recv.exc);
        }
        if recv.Ok? {
          foundChip := CheckBoardChip(recv.value);
        }
      }
      return Ok(foundChip);
    }

    /** find_board, with this session as tb. */
    method FindBoard(busNum: int, close: bool) returns (r: Result<seq<int>>)
      modifies this
      ensures (r, Now()) == Locator.FindBoard(bus, old(Now()), busNum, close)
    {
      ghost var scan := ScanFrom(bus, Now(), busNum, SCAN_FIRST, []);
      var found: seq<int> := [];
      var address := SCAN_FIRST;
      while address < SCAN_END
        invariant SCAN_FIRST <= address <= SCAN_END
        invariant scan == ScanFrom(bus, Now(), busNum, address, found)
        decreases SCAN_END - address
      {
        var p := IsThunderBorgBoard(busNum, address);
        if p.Err? {
          return Err(p.exc);
        }
        if p.value {
          found := found + [address];
        }
        address := address + 1;
      }
      if close {
        CloseStreams();
      }
      return Ok(found);
    }

    /** _auto_set_address, with this session as tb. */
    method AutoSetAddress(busNum: int) returns (r: Result<bool>)
      modifies this
      ensures (r, Now()) == Locator.AutoSetAddress(bus, old(Now()), busNum)
    {
      var boards := FindBoard(DEFAULT_BUS_NUM, false);
      if boards.Err? {
        return Err(boards.exc);
      }
      if boards.value == [] {
        return Ok(false);
      }
      r := IsThunderBorgBoard(busNum, boards.value[0]);
    }

    /** _initialize_board. */
    method InitializeBoard(busNum: int, address: int, autoSetAddr: bool) returns (r: Outcome)
      modifies this
      ensures (r, Now()) == Initialize(bus, old(Now()), busNum, address, autoSetAddr)
    {
      var first := IsThunderBorgBoard(busNum, address);
      if first.Err? {
        return Raised(first.exc);
      }
      if !first.value {
        var buses := AlternateBuses(busNum, autoSetAddr);
        ghost var loop := ProbeEach(bus, Now(), buses, address, false);
        var foundChip := false;
        var i := 0;
        while i < |buses|
          invariant 0 <= i <= |buses|
          invariant loop == ProbeEach(bus, Now(), buses[i..], address, foundChip)
        {
          var p := IsThunderBorgBoard(buses[i], address);
          if p.Err? {
            return Raised(p.exc);
          }
          foundChip := p.value;
          i := i + 1;
        }
        if !foundChip {
          if !autoSetAddr {
            return Raised(ThunderBorgException);
          }
          var auto := AutoSetAddress(busNum);
          if auto.Err? {
            return Raised(auto.exc);
          }
          if !auto.value {
            return Raised(ThunderBorgException);
          }
        }
      }
      r := Done;
    }

    /** set_i2c_address, on a session of its own that it returns with the outcome. */
    static method SetI2cAddress(bus: Bus, newAddr: int, curAddr: int, busNum: int) returns (tb: ThunderBorg, r: Outcome)
      ensures fresh(tb)
      ensures (r, tb.Now()) == Locator.SetI2cAddress(bus, newAddr, curAddr, busNum)
    {
      tb := new ThunderBorg.Static(bus);
      if !(ADDRESS_MIN <= newAddr <= ADDRESS_MAX) {
        return tb, Raised(ThunderBorgException);
      }
      var cur := curAddr;
      if cur < 0 {
        var found := tb.FindBoard(busNum, true);
        if found.Err? {
          return tb, Raised(found.exc);
        }
        if |found.value| < 1 {
          return tb, Raised(ThunderBorgException);
        }
        cur := found.value[0];
      }
      ghost var start := tb.Now();
      var ok := tb.InitBus(busNum, cur);
      if ok {
        var recv := tb.Read(GET_ID, I2C_READ_LEN, 3);
        if recv == Err(IOError) {
          tb.CloseStreams();
          return tb, Raised(ThunderBorgException);
        }
        if recv.Err? {
          return tb, Raised(recv.exc);
        }
        if CheckBoardChip(recv.value) {
          var data := new PyList([newAddr]);
          var w := tb.Write(SET_I2C_ADD, data);
          if w.Raised? {
            return tb, w;
          }
          tb.Sleep(SETTLE_MS);
          ghost var moved := tb.Now();
          var bound := tb.InitBus(busNum, newAddr);
          if bound {
            recv := tb.Read(GET_ID, I2C_READ_LEN, 3);
            if recv == Err(IOError) {
              tb.CloseStreams();
              return tb, Raised(ThunderBorgException);
            }
            if recv.Err? {
              return tb, Raised(recv.exc);
            }
            if !CheckBoardChip(recv.value) {
              return tb, Raised(ThunderBorgException);
            }
          }
          tb.CloseStreams();
          assert (Done, tb.Now()) == Confirm(bus, moved, busNum, newAddr);
        } else {
          tb.CloseStreams();
        }
      }
      r := Done;
      assert (r, tb.Now()) == Relocate(bus, start, busNum, cur, newAddr);
    }

    // -------------------------------------------------------------- motors

    /** _set_motor: reverse command and PWM of -level below zero, forward otherwise, capped at 255. */
    method SetMotor(level: real, fwd: byte, rev: byte) returns (r: Outcome)
      requires streams != Unset
      modifies this
      ensures (r, Now()) == Command(bus, old(Now()), [MotorCommand(level, fwd, rev), MotorPwm(level)])
    {
      var command: byte;
      var pwm: int;
      if level < 0.0 {
        command := rev;
        pwm := -Trunc(PWM_MAX as real * level);
        pwm := if pwm > PWM_MAX then PWM_MAX else pwm;
      } else {
        command := fwd;
        pwm := Trunc(PWM_MAX as real * level);
        pwm := if pwm > PWM_MAX then PWM_MAX else pwm;
      }
      var data := new PyList([pwm]);
      var w := Write(command, data);
      r := if w.Raised? then Raised(ThunderBorgException) else Done;
    }

    method SetMotorOne(level: real) returns (r: Outcome)
      requires streams != Unset
      modifies this
      ensures (r, Now()) == Command(bus, old(Now()), [MotorCommand(level, SET_A_FWD, SET_A_REV), MotorPwm(level)])
    {
      r := SetMotor(level, SET_A_FWD, SET_A_REV);
    }

    method SetMotorTwo(level: real) returns (r: Outcome)
      requires streams != Unset
      modifies this
      ensures (r, Now()) == Command(bus, old(Now()), [MotorCommand(level, SET_B_FWD, SET_B_REV), MotorPwm(level)])
    {
      r := SetMotor(level, SET_B_FWD, SET_B_REV);
    }

    method SetBothMotors(level: real) returns (r: Outcome)
      requires streams != Unset
      modifies this
      ensures (r, Now()) == Command(bus, old(Now()), [MotorCommand(level, SET_ALL_FWD, SET_ALL_REV), MotorPwm(level)])
    {
      r := SetMotor(level, SET_ALL_FWD, SET_ALL_REV);
    }

    /** _get_motor. */
    method GetMotor(command: byte) returns (r: Result<real>)
      requires streams != Unset
      modifies this
      ensures var (q, t) := Query(bus, old(Now()), command);
              Now() == t && r == Then(q, DecodeMotor)
    {
      var recv := Read(command, I2C_READ_LEN, 3);
      if recv == Err(IOError) {
        return Err(ThunderBorgException);
      }
      if recv.Err? {
        return Err(recv.exc);
      }
      r := DecodeMotor(recv.value);
    }

    method GetMotorOne() returns (r: Result<real>)
      requires streams != Unset
      modifies this
      ensures var (q, t) := Query(bus, old(Now()), GET_A);
              Now() == t && r == Then(q, DecodeMotor)
    {
      r := GetMotor(GET_A);
    }

    method GetMotorTwo() returns (r: Result<real>)
      requires streams != Unset
      modifies this
      ensures var (q, t) := Query(bus, old(Now()), GET_B);
              Now() == t && r == Then(q, DecodeMotor)
    {
      r := GetMotor(GET_B);
    }

    /** halt_motors: the all-off command with a zero byte. */
    method HaltMotors() returns (r: Outcome)
      requires streams != Unset
      modifies this
      ensures (r, Now()) == Command(bus, old(Now()), [ALL_OFF, 0])
    {
      var data := new PyList([0]);
      var w := Write(ALL_OFF, data);
      r := if w.Raised? then Raised(ThunderBorgException) else Done;
    }

    // ---------------------------------------------------------- board LEDs

    /** _set_led: each channel as max(0, min(255, int(c * 255))). */
    method SetLed(command: byte, red: real, green: real, blue: real) returns (r: Outcome)
      requires streams != Unset
      modifies this
      ensures (r, Now()) == Command(bus, old(Now()), LedFrame(command, Color(red, green, blue)))
    {
      var levelR := Max(0, Min(PWM_MAX, Trunc(red * PWM_MAX as real)));
      var levelG := Max(0, Min(PWM_MAX, Trunc(green * PWM_MAX as real)));
      var levelB := Max(0, Min(PWM_MAX, Trunc(blue * PWM_MAX as real)));
      var data := new PyList([levelR, levelG, levelB]);
      var w := Write(command, data);
      r := if w.Raised? then Raised(ThunderBorgException) else Done;
    }

    method SetLedOne(red: real, green: real, blue: real) returns (r: Outcome)
      requires streams != Unset
      modifies this
      ensures (r, Now()) == Command(bus, old(Now()), LedFrame(SET_LED1, Color(red, green, blue)))
    {
      r := SetLed(SET_LED1, red, green, blue);
    }

    method SetLedTwo(red: real, green: real, blue: real) returns (r: Outcome)
      requires streams != Unset
      modifies this
      ensures (r, Now()) == Command(bus, old(Now()), LedFrame(SET_LED2, Color(red, green, blue)))
    {
      r := SetLed(SET_LED2, red, green, blue);
    }

    method SetBothLeds(red: real, green: real, blue: real) returns (r: Outcome)
      requires streams != Unset
      modifies this
      ensures (r, Now()) == Command(bus, old(Now()), LedFrame(SET_LEDS, Color(red, green, blue)))
    {
      r := SetLed(SET_LEDS, red, green, blue);
    }

    /** _get_led. */
    method GetLed(command: byte) returns (r: Result<Color>)
      requires streams != Unset
      modifies this
      ensures var (q, t) := Query(bus, old(Now()), command);
              Now() == t && r == Then(q, DecodeLed)
    {
      var recv := Read(command, I2C_READ_LEN, 3);
      if recv == Err(IOError) {
        return Err(ThunderBorgException);
      }
      if recv.Err? {
        return Err(recv.exc);
      }
      r := DecodeLed(recv.value);
    }

    method GetLedOne() returns (r: Result<Color>)
      requires streams != Unset
      modifies this
      ensures var (q, t) := Query(bus, old(Now()), GET_LED1);
              Now() == t && r == Then(q, DecodeLed)
    {
      r := GetLed(GET_LED1);
    }

    method GetLedTwo() returns (r: Result<Color>)
      requires streams != Unset
      modifies this
      ensures var (q, t) := Query(bus, old(Now()), GET_LED2);
              Now() == t && r == Then(q, DecodeLed)
    {
      r := GetLed(GET_LED2);
    }

    // --------------------------------------------------------------- flags

    /** A flag setter: COMMAND_VALUE_ON or COMMAND_VALUE_OFF after the command. */
    method SetFlag(command: byte, state: bool) returns (r: Outcome)
      requires streams != Unset
      modifies this
      ensures (r, Now()) == Command(bus, old(Now()), [command, FlagByte(state)])
    {
      var level := if state then VALUE_ON else VALUE_OFF;
      var data := new PyList([level]);
      var w := Write(command, data);
      r := if w.Raised? then Raised(ThunderBorgException) else Done;
    }

    /** A flag getter: false exactly when byte 1 is COMMAND_VALUE_OFF. */
    method GetFlag(command: byte) returns (r: Result<bool>)
      requires streams != Unset
      modifies this
      ensures var (q, t) := Query(bus, old(Now()), command);
              Now() == t && r == Then(q, DecodeFlag)
    {
      var recv := Read(command, I2C_READ_LEN, 3);
      if recv == Err(IOError) {
        return Err(ThunderBorgException);
      }
      if recv.Err? {
        return Err(recv.exc);
      }
      r := DecodeFlag(recv.value);
    }

    method SetLedBatteryState(state: bool) returns (r: Outcome)
      requires streams != Unset
      modifies this
      ensures (r, Now()) == Command(bus, old(Now()), [SET_LED_BATT_MON, FlagByte(state)])
    {
      r := SetFlag(SET_LED_BATT_MON, state);
    }

    method GetLedBatteryState() returns (r: Result<bool>)
      requires streams != Unset
      modifies this
      ensures var (q, t) := Query(bus, old(Now()), GET_LED_BATT_MON);
              Now() == t && r == Then(q, DecodeFlag)
    {
      r := GetFlag(GET_LED_BATT_MON);
    }

    method SetCommsFailsafe(state: bool) returns (r: Outcome)
      requires streams != Unset
      modifies this
      ensures (r, Now()) == Command(bus, old(Now()), [SET_FAILSAFE, FlagByte(state)])
    {
      r := SetFlag(SET_FAILSAFE, state);
    }

    method GetCommsFailsafe() returns (r: Result<bool>)
      requires streams != Unset
      modifies this
      ensures var (q, t) := Query(bus, old(Now()), GET_FAILSAFE);
              Now() == t && r == Then(q, DecodeFlag)
    {
      r := GetFlag(GET_FAILSAFE);
    }

    method GetDriveFaultOne() returns (r: Result<bool>)
      requires streams != Unset
      modifies this
      ensures var (q, t) := Query(bus, old(Now()), GET_DRIVE_A_FAULT);
              Now() == t && r == Then(q, DecodeFlag)
    {
      r := GetFlag(GET_DRIVE_A_FAULT);
    }

    method GetDriveFaultTwo() returns (r: Result<bool>)
      requires streams != Unset
      modifies this
      ensures var (q, t) := Query(bus, old(Now()), GET_DRIVE_B_FAULT);
              Now() == t && r == Then(q, DecodeFlag)
    {
      r := GetFlag(GET_DRIVE_B_FAULT);
    }

    // ------------------------------------------------------------- battery

    method GetBatteryVoltage() returns (r: Result<real>)
      requires streams != Unset
      modifies this
      ensures var (q, t) := Query(bus, old(Now()), GET_BATT_VOLT);
              Now() == t && r == Then(q, DecodeVoltage)
    {
      var recv := Read(GET_BATT_VOLT, I2C_READ_LEN, 3);
      if recv == Err(IOError) {
        return Err(ThunderBorgException);
      }
      if recv.Err? {
        return Err(recv.exc);
      }
      r := DecodeVoltage(recv.value);
    }

    /** set_battery_monitoring_limits: both limits scaled to 36.3 V, then the EEPROM pause. */
    method SetBatteryMonitoringLimits(minimum: real, maximum: real) returns (r: Outcome)
      requires streams != Unset
      modifies this
      ensures (r, Now()) == SetBatteryLimits(bus, old(Now()), minimum, maximum)
    {
      var levelMin := Max(0, Min(0xFF, Trunc(minimum / VOLTAGE_PIN_MAX * 0xFF as real)));
      var levelMax := Max(0, Min(0xFF, Trunc(maximum / VOLTAGE_PIN_MAX * 0xFF as real)));
      var data := new PyList([levelMin, levelMax]);
      var w := Write(SET_BATT_LIMITS, data);
      if w.Raised? {
        return Raised(ThunderBorgException);
      }
      Sleep(EEPROM_MS);
      r := Done;
    }

    method GetBatteryMonitoringLimits() returns (r: Result<Limits>)
      requires streams != Unset
      modifies this
      ensures var (q, t) := Query(bus, old(Now()), GET_BATT_LIMITS);
              Now() == t && r == Then(q, DecodeLimits)
    {
      var recv := Read(GET_BATT_LIMITS, I2C_READ_LEN, 3);
      if recv == Err(IOError) {
        return Err(ThunderBorgException);
      }
      if recv.Err? {
        return Err(recv.exc);
      }
      r := DecodeLimits(recv.value);
    }

    // ------------------------------------------------------- external LEDs

    /** write_external_led_word: four bytes, each max(0, min(255, int(b))). */
    method WriteExternalLedWord(b0: real, b1: real, b2: real, b3: real) returns (r: Outcome)
      requires streams != Unset
      modifies this
      ensures (r, Now()) == Command(bus, old(Now()), ExternalLedFrame(b0, b1, b2, b3))
    {
      var c0 := Max(0, Min(PWM_MAX, Trunc(b0)));
      var c1 := Max(0, Min(PWM_MAX, Trunc(b1)));
      var c2 := Max(0, Min(PWM_MAX, Trunc(b2)));
      var c3 := Max(0, Min(PWM_MAX, Trunc(b3)));
      var data := new PyList([c0, c1, c2, c3]);
      var w := Write(WRITE_EXTERNAL_LED, data);
      r := if w.Raised? then Raised(ThunderBorgException) else Done;
    }

    /** One colour of set_external_led_colors: full brightness, then the blue, green and red levels. */
    method WriteColorWord(c: Color) returns (r: Outcome)
      requires streams != Unset
      modifies this
      ensures (r, Now()) == Command(bus, old(Now()), ColorWord(c))
    {
      r := WriteExternalLedWord(255.0, 255.0 * c.blue, 255.0 * c.green, 255.0 * c.red);
    }

    /** set_external_led_colors: the start marker, then one word per colour. */
    method SetExternalLedColors(colors: seq<Color>) returns (r: Outcome)
      requires streams != Unset
      modifies this
      ensures (r, Now()) == Commands(bus, old(Now()), ExternalLedFrames(colors))
    {
      var frames := ExternalLedFrames(colors);
      CommandsFirst(bus, Now(), frames);
      r := WriteExternalLedWord(0.0, 0.0, 0.0, 0.0);
      if r.Raised? {
        return;
      }
      var i := 0;
      while i < |colors|
        invariant 0 <= i <= |colors|
        invariant streams == old(streams) && r == Done
        invariant Commands(bus, old(Now()), frames) == Commands(bus, Now(), frames[i + 1..])
      {
        ExternalLedFramesFrom(colors, i);
        CommandsFirst(bus, Now(), frames[i + 1..]);
        r := WriteColorWord(colors[i]);
        if r.Raised? {
          return;
        }
        i := i + 1;
      }
      assert frames[i + 1..] == [];
    }
  }
}
