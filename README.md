# ThunderBorg driver core in Dafny

A Dafny model of the `ThunderBorg` class of `tborg/tborg.py`. The class is a
Python driver for the PiBorg ThunderBorg dual-motor controller, which sits on
an I²C bus. The model covers:

- the byte framing of `_write` and `_read`, including `_read`'s retry loop;
- board discovery: `_init_bus`, `_is_thunder_borg_board`,
  `_check_board_chip`, `find_board`, `_auto_set_address` and
  `_initialize_board`;
- address relocation: `set_i2c_address`;
- `close_streams`;
- the command set: motors, board LEDs, the battery-monitor LED flag, the
  communications failsafe, drive faults, battery voltage and limits, and the
  external LED chain.

The model has five layers:

- `Outcomes` holds Python's exceptions as values. `Outcome` is a call that
  returns nothing, or that raises. `Result<T>` is a call that returns a `T`, or
  that raises.
- `Codec` holds the command codes and the pure encoders and decoders of each
  command family. Levels, colours and volts are exact reals. Python's `int()`
  on a float is `Trunc`, which truncates toward zero.
- `Channel` holds the session state. `State` pairs the streams with the trace
  of everything that crossed the bus: writes, replies and sleeps. `Bus` is
  the hardware, as an oracle with these parts:
  - which device nodes exist;
  - which endpoints refuse to bind;
  - which writes are acknowledged;
  - what each read returns.

  `_write`, one pass of `_read`, and `_read` itself are functions over these.
- `Locator` holds discovery, bus initialisation and address relocation, as
  functions from a bus and a state to a result and a new state. Their
  properties are lemmas.
- `Board` holds the shared shape of the setters and the getters: one frame
  written, or one reply read and decoded.
- `Session` holds the Python class itself. `ThunderBorg` is a Dafny class
  with the streams and the trace as fields, and each of its methods updates
  them. `PyList` is the mutable list that `_write` inserts the command into.
  Each method's `ensures` ties its result and its new state to the function
  that specifies it in the layers above. The loops of `_read`, `find_board`,
  `_initialize_board` and `set_external_led_colors` are `while` loops with
  invariants.

## Model

| member | source | states |
|---|---|---|
| Codec.Trunc | tborg/tborg.py:528-533 | Python's int() on a float: the integer part, truncated toward zero, for both signs. |
| Codec.ClampByte | tborg/tborg.py:673-675 | max(0, min(255, n)) keeps n when it is a byte, and otherwise gives 0 below the range and 255 above it. |
| Codec.MotorPwm | tborg/tborg.py:524-534 | The PWM byte is at most 255·abs(level). It is less than one step below 255·abs(level) unless capped at 255. Levels of magnitude ≥ 1 give 255. |
| Codec.DecodeMotor | tborg/tborg.py:600-629 | A reply shorter than 3 bytes is IndexError. A direction byte other than forward or reverse is ThunderBorgException. The decode succeeds exactly when neither happens. The level then lies in [-1, 1] and 255·abs(level) is byte 2. A forward reply gives a level ≥ 0, and a reverse reply gives a level ≤ 0. |
| Codec.LedLevel | tborg/tborg.py:672-675 | A colour channel ≤ 0 gives 0 and ≥ 1 gives 255. In between, the byte is floor(255·c). |
| Codec.DecodeLed | tborg/tborg.py:753-768 | IndexError exactly when the reply has fewer than 4 bytes. Otherwise each channel lies in [0, 1] and is its byte over 255. |
| Codec.DecodeFlag | tborg/tborg.py:835-856 | IndexError exactly when the reply has fewer than 2 bytes. Otherwise the flag is true exactly when byte 1 is not COMMAND_VALUE_OFF. |
| Codec.LimitByte | tborg/tborg.py:1027-1045 | A limit ≤ 0 V gives 0 and ≥ 36.3 V gives 255. In between, the byte is floor(255·volts/36.3). |
| Codec.DecodeLimits | tborg/tborg.py:1062-1091 | IndexError exactly when the reply has fewer than 3 bytes. Otherwise minimum and maximum lie in [0, 36.3] and are bytes 1 and 2 scaled by 36.3/255. |
| Codec.DecodeVoltage | tborg/tborg.py:1003-1025 | IndexError exactly when the reply has fewer than 3 bytes. Otherwise the voltage is the 16-bit reading in bytes 1-2 times 36.3/1023, non-negative, and at most 36.3 V exactly when the reading fits 10 bits. |
| Codec.WordByte | tborg/tborg.py:1093-1110 | Each byte of an external LED word is int(x) clamped to a byte. |
| Codec.MotorRoundTrip | tborg/tborg.py:524-629 | A level written by _set_motor and reported back by the board decodes to the same sign. Within [-1, 1] it decodes at most one PWM step below in magnitude. Beyond that it decodes to ±1. |
| Codec.LedRoundTrip | tborg/tborg.py:672-768 | A colour written by _set_led and reported back decodes without error. Each of red, green and blue, when set within [0, 1], decodes at most 1/255 below what was set. A channel set ≤ 0 decodes to 0, and one set ≥ 1 decodes to 1. |
| Codec.FlagRoundTrip | tborg/tborg.py:804-856 | A flag written as COMMAND_VALUE_ON/OFF reads back as itself. |
| Codec.LimitsRoundTrip | tborg/tborg.py:1027-1091 | Battery limits written and reported back decode without error, each limit in its own place. Minimum and maximum, each when set within [0, 36.3] V, read back at most 36.3/255 V below what was set. A limit set ≤ 0 reads back as 0, and one set ≥ 36.3 V reads back as 36.3 V. |
| Codec.VoltageRoundTrip | tborg/tborg.py:1003-1025 | Any 16-bit reading reported by the board decodes without error to a voltage that scales back exactly to that reading (volts·1023/36.3). The full-scale reading 1023 is exactly 36.3 V. |
| Codec.ColorWordChannels | tborg/tborg.py:1131-1155 | The external chain's colour word is a full-brightness byte, then the blue, green and red levels exactly as the board LEDs encode them. The start word is all zeros. |
| Channel.InitBus | tborg/tborg.py:233-262 | _init_bus succeeds exactly when the device node exists and the address binds. The session is then bound to that endpoint. Nothing is sent on the bus. |
| Channel.Write | tborg/tborg.py:451-482 | The frame is [command] + data. It is sent exactly when every value is a byte, the stream is open and the board acknowledges. A non-byte value is ValueError, a closed stream is ThunderBorgException, and an unacknowledged write is IOError; in each of these cases nothing is sent. |
| Channel.ReadAttemptsShape | tborg/tborg.py:502-515 | Over k passes, _read writes only the bare command, to the bound endpoint, at most k times. Every reply but the last fails to echo the command. A successful read returns the last reply, which echoes the command unless all k passes were used. |
| Channel.ReadShape | tborg/tborg.py:484-522 | With the default three passes, _read returns the last reply it received, even when no pass echoed the command; it does not raise in that case. Its only errors are IOError, IndexError and ThunderBorgException. IOError comes only from a pass whose write went unacknowledged or whose read got no answer. IndexError means the last reply was empty. ThunderBorgException means the stream was closed, and nothing was sent. |
| Channel.PassEvents | tborg/tborg.py:502-512 | One pass writes [command] and reads one reply. Its errors are IOError, IndexError on an empty reply, or ThunderBorgException on a closed stream. |
| Channel.StaticRead | tborg/tborg.py:502-515 | On a bus whose replies do not change, _read returns what its first pass read. |
| Locator.ProbeShape | tborg/tborg.py:210-231 | _is_thunder_borg_board touches only its endpoint and sends only GET_ID, at most three times. It is true only if the endpoint has just replied with the ThunderBorg id. It propagates only IndexError. It leaves the session bound there exactly when the endpoint binds. An unbindable endpoint gives false with nothing sent. |
| Locator.ReportedKept | tborg/tborg.py:326-328 | An id reply seen during the scan stays in the record as it grows. |
| Locator.ScanFound | tborg/tborg.py:326-328 | The scan's found list only grows. It keeps its addresses in ascending order. Each address added lies in the rest of the scan range and identified itself as a ThunderBorg during the scan. |
| Locator.ScanOrder | tborg/tborg.py:326-328 | The scan only sends GET_ID, on the requested bus, to addresses of the scan range in non-decreasing order, and never sleeps. |
| Locator.FindBoardShape | tborg/tborg.py:299-337 | find_board probes 0x03 to 0x76 in increasing order. It returns an ascending list of addresses, each of which identified itself as a ThunderBorg. 0x77 is never included. The streams are closed afterwards when close is set. Its only error is IndexError. |
| Locator.ScanStatic | tborg/tborg.py:326-328 | On a bus with fixed replies, the scan appends exactly the reference list of ThunderBorg addresses. |
| Locator.FindBoardStatic | tborg/tborg.py:299-337 | On a bus with fixed replies, find_board returns exactly the reference list. |
| Locator.StaticBoardsExactly | tborg/tborg.py:264-284 | The reference list holds exactly the in-range addresses that acknowledge and reply with 6 bytes whose byte 1 is 0x15. |
| Locator.StaticBoardsAscending | tborg/tborg.py:326-328 | The reference list is strictly ascending, and every address in it is at least the address the scan starts from. |
| Locator.StaticBoardsSingle | tborg/tborg.py:326-328 | With one ThunderBorg on the bus, the reference list is that address when it is in the scan range, and empty otherwise. |
| Locator.ProbeStatic | tborg/tborg.py:210-231 | On a bus with fixed replies, the probe is true exactly for a ThunderBorg address. |
| Locator.FindBoardOne | tborg/tborg.py:326 | A lone board is found exactly when its address is in [0x03, 0x77), so a board at 0x77 is never found. |
| Locator.ProbeElsewhere | tborg/tborg.py:210-231 | A probe on a bus that carries no boards is false: no write there is acknowledged. |
| Locator.ScanElsewhere | tborg/tborg.py:326-328 | The scan of a bus that carries no boards adds nothing to the found list. |
| Locator.AutoSetAddressShape | tborg/tborg.py:286-297 | _auto_set_address propagates the scan's error. It returns false when the scan of the default bus 1 finds nothing. When it returns true, the scan found boards, and the session is bound on the requested bus at the first of them, which has just answered there. |
| Locator.AutoSetStatic | tborg/tborg.py:286-297 | On bus 1 with fixed replies, _auto_set_address asked for bus 1 returns true exactly when the scan finds a board, and then binds the first board found. |
| Locator.AutoSetAddressScansBusOne | tborg/tborg.py:286-297 | With a lone board at x on bus 0, find_board on bus 0 returns [x], yet initialising bus 0 at another address with auto_set_addr raises ThunderBorgException, because _auto_set_address scans bus 1. With the board on bus 1, the same call on bus 1 succeeds. |
| Locator.Without | tborg/tborg.py:186-187 | The list without x holds exactly the other elements. |
| Locator.AlternateBuses | tborg/tborg.py:186-187 | With auto-addressing the alternate-bus list is empty. Without it, the list holds exactly the possible buses other than the requested one, in the order 0, 1: [1] for bus 0, [0] for bus 1, [0, 1] for any other bus. |
| Locator.ProbeEachSnoc | tborg/tborg.py:190-194 | The loop over the alternate buses overwrites found_chip. Only the last bus probed decides the result. |
| Locator.ProbeEachShape | tborg/tborg.py:190-194 | The loop over alternate buses propagates only IndexError. With no buses it returns the initial flag unchanged. A true result means the last bus's endpoint has just answered. |
| Locator.InitializeShape | tborg/tborg.py:177-204 | _initialize_board raises only ThunderBorgException or IndexError. When the requested endpoint probes true, it succeeds bound there. On any success the session is bound to a ThunderBorg that has just answered. The endpoint is one of: the requested endpoint; the same address on another possible bus (without auto-addressing); a scanned address on the requested bus (with it). |
| Locator.InitializeStatic | tborg/tborg.py:183 | On a bus with fixed replies, a ThunderBorg at the requested endpoint makes _initialize_board succeed, bound to that endpoint. |
| Locator.InitializeAlternate | tborg/tborg.py:183-194 | Without auto-addressing, a ThunderBorg at the requested address on the other of buses 0 and 1 is found there, and the session is bound to it. |
| Locator.InitializeLastAlternateOnly | tborg/tborg.py:186-204 | Asked for a bus other than 0 and 1, with a ThunderBorg at the address on bus 0 whose probe is true, _initialize_board still raises ThunderBorgException: the probe of bus 1 after it overwrites found_chip. |
| Locator.ConfirmShape | tborg/tborg.py:406-432 | The re-probe at the new address sends no address frame. It raises only ThunderBorgException or IndexError. On success the streams are closed and the new address either does not bind or has just replied with the ThunderBorg id. |
| Locator.AddressWriteJoin | tborg/tborg.py:399-401 | An address frame written right after the board's id reply is the only address frame. It carries the new address and goes to the board that replied. |
| Locator.RelocateShape | tborg/tborg.py:386-432 | Relocation writes at most one address frame: to the current endpoint, carrying the new address, and only right after an id reply from that endpoint. It raises only ThunderBorgException, IndexError or IOError. |
| Locator.RelocationWrites | tborg/tborg.py:386-432 | When the board at cur_addr identified itself and the bus acknowledges, the frame [SET_I2C_ADD, new_addr] to it and the 100 ms pause follow the probe on the trace. An unacknowledged address write escapes as IOError with nothing more sent. A probe that raises makes the relocation raise the same. When the probe is false, nothing more is sent and the streams are not left open. An endpoint that does not bind ends with a normal return. A bound endpoint ends normally exactly when its id read got a reply, that is, another chip answered; otherwise it raises ThunderBorgException. |
| Locator.AfterAddressWrite | tborg/tborg.py:400-432 | After the board identified itself, the address write, the 100 ms pause and the re-probe keep the relocation guarantees. |
| Locator.SetI2cAddressShape | tborg/tborg.py:339-432 | An address outside 0x03..0x77 raises ThunderBorgException before anything is sent. With cur_addr < 0 and a scan that finds nothing, it raises ThunderBorgException. At most one address frame is ever written, only right after an id reply from the board it goes to, and always with the new address. It goes to cur_addr on the given bus, or to a scanned address when cur_addr < 0. On success the streams are closed, and one of three holds: no address frame was sent; the new address does not bind; or the new address has just replied with the id. |
| Locator.SetI2cAddressWrites | tborg/tborg.py:339-432 | When the target (cur_addr, or the first address found when cur_addr < 0) identified itself and the bus acknowledges, set_i2c_address sends it [SET_I2C_ADD, new_addr] followed by the 100 ms pause. An unacknowledged address write raises IOError. A target whose probe is false gets nothing more. The call then returns normally when the target does not bind or another chip answers, and raises ThunderBorgException when nothing answers. |
| Locator.ProbeMoved | tborg/tborg.py:210-231 | On a bus whose lone board moves to new_addr once it gets the address frame, a probe after the move is true exactly at new_addr. |
| Locator.ScanMoved | tborg/tborg.py:326-328 | After the move, the scan from an address finds exactly new_addr, when it lies ahead in the scan range. |
| Locator.SetI2cAddressMovesBoard | tborg/tborg.py:339-432 | On a bus whose lone board at cur_addr moves when it gets the address frame, set_i2c_address succeeds. The frame is on the trace, and the last reply came from the new address. Afterwards a probe at new_addr is true, a probe at the old address is false, and find_board returns [new_addr] (or nothing for 0x77). |
| Locator.SetI2cAddressMissesBoardAt77 | tborg/tborg.py:366-379 | A lone board at 0x77, an address set_i2c_address accepts, is never found by its scan, so relocation by scanning raises ThunderBorgException. |
| Locator.SetI2cAddressOtherChip | tborg/tborg.py:386-432 | Aimed at a chip that answers with another id, set_i2c_address returns normally with no address frame sent and the streams closed. The new address binds but has not answered. |
| Locator.SetI2cAddressNoAnswer | tborg/tborg.py:386-398 | Aimed at an address where nothing acknowledges, set_i2c_address raises ThunderBorgException, and nothing is sent. |
| Board.Command | tborg/tborg.py:536-552 | A setter's write sends its frame exactly when the stream is open and the write is acknowledged. Otherwise it raises ThunderBorgException and sends nothing. |
| Board.Query | tborg/tborg.py:600-617 | A getter's read turns IOError into ThunderBorgException. What remains is ThunderBorgException or IndexError, and a returned reply is non-empty. |
| Board.QueryShape | tborg/tborg.py:600-617 | A getter sends only its command, at most three times. A returned reply is the last event on the bus and echoes the command unless all three passes were used. |
| Board.CommandsShape | tborg/tborg.py:1145-1155 | A run of setter writes puts all its frames on the bus in order. If one raises, exactly a strict prefix of them was sent, and the error is ThunderBorgException. |
| Board.ExternalLedFrames | tborg/tborg.py:1131-1155 | Every frame of the external LED sequence is non-empty. |
| Board.ExternalLedColorsShape | tborg/tborg.py:1131-1155 | set_external_led_colors sends the zero start word and then one word per colour, in order: 255, then the blue, green and red levels. |
| Board.SetBatteryLimits | tborg/tborg.py:1027-1060 | The limits frame is followed by a 200 ms sleep when it was sent. A failed write raises ThunderBorgException and changes nothing. |
| Session.PyList.constructor | tborg/tborg.py:462-469 | A list holding the given items. |
| Session.ThunderBorg.Static | tborg/tborg.py:136-175 | A session with no streams and an empty trace. |
| Session.ThunderBorg.Connect | tborg/tborg.py:136-204 | Construction runs _initialize_board on a fresh session. |
| Session.ThunderBorg.CloseStreams | tborg/tborg.py:438-449 | Open streams become closed. Never-opened streams stay unset. |
| Session.ThunderBorg.Sleep | tborg/tborg.py:401 | The pause is recorded on the trace. |
| Session.ThunderBorg.InitBus | tborg/tborg.py:233-262 | Updates the streams as Channel.InitBus specifies. |
| Session.ThunderBorg.Write | tborg/tborg.py:451-482 | The caller's list gets the command inserted at its front, in place. The bus and session change as Channel.Write specifies. |
| Session.ThunderBorg.Receive | tborg/tborg.py:504-512 | One read of the bound stream. |
| Session.ThunderBorg.Read | tborg/tborg.py:484-522 | The retry loop computes exactly Channel.Read: retry_count ≤ 0 leaves `data` unbound, and otherwise the loop stops at the first echo. |
| Session.ThunderBorg.IsThunderBorgBoard | tborg/tborg.py:210-231 | Computes Locator.Probe. |
| Session.ThunderBorg.FindBoard | tborg/tborg.py:299-337 | The scan loop computes Locator.FindBoard. |
| Session.ThunderBorg.AutoSetAddress | tborg/tborg.py:286-297 | Computes Locator.AutoSetAddress. |
| Session.ThunderBorg.InitializeBoard | tborg/tborg.py:177-204 | The probe loop over alternate buses computes Locator.Initialize. |
| Session.ThunderBorg.SetI2cAddress | tborg/tborg.py:339-432 | Computes Locator.SetI2cAddress on a fresh session. |
| Session.ThunderBorg.SetMotor | tborg/tborg.py:524-552 | Writes [reverse or forward code, MotorPwm(level)] as Board.Command specifies. |
| Session.ThunderBorg.SetMotorOne | tborg/tborg.py:554-567 | Motor A: codes 8/9. |
| Session.ThunderBorg.SetMotorTwo | tborg/tborg.py:569-582 | Motor B: codes 11/12. |
| Session.ThunderBorg.SetBothMotors | tborg/tborg.py:584-598 | Both motors: codes 17/18. |
| Session.ThunderBorg.GetMotor | tborg/tborg.py:600-629 | The query's error, or DecodeMotor of its reply. |
| Session.ThunderBorg.GetMotorOne | tborg/tborg.py:631-639 | GetMotor with GET_A. |
| Session.ThunderBorg.GetMotorTwo | tborg/tborg.py:641-649 | GetMotor with GET_B. |
| Session.ThunderBorg.HaltMotors | tborg/tborg.py:651-670 | Writes [ALL_OFF, 0]. |
| Session.ThunderBorg.SetLed | tborg/tborg.py:672-685 | Writes [command, red, green, blue] levels. |
| Session.ThunderBorg.SetLedOne | tborg/tborg.py:687-707 | SetLed with SET_LED1. |
| Session.ThunderBorg.SetLedTwo | tborg/tborg.py:709-729 | SetLed with SET_LED2. |
| Session.ThunderBorg.SetBothLeds | tborg/tborg.py:731-751 | SetLed with SET_LEDS. |
| Session.ThunderBorg.GetLed | tborg/tborg.py:753-768 | The query's error, or DecodeLed of its reply. |
| Session.ThunderBorg.GetLedOne | tborg/tborg.py:770-785 | GetLed with GET_LED1. |
| Session.ThunderBorg.GetLedTwo | tborg/tborg.py:787-802 | GetLed with GET_LED2. |
| Session.ThunderBorg.SetFlag | tborg/tborg.py:804-833 | Writes [command, ON or OFF]. |
| Session.ThunderBorg.GetFlag | tborg/tborg.py:835-856 | The query's error, or DecodeFlag of its reply. |
| Session.ThunderBorg.SetLedBatteryState | tborg/tborg.py:804-833 | SetFlag with SET_LED_BATT_MON. |
| Session.ThunderBorg.GetLedBatteryState | tborg/tborg.py:835-856 | GetFlag with GET_LED_BATT_MON. |
| Session.ThunderBorg.SetCommsFailsafe | tborg/tborg.py:858-883 | SetFlag with SET_FAILSAFE. |
| Session.ThunderBorg.GetCommsFailsafe | tborg/tborg.py:885-903 | GetFlag with GET_FAILSAFE. |
| Session.ThunderBorg.GetDriveFaultOne | tborg/tborg.py:905-960 | GetFlag with GET_DRIVE_A_FAULT. |
| Session.ThunderBorg.GetDriveFaultTwo | tborg/tborg.py:962-1001 | GetFlag with GET_DRIVE_B_FAULT. |
| Session.ThunderBorg.GetBatteryVoltage | tborg/tborg.py:1003-1025 | The query's error, or DecodeVoltage of its reply. |
| Session.ThunderBorg.SetBatteryMonitoringLimits | tborg/tborg.py:1027-1060 | Computes Board.SetBatteryLimits. |
| Session.ThunderBorg.GetBatteryMonitoringLimits | tborg/tborg.py:1062-1091 | The query's error, or DecodeLimits of its reply. |
| Session.ThunderBorg.WriteExternalLedWord | tborg/tborg.py:1093-1129 | Writes [24, b0..b3] each through WordByte. |
| Session.ThunderBorg.WriteColorWord | tborg/tborg.py:1154-1155 | One colour is written as its colour word, as Board.Command specifies. |
| Session.ThunderBorg.SetExternalLedColors | tborg/tborg.py:1131-1155 | The loop writes the start word and the colour words, stopping at the first failure, as Board.Commands specifies. |

## Behaviour worth knowing

Each point below is what the code does, and the model follows it:

- **Encoders truncate.** `_set_motor` (tborg/tborg.py:528, 533), `_set_led`
  (tborg/tborg.py:673-675) and `set_battery_monitoring_limits`
  (tborg/tborg.py:1047-1048) convert with `int()`, which truncates toward
  zero. `Trunc` models this, so every round trip loses up to one whole step.
- **`_read` returns the last reply.** The loop at tborg/tborg.py:502-515
  breaks on the first echo of the command. When no pass echoes it, the loop
  ends and the last reply is returned without an error.
- **`find_board` does not scan 0x77.** It probes `range(0x03, 0x77)`
  (tborg/tborg.py:326), which stops at 0x76. `set_i2c_address` accepts
  `0x03 <= new_addr <= 0x77` (tborg/tborg.py:366), so a board moved to 0x77
  is not found again by a scan.
- **`find_board` does not close each trial channel.** `_init_bus`
  (tborg/tborg.py:233-262) opens new streams over the old ones, and
  `find_board` calls `close_streams` only at the end, and only when `close`
  is set (tborg/tborg.py:330).
- **Some errors escape unwrapped.**
  - `data[0]` on an empty reply (tborg/tborg.py:514) raises `IndexError`, and
    no caller catches it.
  - The address write of `set_i2c_address` (tborg/tborg.py:400) sits outside
    the `try` blocks, so its `IOError` escapes as is.
- **`set_i2c_address` can return without moving anything.** When `cur_addr`
  does not bind (tborg/tborg.py:386), or answers with another chip's id (the
  check at tborg/tborg.py:399 fails and the streams are closed at
  tborg/tborg.py:432), it returns normally and no address frame is sent. The
  docstring (tborg/tborg.py:360-361) promises `ThunderBorgException` when
  the new address could not be set. Once the address is in range and a
  target is known, it is raised only when an id read gets no answer, at
  `cur_addr` or at the new address, or when the new address answers with
  another id.
- **`_auto_set_address` always scans the default bus 1.** It calls
  `find_board` without `bus_num` (tborg/tborg.py:289), whatever bus was
  requested.
- **With auto-addressing, no alternate buses are tried.** The comprehension
  at tborg/tborg.py:186-187 is empty when `auto_set_addr` is set. Without it,
  the loop at tborg/tborg.py:190-194 overwrites `found_chip` on each bus, so
  only the last alternate bus's probe counts.

## Left out

- Device I/O: `io.open`, `fcntl.ioctl`, and the stream reads and writes are the `Bus` oracle. Opening becomes `Bindable`. Acknowledgement and replies are the oracle's answers given the trace so far.
- A device node that opens for reading but not for writing is modelled as a failed bind, with the streams closed.
- `time.sleep` is recorded as a `Slept` event and takes no time.
- Floating point: levels, colours and volts are exact reals. IEEE rounding is not modelled, and `int()` is `Trunc`.
- Logging, `logger_name` and `log_level` are left out: they do not affect results.
- `KeyboardInterrupt` handlers and Python 2 branches are left out: interrupts and Python 2 are outside the model.
- `find_board` with `tb=None`: the caller passes a session, and `ThunderBorg.Static` builds the fresh one that `None` would.
- `Session.ThunderBorg.Connect`: a constructor that raises still hands back its session, with the outcome beside it, because Dafny constructors cannot raise.
- `Session.ThunderBorg.Read`: the `len(data) <= 0` check after the loop is not modelled. It is unreachable, since `data[0]` has already raised IndexError on an empty reply.
- The `AssertionError` paths of `_write` and `_read` (tborg/tborg.py:462-467, 497-500) are not modelled as outcomes: they fire only on a programming error, a session whose streams were never set up. They become `requires streams != Unset` on `Channel.Write`, `Channel.Read`, `Board.Command`, `Board.Query` and every `Session.ThunderBorg` command. The non-list `data` assertion needs no counterpart, since `data` is a sequence by type.
- Default arguments (`retry_count=3`, `cur_addr=-1`, `bus_num=1`) are passed explicitly.
- Colour tuples are `Codec.Color` values.
- `Locator.FindBoardStatic`: exactness of the scan result (every ThunderBorg address is found) is proved only for a bus whose replies do not change. On a general bus, the list is proved ascending and each address in it proved to have identified itself.
- The daemon, joystick examples, logging configuration and packaging are outside this model.
