/**
 * The command set of a bound session (tborg/tborg.py:524-1155): how the
 * setters write one frame each and how the getters read and decode a reply,
 * as functions of the session state.
 */
module Board {
  import opened Outcomes
  import opened Codec
  import opened Channel

  /**
   * A setter's write of one frame. Every byte of the frame is already in
   * range, so _write cannot raise ValueError; the IOError of an
   * unacknowledged write becomes ThunderBorgException, and a closed stream
   * raises ThunderBorgException already.
   */
  function Command(bus: Bus, s: State, frame: seq<byte>): (r: (Outcome, State))
    requires s.streams != Unset && frame != []
    ensures r.1.streams == s.streams
    ensures r.0.Done? <==> s.streams.Open? && bus.accepts(s.trace, s.streams.at)
    ensures r.0.Done? ==> s.streams.Open? && r.1.trace == s.trace + [Wrote(s.streams.at, frame)]
    ensures r.0.Raised? ==> r.0.exc == ThunderBorgException && r.1.trace == s.trace
  {
    assert [frame[0] as int] + frame[1..] == frame;
    var (w, s1) := Write(bus, s, frame[0], frame[1..]);
    (if w.Raised? then Raised(ThunderBorgException) else Done, s1)
  }

  /**
   * A getter's read: _read with six bytes and three passes, its IOError
   * turned into ThunderBorgException. What remains is an empty reply
   * (IndexError) or a closed stream (ThunderBorgException).
   */
  function Query(bus: Bus, s: State, command: byte): (r: (Result<seq<byte>>, State))
    requires s.streams != Unset
    ensures r.1.streams == s.streams
    ensures r.0.Err? ==> r.0.exc == ThunderBorgException || r.0.exc == IndexError
    ensures r.0.Ok? ==> r.0.value != [] && s.streams.Open?
  {
    ReadAttemptsShape(bus, s, command, I2C_READ_LEN, 3);
    var (rd, s1) := Read(bus, s, command, I2C_READ_LEN, 3);
    (if rd == Err(IOError) then Err(ThunderBorgException) else rd, s1)
  }

  /** A getter's result: the query's exception, or the decoded reply. */
  function Then<T>(q: Result<seq<byte>>, decode: seq<byte> -> Result<T>): Result<T>
  {
    if q.Err? then Err(q.exc) else decode(q.value)
  }

  /**
   * A successful query returns the last reply of its endpoint, which echoes
   * the command unless all three passes went unanswered by an echo.
   */
  lemma QueryShape(bus: Bus, s: State, command: byte)
    requires s.streams != Unset
    ensures var (r, t) := Query(bus, s, command);
            && |s.trace| <= |t.trace| && t.trace[..|s.trace|] == s.trace
            && OnlyFrame(t.trace[|s.trace|..], [command])
            && |Frames(t.trace[|s.trace|..])| <= 3
            && (r.Ok? ==> && t.trace != [] && Last(t.trace) == Got(s.streams.at, r.value)
                          && (r.value[0] == command || |Frames(t.trace[|s.trace|..])| == 3))
  {
    ReadAttemptsShape(bus, s, command, I2C_READ_LEN, 3);
    var (r, t) := Query(bus, s, command);
    var added := t.trace[|s.trace|..];
    assert t.trace == s.trace + added;
    if r.Ok? {
      assert Last(t.trace) == Last(added);
    }
  }

  /** The events of acknowledged writes of `frames`, in order, to ep. */
  function WroteAll(ep: Endpoint, frames: seq<seq<byte>>): seq<Event>
  {
    seq(|frames|, i requires 0 <= i < |frames| => Wrote(ep, frames[i]))
  }

  /** The writes of the first n frames: the first frame's, then those of the next n - 1. */
  lemma WroteAllCons(ep: Endpoint, frames: seq<seq<byte>>, n: nat)
    requires 1 <= n <= |frames|
    ensures WroteAll(ep, frames[..n]) == [Wrote(ep, frames[0])] + WroteAll(ep, frames[1..][..n - 1])
  {
    assert frames[..n] == [frames[0]] + frames[1..][..n - 1];
  }

  predicate NonEmptyFrames(frames: seq<seq<byte>>)
  {
    forall i :: 0 <= i < |frames| ==> frames[i] != []
  }

  /** Setter writes in sequence, stopping at the first that raises. */
  function Commands(bus: Bus, s: State, frames: seq<seq<byte>>): (Outcome, State)
    requires s.streams != Unset && NonEmptyFrames(frames)
    decreases |frames|
  {
    if frames == [] then (Done, s)
    else
      var (c, s1) := Command(bus, s, frames[0]);
      if c.Raised? then (c, s1) else Commands(bus, s1, frames[1..])
  }

  /** The first write of a run, then the rest unless it raised. */
  lemma CommandsFirst(bus: Bus, s: State, frames: seq<seq<byte>>)
    requires s.streams != Unset && NonEmptyFrames(frames) && frames != []
    ensures NonEmptyFrames(frames[1..])
    ensures var (c, s1) := Command(bus, s, frames[0]);
            Commands(bus, s, frames) == if c.Raised? then (c, s1) else Commands(bus, s1, frames[1..])
  {
  }

  /**
   * A run of setter writes puts the frames on the channel in order: all of
   * them when it succeeds, a strict prefix when it raises (which is then
   * ThunderBorgException).
   */
  lemma {:induction false} CommandsShape(bus: Bus, s: State, frames: seq<seq<byte>>)
    requires s.streams.Open? && NonEmptyFrames(frames)
    decreases |frames|
    ensures var (r, t) := Commands(bus, s, frames);
            && t.streams == s.streams
            && (r.Done? ==> t.trace == s.trace + WroteAll(s.streams.at, frames))
            && (r.Raised? ==> && r.exc == ThunderBorgException
                              && exists k :: 0 <= k < |frames|
                                   && t.trace == s.trace + WroteAll(s.streams.at, frames[..k]))
  {
    var ep := s.streams.at;
    if frames != [] {
      var (c, s1) := Command(bus, s, frames[0]);
      if c.Raised? {
        assert frames[..0] == [] && WroteAll(ep, []) == [];
        assert s1.trace == s.trace + WroteAll(ep, frames[..0]);
      } else {
        CommandsShape(bus, s1, frames[1..]);
        var (r, t) := Commands(bus, s1, frames[1..]);
        if r.Done? {
          WroteAllCons(ep, frames, |frames|);
          assert frames[..|frames|] == frames && frames[1..][..|frames| - 1] == frames[1..];
        } else {
          var k :| 0 <= k < |frames[1..]| && t.trace == s1.trace + WroteAll(ep, frames[1..][..k]);
          WroteAllCons(ep, frames, k + 1);
          assert s1.trace == s.trace + [Wrote(ep, frames[0])];
        }
      }
    }
  }

  /** The frames set_external_led_colors writes: the start marker, then one word per colour. */
  function ExternalLedFrames(colors: seq<Color>): (frames: seq<seq<byte>>)
    ensures NonEmptyFrames(frames)
  {
    [StartWord()] + seq(|colors|, i requires 0 <= i < |colors| => ColorWord(colors[i]))
  }

  /** The external LED frames from colour i on: its word, then those of the later colours. */
  lemma ExternalLedFramesFrom(colors: seq<Color>, i: nat)
    requires i < |colors|
    ensures var frames := ExternalLedFrames(colors);
            frames[i + 1..] != [] && frames[i + 1..][0] == ColorWord(colors[i]) && frames[i + 1..][1..] == frames[i + 2..]
  {
  }

  /**
   * set_external_led_colors rewrites the whole chain: when it succeeds the
   * channel carries the zero start word and then, colour by colour in order,
   * a full-brightness byte and the blue, green and red levels.
   */
  lemma ExternalLedColorsShape(bus: Bus, s: State, colors: seq<Color>)
    requires s.streams.Open?
    ensures var (r, t) := Commands(bus, s, ExternalLedFrames(colors));
            r.Done? ==>
              && |s.trace| <= |t.trace| && t.trace[..|s.trace|] == s.trace
              && var added := t.trace[|s.trace|..];
              && |added| == |colors| + 1
              && added[0] == Wrote(s.streams.at, [WRITE_EXTERNAL_LED, 0, 0, 0, 0])
              && (forall i :: 0 <= i < |colors| ==>
                    added[i + 1] == Wrote(s.streams.at, [WRITE_EXTERNAL_LED, 255, LedLevel(colors[i].blue),
                                                         LedLevel(colors[i].green), LedLevel(colors[i].red)]))
  {
    var frames := ExternalLedFrames(colors);
    CommandsShape(bus, s, frames);
    var (r, t) := Commands(bus, s, frames);
    if r.Done? {
      var added := t.trace[|s.trace|..];
      assert added == WroteAll(s.streams.at, frames);
      ExternalLedWrites(s.streams.at, colors);
      ColorWordChannels(Color(0.0, 0.0, 0.0));
      ColorWords(s.streams.at, colors, added[1..]);
      forall i | 0 <= i < |colors|
        ensures added[i + 1] == Wrote(s.streams.at, [WRITE_EXTERNAL_LED, 255, LedLevel(colors[i].blue),
                                                     LedLevel(colors[i].green), LedLevel(colors[i].red)])
      {
        assert added[i + 1] == added[1..][i];
      }
    }
  }

  /** The writes of the external LED frames: the start word, then one colour word per colour. */
  lemma ExternalLedWrites(ep: Endpoint, colors: seq<Color>)
    ensures var w := WroteAll(ep, ExternalLedFrames(colors));
            && |w| == |colors| + 1
            && w[0] == Wrote(ep, StartWord())
            && (forall i :: 0 <= i < |colors| ==> w[1..][i] == Wrote(ep, ColorWord(colors[i])))
  {
    var frames := ExternalLedFrames(colors);
    var w := WroteAll(ep, frames);
    forall i | 0 <= i < |colors| ensures w[1..][i] == Wrote(ep, ColorWord(colors[i])) {
      assert w[1..][i] == w[i + 1];
      assert frames[i + 1] == ColorWord(colors[i]);
    }
  }

  /** Writes of the colour words carry each colour's levels in blue-green-red order. */
  lemma ColorWords(ep: Endpoint, colors: seq<Color>, ws: seq<Event>)
    requires |ws| == |colors|
    requires forall i :: 0 <= i < |colors| ==> ws[i] == Wrote(ep, ColorWord(colors[i]))
    ensures forall i :: 0 <= i < |colors| ==>
              ws[i] == Wrote(ep, [WRITE_EXTERNAL_LED, 255, LedLevel(colors[i].blue),
                                  LedLevel(colors[i].green), LedLevel(colors[i].red)])
  {
    forall i | 0 <= i < |colors|
      ensures ws[i] == Wrote(ep, [WRITE_EXTERNAL_LED, 255, LedLevel(colors[i].blue),
                                  LedLevel(colors[i].green), LedLevel(colors[i].red)])
    {
      ColorWordChannels(colors[i]);
    }
  }

  /** set_battery_monitoring_limits: the limits frame, then a pause for the EEPROM write only if it was sent. */
  function SetBatteryLimits(bus: Bus, s: State, minimum: real, maximum: real): (r: (Outcome, State))
    requires s.streams != Unset
    ensures r.0.Done? ==> s.streams.Open? && r.1.trace == s.trace + [Wrote(s.streams.at, LimitsFrame(minimum, maximum)), Slept(EEPROM_MS)]
    ensures r.0.Raised? ==> r.0.exc == ThunderBorgException && r.1 == s
  {
    var (c, s1) := Command(bus, s, LimitsFrame(minimum, maximum));
    (c, if c.Done? then Sleep(s1, EEPROM_MS) else s1)
  }

  /** The pause for the board's EEPROM write, time.sleep(0.2). */
  const EEPROM_MS: nat := 200
}
