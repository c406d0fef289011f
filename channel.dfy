/**
 * The I2C channel a ThunderBorg session talks through, and the framing of
 * _write and _read (tborg/tborg.py:233-262, 438-522) as functions of the
 * session state.
 *
 * The bus is an oracle: whether a bus device node exists, whether an address
 * can be bound, whether a write is acknowledged and what a read returns. The
 * last two may depend on everything the session has exchanged so far, so
 * stale replies, boards that change address and boards that answer only
 * after some traffic are all expressible.
 */
module Channel {
  import opened Outcomes
  import opened Codec

  /** A bus number and a 7-bit address on it. */
  datatype Endpoint = Endpoint(bus: int, addr: int)

  /** What went over the session's streams: acknowledged writes, replies, and settling pauses. */
  datatype Event =
    | Wrote(to: Endpoint, frame: seq<byte>)
    | Got(from: Endpoint, reply: seq<byte>)
    | Slept(ms: nat)

  /** A read either fails on the bus (IOError) or returns the bytes the device sent. */
  datatype ReadResult = NoAnswer | Answer(data: seq<byte>)

  datatype Bus = Bus(
    devices: set<int>,                                   // buses whose /dev/i2c-N opens
    busy: set<Endpoint>,                                 // endpoints the I2C_SLAVE ioctl refuses
    accepts: (seq<Event>, Endpoint) -> bool,             // a write is acknowledged
    respond: (seq<Event>, Endpoint, int) -> ReadResult)  // the reply to read(length)

  /** The _i2c_read/_i2c_write pair: never opened, open and bound to an endpoint, or closed. */
  datatype Streams = Unset | Open(at: Endpoint) | Closed

  datatype State = State(streams: Streams, trace: seq<Event>)

  predicate IsBytes(xs: seq<int>)
  {
    forall i :: 0 <= i < |xs| ==> 0 <= xs[i] < 256
  }

  function Last<T>(xs: seq<T>): T
    requires xs != []
  {
    xs[|xs| - 1]
  }

  /** The frames written, in order, among some events. */
  function Frames(events: seq<Event>): seq<seq<byte>>
  {
    if events == [] then []
    else (if events[0].Wrote? then [events[0].frame] else []) + Frames(events[1..])
  }

  /** The replies received, in order, among some events. */
  function Replies(events: seq<Event>): seq<seq<byte>>
  {
    if events == [] then []
    else (if events[0].Got? then [events[0].reply] else []) + Replies(events[1..])
  }

  /** Every transfer among the events went to or came from ep. */
  predicate AllAt(events: seq<Event>, ep: Endpoint)
  {
    forall i :: 0 <= i < |events| ==> match events[i]
      case Wrote(to, _) => to == ep
      case Got(from, _) => from == ep
      case Slept(_) => false
  }

  /** Every frame written among the events is f. */
  predicate OnlyFrame(events: seq<Event>, f: seq<byte>)
  {
    forall i :: 0 <= i < |events| && events[i].Wrote? ==> events[i].frame == f
  }

  /** close_streams: closing twice is harmless, and never-opened streams stay unset. */
  function CloseStreams(s: State): State
  {
    s.(streams := if s.streams.Unset? then Unset else Closed)
  }

  /** time.sleep, recorded so that its place among the transfers is visible. */
  function Sleep(s: State, ms: nat): State
  {
    s.(trace := s.trace + [Slept(ms)])
  }

  /**
   * _init_bus: open the device node of ep.bus and bind ep.addr. On either
   * failure the streams are closed and the result is false.
   */
  function InitBus(bus: Bus, s: State, ep: Endpoint): (r: (bool, State))
    ensures r.1.trace == s.trace
    ensures r.0 <==> ep.bus in bus.devices && ep !in bus.busy
    ensures r.0 ==> r.1.streams == Open(ep)
    ensures !r.0 ==> r.1.streams != Open(ep) && (r.1.streams == Unset ==> s.streams == Unset)
  {
    if ep.bus !in bus.devices then (false, CloseStreams(s))
    else if ep in bus.busy then (false, CloseStreams(s.(streams := Closed)))
    else (true, s.(streams := Open(ep)))
  }

  /**
   * _write: the frame is [command] + data. A value outside a byte makes
   * bytes() raise ValueError before anything is sent; writing a closed stream
   * raises ThunderBorgException; an unacknowledged write raises IOError.
   */
  function Write(bus: Bus, s: State, command: int, data: seq<int>): (r: (Outcome, State))
    requires s.streams != Unset
    ensures r.1.streams == s.streams
    ensures r.0.Done? <==> IsBytes([command] + data) && s.streams.Open? && bus.accepts(s.trace, s.streams.at)
    ensures r.0.Done? ==> r.1.trace == s.trace + [Wrote(s.streams.at, [command] + data)]
    ensures r.0.Raised? ==> r.1.trace == s.trace
    ensures r.0.Raised? && IsBytes([command] + data) ==>
              r.0.exc == (if s.streams.Closed? then ThunderBorgException else IOError)
    ensures !IsBytes([command] + data) ==> r.0 == Raised(ValueError)
  {
    var frame := [command] + data;
    if !IsBytes(frame) then (Raised(ValueError), s)
    else match s.streams
      case Closed => (Raised(ThunderBorgException), s)
      case Open(ep) =>
        if bus.accepts(s.trace, ep) then (Done, s.(trace := s.trace + [Wrote(ep, frame)]))
        else (Raised(IOError), s)
  }

  /** _i2c_read.read(length) on the bound endpoint. */
  function Receive(bus: Bus, s: State, length: int): (Result<seq<byte>>, State)
    requires s.streams.Open?
  {
    match bus.respond(s.trace, s.streams.at, length)
    case NoAnswer => (Err(IOError), s)
    case Answer(d) => (Ok(d), s.(trace := s.trace + [Got(s.streams.at, d)]))
  }

  /** One pass of _read's loop: write [command], read length bytes, index byte 0. */
  function Exchange(bus: Bus, s: State, command: byte, length: int): (r: (Result<seq<byte>>, State))
    requires s.streams != Unset
    ensures r.1.streams == s.streams
    ensures r.0.Ok? ==> r.0.value != []
  {
    var (w, s1) := Write(bus, s, command, []);
    if w.Raised? then (Err(w.exc), s1)
    else
      var (rd, s2) := Receive(bus, s1, length);
      if rd.Ok? && rd.value == [] then (Err(IndexError), s2) else (rd, s2)
  }

  /** _read's loop with k passes left: stop at the first reply that echoes command, or at the last pass. */
  function ReadAttempts(bus: Bus, s: State, command: byte, length: int, k: int): (r: (Result<seq<byte>>, State))
    requires k >= 1 && s.streams != Unset
    ensures r.1.streams == s.streams
    ensures r.0.Ok? ==> r.0.value != []
    decreases k
  {
    var (a, s1) := Exchange(bus, s, command, length);
    if a.Err? || a.value[0] == command || k == 1 then (a, s1)
    else ReadAttempts(bus, s1, command, length, k - 1)
  }

  /** _read(command, length, retry_count): with no pass at all the reply variable is never bound. */
  function Read(bus: Bus, s: State, command: byte, length: int, retryCount: int): (r: (Result<seq<byte>>, State))
    requires s.streams != Unset
    ensures r.1.streams == s.streams
  {
    if retryCount <= 0 then (Err(UnboundLocalError), s)
    else ReadAttempts(bus, s, command, length, retryCount)
  }

  // -------------------------------------------------------------- lemmas

  lemma {:induction false} FramesAppend(a: seq<Event>, b: seq<Event>)
    ensures Frames(a + b) == Frames(a) + Frames(b)
    ensures Replies(a + b) == Replies(a) + Replies(b)
  {
    if a == [] {
      assert a + b == b;
    } else {
      var ab := a + b;
      assert ab[0] == a[0] && ab[1..] == a[1..] + b;
      FramesAppend(a[1..], b);
      var f: seq<seq<byte>> := if a[0].Wrote? then [a[0].frame] else [];
      var g: seq<seq<byte>> := if a[0].Got? then [a[0].reply] else [];
      assert Frames(ab) == f + Frames(a[1..] + b);
      assert Frames(a) == f + Frames(a[1..]);
      assert Replies(ab) == g + Replies(a[1..] + b);
      assert Replies(a) == g + Replies(a[1..]);
    }
  }

  /** The events one pass of _read leaves on the channel, by how the pass ended. */
  lemma PassEvents(bus: Bus, s: State, command: byte, length: int)
    requires s.streams != Unset
    ensures var (a, t) := Exchange(bus, s, command, length);
            var e := t.trace[|s.trace|..];
            && t.trace == s.trace + e
            && (s.streams.Open? ==> AllAt(e, s.streams.at))
            && OnlyFrame(e, [command])
            && Frames(e) == (if e == [] then [] else [[command]])
            && Replies(e) == (if a.Ok? then [a.value] else if a == Err(IndexError) then [[]] else [])
            && (a.Ok? ==> e != [] && s.streams.Open? && Last(e) == Got(s.streams.at, a.value))
            && (a.Err? ==> a.exc == IOError || a.exc == IndexError || a.exc == ThunderBorgException)
            && (a == Err(ThunderBorgException) ==> s.streams.Closed? && e == [])
  {
    var (a, t) := Exchange(bus, s, command, length);
    var e := t.trace[|s.trace|..];
    var (w, s1) := Write(bus, s, command, []);
    assert [command as int] + [] == [command as int];
    if w.Done? {
      var ep := s.streams.at;
      assert s1.trace == s.trace + [Wrote(ep, [command])];
      var (rd, s2) := Receive(bus, s1, length);
      if rd.Ok? {
        var g := [Wrote(ep, [command]), Got(ep, rd.value)];
        assert s2.trace == s.trace + g;
        assert e == g && e[1..] == [Got(ep, rd.value)] && e[1..][1..] == [];
        assert Frames(e[1..][1..]) == [] && Replies(e[1..][1..]) == [];
        assert Frames(e[1..]) == [] && Replies(e[1..]) == [rd.value];
      } else {
        assert e == [Wrote(ep, [command])] && e[1..] == [];
      }
    } else {
      assert e == [];
    }
  }

  predicate EchoesNot(reply: seq<byte>, command: byte)
  {
    reply != [] && reply[0] != command
  }

  /**
   * What _read leaves on the channel, as `added`, when it ends with r after
   * at most k passes on streams st: every frame is the bare [command] to the
   * bound endpoint; at most k frames; every reply but the last failed to echo
   * the command; a successful read returns the last reply, which echoes the
   * command unless all k passes were used; IOError comes only from a pass whose
   * write went unacknowledged or whose read got no answer.
   */
  predicate ReadTrace(added: seq<Event>, st: Streams, command: byte, k: int, r: Result<seq<byte>>)
  {
    var frames := Frames(added);
    var replies := Replies(added);
    && (st.Open? ==> AllAt(added, st.at))
    && (forall i :: 0 <= i < |frames| ==> frames[i] == [command])
    && OnlyFrame(added, [command])
    && |replies| <= |frames| <= k
    && (forall i :: 0 <= i < |replies| - 1 ==> EchoesNot(replies[i], command))
    && (r.Ok? ==> |frames| == |replies| && replies != [] && r.value == Last(replies)
                  && r.value != [] && (r.value[0] == command || |frames| == k))
    && (r.Ok? ==> st.Open? && added != [] && Last(added) == Got(st.at, r.value))
    && (r.Err? ==> r.exc == IOError || r.exc == IndexError || r.exc == ThunderBorgException)
    && (r.Err? && r.exc == ThunderBorgException ==> st.Closed? && added == [])
    && (r.Err? && r.exc == IndexError ==> replies != [] && Last(replies) == [])
    && (r == Err(IOError) ==> |replies| < |frames| || |frames| < k)
  }

  /** A pass whose reply did not echo the command, followed by the rest of _read. */
  lemma ReadTraceStep(e: seq<Event>, rest: seq<Event>, st: Streams, command: byte, k: int,
                      reply: seq<byte>, r: Result<seq<byte>>)
    requires k >= 2 && EchoesNot(reply, command)
    requires st.Open? ==> AllAt(e, st.at)
    requires OnlyFrame(e, [command])
    requires Frames(e) == [[command]] && Replies(e) == [reply]
    requires ReadTrace(rest, st, command, k - 1, r)
    requires st.Open?
    ensures ReadTrace(e + rest, st, command, k, r)
  {
    FramesAppend(e, rest);
    if st.Open? {
      assert AllAt(e + rest, st.at);
    }
    assert OnlyFrame(e + rest, [command]);
  }

  /** An unechoed pass followed by the rest of _read. */
  lemma ReadTraceJoin(t0: seq<Event>, t1: seq<Event>, t: seq<Event>, st: Streams, command: byte, k: int,
                      reply: seq<byte>, r: Result<seq<byte>>)
    requires k >= 2 && EchoesNot(reply, command) && st.Open?
    requires |t0| <= |t1| <= |t| && t1[..|t0|] == t0 && t[..|t1|] == t1
    requires AllAt(t1[|t0|..], st.at) && OnlyFrame(t1[|t0|..], [command])
    requires Frames(t1[|t0|..]) == [[command]] && Replies(t1[|t0|..]) == [reply]
    requires ReadTrace(t[|t1|..], st, command, k - 1, r)
    ensures |t0| <= |t| && t[..|t0|] == t0 && ReadTrace(t[|t0|..], st, command, k, r)
  {
    var e := t1[|t0|..];
    var rest := t[|t1|..];
    assert t[|t0|..] == e + rest;
    ReadTraceStep(e, rest, st, command, k, reply, r);
  }

  /** The pass that ends _read leaves a trace that satisfies ReadTrace on its own. */
  lemma LastPassTrace(e: seq<Event>, st: Streams, command: byte, k: int, a: Result<seq<byte>>)
    requires k >= 1
    requires st.Open? ==> AllAt(e, st.at)
    requires OnlyFrame(e, [command])
    requires Frames(e) == (if e == [] then [] else [[command]])
    requires Replies(e) == (if a.Ok? then [a.value] else if a == Err(IndexError) then [[]] else [])
    requires a.Ok? ==> e != [] && st.Open? && Last(e) == Got(st.at, a.value) && a.value != []
    requires a.Ok? ==> a.value[0] == command || k == 1
    requires a.Err? ==> a.exc == IOError || a.exc == IndexError || a.exc == ThunderBorgException
    requires a == Err(ThunderBorgException) ==> st.Closed? && e == []
    ensures ReadTrace(e, st, command, k, a)
  {
  }

  /** The trace of _read with k passes left satisfies ReadTrace. */
  lemma {:induction false} ReadAttemptsShape(bus: Bus, s: State, command: byte, length: int, k: int)
    requires k >= 1 && s.streams != Unset
    decreases k
    ensures var (r, t) := ReadAttempts(bus, s, command, length, k);
            && |s.trace| <= |t.trace| && t.trace[..|s.trace|] == s.trace
            && ReadTrace(t.trace[|s.trace|..], s.streams, command, k, r)
  {
    var (a, s1) := Exchange(bus, s, command, length);
    PassEvents(bus, s, command, length);
    var e := s1.trace[|s.trace|..];
    if a.Err? || a.value[0] == command || k == 1 {
      LastPassTrace(e, s.streams, command, k, a);
    } else {
      assert ReadAttempts(bus, s, command, length, k) == ReadAttempts(bus, s1, command, length, k - 1);
      var (r, t) := ReadAttempts(bus, s1, command, length, k - 1);
      ReadAttemptsShape(bus, s1, command, length, k - 1);
      ReadTraceJoin(s.trace, s1.trace, t.trace, s.streams, command, k, a.value, r);
    }
  }

  /**
   * _read as called with its default of three passes: the same shape, with
   * at most three [command] frames and the reply of the first echoing pass.
   */
  lemma ReadShape(bus: Bus, s: State, command: byte, length: int)
    requires s.streams != Unset
    ensures var (r, t) := Read(bus, s, command, length, 3);
            var added := t.trace[|s.trace|..];
            && t.trace[..|s.trace|] == s.trace
            && |Frames(added)| <= 3
            && (r.Ok? && r.value[0] != command ==> |Frames(added)| == 3)
            && (r.Ok? ==> Replies(added) != [] && Last(Replies(added)) == r.value)
            && (r == Err(IOError) ==> |Replies(added)| < |Frames(added)| || |Frames(added)| < 3)
            && (r.Err? ==> r.exc == IOError || r.exc == IndexError || r.exc == ThunderBorgException)
            && (r == Err(IndexError) ==> Replies(added) != [] && Last(Replies(added)) == [])
            && (r == Err(ThunderBorgException) ==> s.streams.Closed? && t.trace == s.trace)
  {
    ReadAttemptsShape(bus, s, command, length, 3);
  }

  /**
   * A bus on which nothing depends on history: the device nodes of buses 0
   * and 1 (and of busNum) open, only busNum carries boards, the addresses in
   * `acks` acknowledge, and `reply` says what each answers.
   */
  function StaticBus(busNum: int, acks: set<int>, reply: int -> ReadResult): Bus
  {
    Bus({0, 1, busNum}, {},
        (h: seq<Event>, ep: Endpoint) => ep.bus == busNum && ep.addr in acks,
        (h: seq<Event>, ep: Endpoint, n: int) => if ep.bus == busNum then reply(ep.addr) else NoAnswer)
  }

  /** What one pass of _read yields at address a of a static bus. */
  function StaticExchange(acks: set<int>, reply: int -> ReadResult, a: int): Result<seq<byte>>
  {
    if a !in acks then Err(IOError)
    else match reply(a)
      case NoAnswer => Err(IOError)
      case Answer(d) => if d == [] then Err(IndexError) else Ok(d)
  }

  /** On a static bus every pass sees the same reply, so _read returns what its first pass read. */
  lemma {:induction false} StaticRead(busNum: int, acks: set<int>, reply: int -> ReadResult,
                                      s: State, a: int, command: byte, length: int, k: int)
    requires k >= 1 && s.streams == Open(Endpoint(busNum, a))
    decreases k
    ensures ReadAttempts(StaticBus(busNum, acks, reply), s, command, length, k).0
            == StaticExchange(acks, reply, a)
  {
    var bus := StaticBus(busNum, acks, reply);
    var (x, s1) := Exchange(bus, s, command, length);
    assert x == StaticExchange(acks, reply, a);
    if !(x.Err? || x.value[0] == command || k == 1) {
      StaticRead(busNum, acks, reply, s1, a, command, length, k - 1);
    }
  }
}
