/**
 * Finding a ThunderBorg and moving it to another address: _check_board_chip,
 * _is_thunder_borg_board, find_board, _auto_set_address, _initialize_board
 * and set_i2c_address (tborg/tborg.py:177-432), as functions of the session
 * state over the bus oracle of module Channel.
 */
module Locator {
  import opened Outcomes
  import opened Codec
  import opened Channel

  const DEFAULT_BUS_NUM: int := 1
  const DEFAULT_I2C_ADDRESS: int := 0x15
  const POSSIBLE_BUSES: seq<int> := [0, 1]
  /** find_board probes range(0x03, 0x77): SCAN_END itself is never probed. */
  const SCAN_FIRST: int := 0x03
  const SCAN_END: int := 0x77
  /** set_i2c_address accepts a new address in 0x03..0x77, both ends included. */
  const ADDRESS_MIN: int := 0x03
  const ADDRESS_MAX: int := 0x77
  /** The pause after the address change, time.sleep(0.1). */
  const SETTLE_MS: nat := 100

  /** _check_board_chip: a reply of exactly six bytes whose second byte is the ThunderBorg id. */
  predicate CheckBoardChip(recv: seq<byte>)
  {
    |recv| == I2C_READ_LEN && recv[1] == I2C_ID_THUNDERBORG
  }

  /** The last event of the trace is a ThunderBorg id reply from ep. */
  predicate LastReplyFrom(trace: seq<Event>, ep: Endpoint)
  {
    && trace != []
    && Last(trace).Got?
    && Last(trace).from == ep
    && CheckBoardChip(Last(trace).reply)
  }

  /** The session is bound to ep, and ep has just identified itself as a ThunderBorg. */
  predicate Answered(s: State, ep: Endpoint)
  {
    s.streams == Open(ep) && LastReplyFrom(s.trace, ep)
  }

  predicate Bindable(bus: Bus, ep: Endpoint)
  {
    ep.bus in bus.devices && ep !in bus.busy
  }

  /**
   * _is_thunder_borg_board: bind the endpoint, read the id with _read's
   * three passes, and check it. A failed bind or an IOError from the read
   * answers false; any other exception of the read escapes.
   */
  function Probe(bus: Bus, s: State, busNum: int, address: int): (Result<bool>, State)
  {
    var (ok, s1) := InitBus(bus, s, Endpoint(busNum, address));
    if !ok then (Ok(false), s1)
    else
      var (rd, s2) := Read(bus, s1, GET_ID, I2C_READ_LEN, 3);
      if rd == Err(IOError) then (Ok(false), s2)
      else if rd.Err? then (Err(rd.exc), s2)
      else (Ok(CheckBoardChip(rd.value)), s2)
  }

  /**
   * A probe only appends to the trace, only talks to its endpoint, only
   * sends the id command, answers true exactly when the endpoint has just
   * identified itself, and lets only an empty reply escape as an exception.
   */
  lemma ProbeShape(bus: Bus, s: State, busNum: int, address: int)
    ensures var (r, t) := Probe(bus, s, busNum, address);
            var ep := Endpoint(busNum, address);
            && |s.trace| <= |t.trace| && t.trace[..|s.trace|] == s.trace
            && AllAt(t.trace[|s.trace|..], ep)
            && OnlyFrame(t.trace[|s.trace|..], [GET_ID])
            && |Frames(t.trace[|s.trace|..])| <= 3
            && (r.Err? ==> r.exc == IndexError)
            && (r == Ok(true) ==> Answered(t, ep))
            && (Bindable(bus, ep) <==> t.streams == Open(ep))
            && (!Bindable(bus, ep) ==> r == Ok(false) && t.trace == s.trace)
  {
    var ep := Endpoint(busNum, address);
    var (ok, s1) := InitBus(bus, s, ep);
    if ok {
      ReadAttemptsShape(bus, s1, GET_ID, I2C_READ_LEN, 3);
      var (rd, s2) := Read(bus, s1, GET_ID, I2C_READ_LEN, 3);
      var added := s2.trace[|s1.trace|..];
      if rd.Ok? {
        assert s2.trace == s1.trace + added;
        assert Last(s2.trace) == Last(added);
      }
    } else {
      assert s1.trace[|s.trace|..] == [];
    }
  }

  // ------------------------------------------------------------ find_board

  /** The scan loop of find_board from `address` on, with the addresses found so far. */
  function ScanFrom(bus: Bus, s: State, busNum: int, address: int, found: seq<int>): (Result<seq<int>>, State)
    decreases SCAN_END - address
  {
    if address >= SCAN_END then (Ok(found), s)
    else
      var (p, s1) := Probe(bus, s, busNum, address);
      if p.Err? then (Err(p.exc), s1)
      else ScanFrom(bus, s1, busNum, address + 1, if p.value then found + [address] else found)
  }

  /** find_board: probe every address of range(0x03, 0x77) in turn, then close the streams if asked. */
  function FindBoard(bus: Bus, s: State, busNum: int, close: bool): (Result<seq<int>>, State)
  {
    var (r, s1) := ScanFrom(bus, s, busNum, SCAN_FIRST, []);
    if r.Ok? && close then (r, CloseStreams(s1)) else (r, s1)
  }

  predicate Ascending(xs: seq<int>)
  {
    forall i, j :: 0 <= i < j < |xs| ==> xs[i] < xs[j]
  }

  /** Somewhere in the trace, ep identified itself as a ThunderBorg. */
  predicate Reported(trace: seq<Event>, ep: Endpoint)
  {
    exists j :: 0 <= j < |trace| && trace[j].Got? && trace[j].from == ep && CheckBoardChip(trace[j].reply)
  }

  lemma ReportedKept(a: seq<Event>, b: seq<Event>, ep: Endpoint)
    requires Reported(a, ep) && |a| <= |b| && b[..|a|] == a
    ensures Reported(b, ep)
  {
    var j :| 0 <= j < |a| && a[j].Got? && a[j].from == ep && CheckBoardChip(a[j].reply);
    assert b[j] == b[..|a|][j];
  }

  ghost predicate Prefix<T>(a: seq<T>, b: seq<T>)
  {
    |a| <= |b| && b[..|a|] == a
  }

  lemma PrefixTrans<T>(a: seq<T>, b: seq<T>, c: seq<T>)
    requires Prefix(a, b) && Prefix(b, c)
    ensures Prefix(a, c)
  {
    assert c[..|b|][..|a|] == c[..|a|];
  }

  /** What the scan from `address` promises about its result, given the addresses found before it. */
  predicate ScanResult(found: seq<int>, address: int, busNum: int, r: Result<seq<int>>, trace: seq<Event>)
  {
    && (r.Err? ==> r.exc == IndexError)
    && (r.Ok? ==> && Ascending(r.value)
                  && |found| <= |r.value| && r.value[..|found|] == found
                  && (forall i :: |found| <= i < |r.value| ==>
                        address <= r.value[i] < SCAN_END
                        && Reported(trace, Endpoint(busNum, r.value[i]))))
  }

  lemma ScanResultStep(found: seq<int>, address: int, busNum: int, hit: bool,
                       r: Result<seq<int>>, t1: seq<Event>, t: seq<Event>)
    requires address < SCAN_END
    requires hit ==> Reported(t1, Endpoint(busNum, address))
    requires Prefix(t1, t)
    requires ScanResult(if hit then found + [address] else found, address + 1, busNum, r, t)
    ensures ScanResult(found, address, busNum, r, t)
  {
    var found' := if hit then found + [address] else found;
    if r.Ok? {
      assert r.value[..|found|] == r.value[..|found'|][..|found|];
      if hit {
        ReportedKept(t1, t, Endpoint(busNum, address));
        assert r.value[|found|] == found'[|found|] == address;
      }
      forall i | |found| <= i < |r.value|
        ensures address <= r.value[i] < SCAN_END && Reported(t, Endpoint(busNum, r.value[i]))
      {
      }
    }
  }

  /**
   * The scan returns the addresses it was given followed by new ones in
   * ascending order, all within [address, SCAN_END), each of which
   * identified itself as a ThunderBorg during the scan.
   */
  lemma {:induction false} ScanFound(bus: Bus, s: State, busNum: int, address: int, found: seq<int>)
    requires Ascending(found)
    requires forall i :: 0 <= i < |found| ==> found[i] < address
    decreases SCAN_END - address
    ensures var (r, t) := ScanFrom(bus, s, busNum, address, found);
            Prefix(s.trace, t.trace) && ScanResult(found, address, busNum, r, t.trace)
  {
    if address < SCAN_END {
      var (p, s1) := Probe(bus, s, busNum, address);
      ProbeFound(bus, s, busNum, address);
      if p.Ok? {
        var found' := if p.value then found + [address] else found;
        assert ScanFrom(bus, s, busNum, address, found) == ScanFrom(bus, s1, busNum, address + 1, found');
        var (r, t) := ScanFrom(bus, s1, busNum, address + 1, found');
        ScanFound(bus, s1, busNum, address + 1, found');
        ScanFoundStep(found, address, busNum, p.value, r, s.trace, s1.trace, t.trace);
      }
    }
  }

  /** What the scan needs of one probe: the trace grows, and a hit has just identified itself. */
  lemma ProbeFound(bus: Bus, s: State, busNum: int, address: int)
    ensures var (r, t) := Probe(bus, s, busNum, address);
            && Prefix(s.trace, t.trace)
            && (r.Err? ==> r.exc == IndexError)
            && (r == Ok(true) ==> LastReplyFrom(t.trace, Endpoint(busNum, address)))
  {
    ProbeShape(bus, s, busNum, address);
  }

  /** What the scan's order needs of one probe: it talks only to its endpoint, and only sends GET_ID. */
  lemma ProbeTrace(bus: Bus, s: State, busNum: int, address: int)
    ensures var (r, t) := Probe(bus, s, busNum, address);
            && Prefix(s.trace, t.trace)
            && AllAt(t.trace[|s.trace|..], Endpoint(busNum, address))
            && OnlyFrame(t.trace[|s.trace|..], [GET_ID])
  {
    ProbeShape(bus, s, busNum, address);
  }

  /** One probe of the scan, joined to the rest of it. */
  lemma ScanFoundStep(found: seq<int>, address: int, busNum: int, hit: bool,
                      r: Result<seq<int>>, t0: seq<Event>, t1: seq<Event>, t: seq<Event>)
    requires address < SCAN_END
    requires hit ==> LastReplyFrom(t1, Endpoint(busNum, address))
    requires Prefix(t0, t1) && Prefix(t1, t)
    requires ScanResult(if hit then found + [address] else found, address + 1, busNum, r, t)
    ensures Prefix(t0, t) && ScanResult(found, address, busNum, r, t)
  {
    PrefixTrans(t0, t1, t);
    if hit {
      assert t1[|t1| - 1] == Last(t1);
    }
    ScanResultStep(found, address, busNum, hit, r, t1, t);
  }

  /** The endpoint an event went to or came from. */
  function At(e: Event): Endpoint
  {
    match e
    case Wrote(to, _) => to
    case Got(from, _) => from
    case Slept(_) => Endpoint(-1, -1)
  }

  /**
   * What a scan from lo puts on the channel: only id requests and replies,
   * on one bus, at addresses in [lo, SCAN_END) that never decrease.
   */
  predicate ScanTrace(events: seq<Event>, busNum: int, lo: int)
  {
    && (forall i :: 0 <= i < |events| ==>
          !events[i].Slept? && At(events[i]).bus == busNum && lo <= At(events[i]).addr < SCAN_END)
    && (forall i, j :: 0 <= i < j < |events| ==> At(events[i]).addr <= At(events[j]).addr)
    && OnlyFrame(events, [GET_ID])
  }

  lemma ScanTraceStep(e: seq<Event>, rest: seq<Event>, busNum: int, address: int)
    requires SCAN_FIRST <= address < SCAN_END
    requires AllAt(e, Endpoint(busNum, address)) && OnlyFrame(e, [GET_ID])
    requires ScanTrace(rest, busNum, address + 1)
    ensures ScanTrace(e + rest, busNum, address)
  {
    var all := e + rest;
    forall i | 0 <= i < |all|
      ensures !all[i].Slept? && At(all[i]).bus == busNum && address <= At(all[i]).addr < SCAN_END
    {
      if i >= |e| {
        assert all[i] == rest[i - |e|];
      }
    }
    forall i, j | 0 <= i < j < |all|
      ensures At(all[i]).addr <= At(all[j]).addr
    {
      if j >= |e| {
        assert all[j] == rest[j - |e|];
        if i >= |e| {
          assert all[i] == rest[i - |e|];
        }
      }
    }
    assert OnlyFrame(all, [GET_ID]) by {
      forall i | 0 <= i < |all| && all[i].Wrote?
        ensures all[i].frame == [GET_ID]
      {
        if i >= |e| {
          assert all[i] == rest[i - |e|];
        }
      }
    }
  }

  /** A probe at `address` followed by the scan from the next address is the scan from `address`. */
  lemma ScanTraceJoin(t0: seq<Event>, t1: seq<Event>, t: seq<Event>, busNum: int, address: int)
    requires SCAN_FIRST <= address < SCAN_END
    requires Prefix(t0, t1) && Prefix(t1, t)
    requires AllAt(t1[|t0|..], Endpoint(busNum, address)) && OnlyFrame(t1[|t0|..], [GET_ID])
    requires ScanTrace(t[|t1|..], busNum, address + 1)
    ensures Prefix(t0, t) && ScanTrace(t[|t0|..], busNum, address)
  {
    PrefixTrans(t0, t1, t);
    var e := t1[|t0|..];
    var rest := t[|t1|..];
    assert t[|t0|..] == e + rest;
    ScanTraceStep(e, rest, busNum, address);
  }

  /** The scan's traffic, in the order find_board sends it. */
  lemma {:induction false} ScanOrder(bus: Bus, s: State, busNum: int, address: int, found: seq<int>)
    requires SCAN_FIRST <= address
    decreases SCAN_END - address
    ensures var (r, t) := ScanFrom(bus, s, busNum, address, found);
            Prefix(s.trace, t.trace) && ScanTrace(t.trace[|s.trace|..], busNum, address)
  {
    if address >= SCAN_END {
      assert s.trace[|s.trace|..] == [];
    } else {
      var (p, s1) := Probe(bus, s, busNum, address);
      ProbeTrace(bus, s, busNum, address);
      if p.Err? {
        assert s1.trace[|s1.trace|..] == [];
        ScanTraceJoin(s.trace, s1.trace, s1.trace, busNum, address);
      } else {
        var found' := if p.value then found + [address] else found;
        assert ScanFrom(bus, s, busNum, address, found) == ScanFrom(bus, s1, busNum, address + 1, found');
        var (r, t) := ScanFrom(bus, s1, busNum, address + 1, found');
        ScanOrder(bus, s1, busNum, address + 1, found');
        ScanTraceJoin(s.trace, s1.trace, t.trace, busNum, address);
      }
    }
  }

  /**
   * find_board returns ascending addresses from [0x03, 0x77), each of which
   * identified itself during the scan, so 0x77 is never among them; its
   * traffic is id requests on busNum only, in address order; only an empty
   * reply makes it raise; with close the streams end closed.
   */
  lemma FindBoardShape(bus: Bus, s: State, busNum: int, close: bool)
    ensures var (r, t) := FindBoard(bus, s, busNum, close);
            && Prefix(s.trace, t.trace)
            && ScanTrace(t.trace[|s.trace|..], busNum, SCAN_FIRST)
            && (r.Err? ==> r.exc == IndexError)
            && (r.Ok? ==> && Ascending(r.value)
                          && SCAN_END !in r.value
                          && (forall i :: 0 <= i < |r.value| ==>
                                SCAN_FIRST <= r.value[i] < SCAN_END
                                && Reported(t.trace, Endpoint(busNum, r.value[i]))))
            && (r.Ok? && close ==> !t.streams.Open?)
  {
    ScanFound(bus, s, busNum, SCAN_FIRST, []);
    ScanOrder(bus, s, busNum, SCAN_FIRST, []);
  }

  // ------------------------------------------------- a bus without history

  /** On a static bus, whether address a holds a ThunderBorg. */
  predicate StaticBoard(acks: set<int>, reply: int -> ReadResult, a: int)
  {
    var x := StaticExchange(acks, reply, a);
    x.Ok? && CheckBoardChip(x.value)
  }

  /** The ThunderBorg addresses of a static bus in [address, SCAN_END), in order. */
  function StaticBoards(acks: set<int>, reply: int -> ReadResult, address: int): seq<int>
    decreases SCAN_END - address
  {
    if address >= SCAN_END then []
    else (if StaticBoard(acks, reply, address) then [address] else []) + StaticBoards(acks, reply, address + 1)
  }

  lemma ProbeStatic(busNum: int, acks: set<int>, reply: int -> ReadResult, s: State, a: int)
    ensures Probe(StaticBus(busNum, acks, reply), s, busNum, a).0
            == if StaticExchange(acks, reply, a) == Err(IndexError) then Err(IndexError)
               else Ok(StaticBoard(acks, reply, a))
  {
    var (ok, s1) := InitBus(StaticBus(busNum, acks, reply), s, Endpoint(busNum, a));
    StaticRead(busNum, acks, reply, s1, a, GET_ID, I2C_READ_LEN, 3);
  }

  /** Where no answering address sends an empty reply, the scan of a static bus finds exactly its boards. */
  lemma {:induction false} ScanStatic(busNum: int, acks: set<int>, reply: int -> ReadResult,
                                      s: State, address: int, found: seq<int>)
    requires forall a :: address <= a < SCAN_END && a in acks ==> reply(a) != Answer([])
    decreases SCAN_END - address
    ensures ScanFrom(StaticBus(busNum, acks, reply), s, busNum, address, found).0
            == Ok(found + StaticBoards(acks, reply, address))
  {
    if address >= SCAN_END {
      assert found + [] == found;
    } else {
      var bus := StaticBus(busNum, acks, reply);
      var (p, s1) := Probe(bus, s, busNum, address);
      ProbeStatic(busNum, acks, reply, s, address);
      assert StaticExchange(acks, reply, address) != Err(IndexError);
      var found' := if p.value then found + [address] else found;
      assert ScanFrom(bus, s, busNum, address, found) == ScanFrom(bus, s1, busNum, address + 1, found');
      ScanStatic(busNum, acks, reply, s1, address + 1, found');
      StaticBoardsStep(acks, reply, address, found);
    }
  }

  /** find_board on a static bus agrees with the reference list of its boards. */
  lemma FindBoardStatic(busNum: int, acks: set<int>, reply: int -> ReadResult, s: State, close: bool)
    requires forall a :: SCAN_FIRST <= a < SCAN_END && a in acks ==> reply(a) != Answer([])
    ensures FindBoard(StaticBus(busNum, acks, reply), s, busNum, close).0
            == Ok(StaticBoards(acks, reply, SCAN_FIRST))
  {
    ScanStatic(busNum, acks, reply, s, SCAN_FIRST, []);
    assert [] + StaticBoards(acks, reply, SCAN_FIRST) == StaticBoards(acks, reply, SCAN_FIRST);
  }

  /** One address of the reference list, appended to what was found before it. */
  lemma StaticBoardsStep(acks: set<int>, reply: int -> ReadResult, address: int, found: seq<int>)
    requires address < SCAN_END
    ensures (if StaticBoard(acks, reply, address) then found + [address] else found)
              + StaticBoards(acks, reply, address + 1)
            == found + StaticBoards(acks, reply, address)
  {
    var head: seq<int> := if StaticBoard(acks, reply, address) then [address] else [];
    var rest := StaticBoards(acks, reply, address + 1);
    assert StaticBoards(acks, reply, address) == head + rest;
    assert (found + head) + rest == found + (head + rest);
  }

  /** An address of a static bus is a ThunderBorg exactly when it acknowledges and replies with the id. */
  lemma StaticBoardIff(acks: set<int>, reply: int -> ReadResult, a: int)
    ensures StaticBoard(acks, reply, a) <==> a in acks && reply(a).Answer? && CheckBoardChip(reply(a).data)
  {
  }

  /**
   * The reference list holds exactly the addresses of [address, SCAN_END)
   * that acknowledge and reply with six bytes carrying the ThunderBorg id.
   */
  lemma {:induction false} StaticBoardsExactly(acks: set<int>, reply: int -> ReadResult, address: int)
    decreases SCAN_END - address
    ensures forall x :: x in StaticBoards(acks, reply, address) <==>
              address <= x < SCAN_END && x in acks && reply(x).Answer? && CheckBoardChip(reply(x).data)
  {
    if address < SCAN_END {
      StaticBoardsExactly(acks, reply, address + 1);
      StaticBoardIff(acks, reply, address);
      var rest := StaticBoards(acks, reply, address + 1);
      var head: seq<int> := if StaticBoard(acks, reply, address) then [address] else [];
      assert StaticBoards(acks, reply, address) == head + rest;
    }
  }

  /** The reference list is in ascending order. */
  lemma {:induction false} StaticBoardsAscending(acks: set<int>, reply: int -> ReadResult, address: int)
    decreases SCAN_END - address
    ensures Ascending(StaticBoards(acks, reply, address))
    ensures forall i :: 0 <= i < |StaticBoards(acks, reply, address)| ==> address <= StaticBoards(acks, reply, address)[i]
  {
    if address < SCAN_END {
      StaticBoardsAscending(acks, reply, address + 1);
      var rest := StaticBoards(acks, reply, address + 1);
      var head: seq<int> := if StaticBoard(acks, reply, address) then [address] else [];
      var all := head + rest;
      assert StaticBoards(acks, reply, address) == all;
      forall i, j | 0 <= i < j < |all| ensures all[i] < all[j] {
        if i < |head| {
          assert all[j] == rest[j - |head|];
        } else {
          assert all[i] == rest[i - |head|] && all[j] == rest[j - |head|];
        }
      }
      forall i | 0 <= i < |all| ensures address <= all[i] {
        if i >= |head| {
          assert all[i] == rest[i - |head|];
        }
      }
    }
  }

  lemma {:induction false} StaticBoardsSingle(acks: set<int>, reply: int -> ReadResult, address: int, x: int)
    requires forall a :: address <= a < SCAN_END ==> (StaticBoard(acks, reply, a) <==> a == x)
    decreases SCAN_END - address
    ensures StaticBoards(acks, reply, address) == if address <= x < SCAN_END then [x] else []
  {
    if address < SCAN_END {
      StaticBoardsSingle(acks, reply, address + 1, x);
      if address == x {
        assert [x] + [] == [x];
      }
    }
  }

  /** The id reply of a ThunderBorg. */
  const ID_REPLY: seq<byte> := [GET_ID, I2C_ID_THUNDERBORG, 0, 0, 0, 0]

  /** Replies of a bus that holds one ThunderBorg, at address x. */
  function OneBoard(x: int): int -> ReadResult
  {
    (a: int) => if a == x then Answer(ID_REPLY) else NoAnswer
  }

  /**
   * A single board is found by find_board exactly when it sits in
   * [0x03, 0x77): one at 0x77, an address set_i2c_address accepts, is never
   * found.
   */
  lemma FindBoardOne(busNum: int, x: int, s: State, close: bool)
    ensures FindBoard(StaticBus(busNum, {x}, OneBoard(x)), s, busNum, close).0
            == Ok(if SCAN_FIRST <= x < SCAN_END then [x] else [])
  {
    OneBoardFacts(x);
    FindBoardStatic(busNum, {x}, OneBoard(x), s, close);
    StaticBoardsSingle({x}, OneBoard(x), SCAN_FIRST, x);
  }

  /** The lone board at x is the only ThunderBorg, and no address sends an empty reply. */
  lemma OneBoardFacts(x: int)
    ensures forall a :: StaticBoard({x}, OneBoard(x), a) <==> a == x
    ensures forall a :: a in {x} ==> OneBoard(x)(a) != Answer([])
  {
    forall a ensures StaticBoard({x}, OneBoard(x), a) <==> a == x {
      if a == x {
        assert StaticExchange({x}, OneBoard(x), a) == Ok(ID_REPLY);
      }
    }
  }

  /** A probe of another bus than the one carrying the boards answers false: no write there is acknowledged. */
  lemma ProbeElsewhere(busNum: int, acks: set<int>, reply: int -> ReadResult, s: State, b: int, a: int)
    requires b != busNum
    ensures Probe(StaticBus(busNum, acks, reply), s, b, a).0 == Ok(false)
  {
    var bus := StaticBus(busNum, acks, reply);
    var (ok, s1) := InitBus(bus, s, Endpoint(b, a));
    if ok {
      var (x, s2) := Exchange(bus, s1, GET_ID, I2C_READ_LEN);
      assert x == Err(IOError);
    }
  }

  /** The scan of a bus without boards finds nothing. */
  lemma {:induction false} ScanElsewhere(busNum: int, acks: set<int>, reply: int -> ReadResult,
                                         s: State, b: int, address: int, found: seq<int>)
    requires b != busNum
    decreases SCAN_END - address
    ensures ScanFrom(StaticBus(busNum, acks, reply), s, b, address, found).0 == Ok(found)
  {
    if address < SCAN_END {
      var bus := StaticBus(busNum, acks, reply);
      var (p, s1) := Probe(bus, s, b, address);
      ProbeElsewhere(busNum, acks, reply, s, b, address);
      assert ScanFrom(bus, s, b, address, found) == ScanFrom(bus, s1, b, address + 1, found);
      ScanElsewhere(busNum, acks, reply, s1, b, address + 1, found);
    }
  }

  // ---------------------------------------------------- _auto_set_address

  /**
   * _auto_set_address: scan the default bus 1 without closing, whatever
   * busNum is, then probe the first address found on busNum.
   */
  function AutoSetAddress(bus: Bus, s: State, busNum: int): (Result<bool>, State)
  {
    var (f, s1) := FindBoard(bus, s, DEFAULT_BUS_NUM, false);
    if f.Err? then (Err(f.exc), s1)
    else if f.value == [] then (Ok(false), s1)
    else Probe(bus, s1, busNum, f.value[0])
  }

  /**
   * A successful _auto_set_address leaves the session bound on busNum to an
   * address in [0x03, 0x77) that identified itself on bus 1 during the scan
   * and has just identified itself again on busNum.
   */
  lemma AutoSetAddressShape(bus: Bus, s: State, busNum: int)
    ensures var (r, t) := AutoSetAddress(bus, s, busNum);
            && Prefix(s.trace, t.trace)
            && (r.Err? ==> r.exc == IndexError)
            && (r == Ok(true) ==> && t.streams.Open? && Answered(t, t.streams.at)
                                  && t.streams.at.bus == busNum
                                  && SCAN_FIRST <= t.streams.at.addr < SCAN_END
                                  && Reported(t.trace, Endpoint(DEFAULT_BUS_NUM, t.streams.at.addr)))
            && var f := FindBoard(bus, s, DEFAULT_BUS_NUM, false).0;
            && (f.Err? ==> r == Err(f.exc))
            && (f == Ok([]) ==> r == Ok(false))
            && (r == Ok(true) ==> f.Ok? && f.value != [] && t.streams == Open(Endpoint(busNum, f.value[0])))
  {
    var (f, s1) := FindBoard(bus, s, DEFAULT_BUS_NUM, false);
    FindBoardShape(bus, s, DEFAULT_BUS_NUM, false);
    if f.Ok? && f.value != [] {
      var (p, t) := Probe(bus, s1, busNum, f.value[0]);
      ProbeShape(bus, s1, busNum, f.value[0]);
      PrefixTrans(s.trace, s1.trace, t.trace);
      ReportedKept(s1.trace, t.trace, Endpoint(DEFAULT_BUS_NUM, f.value[0]));
    }
  }

  /**
   * On a bus with fixed replies, _auto_set_address asked for bus 1 succeeds
   * exactly when the scan of bus 1 finds a board, and binds the first one.
   */
  lemma AutoSetStatic(acks: set<int>, reply: int -> ReadResult, s: State)
    requires forall a :: SCAN_FIRST <= a < SCAN_END && a in acks ==> reply(a) != Answer([])
    ensures var (r, t) := AutoSetAddress(StaticBus(DEFAULT_BUS_NUM, acks, reply), s, DEFAULT_BUS_NUM);
            var boards := StaticBoards(acks, reply, SCAN_FIRST);
            && r == Ok(boards != [])
            && (boards != [] ==> t.streams == Open(Endpoint(DEFAULT_BUS_NUM, boards[0])))
  {
    var bus := StaticBus(DEFAULT_BUS_NUM, acks, reply);
    var boards := StaticBoards(acks, reply, SCAN_FIRST);
    FindBoardStatic(DEFAULT_BUS_NUM, acks, reply, s, false);
    var (f, s1) := FindBoard(bus, s, DEFAULT_BUS_NUM, false);
    if boards != [] {
      var x := boards[0];
      StaticBoardsExactly(acks, reply, SCAN_FIRST);
      assert x in boards;
      ProbeStatic(DEFAULT_BUS_NUM, acks, reply, s1, x);
      ProbeShape(bus, s1, DEFAULT_BUS_NUM, x);
    }
  }

  // ---------------------------------------------------- _initialize_board

  /** xs without the occurrences of x, in order. */
  function Without(xs: seq<int>, x: int): (ys: seq<int>)
    ensures |ys| <= |xs|
    ensures forall y :: y in ys <==> y in xs && y != x
  {
    if xs == [] then []
    else (if xs[0] == x then [] else [xs[0]]) + Without(xs[1..], x)
  }

  /** The buses _initialize_board tries after busNum: none at all when auto_set_addr is set. */
  function AlternateBuses(busNum: int, autoSetAddr: bool): (buses: seq<int>)
    ensures autoSetAddr ==> buses == []
    ensures !autoSetAddr ==> forall b :: b in buses <==> b in POSSIBLE_BUSES && b != busNum
    ensures !autoSetAddr ==> buses == if busNum == 0 then [1] else if busNum == 1 then [0] else [0, 1]
  {
    if autoSetAddr then []
    else
      assert POSSIBLE_BUSES[1..] == [1] && [1][1..] == [];
      assert Without([1], busNum) == (if busNum == 1 then [] else [1]) + Without([], busNum);
      Without(POSSIBLE_BUSES, busNum)
  }

  /** The loop over the alternate buses: each probe overwrites the flag of the one before. */
  function ProbeEach(bus: Bus, s: State, buses: seq<int>, address: int, found: bool): (Result<bool>, State)
    decreases |buses|
  {
    if buses == [] then (Ok(found), s)
    else
      var (p, s1) := Probe(bus, s, buses[0], address);
      if p.Err? then (p, s1) else ProbeEach(bus, s1, buses[1..], address, p.value)
  }

  /** Only the last bus counts: the loop over buses + [b] is the loop over buses, then one probe of b. */
  lemma {:induction false} ProbeEachSnoc(bus: Bus, s: State, buses: seq<int>, b: int, address: int, found: bool)
    decreases |buses|
    ensures ProbeEach(bus, s, buses + [b], address, found)
            == (var (r, s1) := ProbeEach(bus, s, buses, address, found);
                if r.Err? then (r, s1) else Probe(bus, s1, b, address))
  {
    if buses == [] {
      assert [] + [b] == [b] && [b][1..] == [];
    } else {
      assert (buses + [b])[0] == buses[0];
      assert (buses + [b])[1..] == buses[1..] + [b];
      var (p, s1) := Probe(bus, s, buses[0], address);
      if p.Ok? {
        ProbeEachSnoc(bus, s1, buses[1..], b, address, p.value);
      }
    }
  }

  /** After the loop over a non-empty list of buses, true means the last bus has just answered. */
  lemma {:induction false} ProbeEachShape(bus: Bus, s: State, buses: seq<int>, address: int, found: bool)
    decreases |buses|
    ensures var (r, t) := ProbeEach(bus, s, buses, address, found);
            && Prefix(s.trace, t.trace)
            && (r.Err? ==> r.exc == IndexError)
            && (buses == [] ==> r == Ok(found) && t == s)
            && (buses != [] && r == Ok(true) ==> Answered(t, Endpoint(Last(buses), address)))
  {
    if buses != [] {
      var (p, s1) := Probe(bus, s, buses[0], address);
      ProbeShape(bus, s, buses[0], address);
      if p.Ok? {
        var (r, t) := ProbeEach(bus, s1, buses[1..], address, p.value);
        ProbeEachShape(bus, s1, buses[1..], address, p.value);
        PrefixTrans(s.trace, s1.trace, t.trace);
        if buses[1..] != [] {
          assert Last(buses[1..]) == Last(buses);
        }
      }
    }
  }

  /**
   * _initialize_board: probe busNum; failing that, probe the alternate
   * buses (only the last one's answer counts); failing that, raise unless
   * auto_set_addr is set, in which case _auto_set_address decides.
   */
  function Initialize(bus: Bus, s: State, busNum: int, address: int, autoSetAddr: bool): (Outcome, State)
  {
    var (p, s1) := Probe(bus, s, busNum, address);
    if p.Err? then (Raised(p.exc), s1)
    else if p.value then (Done, s1)
    else
      var (f, s2) := ProbeEach(bus, s1, AlternateBuses(busNum, autoSetAddr), address, false);
      if f.Err? then (Raised(f.exc), s2)
      else if f.value then (Done, s2)
      else if !autoSetAddr then (Raised(ThunderBorgException), s2)
      else
        var (a, s3) := AutoSetAddress(bus, s2, busNum);
        if a.Err? then (Raised(a.exc), s3)
        else if a.value then (Done, s3)
        else (Raised(ThunderBorgException), s3)
  }

  /**
   * A session that initialises is bound to a ThunderBorg that has just
   * identified itself: at the requested endpoint, at the requested address
   * on another possible bus, or (with auto_set_addr) at a scanned address on
   * busNum. Otherwise the constructor raises ThunderBorgException, or
   * IndexError on an empty reply.
   */
  lemma InitializeShape(bus: Bus, s: State, busNum: int, address: int, autoSetAddr: bool)
    ensures var (r, t) := Initialize(bus, s, busNum, address, autoSetAddr);
            && Prefix(s.trace, t.trace)
            && (r.Raised? ==> r.exc == ThunderBorgException || r.exc == IndexError)
            && (r.Done? ==> && t.streams.Open? && Answered(t, t.streams.at)
                            && (|| t.streams.at == Endpoint(busNum, address)
                                || (&& !autoSetAddr && t.streams.at.addr == address
                                    && t.streams.at.bus in POSSIBLE_BUSES && t.streams.at.bus != busNum)
                                || (&& autoSetAddr && t.streams.at.bus == busNum
                                    && SCAN_FIRST <= t.streams.at.addr < SCAN_END)))
            && (Probe(bus, s, busNum, address).0 == Ok(true) ==> r == Done && t.streams == Open(Endpoint(busNum, address)))
  {
    var (p, s1) := Probe(bus, s, busNum, address);
    ProbeShape(bus, s, busNum, address);
    if p.Ok? && !p.value {
      var alt := AlternateBuses(busNum, autoSetAddr);
      var (f, s2) := ProbeEach(bus, s1, alt, address, false);
      ProbeEachShape(bus, s1, alt, address, false);
      PrefixTrans(s.trace, s1.trace, s2.trace);
      if f == Ok(true) {
        assert Last(alt) in alt;
      }
      if f == Ok(false) && autoSetAddr {
        var (a, s3) := AutoSetAddress(bus, s2, busNum);
        AutoSetAddressShape(bus, s2, busNum);
        PrefixTrans(s.trace, s2.trace, s3.trace);
      }
    }
  }

  /** A ThunderBorg at the requested endpoint of a bus with fixed replies: the constructor binds it. */
  lemma InitializeStatic(busNum: int, acks: set<int>, reply: int -> ReadResult, s: State, address: int, autoSetAddr: bool)
    requires StaticBoard(acks, reply, address)
    ensures var (r, t) := Initialize(StaticBus(busNum, acks, reply), s, busNum, address, autoSetAddr);
            r == Done && t.streams == Open(Endpoint(busNum, address))
  {
    var bus := StaticBus(busNum, acks, reply);
    ProbeStatic(busNum, acks, reply, s, address);
    InitializeShape(bus, s, busNum, address, autoSetAddr);
  }

  /**
   * Without auto_set_addr, a ThunderBorg at the requested address on the
   * other possible bus is found there and bound.
   */
  lemma InitializeAlternate(b: int, busNum: int, acks: set<int>, reply: int -> ReadResult, s: State, address: int)
    requires b in POSSIBLE_BUSES && busNum in POSSIBLE_BUSES && b != busNum
    requires StaticBoard(acks, reply, address)
    ensures var (r, t) := Initialize(StaticBus(b, acks, reply), s, busNum, address, false);
            r == Done && t.streams == Open(Endpoint(b, address))
  {
    var bus := StaticBus(b, acks, reply);
    var (p, s1) := Probe(bus, s, busNum, address);
    ProbeElsewhere(b, acks, reply, s, busNum, address);
    assert AlternateBuses(busNum, false) == [b];
    var (q, s2) := Probe(bus, s1, b, address);
    ProbeStatic(b, acks, reply, s1, address);
    ProbeShape(bus, s1, b, address);
    assert ProbeEach(bus, s1, [b], address, false) == ProbeEach(bus, s2, [], address, true);
  }

  /**
   * Only the last alternate bus counts: asked for a bus other than 0 and 1,
   * the constructor raises though a ThunderBorg sits at the requested
   * address on bus 0, because the probe of bus 1 after it overwrites the hit.
   */
  lemma InitializeLastAlternateOnly(busNum: int, acks: set<int>, reply: int -> ReadResult, s: State, address: int)
    requires busNum != 0 && busNum != 1
    requires StaticBoard(acks, reply, address)
    ensures Probe(StaticBus(0, acks, reply), s, 0, address).0 == Ok(true)
    ensures Initialize(StaticBus(0, acks, reply), s, busNum, address, false).0 == Raised(ThunderBorgException)
  {
    var bus := StaticBus(0, acks, reply);
    ProbeStatic(0, acks, reply, s, address);
    var (p, s1) := Probe(bus, s, busNum, address);
    assert p == Ok(false);
    assert AlternateBuses(busNum, false) == [0, 1];
    ProbeEachSnoc(bus, s1, [0], 1, address, false);
    assert [0] + [1] == [0, 1];
    var (q, s2) := ProbeEach(bus, s1, [0], address, false);
    var (q0, s3) := Probe(bus, s1, 0, address);
    assert ProbeEach(bus, s1, [0], address, false) == ProbeEach(bus, s3, [], address, q0.value);
    ProbeElsewhere(0, acks, reply, s2, 1, address);
  }

  /**
   * _auto_set_address scans bus 1 whatever bus was requested: with the only
   * ThunderBorg at x on bus 0, where find_board does find it, asking for bus
   * 0 at another address with auto_set_addr still raises; asked for bus 1
   * with the board on bus 1, the scan finds and binds it.
   */
  lemma AutoSetAddressScansBusOne(x: int, address: int, s: State)
    requires SCAN_FIRST <= x < SCAN_END && address != x
    ensures FindBoard(StaticBus(0, {x}, OneBoard(x)), s, 0, false).0 == Ok([x])
    ensures Initialize(StaticBus(0, {x}, OneBoard(x)), s, 0, address, true).0 == Raised(ThunderBorgException)
    ensures Initialize(StaticBus(1, {x}, OneBoard(x)), s, 1, address, true).0 == Done
  {
    FindBoardOne(0, x, s, false);
    AutoSetOnBusZero(x, address, s);
    AutoSetOnBusOne(x, address, s);
  }

  /** Asked for bus 1, the scan of bus 1 finds the board and binds it. */
  lemma AutoSetOnBusOne(x: int, address: int, s: State)
    requires SCAN_FIRST <= x < SCAN_END && address != x
    ensures Initialize(StaticBus(1, {x}, OneBoard(x)), s, 1, address, true).0 == Done
  {
    var bus := StaticBus(1, {x}, OneBoard(x));
    var (p1, s1) := Probe(bus, s, 1, address);
    ProbeStatic(1, {x}, OneBoard(x), s, address);
    assert p1 == Ok(false);
    assert ProbeEach(bus, s1, AlternateBuses(1, true), address, false) == (Ok(false), s1);
    AutoSetFindsOne(x, s1);
  }

  /** _auto_set_address on bus 1 with a lone board there: found by the scan, then bound. */
  lemma AutoSetFindsOne(x: int, s: State)
    requires SCAN_FIRST <= x < SCAN_END
    ensures AutoSetAddress(StaticBus(1, {x}, OneBoard(x)), s, 1).0 == Ok(true)
  {
    var bus := StaticBus(1, {x}, OneBoard(x));
    FindBoardOne(1, x, s, false);
    var (f1, t1) := FindBoard(bus, s, 1, false);
    assert f1 == Ok([x]);
    ProbeStatic(1, {x}, OneBoard(x), t1, x);
  }

  /** Asked for bus 0 with the board on bus 0, the scan runs on bus 1, finds nothing, and the constructor raises. */
  lemma AutoSetOnBusZero(x: int, address: int, s: State)
    requires SCAN_FIRST <= x < SCAN_END && address != x
    ensures Initialize(StaticBus(0, {x}, OneBoard(x)), s, 0, address, true).0 == Raised(ThunderBorgException)
  {
    var bus := StaticBus(0, {x}, OneBoard(x));
    var (p0, s0) := Probe(bus, s, 0, address);
    ProbeStatic(0, {x}, OneBoard(x), s, address);
    assert p0 == Ok(false);
    assert ProbeEach(bus, s0, AlternateBuses(0, true), address, false) == (Ok(false), s0);
    ScanElsewhere(0, {x}, OneBoard(x), s0, 1, SCAN_FIRST, []);
    assert AutoSetAddress(bus, s0, 0).0 == Ok(false);
  }

  // ------------------------------------------------------ set_i2c_address

  /** An acknowledged address-change frame. */
  predicate IsAddressFrame(e: Event)
  {
    e.Wrote? && e.frame != [] && e.frame[0] == SET_I2C_ADD
  }

  predicate NoAddressFrame(events: seq<Event>)
  {
    forall i :: 0 <= i < |events| ==> !IsAddressFrame(events[i])
  }

  /**
   * Every address-change frame in the trace carries newAddr and directly
   * follows a ThunderBorg id reply from the endpoint it is sent to.
   */
  predicate GuardedAddressWrites(trace: seq<Event>, newAddr: int)
  {
    forall i :: 0 <= i < |trace| && IsAddressFrame(trace[i]) ==>
      && trace[i].frame == [SET_I2C_ADD as int, newAddr]
      && 0 < i && trace[i - 1].Got? && trace[i - 1].from == trace[i].to
      && CheckBoardChip(trace[i - 1].reply)
  }

  predicate AtMostOneAddressWrite(trace: seq<Event>)
  {
    forall i, j :: 0 <= i < j < |trace| && IsAddressFrame(trace[i]) ==> !IsAddressFrame(trace[j])
  }

  /** Every address-change frame in the trace went to ep. */
  predicate AddressWritesTo(trace: seq<Event>, ep: Endpoint)
  {
    forall i :: 0 <= i < |trace| && IsAddressFrame(trace[i]) ==> trace[i].to == ep
  }

  /**
   * Every address-change frame in the trace went out on busNum, to curAddr
   * when one was given, otherwise to an address of the scan range.
   */
  predicate AddressWritesTarget(trace: seq<Event>, busNum: int, curAddr: int)
  {
    forall i :: 0 <= i < |trace| && IsAddressFrame(trace[i]) ==>
      && trace[i].to.bus == busNum
      && (curAddr >= 0 ==> trace[i].to.addr == curAddr)
      && (curAddr < 0 ==> SCAN_FIRST <= trace[i].to.addr < SCAN_END)
  }

  /**
   * The second half of set_i2c_address: bind the new address, read the id
   * and check it; a board that answers but with the wrong id raises without
   * closing the streams.
   */
  function Confirm(bus: Bus, s: State, busNum: int, newAddr: int): (Outcome, State)
  {
    var (ok, s1) := InitBus(bus, s, Endpoint(busNum, newAddr));
    if !ok then (Done, CloseStreams(s1))
    else
      var (rd, s2) := Read(bus, s1, GET_ID, I2C_READ_LEN, 3);
      if rd == Err(IOError) then (Raised(ThunderBorgException), CloseStreams(s2))
      else if rd.Err? then (Raised(rd.exc), s2)
      else if CheckBoardChip(rd.value) then (Done, CloseStreams(s2))
      else (Raised(ThunderBorgException), s2)
  }

  /**
   * set_i2c_address from the bind of the current address on: a board that
   * cannot be bound, or answers with the wrong id, is left alone; a
   * ThunderBorg gets the address-change frame, a pause, and the check at
   * its new address. An exception of the address write itself escapes
   * unchanged.
   */
  function Relocate(bus: Bus, s: State, busNum: int, curAddr: int, newAddr: int): (Outcome, State)
  {
    var (ok, s1) := InitBus(bus, s, Endpoint(busNum, curAddr));
    if !ok then (Done, s1)
    else
      var (rd, s2) := Read(bus, s1, GET_ID, I2C_READ_LEN, 3);
      if rd == Err(IOError) then (Raised(ThunderBorgException), CloseStreams(s2))
      else if rd.Err? then (Raised(rd.exc), s2)
      else if !CheckBoardChip(rd.value) then (Done, CloseStreams(s2))
      else
        var (w, s3) := Write(bus, s2, SET_I2C_ADD, [newAddr]);
        if w.Raised? then (w, s3)
        else Confirm(bus, Sleep(s3, SETTLE_MS), busNum, newAddr)
  }

  /**
   * set_i2c_address on a fresh session: reject a new address outside
   * 0x03..0x77 before any traffic; with no current address, scan busNum
   * (closing afterwards) and take the first board found.
   */
  function SetI2cAddress(bus: Bus, newAddr: int, curAddr: int, busNum: int): (Outcome, State)
  {
    var s0 := State(Unset, []);
    if !(ADDRESS_MIN <= newAddr <= ADDRESS_MAX) then (Raised(ThunderBorgException), s0)
    else if curAddr < 0 then
      var (f, s1) := FindBoard(bus, s0, busNum, true);
      if f.Err? then (Raised(f.exc), s1)
      else if f.value == [] then (Raised(ThunderBorgException), s1)
      else Relocate(bus, s1, busNum, f.value[0], newAddr)
    else Relocate(bus, s0, busNum, curAddr, newAddr)
  }

  lemma NoAddressFrameJoin(a: seq<Event>, b: seq<Event>)
    requires NoAddressFrame(a) && NoAddressFrame(b)
    ensures NoAddressFrame(a + b)
  {
    forall i | 0 <= i < |a + b|
      ensures !IsAddressFrame((a + b)[i])
    {
      if i >= |a| {
        assert (a + b)[i] == b[i - |a|];
      }
    }
  }

  /** The check at the new address sends only id requests; it succeeds only if the new address answers or cannot be bound. */
  lemma ConfirmShape(bus: Bus, s: State, busNum: int, newAddr: int)
    ensures var (r, t) := Confirm(bus, s, busNum, newAddr);
            var ep := Endpoint(busNum, newAddr);
            && Prefix(s.trace, t.trace) && NoAddressFrame(t.trace[|s.trace|..])
            && (r.Raised? ==> r.exc == ThunderBorgException || r.exc == IndexError)
            && (r.Done? ==> !t.streams.Open? && (!Bindable(bus, ep) || LastReplyFrom(t.trace, ep)))
  {
    var ep := Endpoint(busNum, newAddr);
    var (ok, s1) := InitBus(bus, s, ep);
    if ok {
      ReadAttemptsShape(bus, s1, GET_ID, I2C_READ_LEN, 3);
      var (rd, s2) := Read(bus, s1, GET_ID, I2C_READ_LEN, 3);
      var added := s2.trace[|s1.trace|..];
      assert s2.trace == s.trace + added;
      if rd.Ok? {
        assert Last(s2.trace) == Last(added);
      }
    } else {
      assert s1.trace[|s.trace|..] == [];
    }
  }

  /** The address-change frame placed between two stretches of id traffic. */
  lemma AddressWriteJoin(pre: seq<Event>, w: Event, post: seq<Event>, ep: Endpoint, newAddr: int)
    requires NoAddressFrame(pre) && NoAddressFrame(post)
    requires LastReplyFrom(pre, ep)
    requires w.Wrote? && w.to == ep && w.frame == [SET_I2C_ADD as int, newAddr]
    ensures var all := pre + [w] + post;
            GuardedAddressWrites(all, newAddr) && AtMostOneAddressWrite(all) && AddressWritesTo(all, ep)
  {
    var all := pre + [w] + post;
    assert all[|pre|] == w;
    assert all[|pre| - 1] == Last(pre);
  }

  /**
   * What relocating the board at curAddr may leave behind, from the state
   * s it started in: at most one address-change frame, sent to the endpoint
   * being moved right after it identified itself; success leaves the
   * streams closed and, after an address change, means the new address
   * answered with the ThunderBorg id or could not be bound.
   */
  ghost predicate RelocationOutcome(bus: Bus, s: State, busNum: int, curAddr: int, newAddr: int, r: Outcome, t: State)
  {
    var ep' := Endpoint(busNum, newAddr);
    && Prefix(s.trace, t.trace)
    && GuardedAddressWrites(t.trace, newAddr) && AtMostOneAddressWrite(t.trace)
    && AddressWritesTo(t.trace, Endpoint(busNum, curAddr))
    && (r.Raised? ==> r.exc == ThunderBorgException || r.exc == IndexError || r.exc == IOError)
    && (r.Done? ==> !t.streams.Open?
                    && (NoAddressFrame(t.trace) || !Bindable(bus, ep') || LastReplyFrom(t.trace, ep')))
  }

  /** The address write, the pause and the check at the new address, once the board identified itself. */
  lemma AfterAddressWrite(bus: Bus, s2: State, busNum: int, curAddr: int, newAddr: int)
    requires ADDRESS_MIN <= newAddr <= ADDRESS_MAX
    requires NoAddressFrame(s2.trace) && Answered(s2, Endpoint(busNum, curAddr))
    ensures var (w, s3) := Write(bus, s2, SET_I2C_ADD, [newAddr]);
            var (r, t) := if w.Raised? then (w, s3) else Confirm(bus, Sleep(s3, SETTLE_MS), busNum, newAddr);
            RelocationOutcome(bus, s2, busNum, curAddr, newAddr, r, t)
  {
    var (w, s3) := Write(bus, s2, SET_I2C_ADD, [newAddr]);
    if w.Done? {
      var s4 := Sleep(s3, SETTLE_MS);
      assert [SET_I2C_ADD as int] + [newAddr] == [SET_I2C_ADD as int, newAddr];
      assert s3.trace == s2.trace + [Wrote(Endpoint(busNum, curAddr), [SET_I2C_ADD as int, newAddr])];
      assert s4.trace == s2.trace + [Wrote(Endpoint(busNum, curAddr), [SET_I2C_ADD as int, newAddr]), Slept(SETTLE_MS)];
      ConfirmShape(bus, s4, busNum, newAddr);
      var (r, t) := Confirm(bus, s4, busNum, newAddr);
      ConfirmAfterWrite(bus, s2, s4, busNum, curAddr, newAddr, r, t);
    } else {
      assert s3.trace == s2.trace;
      assert GuardedAddressWrites(s3.trace, newAddr);
    }
  }

  /**
   * The pause and the check at the new address, once the address frame went
   * out: what ConfirmShape promises of the check makes a relocation outcome.
   */
  lemma ConfirmAfterWrite(bus: Bus, s2: State, s4: State, busNum: int, curAddr: int, newAddr: int, r: Outcome, t: State)
    requires ADDRESS_MIN <= newAddr <= ADDRESS_MAX
    requires NoAddressFrame(s2.trace) && Answered(s2, Endpoint(busNum, curAddr))
    requires s4.trace == s2.trace + [Wrote(Endpoint(busNum, curAddr), [SET_I2C_ADD as int, newAddr]), Slept(SETTLE_MS)]
    requires Prefix(s4.trace, t.trace) && NoAddressFrame(t.trace[|s4.trace|..])
    requires r.Raised? ==> r.exc == ThunderBorgException || r.exc == IndexError
    requires r.Done? ==> !t.streams.Open? && (!Bindable(bus, Endpoint(busNum, newAddr))
                                              || LastReplyFrom(t.trace, Endpoint(busNum, newAddr)))
    ensures RelocationOutcome(bus, s2, busNum, curAddr, newAddr, r, t)
  {
    var ep := Endpoint(busNum, curAddr);
    var wrote := Wrote(ep, [SET_I2C_ADD as int, newAddr]);
    var post := [Slept(SETTLE_MS)] + t.trace[|s4.trace|..];
    assert NoAddressFrame([Slept(SETTLE_MS)]);
    NoAddressFrameJoin([Slept(SETTLE_MS)], t.trace[|s4.trace|..]);
    assert t.trace == s2.trace + [wrote] + post;
    AddressWriteJoin(s2.trace, wrote, post, ep, newAddr);
  }

  /** Relocate keeps RelocationOutcome from any state without an earlier address change. */
  lemma RelocateShape(bus: Bus, s: State, busNum: int, curAddr: int, newAddr: int)
    requires ADDRESS_MIN <= newAddr <= ADDRESS_MAX
    requires NoAddressFrame(s.trace)
    ensures var (r, t) := Relocate(bus, s, busNum, curAddr, newAddr);
            RelocationOutcome(bus, s, busNum, curAddr, newAddr, r, t)
  {
    var ep := Endpoint(busNum, curAddr);
    var (ok, s1) := InitBus(bus, s, ep);
    var (r, t) := Relocate(bus, s, busNum, curAddr, newAddr);
    if !ok {
      assert s1.trace[|s.trace|..] == [];
      NoRelocation(bus, s, busNum, curAddr, newAddr, r, t);
    } else {
      ReadAttemptsShape(bus, s1, GET_ID, I2C_READ_LEN, 3);
      var (rd, s2) := Read(bus, s1, GET_ID, I2C_READ_LEN, 3);
      var added := s2.trace[|s1.trace|..];
      assert s2.trace == s.trace + added;
      NoAddressFrameJoin(s.trace, added);
      if rd.Ok? && CheckBoardChip(rd.value) {
        assert Last(s2.trace) == Last(added);
        AfterAddressWrite(bus, s2, busNum, curAddr, newAddr);
        PrefixTrans(s.trace, s2.trace, t.trace);
      } else {
        assert t.trace == s2.trace;
        NoRelocation(bus, s, busNum, curAddr, newAddr, r, t);
      }
    }
  }

  /** A relocation that stops before the address write keeps RelocationOutcome trivially. */
  lemma NoRelocation(bus: Bus, s: State, busNum: int, curAddr: int, newAddr: int, r: Outcome, t: State)
    requires Prefix(s.trace, t.trace) && NoAddressFrame(t.trace)
    requires r.Raised? ==> r.exc == ThunderBorgException || r.exc == IndexError || r.exc == IOError
    requires r.Done? ==> !t.streams.Open?
    ensures RelocationOutcome(bus, s, busNum, curAddr, newAddr, r, t)
  {
  }

  /**
   * set_i2c_address: an address outside 0x03..0x77 is refused before any
   * traffic. Otherwise at most one address-change frame is sent, carrying
   * newAddr, on busNum, to curAddr (or, with no curAddr, to a scanned
   * address in [0x03, 0x77)), and only right after that endpoint identified
   * itself as a ThunderBorg. Success leaves the streams closed, and after an
   * address change it means the board answered at the new address or the new
   * address could not be bound.
   */
  lemma SetI2cAddressShape(bus: Bus, newAddr: int, curAddr: int, busNum: int)
    ensures var (r, t) := SetI2cAddress(bus, newAddr, curAddr, busNum);
            var ep' := Endpoint(busNum, newAddr);
            && (!(ADDRESS_MIN <= newAddr <= ADDRESS_MAX) ==> r == Raised(ThunderBorgException) && t.trace == [])
            && ((&& ADDRESS_MIN <= newAddr <= ADDRESS_MAX && curAddr < 0
                 && FindBoard(bus, State(Unset, []), busNum, true).0 == Ok([])) ==> r == Raised(ThunderBorgException))
            && GuardedAddressWrites(t.trace, newAddr) && AtMostOneAddressWrite(t.trace)
            && AddressWritesTarget(t.trace, busNum, curAddr)
            && (r.Raised? ==> r.exc == ThunderBorgException || r.exc == IndexError || r.exc == IOError)
            && (r.Done? ==> !t.streams.Open?
                            && (NoAddressFrame(t.trace) || !Bindable(bus, ep') || LastReplyFrom(t.trace, ep')))
  {
    var s0 := State(Unset, []);
    if ADDRESS_MIN <= newAddr <= ADDRESS_MAX {
      if curAddr < 0 {
        var (f, s1) := FindBoard(bus, s0, busNum, true);
        FindBoardBeforeRelocation(bus, busNum);
        if f.Err? || f.value == [] {
          NoAddressFrameGuarded(s1.trace, newAddr, busNum, curAddr);
        } else {
          RelocateShape(bus, s1, busNum, f.value[0], newAddr);
          var (r, t) := Relocate(bus, s1, busNum, f.value[0], newAddr);
          assert SetI2cAddress(bus, newAddr, curAddr, busNum) == (r, t);
          RelocationAnswers(bus, s1, busNum, newAddr, curAddr, f.value[0], r, t);
        }
      } else {
        RelocateShape(bus, s0, busNum, curAddr, newAddr);
        var (r, t) := Relocate(bus, s0, busNum, curAddr, newAddr);
        assert SetI2cAddress(bus, newAddr, curAddr, busNum) == (r, t);
        RelocationAnswers(bus, s0, busNum, newAddr, curAddr, curAddr, r, t);
      }
    }
  }

  /**
   * The effect of a relocation, told by a probe of the current endpoint from
   * the same state: once the board there identified itself, the address frame
   * with newAddr goes to it, followed by the pause, if the bus acknowledges
   * it, and otherwise the write's IOError escapes with nothing more sent; a
   * probe that raises makes the relocation raise the same. A probe that
   * answers false sends nothing more: an endpoint that does not bind, or one
   * that answers with another chip's id, ends quietly with Done, and one
   * that does not answer raises ThunderBorgException.
   */
  lemma RelocationWrites(bus: Bus, s: State, busNum: int, curAddr: int, newAddr: int)
    requires ADDRESS_MIN <= newAddr <= ADDRESS_MAX
    ensures var ep := Endpoint(busNum, curAddr);
            var (p, s2) := Probe(bus, s, busNum, curAddr);
            var (r, t) := Relocate(bus, s, busNum, curAddr, newAddr);
            && (p == Ok(true) && bus.accepts(s2.trace, ep) ==>
                  Prefix(s2.trace + [Wrote(ep, [SET_I2C_ADD as int, newAddr]), Slept(SETTLE_MS)], t.trace))
            && (p == Ok(true) && !bus.accepts(s2.trace, ep) ==> r == Raised(IOError) && t == s2)
            && (p.Err? ==> r == Raised(p.exc))
            && (p == Ok(false) ==> t.trace == s2.trace && !t.streams.Open?
                                   && (r == Done || r == Raised(ThunderBorgException)))
            && (p == Ok(false) && !Bindable(bus, ep) ==> r == Done)
            && (p == Ok(false) && Bindable(bus, ep) ==>
                  (r == Done <==> Read(bus, s.(streams := Open(ep)), GET_ID, I2C_READ_LEN, 3).0.Ok?))
  {
    var ep := Endpoint(busNum, curAddr);
    var (ok, s1) := InitBus(bus, s, ep);
    if ok {
      var (rd, s2) := Read(bus, s1, GET_ID, I2C_READ_LEN, 3);
      if rd.Ok? && CheckBoardChip(rd.value) {
        var (w, s3) := Write(bus, s2, SET_I2C_ADD, [newAddr]);
        assert [SET_I2C_ADD as int] + [newAddr] == [SET_I2C_ADD as int, newAddr];
        if w.Done? {
          var s4 := Sleep(s3, SETTLE_MS);
          assert s4.trace == s2.trace + [Wrote(ep, [SET_I2C_ADD as int, newAddr]), Slept(SETTLE_MS)];
          ConfirmShape(bus, s4, busNum, newAddr);
        }
      }
    }
  }

  /**
   * set_i2c_address's effect: once the board at cur_addr (or the first one
   * the scan found) identified itself, the address frame with new_addr goes
   * to it, followed by the pause, if the bus acknowledges it; otherwise the
   * write's IOError escapes. A target that is not a ThunderBorg gets no
   * address frame, and the call ends as Relocate's does for a probe that
   * answers false: quietly when the target does not bind or answers with
   * another id.
   */
  lemma SetI2cAddressWrites(bus: Bus, newAddr: int, curAddr: int, busNum: int)
    requires ADDRESS_MIN <= newAddr <= ADDRESS_MAX
    ensures var (f, s1) := FindBoard(bus, State(Unset, []), busNum, true);
            var start := if curAddr >= 0 then State(Unset, []) else s1;
            var target := if curAddr >= 0 then curAddr else if f.Ok? && f.value != [] then f.value[0] else -1;
            var ep := Endpoint(busNum, target);
            var (p, s2) := Probe(bus, start, busNum, target);
            var (r, t) := SetI2cAddress(bus, newAddr, curAddr, busNum);
            (curAddr >= 0 || (f.Ok? && f.value != [])) ==>
              && (p == Ok(true) && bus.accepts(s2.trace, ep) ==>
                    Prefix(s2.trace + [Wrote(ep, [SET_I2C_ADD as int, newAddr]), Slept(SETTLE_MS)], t.trace))
              && (p == Ok(true) && !bus.accepts(s2.trace, ep) ==> r == Raised(IOError))
              && (p == Ok(false) ==> t.trace == s2.trace && !t.streams.Open?
                                     && (r == Done || r == Raised(ThunderBorgException)))
              && (p == Ok(false) && !Bindable(bus, ep) ==> r == Done)
              && (p == Ok(false) && Bindable(bus, ep) ==>
                    (r == Done <==> Read(bus, start.(streams := Open(ep)), GET_ID, I2C_READ_LEN, 3).0.Ok?))
  {
    var (f, s1) := FindBoard(bus, State(Unset, []), busNum, true);
    if curAddr >= 0 {
      RelocationWrites(bus, State(Unset, []), busNum, curAddr, newAddr);
    } else if f.Ok? && f.value != [] {
      RelocationWrites(bus, s1, busNum, f.value[0], newAddr);
    }
  }

  /** Where the board of MovingBoard lives after the traffic h: at newAddr once it was sent the address frame. */
  function Home(h: seq<Event>, busNum: int, cur: int, newAddr: byte): int
  {
    if Wrote(Endpoint(busNum, cur), [SET_I2C_ADD as int, newAddr]) in h then newAddr else cur
  }

  /**
   * A bus whose one ThunderBorg obeys the address change: it acknowledges
   * and answers with its id at cur until the frame moving it to newAddr has
   * been sent to it, and at newAddr from then on.
   */
  function MovingBoard(busNum: int, cur: int, newAddr: byte): Bus
  {
    Bus({0, 1, busNum}, {},
        (h: seq<Event>, ep: Endpoint) => ep == Endpoint(busNum, Home(h, busNum, cur, newAddr)),
        (h: seq<Event>, ep: Endpoint, n: int) =>
          if ep == Endpoint(busNum, Home(h, busNum, cur, newAddr)) then Answer(ID_REPLY) else NoAnswer)
  }

  /** Once moved, the board of MovingBoard answers a probe exactly at newAddr. */
  lemma ProbeMoved(busNum: int, cur: int, newAddr: byte, s: State, a: int)
    requires Home(s.trace, busNum, cur, newAddr) == newAddr
    requires Wrote(Endpoint(busNum, cur), [SET_I2C_ADD as int, newAddr]) in s.trace
    ensures var (p, t) := Probe(MovingBoard(busNum, cur, newAddr), s, busNum, a);
            && p == Ok(a == newAddr)
            && Wrote(Endpoint(busNum, cur), [SET_I2C_ADD as int, newAddr]) in t.trace
  {
    var bus := MovingBoard(busNum, cur, newAddr);
    var moved := Wrote(Endpoint(busNum, cur), [SET_I2C_ADD as int, newAddr]);
    var (ok, s1) := InitBus(bus, s, Endpoint(busNum, a));
    var (x, s2) := Exchange(bus, s1, GET_ID, I2C_READ_LEN);
    ProbeShape(bus, s, busNum, a);
    var (p, t) := Probe(bus, s, busNum, a);
    var i :| 0 <= i < |s.trace| && s.trace[i] == moved;
    assert t.trace[i] == moved;
    if a == newAddr {
      assert moved in s1.trace + [Wrote(Endpoint(busNum, a), [GET_ID])];
      assert x == Ok(ID_REPLY);
    } else {
      assert x == Err(IOError);
    }
  }

  /** Once moved, a scan of MovingBoard from `address` finds the board at newAddr when that lies ahead in the scan range. */
  lemma {:induction false} ScanMoved(busNum: int, cur: int, newAddr: byte, s: State, address: int, found: seq<int>)
    requires Wrote(Endpoint(busNum, cur), [SET_I2C_ADD as int, newAddr]) in s.trace
    decreases SCAN_END - address
    ensures ScanFrom(MovingBoard(busNum, cur, newAddr), s, busNum, address, found).0
            == Ok(found + if address <= newAddr < SCAN_END then [newAddr] else [])
  {
    if address >= SCAN_END {
      assert found + [] == found;
    } else {
      var bus := MovingBoard(busNum, cur, newAddr);
      var (p, s1) := Probe(bus, s, busNum, address);
      ProbeMoved(busNum, cur, newAddr, s, address);
      ScanFromStep(bus, s, busNum, address, found);
      ScanMoved(busNum, cur, newAddr, s1, address + 1, if address == newAddr then found + [newAddr] else found);
      MovedFoundStep(found, address, newAddr);
    }
  }

  /** The scan from an address below SCAN_END: its probe, then the rest of the scan unless the probe raised. */
  lemma ScanFromStep(bus: Bus, s: State, busNum: int, address: int, found: seq<int>)
    requires address < SCAN_END
    ensures var (p, s1) := Probe(bus, s, busNum, address);
            p.Ok? ==> ScanFrom(bus, s, busNum, address, found)
                      == ScanFrom(bus, s1, busNum, address + 1, if p.value then found + [address] else found)
  {
  }

  /** One address of the scan after the move: the board's address is appended when it is reached. */
  lemma MovedFoundStep(found: seq<int>, address: int, newAddr: int)
    requires address < SCAN_END
    ensures (if address == newAddr then found + [newAddr] else found)
              + (if address + 1 <= newAddr < SCAN_END then [newAddr] else [])
            == found + if address <= newAddr < SCAN_END then [newAddr] else []
  {
    if address == newAddr {
      assert found + [newAddr] + [] == found + [newAddr];
    }
  }

  /**
   * On a bus whose board obeys the address change, set_i2c_address with a
   * current address succeeds: the board gets the frame, answers at its new
   * address, and a later probe or find_board sees it there and no longer at
   * the old one (find_board only when the new address is below 0x77).
   */
  lemma SetI2cAddressMovesBoard(busNum: int, cur: int, newAddr: byte)
    requires ADDRESS_MIN <= newAddr <= ADDRESS_MAX && cur >= 0
    ensures var bus := MovingBoard(busNum, cur, newAddr);
            var (r, t) := SetI2cAddress(bus, newAddr, cur, busNum);
            && r == Done
            && Wrote(Endpoint(busNum, cur), [SET_I2C_ADD as int, newAddr]) in t.trace
            && LastReplyFrom(t.trace, Endpoint(busNum, newAddr))
            && Probe(bus, t, busNum, newAddr).0 == Ok(true)
            && (cur != newAddr ==> Probe(bus, t, busNum, cur).0 == Ok(false))
            && FindBoard(bus, t, busNum, true).0 == Ok(if newAddr < SCAN_END then [newAddr] else [])
  {
    var bus := MovingBoard(busNum, cur, newAddr);
    var (r, t) := SetI2cAddress(bus, newAddr, cur, busNum);
    MovedRelocation(busNum, cur, newAddr);
    ProbeMoved(busNum, cur, newAddr, t, newAddr);
    ProbeMoved(busNum, cur, newAddr, t, cur);
    ScanMoved(busNum, cur, newAddr, t, SCAN_FIRST, []);
    assert [] + [newAddr] == [newAddr];
  }

  /** The relocation itself on MovingBoard: id read at cur, the frame, the pause, the id read at newAddr. */
  lemma MovedRelocation(busNum: int, cur: int, newAddr: byte)
    requires ADDRESS_MIN <= newAddr <= ADDRESS_MAX && cur >= 0
    ensures var (r, t) := SetI2cAddress(MovingBoard(busNum, cur, newAddr), newAddr, cur, busNum);
            && r == Done
            && Wrote(Endpoint(busNum, cur), [SET_I2C_ADD as int, newAddr]) in t.trace
            && Home(t.trace, busNum, cur, newAddr) == newAddr
            && LastReplyFrom(t.trace, Endpoint(busNum, newAddr))
  {
    var bus := MovingBoard(busNum, cur, newAddr);
    var ep := Endpoint(busNum, cur);
    var ep' := Endpoint(busNum, newAddr);
    var moved := Wrote(ep, [SET_I2C_ADD as int, newAddr]);
    var s1 := State(Open(ep), []);
    var (x, s2) := Exchange(bus, s1, GET_ID, I2C_READ_LEN);
    MovedExchangeBefore(busNum, cur, newAddr);
    assert Read(bus, s1, GET_ID, I2C_READ_LEN, 3) == (x, s2);
    var s4 := State(Open(ep), s2.trace + [moved, Slept(SETTLE_MS)]);
    assert [SET_I2C_ADD as int] + [newAddr] == [SET_I2C_ADD as int, newAddr];
    assert moved != Wrote(ep, [GET_ID]) && moved != Got(ep, ID_REPLY);
    assert moved !in s2.trace;
    assert Home(s2.trace, busNum, cur, newAddr) == cur;
    assert bus.accepts(s2.trace, ep);
    assert InitBus(bus, State(Unset, []), ep) == (true, s1);
    assert CheckBoardChip(ID_REPLY);
    var (w, s3) := Write(bus, s2, SET_I2C_ADD, [newAddr]);
    assert w == Done && s3 == State(Open(ep), s2.trace + [moved]);
    assert Sleep(s3, SETTLE_MS) == s4;
    assert Relocate(bus, State(Unset, []), busNum, cur, newAddr) == Confirm(bus, s4, busNum, newAddr);
    var s5 := State(Open(ep'), s4.trace);
    var (y, s6) := Exchange(bus, s5, GET_ID, I2C_READ_LEN);
    MovedExchangeAfter(busNum, cur, newAddr, s4.trace);
    assert Read(bus, s5, GET_ID, I2C_READ_LEN, 3) == (y, s6);
    assert moved in s6.trace;
  }

  /** Before the move, the id request at cur is acknowledged and answered with the id. */
  lemma MovedExchangeBefore(busNum: int, cur: int, newAddr: byte)
    ensures var ep := Endpoint(busNum, cur);
            Exchange(MovingBoard(busNum, cur, newAddr), State(Open(ep), []), GET_ID, I2C_READ_LEN)
            == (Ok(ID_REPLY), State(Open(ep), [Wrote(ep, [GET_ID]), Got(ep, ID_REPLY)]))
  {
    var ep := Endpoint(busNum, cur);
    var moved := Wrote(ep, [SET_I2C_ADD as int, newAddr]);
    assert [GET_ID as int] + [] == [GET_ID];
    assert moved !in [];
    assert Home([], busNum, cur, newAddr) == cur;
    assert moved != Wrote(ep, [GET_ID]);
    assert Home([Wrote(ep, [GET_ID])], busNum, cur, newAddr) == cur;
    var bus := MovingBoard(busNum, cur, newAddr);
    assert bus.accepts([], ep);
    var (w, s1) := Write(bus, State(Open(ep), []), GET_ID, []);
    assert w == Done;
    assert s1.trace == [Wrote(ep, [GET_ID])];
    assert bus.respond(s1.trace, ep, I2C_READ_LEN) == Answer(ID_REPLY);
    var (rd, s2) := Receive(bus, s1, I2C_READ_LEN);
    assert rd == Ok(ID_REPLY);
    assert s2 == State(Open(ep), [Wrote(ep, [GET_ID]), Got(ep, ID_REPLY)]);
    assert Exchange(bus, State(Open(ep), []), GET_ID, I2C_READ_LEN) == (rd, s2);
  }

  /** After the move, the id request at newAddr is acknowledged and answered with the id. */
  lemma MovedExchangeAfter(busNum: int, cur: int, newAddr: byte, h: seq<Event>)
    requires Wrote(Endpoint(busNum, cur), [SET_I2C_ADD as int, newAddr]) in h
    ensures var ep' := Endpoint(busNum, newAddr);
            var (y, s6) := Exchange(MovingBoard(busNum, cur, newAddr), State(Open(ep'), h), GET_ID, I2C_READ_LEN);
            && y == Ok(ID_REPLY) && s6.trace == h + [Wrote(ep', [GET_ID]), Got(ep', ID_REPLY)]
            && LastReplyFrom(s6.trace, ep')
  {
    var ep' := Endpoint(busNum, newAddr);
    var moved := Wrote(Endpoint(busNum, cur), [SET_I2C_ADD as int, newAddr]);
    var bus := MovingBoard(busNum, cur, newAddr);
    assert [GET_ID as int] + [] == [GET_ID];
    assert Home(h, busNum, cur, newAddr) == newAddr && bus.accepts(h, ep');
    var (w, s1) := Write(bus, State(Open(ep'), h), GET_ID, []);
    assert w == Done && s1.trace == h + [Wrote(ep', [GET_ID])];
    assert moved in s1.trace;
    assert Home(s1.trace, busNum, cur, newAddr) == newAddr;
    assert bus.respond(s1.trace, ep', I2C_READ_LEN) == Answer(ID_REPLY);
    var (rd, s2) := Receive(bus, s1, I2C_READ_LEN);
    assert rd == Ok(ID_REPLY) && s2.trace == h + [Wrote(ep', [GET_ID]), Got(ep', ID_REPLY)];
    assert Exchange(bus, State(Open(ep'), h), GET_ID, I2C_READ_LEN) == (rd, s2);
  }

  /** What set_i2c_address needs of its scan: no address frame, and only scan-range addresses found. */
  lemma FindBoardBeforeRelocation(bus: Bus, busNum: int)
    ensures var (f, t) := FindBoard(bus, State(Unset, []), busNum, true);
            && NoAddressFrame(t.trace)
            && (f.Err? ==> f.exc == IndexError)
            && (f.Ok? ==> forall i :: 0 <= i < |f.value| ==> SCAN_FIRST <= f.value[i] < SCAN_END)
  {
    var s0 := State(Unset, []);
    FindBoardShape(bus, s0, busNum, true);
    var (f, t) := FindBoard(bus, s0, busNum, true);
    assert t.trace == t.trace[|s0.trace|..];
    forall i | 0 <= i < |t.trace| ensures !IsAddressFrame(t.trace[i]) {
      assert t.trace[i].Wrote? ==> t.trace[i].frame == [GET_ID];
    }
  }

  /** A trace without address frames meets every guarantee about address frames. */
  lemma NoAddressFrameGuarded(trace: seq<Event>, newAddr: int, busNum: int, curAddr: int)
    requires NoAddressFrame(trace)
    ensures GuardedAddressWrites(trace, newAddr) && AtMostOneAddressWrite(trace)
    ensures AddressWritesTarget(trace, busNum, curAddr)
  {
  }

  /** A relocation of the board at `a` gives set_i2c_address's guarantees, `a` being cur_addr or a scanned address. */
  lemma RelocationAnswers(bus: Bus, s: State, busNum: int, newAddr: int, curAddr: int, a: int, r: Outcome, t: State)
    requires RelocationOutcome(bus, s, busNum, a, newAddr, r, t)
    requires curAddr >= 0 ==> a == curAddr
    requires curAddr < 0 ==> SCAN_FIRST <= a < SCAN_END
    ensures var ep' := Endpoint(busNum, newAddr);
            && GuardedAddressWrites(t.trace, newAddr) && AtMostOneAddressWrite(t.trace)
            && AddressWritesTarget(t.trace, busNum, curAddr)
            && (r.Raised? ==> r.exc == ThunderBorgException || r.exc == IndexError || r.exc == IOError)
            && (r.Done? ==> !t.streams.Open?
                            && (NoAddressFrame(t.trace) || !Bindable(bus, ep') || LastReplyFrom(t.trace, ep')))
  {
  }

  /**
   * A lone ThunderBorg at 0x77 cannot be moved by scanning, though 0x77 is
   * a valid new address: find_board never probes it, so set_i2c_address
   * reports that no board was found.
   */
  lemma SetI2cAddressMissesBoardAt77(busNum: int, newAddr: int)
    requires ADDRESS_MIN <= newAddr <= ADDRESS_MAX
    ensures SetI2cAddress(StaticBus(busNum, {0x77}, OneBoard(0x77)), newAddr, -1, busNum).0
            == Raised(ThunderBorgException)
  {
    FindBoardOne(busNum, 0x77, State(Unset, []), true);
  }

  /** Replies of a bus whose only chip, at x, answers the id request with another id. */
  function OtherChip(x: int, id: byte): int -> ReadResult
  {
    (a: int) => if a == x then Answer([GET_ID, id, 0, 0, 0, 0]) else NoAnswer
  }

  /**
   * set_i2c_address aimed at a chip that answers with another id returns
   * normally though nothing moved: no address frame is sent, and the new
   * address, which binds, has not answered.
   */
  lemma SetI2cAddressOtherChip(busNum: int, cur: int, newAddr: int, id: byte)
    requires ADDRESS_MIN <= newAddr <= ADDRESS_MAX && cur >= 0 && id != I2C_ID_THUNDERBORG
    ensures var bus := StaticBus(busNum, {cur}, OtherChip(cur, id));
            var (r, t) := SetI2cAddress(bus, newAddr, cur, busNum);
            && r == Done && !t.streams.Open? && NoAddressFrame(t.trace)
            && Bindable(bus, Endpoint(busNum, newAddr)) && !LastReplyFrom(t.trace, Endpoint(busNum, newAddr))
  {
    var bus := StaticBus(busNum, {cur}, OtherChip(cur, id));
    var ep := Endpoint(busNum, cur);
    var reply: seq<byte> := [GET_ID, id, 0, 0, 0, 0];
    var s1 := State(Open(ep), []);
    var (w, s') := Write(bus, s1, GET_ID, []);
    assert [GET_ID as int] + [] == [GET_ID];
    assert w == Done && s' == State(Open(ep), [Wrote(ep, [GET_ID])]);
    assert bus.respond(s'.trace, ep, I2C_READ_LEN) == Answer(reply);
    var h := [Wrote(ep, [GET_ID]), Got(ep, reply)];
    assert s'.trace + [Got(ep, reply)] == h;
    assert Receive(bus, s', I2C_READ_LEN) == (Ok(reply), State(Open(ep), h));
    assert Exchange(bus, s1, GET_ID, I2C_READ_LEN) == (Ok(reply), State(Open(ep), h));
    assert Read(bus, s1, GET_ID, I2C_READ_LEN, 3) == (Ok(reply), State(Open(ep), h));
    assert !CheckBoardChip(reply);
    assert Relocate(bus, State(Unset, []), busNum, cur, newAddr) == (Done, State(Closed, h));
    assert !IsAddressFrame(h[0]) && !IsAddressFrame(h[1]);
  }

  /**
   * set_i2c_address aimed at an address where nothing answers raises
   * ThunderBorgException, with no address frame sent.
   */
  lemma SetI2cAddressNoAnswer(busNum: int, cur: int, newAddr: int)
    requires ADDRESS_MIN <= newAddr <= ADDRESS_MAX && cur >= 0
    ensures var (r, t) := SetI2cAddress(StaticBus(busNum, {}, OneBoard(cur)), newAddr, cur, busNum);
            r == Raised(ThunderBorgException) && t.trace == []
  {
    var bus := StaticBus(busNum, {}, OneBoard(cur));
    var s1 := State(Open(Endpoint(busNum, cur)), []);
    assert !bus.accepts([], Endpoint(busNum, cur));
    assert Exchange(bus, s1, GET_ID, I2C_READ_LEN) == (Err(IOError), s1);
    assert Read(bus, s1, GET_ID, I2C_READ_LEN, 3) == (Err(IOError), s1);
  }
}
