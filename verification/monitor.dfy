/** The idle monitor thread (`ServerMonitor`, dynmc.py:69-126): every 30
    seconds it queries the real server's status, counts consecutive polls
    with nobody online, and issues the remote "stop" command once that count
    reaches `limit`. A run is a fold of `Step` over the trace of poll outcomes. */
module Monitor {
  import opened Results
  import opened VarInt
  import opened Text
  import opened Frames

  /** Seconds between polls (`self.stopped.wait(30)`, dynmc.py:81). */
  const PollSeconds: int := 30

  /** `math.ceil(time / 30)` (dynmc.py:75) in integer arithmetic: the least
      number of polls that covers `time` seconds. Dafny's `/` floors for a
      positive divisor, so negating twice rounds up. */
  function Limit(time: int): (limit: int)
    ensures PollSeconds * (limit - 1) < time <= PollSeconds * limit
  {
    -((-time) / PollSeconds)
  }

  lemma {:induction false} DefaultLimit()
    ensures Limit(600) == 20 && Limit(601) == 21 && Limit(30) == 1 && Limit(0) == 0
  {
  }

  /** `ParseResponse` on the bytes `s.recv` returned (dynmc.py:107-114): three
      varints are read and the ENTIRE remainder is taken as the JSON text; the
      third varint, the declared JSON length, is not used. */
  function ParseResponse(data: seq<Byte>): (r: Result<seq<Byte>, VarIntError>)
    ensures r.Ok? ==> |r.value| <= |data| - 3 && r.value == data[|data| - |r.value|..]
  {
    match LeadingVarInts(data)
    case Err(e) => Err(e)
    case Ok(fields) => Ok(data[fields.offset..])
  }

  /** The payload is everything after the three varints, whatever they say. */
  lemma {:induction false} ParseResponseSpec(s1: seq<Byte>, s2: seq<Byte>, s3: seq<Byte>, rest: seq<Byte>)
    requires IsVarInt(s1) && IsVarInt(s2) && IsVarInt(s3)
    ensures ParseResponse(s1 + s2 + s3 + rest) == Ok(rest)
  {
    LeadingOfFields(s1, s2, s3, rest);
    assert (s1 + s2 + s3 + rest)[|s1| + |s2| + |s3|..] == rest;
  }

  /** The parse inverts the status frame builder: from a status response frame
      it recovers exactly the UTF-8 bytes of the JSON text. */
  lemma {:induction false} ParseStatusFrame(json: string)
    requires |json| < 0x1_0000_0000
    ensures ParseResponse(StatusFrame(json)) == Ok(Utf8(json))
  {
    StatusFrameLayout(json);
    ParseResponseSpec(ToVarInt(|ResponsePacket(json)|), [0x00], ToVarInt(|json|), Utf8(json));
  }

  lemma {:induction false} StatusFrameLayout(json: string)
    requires |json| < 0x1_0000_0000
    ensures IsVarInt(ToVarInt(|ResponsePacket(json)|)) && IsVarInt(ToVarInt(|json|))
    ensures StatusFrame(json) == ToVarInt(|ResponsePacket(json)|) + [0x00] + ToVarInt(|json|) + Utf8(json)
  {
    ResponsePacketLength(json);
    ToVarIntLength(|ResponsePacket(json)|);
    ToVarIntLength(|json|);
    Regroup(ToVarInt(|ResponsePacket(json)|), [0x00], ToVarInt(|json|), Utf8(json));
  }

  /** The outcome of one poll:
      - ConnectFail: `s.connect` raised, caught by the bare `except` (dynmc.py:84-87);
      - Online(count): the response parsed and reported `count` players;
      - Fault: an exception after the connection opened (a receive timeout,
        `InvalidVarInt`, a JSON or key error) escapes `run` and ends the thread. */
  datatype Tick = ConnectFail | Online(count: int) | Fault

  /** The outcome of a poll whose connection opened and received `data`;
      `onlineOf` stands for `json.loads(...)['players']['online']` on the
      payload, None when that raises. */
  function Observe(data: seq<Byte>, onlineOf: seq<Byte> -> Option<int>): (t: Tick)
    ensures t != ConnectFail
    ensures t.Online? <==> ParseResponse(data).Ok? && onlineOf(ParseResponse(data).value).Some?
    ensures t.Online? ==> t.count == onlineOf(ParseResponse(data).value).value
  {
    match ParseResponse(data)
    case Err(_) => Fault
    case Ok(payload) =>
      match onlineOf(payload)
      case None => Fault
      case Some(n) => Online(n)
  }

  /** A well-formed status reply yields the count its JSON reports; an empty
      read (the server closed the connection) ends the monitor. */
  lemma {:induction false} ObserveStatusFrame(json: string, onlineOf: seq<Byte> -> Option<int>)
    requires |json| < 0x1_0000_0000
    ensures onlineOf(Utf8(json)).Some? ==> Observe(StatusFrame(json), onlineOf) == Online(onlineOf(Utf8(json)).value)
    ensures Observe([], onlineOf) == Fault
  {
    ParseStatusFrame(json);
  }

  /** The monitor's state: `_consecutive`, and whether the thread is alive. */
  datatype MonitorState = MonitorState(counter: nat, running: bool)

  /** One iteration of the loop (dynmc.py:82-126); the boolean is true when
      the "stop" command is issued. */
  function Step(limit: int, m: MonitorState, t: Tick): (r: (MonitorState, bool))
    ensures t.ConnectFail? || !m.running ==> r == (m, false)
    ensures r.1 <==> m.running && t == Online(0) && m.counter + 1 >= limit
    ensures r.0.running <==> m.running && !t.Fault?
  {
    if !m.running then (m, false)
    else
      match t
      case ConnectFail => (m, false)
      case Fault => (m.(running := false), false)
      case Online(n) =>
        var counter := if n == 0 then m.counter + 1 else 0;
        (MonitorState(counter, true), n == 0 && counter >= limit)
  }

  /** A run over a trace: the final state, the counter after every tick, and
      the indices of the ticks at which "stop" was issued. */
  datatype RunResult = RunResult(state: MonitorState, counters: seq<nat>, stops: seq<nat>)

  function Run(limit: int, ticks: seq<Tick>): (r: RunResult)
    ensures |r.counters| == |ticks|
    ensures forall i :: 0 <= i < |r.stops| ==> r.stops[i] < |ticks|
    decreases |ticks|
  {
    if |ticks| == 0 then RunResult(MonitorState(0, true), [], [])
    else
      var prev := Run(limit, ticks[..|ticks| - 1]);
      var (m, stop) := Step(limit, prev.state, ticks[|ticks| - 1]);
      RunResult(m, prev.counters + [m.counter], prev.stops + (if stop then [|ticks| - 1] else []))
  }

  // Reference definitions of the idle count, independent of `Step`.

  /** One past the index of the last poll that saw somebody online, or 0. */
  function LastActive(ticks: seq<Tick>): (k: nat)
    ensures k <= |ticks|
  {
    if |ticks| == 0 then 0
    else if ticks[|ticks| - 1].Online? && ticks[|ticks| - 1].count != 0 then |ticks|
    else LastActive(ticks[..|ticks| - 1])
  }

  /** The number of polls in `ticks` that saw nobody online. */
  function EmptyPolls(ticks: seq<Tick>): nat
  {
    if |ticks| == 0 then 0
    else EmptyPolls(ticks[..|ticks| - 1]) + (if ticks[|ticks| - 1] == Online(0) then 1 else 0)
  }

  /** Empty polls since the last poll that saw somebody online; failed
      connections count neither way. */
  function IdleStreak(ticks: seq<Tick>): nat
  {
    EmptyPolls(ticks[LastActive(ticks)..])
  }

  predicate FaultFree(ticks: seq<Tick>)
  {
    forall i :: 0 <= i < |ticks| ==> !ticks[i].Fault?
  }

  lemma {:induction false} IdleStreakSnoc(ticks: seq<Tick>, t: Tick)
    ensures IdleStreak(ticks + [t]) ==
              match t
              case Online(n) => if n == 0 then IdleStreak(ticks) + 1 else 0
              case _ => IdleStreak(ticks)
  {
    var s := ticks + [t];
    assert s[..|s| - 1] == ticks;
    if t.Online? && t.count != 0 {
      assert LastActive(s) == |s|;
    } else {
      assert LastActive(s) == LastActive(ticks);
      var k := LastActive(ticks);
      assert s[k..] == ticks[k..] + [t];
      assert (ticks[k..] + [t])[..|ticks[k..]|] == ticks[k..];
    }
  }

  /** Without faults the counter after a trace is the idle streak, and the
      monitor is still running. */
  lemma {:induction false} RunCounter(limit: int, ticks: seq<Tick>)
    requires FaultFree(ticks)
    ensures Run(limit, ticks).state == MonitorState(IdleStreak(ticks), true)
    decreases |ticks|
  {
    if |ticks| > 0 {
      var p := ticks[..|ticks| - 1];
      assert FaultFree(p);
      RunCounter(limit, p);
      assert ticks == p + [ticks[|ticks| - 1]];
      IdleStreakSnoc(p, ticks[|ticks| - 1]);
    }
  }

  /** Without faults, "stop" is issued at tick i exactly when that poll saw
      nobody online and the idle streak up to it has reached the limit. */
  lemma {:induction false} RunStops(limit: int, ticks: seq<Tick>, i: nat)
    requires FaultFree(ticks)
    ensures i in Run(limit, ticks).stops <==>
              i < |ticks| && ticks[i] == Online(0) && IdleStreak(ticks[..i + 1]) >= limit
    decreases |ticks|
  {
    if |ticks| > 0 {
      var p := ticks[..|ticks| - 1];
      assert FaultFree(p);
      RunCounter(limit, p);
      RunCounter(limit, ticks);
      assert ticks[..|ticks|] == ticks;
      if i < |p| {
        RunStops(limit, p, i);
        assert p[..i + 1] == ticks[..i + 1];
      } else {
        assert i !in Run(limit, p).stops;
      }
    }
  }

  /** After a fault the thread is gone: no "stop" is issued at or after it. */
  lemma {:induction false} RunAfterFault(limit: int, ticks: seq<Tick>, k: nat)
    requires k < |ticks| && ticks[k] == Fault
    ensures !Run(limit, ticks).state.running
    ensures forall i :: i in Run(limit, ticks).stops ==> i < k
    decreases |ticks|
  {
    var p := ticks[..|ticks| - 1];
    if k < |p| {
      assert p[k] == Fault;
      RunAfterFault(limit, p, k);
    }
  }

  /** Firing is not one-shot: the loop goes on after "stop", and the next
      empty poll issues it again. */
  lemma {:induction false} NotOneShot(limit: int, ticks: seq<Tick>, i: nat)
    requires FaultFree(ticks) && i + 1 < |ticks| && ticks[i + 1] == Online(0)
    requires i in Run(limit, ticks).stops
    ensures i + 1 in Run(limit, ticks).stops
  {
    RunStops(limit, ticks, i);
    RunStops(limit, ticks, i + 1);
    assert ticks[..i + 2] == ticks[..i + 1] + [Online(0)];
    IdleStreakSnoc(ticks[..i + 1], Online(0));
  }

  /** With a limit of 3 the polls 0, 0, 5, 0, 0, 0 give counters 1, 2, 0, 1,
      2, 3 and a single "stop", at the sixth poll. */
  lemma {:induction false} ExampleSingleStop()
    ensures var r := Run(3, [Online(0), Online(0), Online(5), Online(0), Online(0), Online(0)]);
            r.counters == [1, 2, 0, 1, 2, 3] && r.stops == [5]
  {
    var t := [Online(0), Online(0), Online(5), Online(0), Online(0), Online(0)];
    assert Run(3, t[..0]) == RunResult(MonitorState(0, true), [], []);
    assert t[..1][..0] == t[..0];
    assert Run(3, t[..1]) == RunResult(MonitorState(1, true), [1], []);
    assert t[..2][..1] == t[..1];
    assert Run(3, t[..2]) == RunResult(MonitorState(2, true), [1, 2], []);
    assert t[..3][..2] == t[..2];
    assert Run(3, t[..3]) == RunResult(MonitorState(0, true), [1, 2, 0], []);
    assert t[..4][..3] == t[..3];
    assert Run(3, t[..4]) == RunResult(MonitorState(1, true), [1, 2, 0, 1], []);
    assert t[..5][..4] == t[..4];
    assert Run(3, t[..5]) == RunResult(MonitorState(2, true), [1, 2, 0, 1, 2], []);
    assert t[..6] == t && t[..6][..5] == t[..5];
  }

  /** A failed connection neither counts as empty nor resets: with a limit of
      2, the polls 0, failure, 0 reach the limit only at the third. */
  lemma {:induction false} ExampleConnectFail()
    ensures var r := Run(2, [Online(0), ConnectFail, Online(0)]);
            r.counters == [1, 1, 2] && r.stops == [2]
  {
    var t := [Online(0), ConnectFail, Online(0)];
    assert Run(2, t[..0]) == RunResult(MonitorState(0, true), [], []);
    assert Run(2, t[..1]) == RunResult(MonitorState(1, true), [1], []);
    assert Run(2, t[..2]) == RunResult(MonitorState(1, true), [1, 1], []);
    assert t[..3] == t && t[..3][..2] == t[..2];
  }

  /** With a limit of 2 and four empty polls in a row, "stop" is issued at
      the second poll and again at the third and fourth. */
  lemma {:induction false} ExampleRepeatedStop()
    ensures Run(2, [Online(0), Online(0), Online(0), Online(0)]).stops == [1, 2, 3]
  {
    var t := [Online(0), Online(0), Online(0), Online(0)];
    assert t[..1][..0] == t[..0];
    assert Run(2, t[..1]) == RunResult(MonitorState(1, true), [1], []);
    assert t[..2][..1] == t[..1];
    assert Run(2, t[..2]) == RunResult(MonitorState(2, true), [1, 2], [1]);
    assert t[..3][..2] == t[..2];
    assert Run(2, t[..3]) == RunResult(MonitorState(3, true), [1, 2, 3], [1, 2]);
    assert t[..4] == t && t[..4][..3] == t[..3];
  }
}
