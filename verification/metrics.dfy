/** The metric records (`SessionResults`, `MetricEvent`,
    `SerializableVector2`) and the `MetricsManager` log: Inactive while no
    results object exists, Active from `StartNewSession` until
    `EndSessionAndSave`. Time is a natural-number tick count standing in
    for `Time.time`; wall-clock strings are supplied by the caller. */
module Metrics {
  import opened Base
  import Text

  /** Unity's `Vector2`. */
  datatype Vector2 = Vector2(x: real, y: real)

  /** The serialisable copy of a `Vector2`. */
  datatype SerializableVector2 = SerializableVector2(x: real, y: real)

  function ToSerializable(v: Vector2): (s: SerializableVector2)
    ensures s.x == v.x && s.y == v.y
  {
    SerializableVector2(v.x, v.y)
  }

  function FromSerializable(s: SerializableVector2): Vector2
  {
    Vector2(s.x, s.y)
  }

  /** The serialisable copy loses nothing. */
  lemma SerializableRoundTrip(v: Vector2)
    ensures FromSerializable(ToSerializable(v)) == v
  {
  }

  /** One timestamped interaction. `timestamp` is ticks since the session
      started; `position` is absent (null) when none was given. */
  datatype MetricEvent = MetricEvent(
    timestamp: int,
    exerciseId: string,
    eventType: string,
    position: Option<SerializableVector2>,
    details: string)

  function NewMetricEvent(timestamp: int, exerciseId: string, eventType: string,
                          position: Option<Vector2>, details: string): (e: MetricEvent)
    ensures e.timestamp == timestamp && e.exerciseId == exerciseId
    ensures e.eventType == eventType && e.details == details
    ensures e.position.None? <==> position.None?
    ensures position.Some? ==> FromSerializable(e.position.value) == position.value
  {
    var p := if position.Some? then Some(ToSerializable(position.value)) else None;
    MetricEvent(timestamp, exerciseId, eventType, p, details)
  }

  /** The root object of a results file. The two time stamps stay null
      until the manager fills them in. */
  datatype SessionResults = SessionResults(
    sessionId: string,
    patientId: string,
    sessionStartTime: Option<string>,
    sessionEndTime: Option<string>,
    events: seq<MetricEvent>)

  function NewSessionResults(sessionId: string, patientId: string): (r: SessionResults)
    ensures r.sessionId == sessionId && r.patientId == patientId
    ensures r.events == []
    ensures r.sessionStartTime.None? && r.sessionEndTime.None?
  {
    SessionResults(sessionId, patientId, None, None, [])
  }

  /** An exercise's request to log one event (the arguments of `LogEvent`). */
  datatype LogCall = LogCall(exerciseId: string, eventType: string, position: Option<Vector2>, details: string)

  /** The manager's private state: the current results (null when no
      session is active) and the tick at which the session started. */
  datatype Manager = Manager(current: Option<SessionResults>, startTick: nat)
  {
    predicate Active() { current.Some? }
  }

  const Initial: Manager := Manager(None, 0)

  /** Starts a recording session, discarding whatever was recorded before. */
  function StartNewSession(m: Manager, sessionId: string, patientId: string,
                           now: nat, utcNow: string): (m': Manager)
    ensures m'.Active()
    ensures m'.current.value.sessionId == sessionId && m'.current.value.patientId == patientId
    ensures m'.current.value.events == []
    ensures m'.current.value.sessionStartTime == Some(utcNow)
    ensures m'.current.value.sessionEndTime.None?
    ensures m'.startTick == now
  {
    Manager(Some(NewSessionResults(sessionId, patientId).(sessionStartTime := Some(utcNow))), now)
  }

  /** Appends one event stamped with the ticks elapsed since the session
      started; does nothing when no session is active. */
  function LogEvent(m: Manager, now: nat, call: LogCall): (m': Manager)
    ensures !m.Active() ==> m' == m
    ensures m.Active() ==> m'.Active() && m'.startTick == m.startTick
    ensures m.Active() ==> m'.current.value == m.current.value.(events := m'.current.value.events)
    ensures m.Active() ==> |m'.current.value.events| == |m.current.value.events| + 1
    ensures m.Active() ==> m'.current.value.events[..|m.current.value.events|] == m.current.value.events
    ensures m.Active() ==>
      var e := m'.current.value.events[|m.current.value.events|];
      && e.timestamp == now - m.startTick
      && e.exerciseId == call.exerciseId && e.eventType == call.eventType && e.details == call.details
      && (e.position.None? <==> call.position.None?)
      && (call.position.Some? ==> FromSerializable(e.position.value) == call.position.value)
  {
    if !m.Active() then m
    else
      var e := NewMetricEvent(now - m.startTick, call.exerciseId, call.eventType, call.position, call.details);
      m.(current := Some(m.current.value.(events := m.current.value.events + [e])))
  }

  /** Logs the calls one after another at the same tick: every handler of
      an exercise runs within one frame, and `Time.time` does not change
      within a frame. */
  function LogAll(m: Manager, now: nat, calls: seq<LogCall>): Manager
    decreases |calls|
  {
    if |calls| == 0 then m else LogAll(LogEvent(m, now, calls[0]), now, calls[1..])
  }

  /** Logging a batch appends exactly one event per call, in call order,
      and nothing happens while inactive. */
  lemma {:induction false} LogAllAppends(m: Manager, now: nat, calls: seq<LogCall>)
    ensures !m.Active() ==> LogAll(m, now, calls) == m
    ensures m.Active() ==>
      var m' := LogAll(m, now, calls);
      var old_ := m.current.value.events;
      && m'.Active() && m'.startTick == m.startTick
      && m'.current.value == m.current.value.(events := m'.current.value.events)
      && |m'.current.value.events| == |old_| + |calls|
      && m'.current.value.events[..|old_|] == old_
      && forall k :: 0 <= k < |calls| ==>
           var e := m'.current.value.events[|old_| + k];
           e.exerciseId == calls[k].exerciseId && e.eventType == calls[k].eventType
           && e.details == calls[k].details && e.timestamp == now - m.startTick
           && (e.position.None? <==> calls[k].position.None?)
           && (calls[k].position.Some? ==> FromSerializable(e.position.value) == calls[k].position.value)
    decreases |calls|
  {
    if |calls| > 0 && m.Active() {
      var m1 := LogEvent(m, now, calls[0]);
      LogAllAppends(m1, now, calls[1..]);
      var old_ := m.current.value.events;
      var mid := m1.current.value.events;
      var fin := LogAll(m, now, calls).current.value.events;
      assert fin[..|mid|] == mid;
      assert fin[..|old_|] == mid[..|old_|];
      forall k | 0 <= k < |calls|
        ensures fin[|old_| + k].exerciseId == calls[k].exerciseId
        ensures fin[|old_| + k].eventType == calls[k].eventType
        ensures fin[|old_| + k].details == calls[k].details
        ensures fin[|old_| + k].timestamp == now - m.startTick
        ensures fin[|old_| + k].position.None? <==> calls[k].position.None?
        ensures calls[k].position.Some? ==> FromSerializable(fin[|old_| + k].position.value) == calls[k].position.value
      {
        if k == 0 {
          assert fin[|old_|] == mid[|old_|];
        } else {
          assert calls[k] == calls[1..][k - 1];
          assert |old_| + k == |mid| + (k - 1);
        }
      }
    } else if |calls| > 0 {
      LogAllAppends(m, now, calls[1..]);
    }
  }

  /** The file a save writes and whether `File.WriteAllText` succeeded. */
  datatype SaveAttempt = SaveAttempt(fileName: string, contents: SessionResults, written: bool)

  /** `Results_{patientId}_{sessionId}_{stamp}.json`, where `stamp` is the
      local time formatted as `yyyyMMdd_hhmmss`: a 12-hour clock with no
      AM/PM marker, so saves twelve hours apart on one day share a stamp. */
  function ResultsFileName(patientId: string, sessionId: string, stamp: string): (f: string)
    ensures |f| >= 13 && f[..8] == "Results_"
    ensures f[|f| - 5..] == ".json"
  {
    "Results_" + patientId + "_" + sessionId + "_" + stamp + ".json"
  }

  /** Cutting at the first separator: when neither head contains `sep`, a
      string of the form head + sep + tail has only one such split. */
  lemma CutAtFirst(a: string, x: string, b: string, y: string, sep: char)
    requires sep !in a && sep !in b
    requires a + [sep] + x == b + [sep] + y
    ensures a == b && x == y
  {
    var f := a + [sep] + x;
    var i := Text.IndexOf(f, sep);
    assert f[|a|] == sep && f[|b|] == sep;
    assert forall k :: 0 <= k < |a| ==> f[k] == a[k];
    assert forall k :: 0 <= k < |b| ==> f[k] == b[k];
    assert i == |a| && i == |b|;
    assert a == f[..|a|] == b;
    assert x == f[|a| + 1..] == y;
  }

  /** Between the fixed "Results_" and ".json" lie the ids and the stamp. */
  lemma ResultsFileNameCore(patientId: string, sessionId: string, stamp: string)
    ensures var f := ResultsFileName(patientId, sessionId, stamp);
      f[8..|f| - 5] == patientId + [('_' as char)] + (sessionId + [('_' as char)] + stamp)
  {
    var core := patientId + "_" + sessionId + "_" + stamp;
    var f := ResultsFileName(patientId, sessionId, stamp);
    assert f == "Results_" + core + ".json";
    assert f[8..|f| - 5] == core;
  }

  /** Saves that differ in an id or in the stamp write different files:
      when the ids contain no '_', the file name determines the patient id,
      the session id and the stamp. */
  lemma ResultsFileNameInjective(p1: string, s1: string, t1: string, p2: string, s2: string, t2: string)
    requires '_' !in p1 && '_' !in s1 && '_' !in p2 && '_' !in s2
    requires ResultsFileName(p1, s1, t1) == ResultsFileName(p2, s2, t2)
    ensures p1 == p2 && s1 == s2 && t1 == t2
  {
    ResultsFileNameCore(p1, s1, t1);
    ResultsFileNameCore(p2, s2, t2);
    CutAtFirst(p1, s1 + "_" + t1, p2, s2 + "_" + t2, '_');
    CutAtFirst(s1, t1, s2, t2, '_');
  }

  /** Stamps the end time, attempts the write, and clears the session
      whether the write succeeded or threw. */
  function EndSessionAndSave(m: Manager, utcNow: string, stamp: string, writeSucceeds: bool)
    : (r: (Manager, Option<SaveAttempt>))
    ensures !r.0.Active()
    ensures r.0.startTick == m.startTick
    ensures !m.Active() ==> r.0 == m && r.1.None?
    ensures m.Active() ==> r.1.Some?
    ensures m.Active() ==>
      var s := r.1.value;
      && s.contents == m.current.value.(sessionEndTime := Some(utcNow))
      && s.fileName == ResultsFileName(m.current.value.patientId, m.current.value.sessionId, stamp)
      && s.written == writeSucceeds
  {
    if !m.Active() then (m, None)
    else
      var results := m.current.value.(sessionEndTime := Some(utcNow));
      var name := ResultsFileName(results.patientId, results.sessionId, stamp);
      (m.(current := None), Some(SaveAttempt(name, results, writeSucceeds)))
  }

  /** One call into the manager, with the clock reading it happens at. */
  datatype Command =
    | Start(sessionId: string, patientId: string, now: nat, utcNow: string)
    | Log(now: nat, call: LogCall)
    | End(utcNow: string, stamp: string, writeSucceeds: bool)

  function Step(m: Manager, c: Command): Manager
  {
    match c
    case Start(sid, pid, now, utc) => StartNewSession(m, sid, pid, now, utc)
    case Log(now, call) => LogEvent(m, now, call)
    case End(utc, stamp, ok) => EndSessionAndSave(m, utc, stamp, ok).0
  }

  function Replay(m: Manager, cs: seq<Command>): Manager
    decreases |cs|
  {
    if |cs| == 0 then m else Replay(Step(m, cs[0]), cs[1..])
  }

  predicate OnlyLogs(cs: seq<Command>)
  {
    forall k :: 0 <= k < |cs| ==> cs[k].Log?
  }

  /** After a session is closed, logging changes nothing until a new
      session starts. */
  lemma {:induction false} LogsAfterEndAreIgnored(m: Manager, cs: seq<Command>)
    requires !m.Active()
    requires OnlyLogs(cs)
    ensures Replay(m, cs) == m
    decreases |cs|
  {
    if |cs| > 0 {
      LogsAfterEndAreIgnored(Step(m, cs[0]), cs[1..]);
    }
  }

  /** The log is append-only: while no session is started or ended, the
      events recorded so far stay, unchanged and in order, at the front. */
  lemma {:induction false} LogIsAppendOnly(m: Manager, cs: seq<Command>)
    requires m.Active()
    requires OnlyLogs(cs)
    ensures Replay(m, cs).Active()
    ensures |Replay(m, cs).current.value.events| == |m.current.value.events| + |cs|
    ensures Replay(m, cs).current.value.events[..|m.current.value.events|] == m.current.value.events
    ensures Replay(m, cs).current.value.sessionId == m.current.value.sessionId
    ensures Replay(m, cs).current.value.patientId == m.current.value.patientId
    decreases |cs|
  {
    if |cs| > 0 {
      var m1 := Step(m, cs[0]);
      LogIsAppendOnly(m1, cs[1..]);
      var mid := m1.current.value.events;
      assert Replay(m, cs).current.value.events[..|mid|] == mid;
    }
  }

  /** Each command's clock reading is at least the previous one's. */
  predicate ClockFrom(t: nat, cs: seq<Command>)
    decreases |cs|
  {
    |cs| == 0 ||
    match cs[0]
    case Start(_, _, now, _) => t <= now && ClockFrom(now, cs[1..])
    case Log(now, _) => t <= now && ClockFrom(now, cs[1..])
    case End(_, _, _) => ClockFrom(t, cs[1..])
  }

  predicate TimestampsNonNegative(m: Manager)
  {
    m.current.Some? ==> forall k :: 0 <= k < |m.current.value.events| ==> m.current.value.events[k].timestamp >= 0
  }

  /** Under a clock that never goes back, every recorded timestamp is
      non-negative. */
  lemma {:induction false} MonotoneClockStamps(m: Manager, t: nat, cs: seq<Command>)
    requires TimestampsNonNegative(m)
    requires m.startTick <= t
    requires ClockFrom(t, cs)
    ensures TimestampsNonNegative(Replay(m, cs))
    decreases |cs|
  {
    if |cs| > 0 {
      var m1 := Step(m, cs[0]);
      match cs[0]
      case Start(_, _, now, _) =>
        MonotoneClockStamps(m1, now, cs[1..]);
      case Log(now, call) =>
        if m.Active() {
          var old_ := m.current.value.events;
          var evs := m1.current.value.events;
          forall k | 0 <= k < |evs|
            ensures evs[k].timestamp >= 0
          {
            if k < |old_| {
              assert evs[k] == evs[..|old_|][k];
            }
          }
        }
        MonotoneClockStamps(m1, now, cs[1..]);
      case End(_, _, _) =>
        MonotoneClockStamps(m1, t, cs[1..]);
    }
  }
}
