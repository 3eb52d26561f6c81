/** The motor calibration exercise (`MotorCalibrationController`): one
    target at a time appears at a random spot; each click records the
    reaction time and either ends the exercise or, after a short delay,
    spawns the next target. Random spawn positions are supplied by the
    caller, and the delayed spawn is an explicit event. */
module MotorCalibration {
  import opened Base
  import Text
  import Metrics
  import Session
  import SessionFlow

  /** `FindMyExerciseIndex`: the first exercise in the session whose
      `numTargets` equals this exercise's, or -1. */
  method FindMyExerciseIndex(exercises: seq<Session.ExerciseData>, numTargets: int) returns (index: int)
    ensures -1 <= index < |exercises|
    ensures index == -1 <==> forall i :: 0 <= i < |exercises| ==> exercises[i].parameters.numTargets != numTargets
    ensures index >= 0 ==>
      && exercises[index].parameters.numTargets == numTargets
      && (forall i :: 0 <= i < index ==> exercises[i].parameters.numTargets != numTargets)
    ensures index == MatchIndex(exercises, numTargets)
  {
    var i := 0;
    while i < |exercises|
      invariant 0 <= i <= |exercises|
      invariant forall j :: 0 <= j < i ==> exercises[j].parameters.numTargets != numTargets
      invariant MatchIndex(exercises, numTargets) == MatchFrom(exercises, numTargets, i)
    {
      if exercises[i].parameters.numTargets == numTargets {
        return i;
      }
      i := i + 1;
    }
    return -1;
  }

  /** The same search as a function: the first match at or after `from`. */
  function MatchFrom(exercises: seq<Session.ExerciseData>, numTargets: int, from: nat): (index: int)
    requires from <= |exercises|
    ensures index == -1 || from <= index < |exercises|
    ensures index >= 0 ==>
      && exercises[index].parameters.numTargets == numTargets
      && (forall i :: from <= i < index ==> exercises[i].parameters.numTargets != numTargets)
    ensures index == -1 ==> forall i :: from <= i < |exercises| ==> exercises[i].parameters.numTargets != numTargets
    decreases |exercises| - from
  {
    if from == |exercises| then -1
    else if exercises[from].parameters.numTargets == numTargets then from
    else MatchFrom(exercises, numTargets, from + 1)
  }

  function MatchIndex(exercises: seq<Session.ExerciseData>, numTargets: int): int
  {
    MatchFrom(exercises, numTargets, 0)
  }

  const FallbackId: string := "MotorCalibration"

  /** The id `Initialize` logs under, as written: the matched exercise's
      id, or the fallback. */
  function ExerciseIdAsWritten(exercises: seq<Session.ExerciseData>, numTargets: int): (id: string)
    ensures MatchIndex(exercises, numTargets) == -1 ==> id == FallbackId
    ensures MatchIndex(exercises, numTargets) >= 0 ==> id == exercises[MatchIndex(exercises, numTargets)].exerciseId
  {
    var i := MatchIndex(exercises, numTargets);
    if i == -1 then FallbackId else exercises[i].exerciseId
  }

  /** Matching by `numTargets` names the wrong exercise whenever an earlier
      exercise has the same value — for instance any earlier exercise whose
      JSON leaves `numTargets` out, which reads as 0, before a calibration
      with `numTargets` 0. */
  lemma IdLookupPicksEarlierExercise()
    ensures
      var p := Session.ExerciseParameters(0, "", "", 0, "", "", 0, 0);
      var exercises := [Session.ExerciseData("Cancellation", p), Session.ExerciseData("MotorCalibration_1", p)];
      ExerciseIdAsWritten(exercises, exercises[1].parameters.numTargets) == "Cancellation"
  {
  }

  /** The index the session controller last handed its parameters to, if
      any: the exercise now running. */
  function Launched(c: SessionFlow.Controller): Option<nat>
  {
    if |c.initialized| == 0 then None else Some(c.initialized[|c.initialized| - 1])
  }

  /** The id the exercise was launched under: the session controller knows
      the index of the exercise it initializes, and the exercise logs under
      that entry's id (the fallback only when nothing was launched). */
  function ExerciseIdCorrected(exercises: seq<Session.ExerciseData>, c: SessionFlow.Controller): (id: string)
    ensures Launched(c).Some? && Launched(c).value < |exercises| ==>
      id == exercises[Launched(c).value].exerciseId
    ensures Launched(c).None? || Launched(c).value >= |exercises| ==> id == FallbackId
  {
    match Launched(c)
    case Some(i) => if i < |exercises| then exercises[i].exerciseId else FallbackId
    case None => FallbackId
  }

  /** Whenever `StartNextExercise` leaves an exercise running, the corrected
      id is the id of the exercise at the controller's index, the one whose
      prefab was instantiated: its prefab path is the one found, and that
      prefab carries an exercise controller. */
  lemma CorrectedIdIsLaunchedExercise(c: SessionFlow.Controller, exercises: seq<Session.ExerciseData>,
                                      prefabs: SessionFlow.Prefabs, save: SessionFlow.SaveInputs)
    ensures
      var r := SessionFlow.StartNextExercise(c, exercises, prefabs, save);
      r.status == SessionFlow.Running ==>
        && Launched(r) == Some(r.index)
        && ExerciseIdCorrected(exercises, r) == exercises[r.index].exerciseId
        && SessionFlow.PrefabPath(ExerciseIdCorrected(exercises, r)) in prefabs
        && prefabs[SessionFlow.PrefabPath(ExerciseIdCorrected(exercises, r))] == SessionFlow.WithController
  {
  }

  /** The written lookup starts from the launched exercise's own
      `numTargets`, so it always finds an entry at or before it; it names
      the launched exercise exactly when that first entry has the launched
      exercise's id. */
  lemma LookupsAgreeExactly(exercises: seq<Session.ExerciseData>, currentIndex: nat)
    requires currentIndex < |exercises|
    ensures
      var m := MatchIndex(exercises, exercises[currentIndex].parameters.numTargets);
      && 0 <= m <= currentIndex
      && (ExerciseIdAsWritten(exercises, exercises[currentIndex].parameters.numTargets) == exercises[currentIndex].exerciseId
          <==> exercises[m].exerciseId == exercises[currentIndex].exerciseId)
  {
  }

  /** With distinct `numTargets` values the search finds the launched
      exercise itself, so the two lookups agree. */
  lemma LookupsAgreeWhenNumTargetsDistinct(exercises: seq<Session.ExerciseData>, currentIndex: nat)
    requires currentIndex < |exercises|
    requires forall i :: 0 <= i < currentIndex ==>
      exercises[i].parameters.numTargets != exercises[currentIndex].parameters.numTargets
    ensures ExerciseIdAsWritten(exercises, exercises[currentIndex].parameters.numTargets)
         == exercises[currentIndex].exerciseId
  {
    LookupsAgreeExactly(exercises, currentIndex);
  }

  datatype Target = Target(position: Metrics.Vector2, spawnTick: nat)

  datatype Motor = Motor(
    exerciseId: string,
    targetsToSpawn: int,
    targetsCompleted: nat,
    target: Option<Target>,
    spawnPending: bool,
    ended: bool)

  /** What a step yields: the new state, the events it logs and whether
      `OnExerciseComplete` fired. */
  datatype Outcome = Outcome(motor: Motor, logs: seq<Metrics.LogCall>, completed: bool)

  function Label(k: int): string
  {
    "Target_" + Text.IntToString(k)
  }

  function SpawnLog(exerciseId: string, position: Metrics.Vector2, k: int): Metrics.LogCall
  {
    Metrics.LogCall(exerciseId, "TargetSpawned", Some(position), Label(k))
  }

  /** `SpawnNextTarget`: one target, labelled with the number it will have
      once hit. */
  function Spawn(m: Motor, now: nat, position: Metrics.Vector2): (o: Outcome)
    ensures o.motor == m.(target := Some(Target(position, now)), spawnPending := false)
    ensures o.logs == [SpawnLog(m.exerciseId, position, m.targetsCompleted + 1)]
    ensures !o.completed
  {
    Outcome(m.(target := Some(Target(position, now)), spawnPending := false),
            [SpawnLog(m.exerciseId, position, m.targetsCompleted + 1)], false)
  }

  /** `Initialize`, under a given exercise id: log the start and spawn the
      first target. */
  function Initialize(exerciseId: string, numTargets: int, now: nat, position: Metrics.Vector2): (o: Outcome)
    ensures o.logs == [Metrics.LogCall(exerciseId, "ExerciseStart", None, ""), SpawnLog(exerciseId, position, 1)]
    ensures o.motor == Motor(exerciseId, numTargets, 0, Some(Target(position, now)), false, false)
    ensures !o.completed
  {
    var m := Motor(exerciseId, numTargets, 0, None, false, false);
    var s := Spawn(m, now, position);
    Outcome(s.motor, [Metrics.LogCall(exerciseId, "ExerciseStart", None, "")] + s.logs, false)
  }

  function HitDetails(k: int, reactionTicks: int): string
  {
    Label(k) + ", ReactionTime: " + Text.IntToString(reactionTicks) + "s"
  }

  /** The events the exercise reacts to: a click on the current target, and
      the delayed spawn `SpawnWithDelay` schedules. */
  datatype Event = Hit(now: nat) | SpawnDue(now: nat, position: Metrics.Vector2)

  function Step(m: Motor, e: Event): (o: Outcome)
    // only an existing target can be clicked, only a scheduled spawn happens
    ensures e.Hit? && m.target.None? ==> o == Outcome(m, [], false)
    ensures e.SpawnDue? && !m.spawnPending ==> o == Outcome(m, [], false)
    // a hit counts exactly one target and removes it
    ensures e.Hit? && m.target.Some? ==>
      && o.motor.targetsCompleted == m.targetsCompleted + 1
      && o.motor.target.None?
      && |o.logs| >= 1
      && o.logs[0] == Metrics.LogCall(m.exerciseId, "TargetHit", Some(m.target.value.position),
                        HitDetails(m.targetsCompleted + 1, e.now - m.target.value.spawnTick))
    // then the exercise ends, or the next spawn is scheduled
    ensures e.Hit? && m.target.Some? ==>
      (o.completed <==> m.targetsCompleted + 1 >= m.targetsToSpawn)
    ensures e.Hit? && m.target.Some? && o.completed ==>
      && o.motor.ended
      && o.logs == [o.logs[0], Metrics.LogCall(m.exerciseId, "ExerciseEnd", None, "")]
    ensures e.Hit? && m.target.Some? && !o.completed ==>
      o.motor.spawnPending && o.motor.ended == m.ended && |o.logs| == 1
    ensures e.SpawnDue? && m.spawnPending ==> o == Spawn(m, e.now, e.position)
    ensures o.motor.exerciseId == m.exerciseId && o.motor.targetsToSpawn == m.targetsToSpawn
  {
    match e
    case Hit(now) =>
      if m.target.None? then Outcome(m, [], false)
      else
        var t := m.target.value;
        var k := m.targetsCompleted + 1;
        var hit := Metrics.LogCall(m.exerciseId, "TargetHit", Some(t.position), HitDetails(k, now - t.spawnTick));
        var m1 := m.(targetsCompleted := k, target := None);
        if k >= m.targetsToSpawn then
          Outcome(m1.(ended := true), [hit, Metrics.LogCall(m.exerciseId, "ExerciseEnd", None, "")], true)
        else Outcome(m1.(spawnPending := true), [hit], false)
    case SpawnDue(now, position) =>
      if !m.spawnPending then Outcome(m, [], false) else Spawn(m, now, position)
  }

  /** Between events exactly one of these holds: a target is up, a spawn is
      pending, or the exercise has ended. */
  predicate Valid(m: Motor)
  {
    && (m.target.Some? ==> !m.spawnPending && !m.ended)
    && (m.spawnPending ==> !m.ended)
    && (m.target.Some? || m.spawnPending || m.ended)
    && (m.ended <==> m.targetsCompleted >= m.targetsToSpawn && m.targetsCompleted >= 1)
  }

  lemma StepKeepsValid(m: Motor, e: Event)
    requires Valid(m)
    ensures Valid(Step(m, e).motor)
  {
  }

  /** The number of hits before the exercise ends: `numTargets`, but at
      least one, since the first target is spawned unconditionally. */
  function HitsNeeded(numTargets: int): (n: nat)
    ensures n >= 1 && n >= numTargets
    ensures numTargets >= 1 ==> n == numTargets
  {
    if numTargets >= 1 then numTargets else 1
  }

  /** One round at tick `now`: the current target (if any) is clicked,
      then the delayed spawn (if one is scheduled) happens at `position`.
      The result is the new state and whether completion fired; the logs
      are left out. `RoundIsHitThenSpawn` shows this is exactly the two
      steps. */
  function Round(m: Motor, now: nat, position: Metrics.Vector2): (Motor, bool)
  {
    var done := m.target.Some? && m.targetsCompleted + 1 >= m.targetsToSpawn;
    var m1 :=
      if m.target.None? then m
      else if done then m.(targetsCompleted := m.targetsCompleted + 1, target := None, ended := true)
      else m.(targetsCompleted := m.targetsCompleted + 1, target := None, spawnPending := true);
    (if m1.spawnPending then m1.(target := Some(Target(position, now)), spawnPending := false) else m1, done)
  }

  lemma RoundIsHitThenSpawn(m: Motor, now: nat, position: Metrics.Vector2)
    ensures
      var o1 := Step(m, Hit(now));
      var o2 := Step(o1.motor, SpawnDue(now, position));
      Round(m, now, position) == (o2.motor, o1.completed || o2.completed)
  {
  }

  /** `k` rounds; the second component counts how often completion fired. */
  function Play(m: Motor, k: nat, now: nat, position: Metrics.Vector2): (r: (Motor, nat))
    decreases k
  {
    if k == 0 then (m, 0)
    else
      var o := Round(m, now, position);
      var rest := Play(o.0, k - 1, now, position);
      (rest.0, rest.1 + (if o.1 then 1 else 0))
  }

  /** From the initial state, the first `HitsNeeded - 1` rounds leave a
      target up with that many hits counted, and the next hit ends the
      exercise: completion fires exactly once, after exactly
      `max(numTargets, 1)` hits, and later rounds change nothing. */
  lemma {:induction false} HitsUntilDone(m: Motor, k: nat, now: nat, position: Metrics.Vector2)
    requires m.target.Some? && !m.spawnPending && !m.ended
    requires m.targetsCompleted < HitsNeeded(m.targetsToSpawn)
    ensures
      var r := Play(m, k, now, position);
      var left := HitsNeeded(m.targetsToSpawn) - m.targetsCompleted;
      && (k < left ==> r.0.target.Some? && !r.0.ended && r.0.targetsCompleted == m.targetsCompleted + k && r.1 == 0)
      && (k >= left ==> r.0.ended && r.0.target.None? && r.0.targetsCompleted == HitsNeeded(m.targetsToSpawn) && r.1 == 1)
    decreases k
  {
    if k > 0 {
      var o := Round(m, now, position);
      if o.1 {
        EndedStaysPut(o.0, k - 1, now, position);
      } else {
        HitsUntilDone(o.0, k - 1, now, position);
      }
    }
  }

  lemma {:induction false} EndedStaysPut(m: Motor, k: nat, now: nat, position: Metrics.Vector2)
    requires m.ended && m.target.None? && !m.spawnPending
    ensures Play(m, k, now, position) == (m, 0)
    decreases k
  {
    if k > 0 {
      EndedStaysPut(m, k - 1, now, position);
    }
  }

  /** The whole exercise from `Initialize`: completion after exactly
      `max(numTargets, 1)` hits. */
  lemma CompletesAfterHitsNeeded(exerciseId: string, numTargets: int, now: nat, position: Metrics.Vector2, k: nat)
    ensures
      var m := Initialize(exerciseId, numTargets, now, position).motor;
      var r := Play(m, k, now, position);
      && (k < HitsNeeded(numTargets) ==> !r.0.ended && r.1 == 0 && r.0.targetsCompleted == k)
      && (k >= HitsNeeded(numTargets) ==> r.0.ended && r.1 == 1 && r.0.targetsCompleted == HitsNeeded(numTargets))
  {
    HitsUntilDone(Initialize(exerciseId, numTargets, now, position).motor, k, now, position);
  }

  /** A target is announced under the same label its hit is logged with:
      the hit's details are the spawn's details followed by the reaction
      time, measured from the spawn. */
  lemma SpawnAndHitLabelsAgree(m: Motor, spawnAt: nat, position: Metrics.Vector2, hitAt: nat)
    requires m.spawnPending
    ensures
      var s := Step(m, SpawnDue(spawnAt, position));
      var h := Step(s.motor, Hit(hitAt));
      && s.logs[0].details == Label(m.targetsCompleted + 1)
      && h.logs[0].details == s.logs[0].details + ", ReactionTime: " + Text.IntToString(hitAt - spawnAt) + "s"
      && h.logs[0].position == s.logs[0].position
  {
    var k := m.targetsCompleted + 1;
    var s := Step(m, SpawnDue(spawnAt, position));
    assert s == Spawn(m, spawnAt, position);
    assert s.logs[0] == SpawnLog(m.exerciseId, position, k);
    assert s.motor.target == Some(Target(position, spawnAt)) && s.motor.targetsCompleted == m.targetsCompleted;
    var h := Step(s.motor, Hit(hitAt));
    assert h.logs[0].details == HitDetails(k, hitAt - spawnAt);
  }
}
