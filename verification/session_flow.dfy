/** `SessionController`: walks the loaded exercise list by index,
    instantiating one exercise prefab at a time, skipping exercises whose
    prefab is missing, stalling on a prefab without an exercise
    controller, and ending the session (and the metrics log) after the
    last exercise. Prefab lookup (`Resources.Load<GameObject>`) is a map
    from resource path to the kind of prefab found there. */
module SessionFlow {
  import opened Base
  import Metrics
  import Session

  /** A prefab whose root carries an `IExerciseController`, or one that does not. */
  datatype Prefab = WithController | WithoutController

  type Prefabs = map<string, Prefab>

  function PrefabPath(exerciseId: string): string
  {
    "Prefabs/Exercises/" + exerciseId
  }

  predicate HasPrefab(exercises: seq<Session.ExerciseData>, prefabs: Prefabs, i: nat)
    requires i < |exercises|
  {
    PrefabPath(exercises[i].exerciseId) in prefabs
  }

  /** Idle: before `Start`. Running: an exercise is instantiated and its
      completion event is subscribed. Stalled: an exercise is instantiated
      but nothing is subscribed, so no completion can ever arrive.
      Finished: `EndSession` has run. */
  datatype Status = Idle | Running | Stalled | Finished

  /** The wall-clock readings and write outcome a session end needs. */
  datatype SaveInputs = SaveInputs(utcNow: string, stamp: string, writeSucceeds: bool)

  /** `instantiated` lists the indices whose prefab was instantiated, and
      `initialized` those whose controller was subscribed and handed its
      parameters, both in order. `metrics` is `MetricsManager.Instance`. */
  datatype Controller = Controller(
    index: nat,
    status: Status,
    instantiated: seq<nat>,
    initialized: seq<nat>,
    metrics: Option<Metrics.Manager>,
    saves: seq<Metrics.SaveAttempt>)

  function Fresh(metrics: Option<Metrics.Manager>): Controller
  {
    Controller(0, Idle, [], [], metrics, [])
  }

  /** `EndSession`: saves only when a metrics manager exists. */
  function EndSession(c: Controller, save: SaveInputs): (r: Controller)
    ensures r.status == Finished && r.index == c.index
    ensures r.instantiated == c.instantiated && r.initialized == c.initialized
    ensures c.metrics.None? ==> r.metrics.None? && r.saves == c.saves
    ensures c.metrics.Some? ==> r.metrics.Some? && !r.metrics.value.Active()
    ensures c.metrics.Some? && c.metrics.value.Active() ==>
      |r.saves| == |c.saves| + 1 && r.saves[..|c.saves|] == c.saves
      && r.saves[|c.saves|].contents.events == c.metrics.value.current.value.events
    ensures c.metrics.Some? && !c.metrics.value.Active() ==> r.saves == c.saves
  {
    match c.metrics
    case None => c.(status := Finished)
    case Some(m) =>
      var (m', attempt) := Metrics.EndSessionAndSave(m, save.utcNow, save.stamp, save.writeSucceeds);
      var saves := if attempt.Some? then c.saves + [attempt.value] else c.saves;
      c.(status := Finished, metrics := Some(m'), saves := saves)
  }

  /** `StartNextExercise`, including its retry after a missing prefab. */
  function StartNextExercise(c: Controller, exercises: seq<Session.ExerciseData>,
                             prefabs: Prefabs, save: SaveInputs): (r: Controller)
    // the index only moves forward, and only over missing prefabs
    ensures r.index >= c.index
    ensures forall j :: c.index <= j < r.index ==> j < |exercises| && !HasPrefab(exercises, prefabs, j)
    ensures c.index <= |exercises| ==> r.index <= |exercises|
    // the session ends exactly when the index runs off the list
    ensures r.status == Finished <==> r.index >= |exercises|
    ensures r.status != Idle
    // otherwise the exercise found is instantiated; it runs iff it has a controller
    ensures r.status != Finished ==> r.index < |exercises| && HasPrefab(exercises, prefabs, r.index)
    ensures r.status != Finished ==>
      (r.status == Running <==> prefabs[PrefabPath(exercises[r.index].exerciseId)] == WithController)
    ensures r.instantiated == c.instantiated + (if r.status == Finished then [] else [r.index])
    ensures r.initialized == c.initialized + (if r.status == Running then [r.index] else [])
    // the metrics manager is touched only by the session end
    ensures r.status != Finished ==> r.metrics == c.metrics && r.saves == c.saves
    decreases |exercises| - c.index
  {
    if c.index < |exercises| then
      var path := PrefabPath(exercises[c.index].exerciseId);
      if path !in prefabs then
        StartNextExercise(c.(index := c.index + 1), exercises, prefabs, save)
      else
        match prefabs[path]
        case WithoutController =>
          c.(status := Stalled, instantiated := c.instantiated + [c.index])
        case WithController =>
          c.(status := Running, instantiated := c.instantiated + [c.index],
             initialized := c.initialized + [c.index])
    else
      EndSession(c, save)
  }

  /** When the walk runs off the list, `EndSession` runs on the walk as it
      stood at that index: the metrics log is saved and closed there. */
  lemma {:induction false} StartNextEndsSession(c: Controller, exercises: seq<Session.ExerciseData>,
                                                prefabs: Prefabs, save: SaveInputs)
    ensures var r := StartNextExercise(c, exercises, prefabs, save);
      r.status == Finished ==> r == EndSession(c.(index := r.index), save)
    decreases |exercises| - c.index
  {
    if c.index < |exercises| && PrefabPath(exercises[c.index].exerciseId) !in prefabs {
      StartNextEndsSession(c.(index := c.index + 1), exercises, prefabs, save);
    }
  }

  /** Indices below `hi` whose prefab exists, ascending: the reference order
      in which exercises should be instantiated. */
  function PresentIndices(exercises: seq<Session.ExerciseData>, prefabs: Prefabs, hi: nat): seq<nat>
    requires hi <= |exercises|
  {
    if hi == 0 then []
    else PresentIndices(exercises, prefabs, hi - 1)
         + (if HasPrefab(exercises, prefabs, hi - 1) then [hi - 1] else [])
  }

  /** A run of missing prefabs adds nothing to the reference order. */
  lemma {:induction false} SkipMissing(exercises: seq<Session.ExerciseData>, prefabs: Prefabs, lo: nat, hi: nat)
    requires lo <= hi <= |exercises|
    requires forall j :: lo <= j < hi ==> !HasPrefab(exercises, prefabs, j)
    ensures PresentIndices(exercises, prefabs, hi) == PresentIndices(exercises, prefabs, lo)
    decreases hi - lo
  {
    if lo < hi {
      SkipMissing(exercises, prefabs, lo, hi - 1);
    }
  }

  predicate StrictlyIncreasing(s: seq<nat>)
  {
    forall a, b :: 0 <= a < b < |s| ==> s[a] < s[b]
  }

  /** How far the walk has looked: the current index counts once it is instantiated. */
  function Upto(c: Controller): nat
  {
    if c.status == Running || c.status == Stalled then c.index + 1 else c.index
  }

  /** The walk invariant. */
  ghost predicate Valid(c: Controller, exercises: seq<Session.ExerciseData>, prefabs: Prefabs)
  {
    && c.index <= |exercises|
    && (c.status == Idle ==> c.index == 0 && c.instantiated == [] && c.initialized == [])
    && (c.status == Finished ==> c.index == |exercises|)
    && (c.status == Running || c.status == Stalled ==>
          c.index < |exercises| && HasPrefab(exercises, prefabs, c.index)
          && (c.status == Running <==> prefabs[PrefabPath(exercises[c.index].exerciseId)] == WithController))
    && Upto(c) <= |exercises|
    // every exercise with a prefab up to here was instantiated, once, in list order
    && c.instantiated == PresentIndices(exercises, prefabs, Upto(c))
    // every instantiated exercise was initialized, except a stalled last one
    && c.instantiated == c.initialized + (if c.status == Stalled then [c.index] else [])
  }

  /** The reference order is ascending and below its bound. */
  lemma {:induction false} PresentIndicesAscending(exercises: seq<Session.ExerciseData>, prefabs: Prefabs, hi: nat)
    requires hi <= |exercises|
    ensures StrictlyIncreasing(PresentIndices(exercises, prefabs, hi))
    ensures forall k :: 0 <= k < |PresentIndices(exercises, prefabs, hi)| ==> PresentIndices(exercises, prefabs, hi)[k] < hi
    decreases hi
  {
    if hi > 0 {
      PresentIndicesAscending(exercises, prefabs, hi - 1);
    }
  }

  /** Starting the next exercise from a valid position keeps the walk valid. */
  lemma StartNextKeepsValid(c: Controller, exercises: seq<Session.ExerciseData>, prefabs: Prefabs, save: SaveInputs)
    requires c.index <= |exercises|
    requires c.status != Stalled && c.status != Finished
    requires c.instantiated == PresentIndices(exercises, prefabs, c.index)
    requires c.initialized == c.instantiated
    ensures Valid(StartNextExercise(c, exercises, prefabs, save), exercises, prefabs)
  {
    var r := StartNextExercise(c, exercises, prefabs, save);
    assert r.index <= |exercises| && r.status != Idle;
    SkipMissing(exercises, prefabs, c.index, r.index);
    var before := PresentIndices(exercises, prefabs, r.index);
    assert before == c.instantiated;
    if r.status == Finished {
      assert Upto(r) == r.index && r.instantiated == before && r.initialized == r.instantiated;
    } else {
      assert HasPrefab(exercises, prefabs, r.index);
      assert PresentIndices(exercises, prefabs, r.index + 1) == before + [r.index];
      assert Upto(r) == r.index + 1 && r.instantiated == before + [r.index];
      if r.status == Stalled {
        assert r.initialized == c.initialized;
      } else {
        assert r.initialized == r.instantiated;
      }
    }
  }

  /** `HandleExerciseCompleted`: only a subscribed (running) exercise can
      deliver a completion; it is destroyed and the index moves on by one. */
  function HandleExerciseCompleted(c: Controller, exercises: seq<Session.ExerciseData>,
                                   prefabs: Prefabs, save: SaveInputs): (r: Controller)
    ensures c.status != Running ==> r == c
    ensures c.status == Running ==> r.index >= c.index + 1
    ensures c.status == Running ==>
      forall j :: c.index + 1 <= j < r.index ==> j < |exercises| && !HasPrefab(exercises, prefabs, j)
    ensures c.status == Running ==> r == StartNextExercise(c.(index := c.index + 1), exercises, prefabs, save)
  {
    if c.status != Running then c
    else
      StartNextExercise(c.(index := c.index + 1), exercises, prefabs, save)
  }

  /** A completion keeps the walk invariant. */
  lemma HandleKeepsValid(c: Controller, exercises: seq<Session.ExerciseData>,
                         prefabs: Prefabs, save: SaveInputs)
    requires Valid(c, exercises, prefabs)
    ensures Valid(HandleExerciseCompleted(c, exercises, prefabs, save), exercises, prefabs)
  {
    if c.status == Running {
      var next := c.(index := c.index + 1);
      RunningIsCaughtUp(c, exercises, prefabs);
      StartNextKeepsValid(next, exercises, prefabs, save);
    }
  }

  /** A running exercise is the last one instantiated and initialized, so
      the walk can resume just past it. */
  lemma RunningIsCaughtUp(c: Controller, exercises: seq<Session.ExerciseData>, prefabs: Prefabs)
    requires Valid(c, exercises, prefabs) && c.status == Running
    ensures c.index + 1 <= |exercises|
    ensures c.instantiated == PresentIndices(exercises, prefabs, c.index + 1)
    ensures c.initialized == c.instantiated
  {
  }

  /** `Start`, as corrected: without a usable session it only returns to
      the menu. */
  datatype StartOutcome = ReturnedToMenu | Walking(c: Controller)

  const MenuScene: string := "01_MainMenu"

  function Start(session: Option<Session.SessionData>, prefabs: Prefabs,
                 metrics: Option<Metrics.Manager>, save: SaveInputs): (r: StartOutcome)
    ensures !Session.Usable(session) <==> r.ReturnedToMenu?
    ensures r.Walking? ==> Valid(r.c, session.value.exercises.value, prefabs)
    ensures r.Walking? ==> r.c == StartNextExercise(Fresh(metrics), session.value.exercises.value, prefabs, save)
  {
    if !Session.Usable(session) then ReturnedToMenu
    else
      var exercises := session.value.exercises.value;
      StartNextKeepsValid(Fresh(metrics), exercises, prefabs, save);
      Walking(StartNextExercise(Fresh(metrics), exercises, prefabs, save))
  }

  /** `Start` as written: after requesting the menu scene it does not
      return, and dereferences the missing session. */
  datatype StartAsWrittenOutcome = Crashed(menuRequested: bool) | WalkingAsWritten(c: Controller)

  function StartAsWritten(session: Option<Session.SessionData>, prefabs: Prefabs,
                          metrics: Option<Metrics.Manager>, save: SaveInputs): StartAsWrittenOutcome
  {
    if session.None? then Crashed(true)
    else if session.value.exercises.None? then Crashed(false)
    else WalkingAsWritten(StartNextExercise(Fresh(metrics), session.value.exercises.value, prefabs, save))
  }

  /** The discrepancy: with no session loaded, the written `Start` requests
      the menu and then fails on the null session, where the corrected one
      just returns to the menu; on a usable session the two agree. */
  lemma StartWithoutSessionCrashes(prefabs: Prefabs, metrics: Option<Metrics.Manager>, save: SaveInputs)
    ensures StartAsWritten(None, prefabs, metrics, save) == Crashed(true)
    ensures Start(None, prefabs, metrics, save) == ReturnedToMenu
    ensures forall s :: Session.Usable(s) ==>
      StartAsWritten(s, prefabs, metrics, save).WalkingAsWritten?
      && Start(s, prefabs, metrics, save) == Walking(StartAsWritten(s, prefabs, metrics, save).c)
  {
  }

  /** `n` completion events delivered one after another. */
  function Complete(c: Controller, exercises: seq<Session.ExerciseData>, prefabs: Prefabs,
                    save: SaveInputs, n: nat): Controller
    decreases n
  {
    if n == 0 then c else Complete(HandleExerciseCompleted(c, exercises, prefabs, save), exercises, prefabs, save, n - 1)
  }

  /** The walk terminates: if every running exercise completes, after at
      most as many completions as exercises remain, nothing is running any
      more, and a walk that was not stalled has ended the session having
      instantiated and initialized every exercise with a prefab, in list
      order, each once. */
  lemma WalkTerminates(c: Controller, exercises: seq<Session.ExerciseData>,
                       prefabs: Prefabs, save: SaveInputs, n: nat)
    requires Valid(c, exercises, prefabs)
    requires n >= |exercises| - c.index
    ensures var r := Complete(c, exercises, prefabs, save, n);
      && r.status != Running
      && (r.status == Finished ==>
            && r.instantiated == PresentIndices(exercises, prefabs, |exercises|)
            && r.initialized == r.instantiated
            && StrictlyIncreasing(r.initialized))
  {
    var r := Complete(c, exercises, prefabs, save, n);
    NothingRunsAfter(c, exercises, prefabs, save, n);
    if r.status == Finished {
      CompleteKeepsValid(c, exercises, prefabs, save, n);
      FinishedWalkIsComplete(r, exercises, prefabs);
    }
  }

  /** Enough completions leave nothing running. */
  lemma {:induction false} NothingRunsAfter(c: Controller, exercises: seq<Session.ExerciseData>,
                                            prefabs: Prefabs, save: SaveInputs, n: nat)
    requires c.status == Running ==> c.index < |exercises|
    requires n >= |exercises| - c.index
    ensures Complete(c, exercises, prefabs, save, n).status != Running
    decreases n
  {
    if c.status != Running {
      FinishedStaysPut(c, exercises, prefabs, save, n);
    } else {
      NothingRunsAfter(HandleExerciseCompleted(c, exercises, prefabs, save), exercises, prefabs, save, n - 1);
    }
  }

  /** Any number of completions keeps the walk invariant. */
  lemma {:induction false} CompleteKeepsValid(c: Controller, exercises: seq<Session.ExerciseData>,
                                              prefabs: Prefabs, save: SaveInputs, n: nat)
    requires Valid(c, exercises, prefabs)
    ensures Valid(Complete(c, exercises, prefabs, save, n), exercises, prefabs)
    decreases n
  {
    if n > 0 {
      var c1 := HandleExerciseCompleted(c, exercises, prefabs, save);
      HandleKeepsValid(c, exercises, prefabs, save);
      CompleteKeepsValid(c1, exercises, prefabs, save, n - 1);
      assert Complete(c, exercises, prefabs, save, n) == Complete(c1, exercises, prefabs, save, n - 1);
    }
  }

  /** A finished walk instantiated and initialized every exercise with a
      prefab, once each, in list order. */
  lemma FinishedWalkIsComplete(c: Controller, exercises: seq<Session.ExerciseData>, prefabs: Prefabs)
    requires Valid(c, exercises, prefabs) && c.status == Finished
    ensures c.instantiated == PresentIndices(exercises, prefabs, |exercises|)
    ensures c.initialized == c.instantiated
    ensures StrictlyIncreasing(c.initialized)
  {
    PresentIndicesAscending(exercises, prefabs, |exercises|);
  }

  /** Completions change nothing once the session has ended. */
  lemma {:induction false} FinishedStaysPut(c: Controller, exercises: seq<Session.ExerciseData>,
                                            prefabs: Prefabs, save: SaveInputs, n: nat)
    requires c.status != Running
    ensures Complete(c, exercises, prefabs, save, n) == c
    decreases n
  {
    if n > 0 {
      FinishedStaysPut(c, exercises, prefabs, save, n - 1);
    }
  }

  /** A stalled walk never moves again: its index stays, nothing more is
      instantiated, and the session is never ended. */
  lemma StalledStaysPut(c: Controller, exercises: seq<Session.ExerciseData>,
                        prefabs: Prefabs, save: SaveInputs, n: nat)
    requires c.status == Stalled
    ensures Complete(c, exercises, prefabs, save, n) == c
  {
    FinishedStaysPut(c, exercises, prefabs, save, n);
  }
}
