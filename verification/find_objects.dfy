/** The find-the-object game of the 3D scene (`Core/GameManager`): each
    round names one of the interactable objects, the player clicks
    objects until they pick it, and after five rounds have been started
    the scene is changed. The random pick, the raycast result and the
    clock are inputs; `Invoke(…, 2f)` becomes a scheduled call that the
    caller later fires. */
module FindObjects {
  import opened Base

  /** What `ProcessClickSelection`'s raycast finds. */
  datatype ClickTarget =
    | NoCamera
    | Miss
    | HitObject(id: Id, interactable: bool)

  /** One frame's input: whether the left button was pressed (false also
      when there is no mouse), whether it was over UI, whether a keyboard
      is connected, and what the click's raycast finds. */
  datatype FrameInput = FrameInput(pressed: bool, overUi: bool, keyboard: bool, target: ClickTarget)

  datatype Scheduled = NewRound | NewAttempt

  /** What `TeleportPlayerToSpawn` finds: whether a player transform and a
      spawn point are both assigned, whether the player's
      `CharacterController` is present and enabled, and whether the scene
      has a main camera. */
  datatype Rig = Rig(teleports: bool, controllerEnabled: bool, cameraPresent: bool)

  /** The teleport takes the controller path, which disables the
      controller and then throws on the missing main camera before
      enabling it again. */
  predicate TeleportThrows(rig: Rig)
  {
    rig.teleports && rig.controllerEnabled && !rig.cameraPresent
  }

  /** `withoutData` are the objects whose `InteractableObject` has no
      `objectData` assigned in the Inspector; `lostRounds` counts the calls
      of `StartNewRound` that the teleport aborted. */
  datatype Game = Game(
    objects: seq<Id>,
    withoutData: set<Id>,
    rig: Rig,
    lostRounds: nat,
    correctObject: Option<Id>,
    waiting: bool,
    totalRounds: nat,
    totalAttempts: nat,
    correctRounds: nat,
    roundStartTick: nat,
    totalReactionTicks: int,
    scheduled: Option<Scheduled>,
    sceneRequested: bool)

  /** The state after `Awake`: the interactable objects found in the scene. */
  function Awake(objects: seq<Id>, withoutData: set<Id>, rig: Rig): (g: Game)
    ensures g.objects == objects && g.withoutData == withoutData && g.rig == rig
    ensures !g.waiting && g.scheduled.None?
    ensures g.totalRounds == 0 && g.totalAttempts == 0 && g.correctRounds == 0 && g.lostRounds == 0
  {
    Game(objects, withoutData, rig, 0, None, false, 0, 0, 0, 0, 0, None, false)
  }

  /** `pick` is `Random.Range(0, selectableObjects.Count)`. */
  predicate PickFits(g: Game, pick: nat)
  {
    |g.objects| > 0 ==> pick < |g.objects|
  }

  /** `StartNewRound`. It first teleports the player; when that throws,
      nothing of the round happens and only the controller is left
      disabled. Reading the display name of a pick without object data
      throws after the round is counted and the pick stored, but before
      the wait is set: that round awaits nothing. */
  function StartNewRound(g: Game, now: nat, pick: nat): (r: Game)
    requires PickFits(g, pick)
    // an aborted teleport counts no round and leaves the controller disabled
    ensures TeleportThrows(g.rig) ==>
      r == g.(rig := g.rig.(controllerEnabled := false), lostRounds := g.lostRounds + 1)
    // otherwise a round is counted even when there is nothing to find
    ensures !TeleportThrows(g.rig) ==> r.totalRounds == g.totalRounds + 1 && r.lostRounds == g.lostRounds
    ensures !TeleportThrows(g.rig) && |g.objects| == 0 ==> r == g.(totalRounds := g.totalRounds + 1)
    ensures !TeleportThrows(g.rig) && |g.objects| > 0 ==>
      && r.correctObject == Some(g.objects[pick])
      && r.correctObject.value in g.objects
    // the wait starts exactly when the teleport succeeds and the pick has its data
    ensures !TeleportThrows(g.rig) && |g.objects| > 0 && g.objects[pick] !in g.withoutData ==>
      r.waiting && r.roundStartTick == now
    ensures TeleportThrows(g.rig) || (|g.objects| > 0 && g.objects[pick] in g.withoutData) ==>
      r.waiting == g.waiting && r.roundStartTick == g.roundStartTick
    ensures r.totalAttempts == g.totalAttempts && r.correctRounds == g.correctRounds
    ensures r.objects == g.objects && r.withoutData == g.withoutData
    ensures r.scheduled == g.scheduled && r.sceneRequested == g.sceneRequested
    ensures r.totalReactionTicks == g.totalReactionTicks
  {
    var g1 := g.(totalRounds := g.totalRounds + 1);
    if TeleportThrows(g.rig) then g.(rig := g.rig.(controllerEnabled := false), lostRounds := g.lostRounds + 1)
    else if |g.objects| == 0 then g1
    else
      var g2 := g1.(correctObject := Some(g.objects[pick]));
      if g.objects[pick] in g.withoutData then g2
      else g2.(waiting := true, roundStartTick := now)
  }

  function StartNewAttempt(g: Game): Game
  {
    g.(waiting := true)
  }

  /** `Start`: the first round. */
  function Start(objects: seq<Id>, withoutData: set<Id>, rig: Rig, now: nat, pick: nat): (g: Game)
    requires |objects| > 0 ==> pick < |objects|
    ensures g.totalRounds == (if TeleportThrows(rig) then 0 else 1)
    ensures g.totalAttempts == 0 && g.correctRounds == 0
    ensures g.waiting <==> !TeleportThrows(rig) && |objects| > 0 && objects[pick] !in withoutData
  {
    StartNewRound(Awake(objects, withoutData, rig), now, pick)
  }

  /** `ProcessClickSelection`. */
  function ProcessClick(g: Game, now: nat, target: ClickTarget): (r: Game)
    // no camera, a miss or a hit on something not interactable changes nothing
    ensures !(target.HitObject? && target.interactable) ==> r == g
    // a valid click ends the wait and counts one attempt
    ensures target.HitObject? && target.interactable ==>
      && !r.waiting
      && r.totalAttempts == g.totalAttempts + 1
      && r.totalReactionTicks == g.totalReactionTicks + (now - g.roundStartTick)
      && r.totalRounds == g.totalRounds
      && r.correctObject == g.correctObject
    // only the correct object counts a correct round, and it schedules a new round
    ensures target.HitObject? && target.interactable ==>
      var correct := g.correctObject == Some(target.id);
      && r.correctRounds == g.correctRounds + (if correct then 1 else 0)
      && r.scheduled == Some(if correct then NewRound else NewAttempt)
  {
    match target
    case NoCamera => g
    case Miss => g
    case HitObject(id, interactable) =>
      if !interactable then g
      else
        var g1 := g.(waiting := false, totalReactionTicks := g.totalReactionTicks + (now - g.roundStartTick),
                     totalAttempts := g.totalAttempts + 1);
        if g.correctObject == Some(id) then g1.(correctRounds := g.correctRounds + 1, scheduled := Some(NewRound))
        else g1.(scheduled := Some(NewAttempt))
  }

  const RoundLimit: nat := 5

  /** One `Update`: the click (only while waiting; a click over UI ends the
      frame early), then the 'E' key, then the round limit, which requests
      the next scene. Reading the 'E' key without a keyboard throws, so
      such a frame ends after the click, before the round limit. */
  function Update(g: Game, now: nat, input: FrameInput): (r: Game)
    ensures !g.waiting || !input.pressed ==>
      r == g.(sceneRequested := g.sceneRequested || (input.keyboard && g.totalRounds == RoundLimit))
    ensures g.waiting && input.pressed && input.overUi ==> r == g
    ensures g.waiting && input.pressed && !input.overUi ==>
      var c := ProcessClick(g, now, input.target);
      r == c.(sceneRequested := c.sceneRequested || (input.keyboard && c.totalRounds == RoundLimit))
    // without a keyboard no frame requests the next scene
    ensures !input.keyboard ==> r.sceneRequested == g.sceneRequested
    ensures r.totalRounds == g.totalRounds && r.objects == g.objects && r.rig == g.rig
  {
    if g.waiting && input.pressed && input.overUi then g
    else
      var c := if g.waiting && input.pressed then ProcessClick(g, now, input.target) else g;
      if !input.keyboard then c
      else c.(sceneRequested := c.sceneRequested || c.totalRounds == RoundLimit)
  }

  /** The scheduled call comes due. */
  function Fire(g: Game, now: nat, pick: nat): (r: Game)
    requires PickFits(g, pick)
    ensures g.scheduled.None? ==> r == g
    ensures g.scheduled == Some(NewRound) ==> r == StartNewRound(g.(scheduled := None), now, pick)
    ensures g.scheduled == Some(NewAttempt) ==> r == StartNewAttempt(g.(scheduled := None))
    ensures g.scheduled == Some(NewAttempt) ==> r.totalRounds == g.totalRounds && r.waiting
    ensures r.sceneRequested == g.sceneRequested && r.objects == g.objects
  {
    match g.scheduled
    case None => g
    case Some(NewRound) => StartNewRound(g.(scheduled := None), now, pick)
    case Some(NewAttempt) => StartNewAttempt(g.(scheduled := None))
  }

  /** Rounds started so far minus one are the rounds won: a round is
      started by `Start` and then only after a correct pick, unless the
      teleport aborted it. That happens at most once, since it leaves the
      controller disabled. */
  predicate Valid(g: Game)
  {
    && g.correctRounds <= g.totalAttempts
    && g.totalRounds + (if g.scheduled == Some(NewRound) then 1 else 0) + g.lostRounds == g.correctRounds + 1
    && g.lostRounds <= 1
    && (g.lostRounds == 1 ==> !g.rig.controllerEnabled)
    && (g.scheduled.Some? ==> !g.waiting)
    && (g.waiting ==> g.correctObject.Some? && g.correctObject.value in g.objects)
    && (g.scheduled == Some(NewAttempt) ==> g.correctObject.Some? && g.correctObject.value in g.objects)
  }

  lemma StartIsValid(objects: seq<Id>, withoutData: set<Id>, rig: Rig, now: nat, pick: nat)
    requires |objects| > 0 ==> pick < |objects|
    ensures Valid(Start(objects, withoutData, rig, now, pick))
  {
  }

  lemma UpdateKeepsValid(g: Game, now: nat, input: FrameInput)
    requires Valid(g)
    ensures Valid(Update(g, now, input))
  {
  }

  lemma FireKeepsValid(g: Game, now: nat, pick: nat)
    requires Valid(g) && PickFits(g, pick)
    ensures Valid(Fire(g, now, pick))
  {
  }

  /** The scene changes once the fifth round starts, that is after four
      correct picks, or after five when the teleport aborted a round. */
  lemma RoundLimitAfterFourWins(g: Game)
    requires Valid(g) && g.scheduled != Some(NewRound)
    ensures g.totalRounds == RoundLimit <==> g.correctRounds == 4 + g.lostRounds
    ensures g.lostRounds == 0 ==> (g.totalRounds == RoundLimit <==> g.correctRounds == 4)
  {
  }

  /** With a player to teleport, an enabled controller and no main camera,
      `Start` counts no round and awaits nothing, so no frame ever counts
      anything and leaving the scene logs no summary. */
  lemma MissingCameraLosesFirstRound(objects: seq<Id>, withoutData: set<Id>, rig: Rig, now: nat, pick: nat,
                                     later: nat, input: FrameInput)
    requires |objects| > 0 ==> pick < |objects|
    requires TeleportThrows(rig)
    ensures
      var g := Start(objects, withoutData, rig, now, pick);
      && g.totalRounds == 0 && !g.waiting && g.scheduled.None?
      && !g.rig.controllerEnabled
      && Update(g, later, input) == g
      && SummaryAsWritten(g).NoSummary?
  {
  }

  /** A new round whose pick has no object data awaits nothing: no frame
      processes a click and nothing is scheduled, so the counters never
      move again; only the scene request can still change. */
  lemma PickWithoutDataStallsRound(g: Game, now: nat, pick: nat, later: nat, input: FrameInput)
    requires Valid(g) && g.scheduled == Some(NewRound) && PickFits(g, pick)
    requires |g.objects| > 0 && g.objects[pick] in g.withoutData
    ensures
      var r := Fire(g, now, pick);
      && !r.waiting && r.scheduled.None?
      && Update(r, later, input) == r.(sceneRequested := r.sceneRequested || (input.keyboard && r.totalRounds == RoundLimit))
      && Fire(r, later, pick) == r
  {
  }

  /** Without a keyboard the round limit never takes effect: at five rounds,
      a correct click and the new round it schedules bring the game to six
      rounds with no scene requested, while the same click with a keyboard
      requests the scene. */
  lemma KeyboardlessPlaysPastLimit(g: Game, now: nat, later: nat, pick: nat)
    requires Valid(g) && g.waiting && !g.sceneRequested && g.totalRounds == RoundLimit
    requires !TeleportThrows(g.rig) && PickFits(g, pick)
    ensures
      var click := FrameInput(true, false, false, HitObject(g.correctObject.value, true));
      var r := Fire(Update(g, now, click), later, pick);
      && r.totalRounds == RoundLimit + 1 && !r.sceneRequested
      && Update(g, now, click.(keyboard := true)).sceneRequested
  {
  }

  /** A float as C# computes it: division by zero gives NaN (0/0) or an
      infinity rather than an exception. */
  datatype Float = Finite(value: real) | NaN | PositiveInfinity | NegativeInfinity

  function Divide(a: int, b: int): (f: Float)
    ensures b != 0 ==> f == Finite(a as real / b as real)
    ensures b == 0 ==> (f.NaN? <==> a == 0)
  {
    if b != 0 then Finite(a as real / b as real)
    else if a == 0 then NaN
    else if a > 0 then PositiveInfinity
    else NegativeInfinity
  }

  function Percent(f: Float): Float
  {
    if f.Finite? then Finite(f.value * 100.0) else f
  }

  /** The numbers `ShowSessionSummary` logs. */
  datatype Summary = NoSummary | Summary(rounds: int, attempts: nat, accuracy: Float, averageReaction: real)

  /** `ShowSessionSummary` as written: it skips when no round was started
      but divides by the number of attempts. */
  function SummaryAsWritten(g: Game): (s: Summary)
    ensures s.NoSummary? <==> g.totalRounds == 0
    ensures s.Summary? ==> s.accuracy == Percent(Divide(g.totalRounds - 1, g.totalAttempts))
  {
    if g.totalRounds == 0 then NoSummary
    else
      Summary(g.totalRounds - 1, g.totalAttempts, Percent(Divide(g.totalRounds - 1, g.totalAttempts)),
              g.totalReactionTicks as real / g.totalRounds as real)
  }

  /** Leaving the scene right after a `Start` that counted its round,
      before any click, logs an accuracy of NaN: the guard tests the round
      counter, the division uses the attempt counter. */
  lemma SummaryBeforeAnyClickIsNaN(objects: seq<Id>, withoutData: set<Id>, rig: Rig, now: nat, pick: nat)
    requires |objects| > 0 ==> pick < |objects|
    ensures !TeleportThrows(rig) <==> SummaryAsWritten(Start(objects, withoutData, rig, now, pick)).Summary?
    ensures !TeleportThrows(rig) ==> SummaryAsWritten(Start(objects, withoutData, rig, now, pick)).accuracy == NaN
  {
  }

  /** The summary with the guard on the divisor: skipped until an attempt
      has been made. */
  function SessionSummary(g: Game): (s: Summary)
    ensures s.NoSummary? <==> g.totalRounds == 0 || g.totalAttempts == 0
    ensures s.Summary? ==> s.accuracy.Finite? && s.rounds == g.totalRounds - 1 && s.attempts == g.totalAttempts
    // accuracy is rounds won per attempt, in percent; the average is per round started
    ensures s.Summary? ==>
      && s.accuracy.value * (g.totalAttempts as real) == 100.0 * ((g.totalRounds - 1) as real)
      && s.averageReaction * (g.totalRounds as real) == g.totalReactionTicks as real
  {
    if g.totalRounds == 0 || g.totalAttempts == 0 then NoSummary
    else
      Summary(g.totalRounds - 1, g.totalAttempts, Percent(Divide(g.totalRounds - 1, g.totalAttempts)),
              g.totalReactionTicks as real / g.totalRounds as real)
  }

  /** In every reachable state the guarded summary's accuracy is a
      percentage: rounds won never exceed attempts. */
  lemma SummaryAccuracyIsPercentage(g: Game)
    requires Valid(g)
    ensures SessionSummary(g).Summary? ==>
      0.0 <= SessionSummary(g).accuracy.value <= 100.0
  {
    if SessionSummary(g).Summary? {
      var won := g.totalRounds - 1;
      assert 0 <= won <= g.totalAttempts;
      DivisionAtMostOne(won, g.totalAttempts);
    }
  }

  lemma DivisionAtMostOne(a: int, b: int)
    requires 0 <= a <= b && b > 0
    ensures 0.0 <= a as real / b as real <= 1.0
  {
    assert a as real <= b as real;
  }
}
