/** The earlier find-the-object game (`Assets/Scripts/GameManager.cs`):
    every click that hits any collider ends the round, counts it, and
    schedules the next round, whether or not the pick was right. */
module LegacyFindObjects {
  import opened Base

  /** What the raycast finds: nothing, or some collider's object. */
  datatype ClickTarget = NoCamera | Miss | HitCollider(id: Id)

  datatype FrameInput = FrameInput(pressed: bool, overUi: bool, target: ClickTarget)

  datatype Game = Game(
    objects: seq<Id>,
    correctObject: Option<Id>,
    waiting: bool,
    sessionStartTick: nat,
    roundStartTick: nat,
    totalRounds: nat,
    correctRounds: nat,
    totalReactionTicks: int,
    newRoundScheduled: bool)

  predicate PickFits(g: Game, pick: nat)
  {
    |g.objects| > 0 ==> pick < |g.objects|
  }

  /** `StartNewRound`; it does not count rounds, and with no objects it
      leaves the wait as it was. */
  function StartNewRound(g: Game, now: nat, pick: nat): (r: Game)
    requires PickFits(g, pick)
    ensures |g.objects| == 0 ==> r == g
    ensures |g.objects| > 0 ==>
      && r.correctObject == Some(g.objects[pick])
      && r.correctObject.value in g.objects
      && r.waiting && r.roundStartTick == now
      && r == g.(correctObject := r.correctObject, waiting := true, roundStartTick := now)
  {
    if |g.objects| == 0 then g
    else g.(correctObject := Some(g.objects[pick]), waiting := true, roundStartTick := now)
  }

  function Start(objects: seq<Id>, now: nat, pick: nat): (g: Game)
    requires |objects| > 0 ==> pick < |objects|
    ensures g.totalRounds == 0 && g.correctRounds == 0 && g.sessionStartTick == now
    ensures g.waiting <==> |objects| > 0
  {
    StartNewRound(Game(objects, None, false, now, 0, 0, 0, 0, false), now, pick)
  }

  /** `ProcessClickSelection`: any hit is a round played. */
  function ProcessClick(g: Game, now: nat, target: ClickTarget): (r: Game)
    ensures !target.HitCollider? ==> r == g
    ensures target.HitCollider? ==>
      && !r.waiting
      && r.totalRounds == g.totalRounds + 1
      && r.correctRounds == g.correctRounds + (if g.correctObject == Some(target.id) then 1 else 0)
      && r.totalReactionTicks == g.totalReactionTicks + (now - g.roundStartTick)
      && r.newRoundScheduled
      && r.objects == g.objects && r.correctObject == g.correctObject
  {
    match target
    case NoCamera => g
    case Miss => g
    case HitCollider(id) =>
      g.(waiting := false,
         totalReactionTicks := g.totalReactionTicks + (now - g.roundStartTick),
         totalRounds := g.totalRounds + 1,
         correctRounds := g.correctRounds + (if g.correctObject == Some(id) then 1 else 0),
         newRoundScheduled := true)
  }

  /** `Update`: a click is looked at only while waiting, and not over UI. */
  function Update(g: Game, now: nat, input: FrameInput): (r: Game)
    ensures !(g.waiting && input.pressed && !input.overUi) ==> r == g
    ensures g.waiting && input.pressed && !input.overUi ==> r == ProcessClick(g, now, input.target)
  {
    if g.waiting && input.pressed && !input.overUi then ProcessClick(g, now, input.target) else g
  }

  /** The scheduled `StartNewRound` comes due. */
  function Fire(g: Game, now: nat, pick: nat): (r: Game)
    requires PickFits(g, pick)
    ensures !g.newRoundScheduled ==> r == g
    ensures g.newRoundScheduled ==> r == StartNewRound(g.(newRoundScheduled := false), now, pick)
  {
    if g.newRoundScheduled then StartNewRound(g.(newRoundScheduled := false), now, pick) else g
  }

  predicate Valid(g: Game)
  {
    && g.correctRounds <= g.totalRounds
    && (g.newRoundScheduled ==> !g.waiting)
    && (g.waiting ==> g.correctObject.Some? && g.correctObject.value in g.objects)
  }

  lemma StartIsValid(objects: seq<Id>, now: nat, pick: nat)
    requires |objects| > 0 ==> pick < |objects|
    ensures Valid(Start(objects, now, pick))
  {
  }

  lemma UpdateKeepsValid(g: Game, now: nat, input: FrameInput)
    requires Valid(g)
    ensures Valid(Update(g, now, input))
  {
  }

  lemma FireKeepsValid(g: Game, now: nat, pick: nat)
    requires Valid(g) && PickFits(g, pick)
    ensures Valid(Fire(g, now, pick))
  {
  }

  /** With an empty object list the game never waits for a click, so no
      frame and no scheduled call changes it. */
  lemma EmptySceneNeverPlays(g: Game, now: nat, input: FrameInput, pick: nat)
    requires |g.objects| == 0 && !g.waiting
    ensures Update(g, now, input) == g
    ensures !Fire(g, now, pick).waiting
  {
  }

  /** The numbers `ShowSessionSummary` logs. */
  datatype Summary = NoSummary | Summary(durationTicks: int, rounds: nat, correct: nat, accuracy: real, averageReaction: real)

  /** `ShowSessionSummary`, at tick `now`: skipped when no round was
      played, which is the only zero divisor. */
  function SessionSummary(g: Game, now: nat): (s: Summary)
    ensures s.NoSummary? <==> g.totalRounds == 0
    ensures s.Summary? ==>
      && s.rounds == g.totalRounds && s.correct == g.correctRounds
      && s.accuracy * (g.totalRounds as real) == 100.0 * (g.correctRounds as real)
      && s.averageReaction * (g.totalRounds as real) == g.totalReactionTicks as real
      && s.durationTicks == now - g.sessionStartTick
  {
    if g.totalRounds == 0 then NoSummary
    else
      Summary(now - g.sessionStartTick, g.totalRounds, g.correctRounds,
              (g.correctRounds as real / g.totalRounds as real) * 100.0,
              g.totalReactionTicks as real / g.totalRounds as real)
  }

  /** In every reachable state the accuracy is a percentage. */
  lemma SummaryAccuracyIsPercentage(g: Game, now: nat)
    requires Valid(g)
    ensures SessionSummary(g, now).Summary? ==> 0.0 <= SessionSummary(g, now).accuracy <= 100.0
  {
    if g.totalRounds > 0 {
      var q := g.correctRounds as real / g.totalRounds as real;
      assert g.correctRounds as real <= g.totalRounds as real;
      assert 0.0 <= q <= 1.0;
    }
  }
}
