/** The visual cancellation task (`CancellationTaskController`): a grid of
    shapes, some of them targets; each click disables its shape, target
    clicks count towards completion, and a timer ends the task otherwise.
    A pointer path drawn over the task is logged on release.
    `UnityEngine.Random` becomes one caller-supplied `Draw` per grid cell;
    the JSON text of a drawn path is supplied with the pointer-up event. */
module Cancellation {
  import opened Base
  import Text
  import Metrics

  /** The parameter fields this controller reads. */
  datatype CancellationParameters = CancellationParameters(
    gridSize: string,
    targetShape: string,
    targetColor: string,
    distractorShapes: Option<seq<string>>,
    distractorsColor: string,
    durationSeconds: int)

  /** Why reading the grid size throws: too few pieces, or a bad number. */
  datatype GridError = MissingColumns | BadNumber(error: Text.ParseError)

  /** `gridSize.Split('x')`, then `int.Parse` of piece 0 and of piece 1,
      in that order. */
  function ParseGridSize(gridSize: string): (r: Result<(int, int), GridError>)
    ensures r.Ok? ==> Text.Int32Min <= r.value.0 <= Text.Int32Max && Text.Int32Min <= r.value.1 <= Text.Int32Max
    ensures 'x' !in gridSize && Text.ParseInt(gridSize).Ok? ==> r == Err(MissingColumns)
  {
    var dims := Text.Split(gridSize, 'x');
    match Text.ParseInt(dims[0])
    case Err(e) => Err(BadNumber(e))
    case Ok(rows) =>
      if |dims| < 2 then Err(MissingColumns)
      else
        match Text.ParseInt(dims[1])
        case Err(e) => Err(BadNumber(e))
        case Ok(cols) => Ok((rows, cols))
  }

  function FormatGridSize(rows: int, cols: int): string
  {
    Text.IntToString(rows) + "x" + Text.IntToString(cols)
  }

  /** A grid size written as "RxC" reads back as rows R and columns C. */
  lemma GridSizeRoundTrip(rows: int, cols: int)
    requires Text.Int32Min <= rows <= Text.Int32Max && Text.Int32Min <= cols <= Text.Int32Max
    ensures ParseGridSize(FormatGridSize(rows, cols)) == Ok((rows, cols))
  {
    var r := Text.IntToString(rows);
    var c := Text.IntToString(cols);
    assert 'x' !in r && 'x' !in c;
    Text.SplitCons(r, 'x', c);
    assert FormatGridSize(rows, cols) == r + ['x'] + c;
    assert Text.Split(c, 'x') == [c];
    Text.ParseIntOfIntToString(rows);
    Text.ParseIntOfIntToString(cols);
  }

  /** C# `int` arithmetic wraps modulo 2^32. */
  function Wrap32(x: int): (w: int)
    ensures Text.Int32Min <= w <= Text.Int32Max
    ensures Text.Int32Min <= x <= Text.Int32Max ==> w == x
  {
    var m := x % 0x1_0000_0000;
    if m > Text.Int32Max then m - 0x1_0000_0000 else m
  }

  /** How many times `for (i = 0; i < rows * cols; i++)` runs. */
  function ItemCount(rows: int, cols: int): (n: nat)
    ensures 0 <= rows * cols <= Text.Int32Max ==> n == rows * cols
    ensures Text.Int32Min <= rows * cols <= 0 ==> n == 0
  {
    var p := Wrap32(rows * cols);
    if p < 0 then 0 else p
  }

  /** One grid cell's random choices: target or not (`Random.value > 0.7`),
      and which distractor shape (`Random.Range(0, count)`). */
  datatype Draw = Draw(isTarget: bool, pick: nat)

  predicate HasDistractors(shapes: Option<seq<string>>)
  {
    shapes.Some? && |shapes.value| > 0
  }

  predicate DrawsFit(draws: seq<Draw>, shapes: Option<seq<string>>)
  {
    HasDistractors(shapes) ==> forall k :: 0 <= k < |draws| ==> draws[k].pick < |shapes.value|
  }

  datatype ShapeItem = ShapeItem(isTarget: bool, shapeId: string, interactable: bool)

  const FallbackShape: string := "shape"

  function MakeItem(d: Draw, targetShape: string, shapes: Option<seq<string>>): (item: ShapeItem)
    requires HasDistractors(shapes) ==> d.pick < |shapes.value|
  {
    if d.isTarget then ShapeItem(true, targetShape, true)
    else if HasDistractors(shapes) then ShapeItem(false, shapes.value[d.pick], true)
    else ShapeItem(false, FallbackShape, true)
  }

  /** Number of targets among the items. */
  function CountTargets(items: seq<ShapeItem>): nat
  {
    if |items| == 0 then 0
    else CountTargets(items[..|items| - 1]) + (if items[|items| - 1].isTarget then 1 else 0)
  }

  /** Number of targets already clicked (disabled). */
  function CountFound(items: seq<ShapeItem>): nat
  {
    if |items| == 0 then 0
    else CountFound(items[..|items| - 1]) + (if items[|items| - 1].isTarget && !items[|items| - 1].interactable then 1 else 0)
  }

  lemma {:induction false} FoundAtMostTargets(items: seq<ShapeItem>)
    ensures CountFound(items) <= CountTargets(items)
    decreases |items|
  {
    if |items| > 0 {
      FoundAtMostTargets(items[..|items| - 1]);
    }
  }

  /** `GenerateGrid`'s loop: one item per draw, counting targets as it goes. */
  method GenerateItems(draws: seq<Draw>, targetShape: string, shapes: Option<seq<string>>)
    returns (items: seq<ShapeItem>, totalTargets: nat)
    requires DrawsFit(draws, shapes)
    ensures |items| == |draws|
    ensures forall k :: 0 <= k < |items| ==> items[k].isTarget == draws[k].isTarget && items[k].interactable
    ensures forall k :: 0 <= k < |items| && items[k].isTarget ==> items[k].shapeId == targetShape
    ensures forall k :: 0 <= k < |items| && !items[k].isTarget && HasDistractors(shapes) ==>
      items[k].shapeId == shapes.value[draws[k].pick]
    ensures forall k :: 0 <= k < |items| && !items[k].isTarget && !HasDistractors(shapes) ==>
      items[k].shapeId == FallbackShape
    ensures totalTargets == CountTargets(items)
  {
    items := [];
    totalTargets := 0;
    var i := 0;
    while i < |draws|
      invariant 0 <= i <= |draws|
      invariant |items| == i
      invariant forall k :: 0 <= k < i ==> items[k] == MakeItem(draws[k], targetShape, shapes)
      invariant totalTargets == CountTargets(items)
    {
      var item := MakeItem(draws[i], targetShape, shapes);
      assert (items + [item])[..i] == items;
      items := items + [item];
      if item.isTarget {
        totalTargets := totalTargets + 1;
      }
      i := i + 1;
    }
  }

  /** Ready: initialized, grid hidden. Started: grid shown, timer running.
      Ended: `EndExercise` ran; the owner destroys the task. */
  datatype Phase = Ready | Started | Ended(reason: string)

  datatype Task = Task(
    exerciseId: string,
    items: seq<ShapeItem>,
    totalTargets: nat,
    targetsFound: nat,
    tracking: bool,
    path: seq<Metrics.Vector2>,
    durationSeconds: int,
    startTick: nat,
    phase: Phase)

  /** What initializing the task yields: a ready task, or the exception
      reading the grid size threw. */
  datatype InitOutcome = Initialized(task: Task) | InitFailed(error: GridError)

  method Initialize(exerciseId: string, p: CancellationParameters, draws: seq<Draw>)
    returns (r: InitOutcome)
    requires DrawsFit(draws, p.distractorShapes)
    requires ParseGridSize(p.gridSize).Ok? ==>
      |draws| == ItemCount(ParseGridSize(p.gridSize).value.0, ParseGridSize(p.gridSize).value.1)
    ensures ParseGridSize(p.gridSize).Err? <==> r.InitFailed?
    ensures r.InitFailed? ==> r.error == ParseGridSize(p.gridSize).error
    ensures r.Initialized? ==>
      var t := r.task;
      var (rows, cols) := ParseGridSize(p.gridSize).value;
      && |t.items| == ItemCount(rows, cols)
      && t.totalTargets == CountTargets(t.items)
      && t.targetsFound == 0 && t.phase == Ready && !t.tracking
      && t.durationSeconds == p.durationSeconds && t.exerciseId == exerciseId
      && (forall k :: 0 <= k < |t.items| ==> t.items[k].interactable && t.items[k].isTarget == draws[k].isTarget)
  {
    match ParseGridSize(p.gridSize)
    case Err(e) =>
      r := InitFailed(e);
    case Ok(_) =>
      var items, total := GenerateItems(draws, p.targetShape, p.distractorShapes);
      r := Initialized(Task(exerciseId, items, total, 0, false, [], p.durationSeconds, 0, Ready));
  }

  /** The interactions the task reacts to. */
  datatype Event =
    | StartPressed(now: nat)
    | ShapeClicked(item: nat, position: Metrics.Vector2)
    | PointerDown
    | Dragged(position: Metrics.Vector2)
    | PointerUp(pathJson: string)
    | Frame(now: nat)

  datatype Outcome = Outcome(task: Task, logs: seq<Metrics.LogCall>, completed: bool)

  const Completed: string := "Completed"
  const Timeout: string := "Timeout"

  function EndExercise(t: Task, reason: string): (o: Outcome)
    ensures o.completed && o.task == t.(phase := Ended(reason))
    ensures o.logs == [Metrics.LogCall(t.exerciseId, "ExerciseEnd", None, "Reason: " + reason)]
  {
    Outcome(t.(phase := Ended(reason)), [Metrics.LogCall(t.exerciseId, "ExerciseEnd", None, "Reason: " + reason)], true)
  }

  /** `OnShapeClicked`, reached only through an enabled button of a shown grid. */
  function ShapeClick(t: Task, i: nat, position: Metrics.Vector2): (o: Outcome)
    requires t.phase == Started && i < |t.items| && t.items[i].interactable
    ensures |o.task.items| == |t.items| && !o.task.items[i].interactable
    ensures forall k :: 0 <= k < |t.items| && k != i ==> o.task.items[k] == t.items[k]
    ensures t.items[i].isTarget ==> o.task.targetsFound == t.targetsFound + 1
    ensures !t.items[i].isTarget ==> o.task.targetsFound == t.targetsFound
    ensures |o.logs| >= 1 && o.logs[0] == Metrics.LogCall(t.exerciseId,
      if t.items[i].isTarget then "CorrectSelection" else "ErrorCommission",
      Some(position), t.items[i].shapeId)
    ensures o.completed <==> t.items[i].isTarget && t.targetsFound + 1 >= t.totalTargets
    ensures o.completed ==> o.task.phase == Ended(Completed)
    ensures !o.completed ==> o.task.phase == Started && |o.logs| == 1
  {
    var item := t.items[i];
    var t1 := t.(items := t.items[i := item.(interactable := false)]);
    if item.isTarget then
      var t2 := t1.(targetsFound := t.targetsFound + 1);
      var log := Metrics.LogCall(t.exerciseId, "CorrectSelection", Some(position), item.shapeId);
      if t2.targetsFound >= t2.totalTargets then
        var e := EndExercise(t2, Completed);
        Outcome(e.task, [log] + e.logs, true)
      else Outcome(t2, [log], false)
    else
      Outcome(t1, [Metrics.LogCall(t.exerciseId, "ErrorCommission", Some(position), item.shapeId)], false)
  }

  /** Seconds shown on the countdown: `Mathf.Max(0, duration - elapsed)`. */
  function RemainingTime(durationSeconds: int, elapsed: int): (r: nat)
    ensures elapsed >= 0 ==> r == 0 || r <= durationSeconds
    ensures r == 0 <==> elapsed >= durationSeconds
    ensures r > 0 ==> r + elapsed == durationSeconds
  {
    if durationSeconds - elapsed > 0 then durationSeconds - elapsed else 0
  }

  /** One event. Before the start button is pressed the grid is hidden, so
      no shape can be clicked; once the task has ended it no longer reacts. */
  function Step(t: Task, e: Event): (o: Outcome)
    ensures t.phase.Ended? ==> o == Outcome(t, [], false)
    ensures o.completed ==> t.phase == Started && o.task.phase.Ended?
    ensures o.task.items == t.items || (e.ShapeClicked? && t.phase == Started)
    ensures o.task.totalTargets == t.totalTargets && o.task.exerciseId == t.exerciseId
  {
    if t.phase.Ended? then Outcome(t, [], false)
    else
      match e
      case StartPressed(now) =>
        if t.phase == Ready then
          Outcome(t.(phase := Started, startTick := now), [Metrics.LogCall(t.exerciseId, "ExerciseStart", None, "")], false)
        else Outcome(t, [], false)
      case ShapeClicked(i, position) =>
        if t.phase == Started && i < |t.items| && t.items[i].interactable then ShapeClick(t, i, position)
        else Outcome(t, [], false)
      case PointerDown =>
        Outcome(t.(tracking := true, path := []), [], false)
      case Dragged(position) =>
        if t.tracking then Outcome(t.(path := t.path + [position]), [], false)
        else Outcome(t, [], false)
      case PointerUp(pathJson) =>
        if !t.tracking then Outcome(t, [], false)
        else if |t.path| > 1 then
          Outcome(t.(tracking := false), [Metrics.LogCall(t.exerciseId, "PathDrawn", None, pathJson)], false)
        else Outcome(t.(tracking := false), [], false)
      case Frame(now) =>
        if t.phase == Started && RemainingTime(t.durationSeconds, now - t.startTick) == 0 then EndExercise(t, Timeout)
        else Outcome(t, [], false)
  }

  /** The counters agree with the grid: `totalTargets` counts the targets
      and `targetsFound` the disabled ones. */
  ghost predicate Consistent(t: Task)
  {
    && t.totalTargets == CountTargets(t.items)
    && t.targetsFound == CountFound(t.items)
    && (t.phase == Ready ==> t.targetsFound == 0)
    && (t.phase == Ended(Completed) ==> t.targetsFound == t.totalTargets)
  }

  /** Disabling one enabled item changes the counts by exactly that item. */
  lemma {:induction false} DisableOne(items: seq<ShapeItem>, i: nat)
    requires i < |items| && items[i].interactable
    ensures CountTargets(items[i := items[i].(interactable := false)]) == CountTargets(items)
    ensures CountFound(items[i := items[i].(interactable := false)]) == CountFound(items) + (if items[i].isTarget then 1 else 0)
    decreases |items|
  {
    var items' := items[i := items[i].(interactable := false)];
    var n := |items|;
    if i == n - 1 {
      assert items'[..n - 1] == items[..n - 1];
    } else {
      assert items'[..n - 1] == items[..n - 1][i := items[i].(interactable := false)];
      DisableOne(items[..n - 1], i);
    }
  }

  /** Every event keeps the counters consistent, so `targetsFound` never
      exceeds `totalTargets`. */
  lemma StepKeepsConsistent(t: Task, e: Event)
    requires Consistent(t)
    ensures Consistent(Step(t, e).task)
    ensures Step(t, e).task.targetsFound <= Step(t, e).task.totalTargets
  {
    var o := Step(t, e);
    if !t.phase.Ended? && e.ShapeClicked? && t.phase == Started && e.item < |t.items| && t.items[e.item].interactable {
      DisableOne(t.items, e.item);
    }
    FoundAtMostTargets(o.task.items);
  }

  /** A grid without targets can only end by timeout: no click completes it. */
  lemma NoTargetsNoCompletion(t: Task, e: Event)
    requires Consistent(t) && t.totalTargets == 0
    ensures Step(t, e).completed ==> e.Frame? && Step(t, e).task.phase == Ended(Timeout)
  {
    FoundAtMostTargets(t.items);
    if e.ShapeClicked? && t.phase == Started && e.item < |t.items| && t.items[e.item].interactable {
      DisableOne(t.items, e.item);
      FoundAtMostTargets(t.items[e.item := t.items[e.item].(interactable := false)]);
    }
  }

  /** The task completes exactly on the target click that finds the last
      target, and times out exactly when the duration has elapsed. */
  lemma CompletionRule(t: Task, e: Event)
    requires Consistent(t) && t.phase == Started
    ensures Step(t, e).task.phase == Ended(Completed) <==>
      e.ShapeClicked? && e.item < |t.items| && t.items[e.item].interactable && t.items[e.item].isTarget
      && t.targetsFound + 1 >= t.totalTargets
    ensures Step(t, e).task.phase == Ended(Timeout) <==>
      e.Frame? && e.now - t.startTick >= t.durationSeconds
  {
  }

  /** Path tracking: a press starts an empty path, drags extend it only
      while tracking, and a release logs it only when it has more than one
      point. */
  lemma PathTracking(t: Task, p: Metrics.Vector2, json: string)
    requires !t.phase.Ended?
    ensures Step(t, PointerDown).task.tracking && Step(t, PointerDown).task.path == []
    ensures Step(t, Dragged(p)).task.path == (if t.tracking then t.path + [p] else t.path)
    ensures !Step(t, PointerUp(json)).task.tracking
    ensures |Step(t, PointerUp(json)).logs| == (if t.tracking && |t.path| > 1 then 1 else 0)
  {
  }
}
