# CogniSim in Dafny

A model of the core of CogniSim, a Unity application for cognitive
rehabilitation sessions. A clinician's configuration names a patient's
session: a list of exercises with parameters. The main menu loads that
session for a patient id and starts a metrics log. The session player
then runs the exercises one after another. Each exercise logs
timestamped events and, when it completes, hands control back. At the
end the log is written to a results file.

The model covers these parts:

- **Base** (`base.dfy`): optional references, results, object ids and
  the singleton `Awake` rule that both persistent managers follow.
- **Text** (`text.dfy`): the string handling the exercises rely on.
  This is C# `int.Parse` (white space, sign, digits, 32-bit range,
  `FormatException` and `OverflowException`), `String.Split(char)`,
  which keeps empty pieces, and integer interpolation.
- **Metrics** (`metrics.dfy`): `MetricsManager` and the records in
  `MetricModels`. It starts a session, appends events stamped relative
  to the session start (ignored while no session is active), and closes
  and saves the session.
- **Session** (`session.dfy`): `SessionManager.LoadSession` and the main
  menu's start button.
- **SessionFlow** (`session_flow.dfy`): `SessionController`. It walks the
  exercise list, skips exercises whose prefab is missing, stalls on a
  prefab without an exercise controller, and ends the session after the
  last exercise.
- **DragDrop** (`drag_drop.dfy`): `DraggableItem` and `DroppableSlot`,
  modelled as reparenting in a transform hierarchy with sibling order.
- **Cancellation** (`cancellation.dfy`): the visual cancellation task.
  It covers grid generation, shape clicks, the timeout and pointer-path
  logging.
- **Sequencing** (`sequencing.dfy`): the step-ordering task. It covers
  the built-in scenarios, dealing cards, dragging cards into slots, the
  check button and the submission check.
- **MotorCalibration** (`motor_calibration.dfy`): the target-clicking
  calibration and its exercise-id lookup.
- **FindObjects** (`find_objects.dfy`) and **LegacyFindObjects**
  (`legacy_find_objects.dfy`): the two find-the-object `GameManager`
  variants, with their round, attempt and correct-pick counters and their
  session summaries.
- **Interactable** (`interactable.dfy`): the name `InteractableObject`
  gives its game object.

Some inputs become parameters of the model:

- `Time.time` is a natural-number clock reading (`now`).
- `DateTime` strings are passed in as strings.
- The values `UnityEngine.Random` would produce are explicit draws,
  picks, positions and shuffle orders.
- `Resources.Load` is a map from resource path to what is found there.
- `JsonUtility.FromJson` is the parse outcome it would produce.
- The file write is a success flag.

Exercises do not call the metrics manager. Each handler returns the
`LogEvent` calls it makes, as `Metrics.LogCall` values, and
`Metrics.LogAll` applies them. Coroutines and `Invoke` become explicit
events that the caller fires later.

## Model

| member | source | states |
|---|---|---|
| `Base.Awake` | Assets/_Project/Scripts/Metrics/MetricsManager.cs:17-27 | a newcomer destroys itself exactly when a different instance is already registered; otherwise it becomes the instance |
| `Base.FirstInstanceSurvives` | Assets/_Project/Scripts/Session/SessionManager.cs:12-21 | however many manager objects wake in sequence, the first registered instance stays the instance |
| `Text.Split` | Assets/_Project/Scripts/Exercises/Attention/CancelationTaskController.cs:78 | splitting gives at least one piece, and no piece contains the separator |
| `Text.JoinSplit` | Assets/_Project/Scripts/Exercises/Attention/CancelationTaskController.cs:78 | joining the pieces with the separator gives back the original string, empty pieces included |
| `Text.SplitJoin` | Assets/_Project/Scripts/Exercises/ExecutiveFunctions/SequencingTaskController.cs:166 | splitting a join of separator-free pieces gives back exactly those pieces |
| `Text.ParseInt` | Assets/_Project/Scripts/Exercises/Attention/CancelationTaskController.cs:79-80 | a parsed value lies in the 32-bit range; an empty or all-white-space string is a format error; success needs a digit or a sign in the input |
| `Text.IntToString` | Assets/_Project/Scripts/Exercises/ExecutiveFunctions/SequencingTaskController.cs:166 | an integer is written as digits, with a leading '-' exactly when it is negative |
| `Text.ParseIntOfIntToString` | Assets/_Project/Scripts/Exercises/Attention/CancelationTaskController.cs:79-80 | every 32-bit integer, written out and parsed back, is itself |
| `Cancellation.Wrap32` | Assets/_Project/Scripts/Exercises/Attention/CancelationTaskController.cs:92 | the product wrapped to 32 bits lies in the int range and equals the product whenever that fits |
| `Cancellation.ParseGridSize` | Assets/_Project/Scripts/Exercises/Attention/CancelationTaskController.cs:78-80 | parsed dimensions are 32-bit values; a number without an 'x' fails for the missing second piece, after the first piece parsed |
| `Cancellation.GridSizeRoundTrip` | Assets/_Project/Scripts/Exercises/Attention/CancelationTaskController.cs:78-80 | any "RxC" written from two 32-bit integers reads back as exactly those rows and columns |
| `Cancellation.ItemCount` | Assets/_Project/Scripts/Exercises/Attention/CancelationTaskController.cs:92 | the loop runs rows*cols times when that product fits in an int, and not at all when it is zero or negative |
| `Cancellation.GenerateItems` | Assets/_Project/Scripts/Exercises/Attention/CancelationTaskController.cs:89-128 | one enabled item per cell; targets carry the target shape; distractors carry the drawn distractor shape or "shape" when there is none; `totalTargets` counts the targets |
| `Cancellation.Initialize` | Assets/_Project/Scripts/Exercises/Attention/CancelationTaskController.cs:51-61 | fails exactly when the grid size does not parse, with that error; otherwise a ready task with rows*cols enabled items, its target count, nothing found, and the given duration and id |
| `Cancellation.EndExercise` | Assets/_Project/Scripts/Exercises/Attention/CancelationTaskController.cs:189-194 | logs ExerciseEnd with "Reason: " and the reason, and signals completion |
| `Cancellation.ShapeClick` | Assets/_Project/Scripts/Exercises/Attention/CancelationTaskController.cs:131-151 | disables only the clicked item; a target raises `targetsFound` by one and logs CorrectSelection, a distractor logs ErrorCommission; completion happens exactly when a target click reaches `totalTargets` |
| `Cancellation.RemainingTime` | Assets/_Project/Scripts/Exercises/Attention/CancelationTaskController.cs:43-44 | the countdown is zero exactly when the elapsed time has reached the duration; before that, countdown plus elapsed time equals the duration |
| `Cancellation.Step` | Assets/_Project/Scripts/Exercises/Attention/CancelationTaskController.cs:63-187 | an ended task ignores events; completion only comes from a started task and ends it; only a click on a started task changes the items; target count and id never change |
| `Cancellation.FoundAtMostTargets` | Assets/_Project/Scripts/Exercises/Attention/CancelationTaskController.cs:133-137 | the number of disabled targets never exceeds the number of targets |
| `Cancellation.StepKeepsConsistent` | Assets/_Project/Scripts/Exercises/Attention/CancelationTaskController.cs:131-151 | every event keeps `totalTargets` equal to the targets in the grid and `targetsFound` equal to the disabled targets, so found never exceeds total |
| `Cancellation.NoTargetsNoCompletion` | Assets/_Project/Scripts/Exercises/Attention/CancelationTaskController.cs:97-104 | a grid without targets is never completed by a click, only ended by the timer |
| `Cancellation.CompletionRule` | Assets/_Project/Scripts/Exercises/Attention/CancelationTaskController.cs:141-144 | a started task ends as Completed exactly on the target click that reaches the total, and as Timeout exactly when the duration has elapsed |
| `Cancellation.PathTracking` | Assets/_Project/Scripts/Exercises/Attention/CancelationTaskController.cs:154-180 | a press starts an empty path; drags extend it only while tracking; a release stops tracking and logs PathDrawn only for a path of more than one point |
| `DragDrop.SetParent` | Assets/_Project/Scripts/UI/DraggableItem.cs:17-18 | the moved item's parent becomes the new parent, no other item's parent changes, and the drag bookkeeping is left alone |
| `DragDrop.SetParentMakesLastChild` | Assets/_Project/Scripts/UI/DraggableItem.cs:17-18 | the item becomes its new parent's last child, after that parent's other children in their old order; every other node only loses the item |
| `DragDrop.OnBeginDrag` | Assets/_Project/Scripts/UI/DraggableItem.cs:14-21 | remembers the item's parent, lifts the item to the root, stops it blocking raycasts, then reports the drag start |
| `DragDrop.OnEndDrag` | Assets/_Project/Scripts/UI/DraggableItem.cs:29-35 | puts the item under its remembered parent, blocks raycasts again, then reports the drag end |
| `DragDrop.OnDrop` | Assets/_Project/Scripts/UI/DroppableSlot.cs:9-28 | an occupied slot that may not be replaced refuses the drop; an empty slot becomes the destination; an occupied replaceable slot sends its first child where the item came from; nothing else changes |
| `DragDrop.UnacceptedGestureReturns` | Assets/_Project/Scripts/UI/DraggableItem.cs:14-35 | a drag that no slot accepts leaves every parent as it was and the item blocking raycasts |
| `DragDrop.GestureToEmptySlot` | Assets/_Project/Scripts/UI/DroppableSlot.cs:19-25 | dropping on an empty slot moves the item there and changes no other parent |
| `DragDrop.GestureSwaps` | Assets/_Project/Scripts/UI/DroppableSlot.cs:19-22 | dropping on a replaceable occupied slot swaps the item with the slot's first child |
| `Metrics.ToSerializable` | Assets/_Project/Scripts/Metrics/MetricModels.cs:58-62 | the serializable vector keeps both coordinates |
| `Metrics.NewMetricEvent` | Assets/_Project/Scripts/Metrics/MetricModels.cs:39-46 | an event keeps its timestamp, exercise, type and details, and has a position exactly when one was given |
| `Metrics.SerializableRoundTrip` | Assets/_Project/Scripts/Metrics/MetricModels.cs:58-62 | converting a vector to its serializable form and back gives the same vector |
| `Metrics.NewSessionResults` | Assets/_Project/Scripts/Metrics/MetricModels.cs:18-23 | new results carry the given ids, no events and no start or end time |
| `Metrics.StartNewSession` | Assets/_Project/Scripts/Metrics/MetricsManager.cs:34-40 | whatever was recorded before, an active session starts with the given ids, no events, the given start time, and the clock at the start |
| `Metrics.LogEvent` | Assets/_Project/Scripts/Metrics/MetricsManager.cs:49-60 | without a session nothing changes; with one, exactly one event is appended, stamped with the time since the session started, carrying the call's type, details and exercise id, and a position exactly when the call has one, with the same coordinates; the earlier events and the session stay as they were |
| `Metrics.LogAllAppends` | Assets/_Project/Scripts/Metrics/MetricsManager.cs:49-60 | a batch of calls appends one event per call, in call order, after the unchanged earlier events; each event carries its call's type, details, exercise id and, exactly when the call has one, its position's coordinates |
| `Metrics.ResultsFileName` | Assets/_Project/Scripts/Metrics/MetricsManager.cs:76 | the file name starts with "Results_" and ends with ".json"; the stamp is a 12-hour time without an AM/PM marker |
| `Metrics.ResultsFileNameInjective` | Assets/_Project/Scripts/Metrics/MetricsManager.cs:76 | when the patient and session ids contain no '_', the file name determines the patient id, the session id and the stamp, so two sessions that differ in any of them never write the same file |
| `Metrics.EndSessionAndSave` | Assets/_Project/Scripts/Metrics/MetricsManager.cs:65-91 | without a session nothing is saved; otherwise the results, stamped with the end time, are written under their file name, and the session is cleared whether or not the write succeeded |
| `Metrics.LogsAfterEndAreIgnored` | Assets/_Project/Scripts/Metrics/MetricsManager.cs:51-55 | after a session is closed, any number of log calls leave the manager unchanged |
| `Metrics.LogIsAppendOnly` | Assets/_Project/Scripts/Metrics/MetricsManager.cs:57-59 | during a session, log calls only append: earlier events stay unchanged at the front, and the session ids stay |
| `Metrics.MonotoneClockStamps` | Assets/_Project/Scripts/Metrics/MetricsManager.cs:37-57 | under a clock that never goes back, every recorded timestamp is non-negative |
| `Session.ConfigPath` | Assets/_Project/Scripts/Session/SessionManager.cs:35 | the resource path ends with the patient id; a rooted id is the path itself, any other id is put under `SessionConfigs/` |
| `Session.ConfigPathInjective` | Assets/_Project/Scripts/Session/SessionManager.cs:35 | different patient ids never name the same resource, rooted or not |
| `Session.LoadSession` | Assets/_Project/Scripts/Session/SessionManager.cs:28-68 | a missing resource fails and keeps the current session; success exactly when the parse gives an object with an exercise list; a parsed object is kept even when unusable; a null parse or an exception clears the session |
| `Session.LoadForgetsPreviousSession` | Assets/_Project/Scripts/Session/SessionManager.cs:46-67 | once the resource exists, the outcome does not depend on what was loaded before |
| `Session.OnStartSessionClicked` | Assets/_Project/Scripts/UI/MainMenuController.cs:18-42 | an empty or null id only shows the prompt; otherwise the entered id is loaded; success starts metrics with the loaded ids and requests the player scene; failure shows the id and starts nothing |
| `Session.PlayerSceneNeedsLoadedSession` | Assets/_Project/Scripts/UI/MainMenuController.cs:27-37 | the player scene is requested only with a usable session and an active, empty metrics log for that session's ids |
| `SessionFlow.EndSession` | Assets/_Project/Scripts/Session/SessionController.cs:89-101 | the walk finishes; with a metrics manager its active log is saved once and then closed; without one nothing is saved |
| `SessionFlow.StartNextExercise` | Assets/_Project/Scripts/Session/SessionController.cs:29-67 | the index moves only forward and only over missing prefabs; the session ends exactly when the index passes the list; otherwise the found exercise is instantiated and runs exactly when its prefab has a controller; metrics are touched only at the end |
| `SessionFlow.StartNextEndsSession` | Assets/_Project/Scripts/Session/SessionController.cs:31-101 | when the index runs off the list, the result is `EndSession` applied at that index, which saves and closes the metrics log |
| `SessionFlow.StartNextKeepsValid` | Assets/_Project/Scripts/Session/SessionController.cs:29-67 | from a consistent position, starting the next exercise keeps the walk invariant: exactly the exercises with a prefab so far were instantiated, in order, and all but a stalled last one were initialized |
| `SessionFlow.HandleExerciseCompleted` | Assets/_Project/Scripts/Session/SessionController.cs:69-87 | only a running exercise can complete; its completion moves the index by at least one, skips only missing prefabs, and starts the next exercise from there |
| `SessionFlow.HandleKeepsValid` | Assets/_Project/Scripts/Session/SessionController.cs:69-87 | a completion keeps the walk invariant |
| `SessionFlow.CompleteKeepsValid` | Assets/_Project/Scripts/Session/SessionController.cs:69-87 | any number of completions keeps the walk invariant |
| `SessionFlow.NothingRunsAfter` | Assets/_Project/Scripts/Session/SessionController.cs:29-87 | after at least as many completions as exercises remain, no exercise is running |
| `SessionFlow.Start` | Assets/_Project/Scripts/Session/SessionController.cs:17-27 | returns to the menu exactly when no usable session is loaded; otherwise starts the walk from the first exercise, in a valid state |
| `SessionFlow.StartWithoutSessionCrashes` | Assets/_Project/Scripts/Session/SessionController.cs:19-26 | as written, a missing session requests the menu and then fails on the null session; on a usable session the written and corrected starts agree |
| `SessionFlow.WalkTerminates` | Assets/_Project/Scripts/Session/SessionController.cs:29-87 | from any valid position, if every running exercise completes, nothing is running after at most one completion per remaining exercise; an unstalled walk has then ended the session, after instantiating and initializing every exercise with a prefab once, in list order |
| `SessionFlow.StalledStaysPut` | Assets/_Project/Scripts/Session/SessionController.cs:50-56 | a prefab without an exercise controller stalls the session for good: no completion can move it on |
| `SessionFlow.FinishedStaysPut` | Assets/_Project/Scripts/Session/SessionController.cs:69-101 | a walk that has finished or stalled is left unchanged by any number of further completions |
| `Sequencing.BuiltInScenariosContiguous` | Assets/_Project/Scripts/Exercises/ExecutiveFunctions/SequencingTaskController.cs:35-51 | both built-in scenarios number their steps 1..n, with n = 6 for hand washing and 5 for cooking pasta |
| `Sequencing.Initialize` | Assets/_Project/Scripts/Exercises/ExecutiveFunctions/SequencingTaskController.cs:78-102 | logs ExerciseStart with the scenario; an unknown scenario then logs ExerciseEnd "Reason: Error_ScenarioNotFound", completes and generates nothing; a known one deals one card per step, in the shuffled order, into the cards container, with as many slots, the counter at zero and the exercise not started |
| `Sequencing.DealtIndicesAreKeys` | Assets/_Project/Scripts/Exercises/ExecutiveFunctions/SequencingTaskController.cs:124-135 | the dealt cards' indices are exactly the scenario's keys |
| `Sequencing.DragCard` | Assets/_Project/Scripts/Exercises/ExecutiveFunctions/SequencingTaskController.cs:137-156 | the board changes by the drag gesture; with the pointer on a slot the drop is logged and the counter becomes the number of slots that hold a child; otherwise the counter stays and nothing is logged |
| `Sequencing.GestureKeepsItems` | Assets/_Project/Scripts/Exercises/ExecutiveFunctions/SequencingTaskController.cs:137-156 | a drag never adds or removes objects from the hierarchy and keeps its root |
| `Sequencing.CheckSlots` | Assets/_Project/Scripts/Exercises/ExecutiveFunctions/SequencingTaskController.cs:158-172 | fails at the first slot without a card; otherwise the submission is correct exactly when slot i holds index i+1 for every i, and the sequence is each index followed by ';' in slot order |
| `Sequencing.Step` | Assets/_Project/Scripts/Exercises/ExecutiveFunctions/SequencingTaskController.cs:67-185 | the check runs only on a started exercise whose counter equals the step count; a correct submission is logged and ends with "Completed"; an incorrect one is logged and play goes on; the check faults exactly when it meets a slot without a card, and then logs nothing, completes nothing and leaves the game as it was; completion requires slot i to show card i+1 |
| `Sequencing.AcceptedOnlyWhenContiguous` | Assets/_Project/Scripts/Exercises/ExecutiveFunctions/SequencingTaskController.cs:35-167 | a shuffle of a scenario's keys can be accepted only if the keys are 1..n; conversely, when the keys are 1..n the ascending arrangement is a shuffle of them with every slot holding its own step, so it is accepted |
| `Sequencing.SubmittedRoundTrip` | Assets/_Project/Scripts/Exercises/ExecutiveFunctions/SequencingTaskController.cs:166 | the logged sequence splits on ';' and parses back to exactly the submitted indices |
| `MotorCalibration.FindMyExerciseIndex` | Assets/_Project/Scripts/Exercises/Utility/MotorCalibrationController.cs:118-129 | returns the smallest index whose numTargets matches, or -1 exactly when none matches |
| `MotorCalibration.ExerciseIdAsWritten` | Assets/_Project/Scripts/Exercises/Utility/MotorCalibrationController.cs:36-45 | the id is that of the first exercise with the same numTargets, or "MotorCalibration" when none matches |
| `MotorCalibration.IdLookupPicksEarlierExercise` | Assets/_Project/Scripts/Exercises/Utility/MotorCalibrationController.cs:120-126 | a calibration listed after another exercise with the same numTargets logs under that other exercise's id |
| `MotorCalibration.ExerciseIdCorrected` | Assets/_Project/Scripts/Exercises/Utility/MotorCalibrationController.cs:34-45 | the id is that of the exercise the session controller last initialized, and the fallback when there is no such exercise |
| `MotorCalibration.CorrectedIdIsLaunchedExercise` | Assets/_Project/Scripts/Session/SessionController.cs:31-60 | whenever starting the next exercise leaves one running, the corrected id is the id of the exercise at the controller's index: its prefab is the one loaded, and that prefab carries an exercise controller |
| `MotorCalibration.LookupsAgreeExactly` | Assets/_Project/Scripts/Exercises/Utility/MotorCalibrationController.cs:118-129 | the written lookup always finds an entry at or before the launched exercise, and names the launched exercise exactly when that first entry with the same numTargets has the launched exercise's id |
| `MotorCalibration.LookupsAgreeWhenNumTargetsDistinct` | Assets/_Project/Scripts/Exercises/Utility/MotorCalibrationController.cs:118-129 | when no earlier exercise shares the launched one's numTargets, the written lookup finds the launched exercise |
| `MotorCalibration.Spawn` | Assets/_Project/Scripts/Exercises/Utility/MotorCalibrationController.cs:51-75 | one target is placed at the given position and time, and announced as Target_{completed+1} |
| `MotorCalibration.Initialize` | Assets/_Project/Scripts/Exercises/Utility/MotorCalibrationController.cs:29-49 | logs ExerciseStart and spawns exactly one target, labelled Target_1, with nothing completed |
| `MotorCalibration.Step` | Assets/_Project/Scripts/Exercises/Utility/MotorCalibrationController.cs:77-106 | only an existing target can be hit; a hit counts exactly one target, removes it and logs TargetHit; the exercise then ends exactly when the count reaches `targetsToSpawn`, otherwise one spawn is scheduled |
| `MotorCalibration.StepKeepsValid` | Assets/_Project/Scripts/Exercises/Utility/MotorCalibrationController.cs:77-115 | at every moment exactly one of these holds: a target is up, a spawn is pending, or the exercise has ended after at least `targetsToSpawn` hits |
| `MotorCalibration.RoundIsHitThenSpawn` | Assets/_Project/Scripts/Exercises/Utility/MotorCalibrationController.cs:77-106 | a round, a click on the current target followed by the scheduled spawn, is exactly those two steps |
| `MotorCalibration.HitsUntilDone` | Assets/_Project/Scripts/Exercises/Utility/MotorCalibrationController.cs:80-99 | from a live target, each round adds exactly one hit until max(numTargets, 1) hits; completion then fires exactly once, and later rounds change nothing |
| `MotorCalibration.CompletesAfterHitsNeeded` | Assets/_Project/Scripts/Exercises/Utility/MotorCalibrationController.cs:29-99 | from `Initialize`, the exercise completes after exactly max(numTargets, 1) hits, and not before |
| `MotorCalibration.EndedStaysPut` | Assets/_Project/Scripts/Exercises/Utility/MotorCalibrationController.cs:108-115 | once the exercise has ended with no target up and no spawn pending, further rounds change nothing and complete nothing |
| `MotorCalibration.SpawnAndHitLabelsAgree` | Assets/_Project/Scripts/Exercises/Utility/MotorCalibrationController.cs:74-85 | a target's hit is logged with exactly the label its spawn announced, followed by the reaction time measured from the spawn, and at the spawn's position |
| `FindObjects.Awake` | Assets/_Project/Scripts/Core/GameManager.cs:33-47 | the game starts with the found objects (and which of them lack object data), the player rig as found, all counters at zero and nothing awaited |
| `FindObjects.StartNewRound` | Assets/_Project/Scripts/Core/GameManager.cs:89-145 | when the teleport takes the controller path and there is no main camera, the call aborts: no round is counted, nothing else changes, and the controller is left disabled; otherwise it counts a round even with no objects, and then changes nothing else; with objects, the picked one becomes the correct object, a member of the list; a click is awaited and the round clock restarts exactly when the pick has object data, otherwise the throw leaves the wait and the clock as they were |
| `FindObjects.PickWithoutDataStallsRound` | Assets/_Project/Scripts/Core/GameManager.cs:89-108 | a scheduled round whose pick has no object data awaits nothing and schedules nothing, so later frames and scheduled calls only ever request the scene change |
| `FindObjects.Start` | Assets/_Project/Scripts/Core/GameManager.cs:49-55 | after start one round is counted, or none when the teleport aborts; no attempt or win yet; a click is awaited exactly when the teleport succeeds, there are objects and the pick has object data |
| `FindObjects.ProcessClick` | Assets/_Project/Scripts/Core/GameManager.cs:150-183 | no camera, a miss or a non-interactable hit changes nothing; a valid click ends the wait and counts one attempt; only the correct object counts a win and schedules a new round, any other schedules a new attempt |
| `FindObjects.Update` | Assets/_Project/Scripts/Core/GameManager.cs:57-82 | a click is processed only while waiting and not over UI; a click over UI ends the frame before the round check; without a keyboard the 'E' key read throws, so the frame ends after the click and never requests the scene; otherwise the next scene is requested when five rounds have started |
| `FindObjects.KeyboardlessPlaysPastLimit` | Assets/_Project/Scripts/Core/GameManager.cs:57-82 | without a keyboard, a correct click at five rounds and the round it schedules give six rounds and no scene request; the same click with a keyboard requests the scene |
| `FindObjects.Fire` | Assets/_Project/Scripts/Core/GameManager.cs:89-148 | a scheduled new round starts a round; a scheduled new attempt re-enables waiting without touching the round count; neither requests a scene |
| `FindObjects.StartIsValid` | Assets/_Project/Scripts/Core/GameManager.cs:49-55 | the state after `Start` satisfies the game invariant: wins never exceed attempts, rounds started plus aborted rounds equal wins plus one, and at most one round is aborted, after which the controller stays disabled |
| `FindObjects.UpdateKeepsValid` | Assets/_Project/Scripts/Core/GameManager.cs:57-183 | every frame keeps the game invariant |
| `FindObjects.FireKeepsValid` | Assets/_Project/Scripts/Core/GameManager.cs:89-148 | every scheduled call keeps the game invariant |
| `FindObjects.RoundLimitAfterFourWins` | Assets/_Project/Scripts/Core/GameManager.cs:78-81 | with no new round pending, the round limit of five is reached exactly after four correct picks, plus one when the teleport aborted a round |
| `FindObjects.SummaryAsWritten` | Assets/_Project/Scripts/Core/GameManager.cs:201-207 | as written, the summary is skipped only when no round was started, and its accuracy divides rounds won by attempts |
| `FindObjects.SummaryBeforeAnyClickIsNaN` | Assets/_Project/Scripts/Core/GameManager.cs:203-206 | leaving the scene after `Start` and before any click logs a summary exactly when the teleport did not abort, and then its accuracy is NaN |
| `FindObjects.MissingCameraLosesFirstRound` | Assets/_Project/Scripts/Core/GameManager.cs:127-145 | with a player, a spawn point, an enabled controller and no main camera, `Start` counts no round, awaits nothing and schedules nothing, leaves the controller disabled, no frame changes the game, and leaving the scene logs no summary |
| `FindObjects.SessionSummary` | Assets/_Project/Scripts/Core/GameManager.cs:201-207 | with the guard on attempts as well, the summary is skipped until an attempt is made; otherwise the accuracy is finite, accuracy times attempts is 100 times the rounds won, and the average reaction time times the rounds started is the total reaction time |
| `FindObjects.SummaryAccuracyIsPercentage` | Assets/_Project/Scripts/Core/GameManager.cs:206 | in every reachable state the summary's accuracy lies between 0 and 100 |
| `LegacyFindObjects.StartNewRound` | Assets/Scripts/GameManager.cs:48-62 | with no objects nothing changes, and the wait stays as it was; with objects, the picked one becomes the correct object, a member of the list, and a click is awaited |
| `LegacyFindObjects.Start` | Assets/Scripts/GameManager.cs:24-29 | no rounds counted yet; the session clock starts; a click is awaited exactly when there are objects |
| `LegacyFindObjects.ProcessClick` | Assets/Scripts/GameManager.cs:64-95 | only a hit counts; every hit ends the wait and counts one round; only the correct object counts a win; every hit schedules a new round |
| `LegacyFindObjects.Update` | Assets/Scripts/GameManager.cs:31-41 | a click is processed only while waiting and not over UI; any other frame changes nothing |
| `LegacyFindObjects.Fire` | Assets/Scripts/GameManager.cs:93 | a scheduled new round runs `StartNewRound` once |
| `LegacyFindObjects.UpdateKeepsValid` | Assets/Scripts/GameManager.cs:64-95 | every frame keeps the invariant: wins never exceed rounds, and a waiting game has a correct object from the list |
| `LegacyFindObjects.StartIsValid` | Assets/Scripts/GameManager.cs:24-29 | the state after `Start` satisfies the invariant: wins never exceed rounds, and a waiting game has a correct object from the list |
| `LegacyFindObjects.FireKeepsValid` | Assets/Scripts/GameManager.cs:48-62 | every scheduled round keeps the invariant |
| `LegacyFindObjects.EmptySceneNeverPlays` | Assets/Scripts/GameManager.cs:52-56 | with an empty object list the game never waits for a click, so frames and scheduled rounds change nothing |
| `LegacyFindObjects.SessionSummary` | Assets/Scripts/GameManager.cs:113-127 | skipped exactly when no round was played; otherwise accuracy times rounds is 100 times wins, the average reaction time times rounds is the total, and the duration is measured from the session start |
| `LegacyFindObjects.SummaryAccuracyIsPercentage` | Assets/Scripts/GameManager.cs:118 | in every reachable state the accuracy lies between 0 and 100 |
| `Interactable.FormatName` | Assets/Scripts/InteractableObject.cs:14-26 | without object data the name is kept; with a non-empty colour it is "display (colour)"; with a null or empty colour it is the display name |
| `Interactable.NameStartsWithDisplayName` | Assets/Scripts/InteractableObject.cs:20-24 | whenever object data is present, the name begins with the display name |
| `Interactable.FormatNameIdempotent` | Assets/Scripts/InteractableObject.cs:14-26 | validating twice gives the same name as validating once |
| `Interactable.ColourRecoverable` | Assets/Scripts/InteractableObject.cs:20 | two non-empty colours that give the same name are the same colour |

## Left out

- Clock and floating point: `Time.time` is a natural-number tick count, and event timestamps and elapsed times are integers. The `F1`, `F2` and `F3` float renderings of timers and reaction times are not modelled. The summaries' accuracy and average reaction time are computed as exact `real` quotients (in FindObjects, an exact real or NaN or an infinity), not by 32-bit `float` division, so their rounding is not modelled.
- FindObjects.StartNewRound: the teleport is modelled only by whether it throws, which is when the controller path meets a missing main camera. The other null dereferences of the scene's panels (`feedbackPanel`, `instructionsHelpPanel`) are assumed not to happen.
- Session.LoadSession: resource paths follow Unix conventions: '/' is the separator, and only a leading '/' makes a patient id rooted. Windows drive and backslash roots, and the invalid-character check of `Path.Combine`, are not modelled.
- MotorCalibration.Step: the reaction time in the TargetHit details is written as whole clock ticks followed by "s". The three-decimal float formatting of the source is not modelled.
- Randomness: `Random.value`, `Random.Range`, the `Guid` shuffle and spawn positions are inputs. The model does not state the 30% target chance or the spawn-area bounds.
- Visual and UI state is not modelled, because none of it affects the counters or the log. This covers colours and `ColorUtility.TryParseHtmlString`, sprite loading, panel sizes and colours, feedback toasts, the timer and remaining-step texts, instruction texts, card alpha, the drag position, and the 'E' help panel coroutine. Where the player is teleported to is not modelled either; the teleport's effect on the round (see below) is.
- JSON: `JsonUtility.FromJson` is given as its outcome (null, an object or an exception). `JsonUtility.ToJson` of the results and of a drawn path is not modelled; the path's JSON text is passed in with the pointer-up event.
- Files and wall clock: the persistent data path, the `DateTime` renderings and the write itself are inputs. The write is a success flag.
- Scene loading is recorded as a requested scene name. Loading the scene, and the object destruction that follows, is not modelled.
- Calling conventions: `SessionController` calls a one-argument `Initialize` and never calls `StartExercise`, while the interface declares a two-argument `Initialize` and `StartExercise`. The model records which exercises were initialized. The exercises' own start events stand for the start button (cancellation) and for `StartExercise` (sequencing).
- Cancellation parameters: the cancellation task reads fields that `ExerciseParameters` does not declare. The model gives that task its own parameter record.
- Debug logging: `Debug.Log` and `Debug.LogError` messages, including the text of the session summaries, are not modelled. The summaries are modelled as the numbers they print.
- Sequencing.DragCard: the pointer-over-slot test (`pointerEnter` carrying a `DroppableSlot`) is an input. The null dereference when `pointerEnter` is null is not modelled.
- FindObjects.Update: `EventSystem.current` is assumed present when a click is checked against the UI; a scene without an event system would throw at that point.
- LegacyFindObjects.Update: `EventSystem.current` is assumed present, as in FindObjects.Update.
- Sequencing.Step: after an unknown scenario, `Update` reads the step count of a null dictionary. The model has no game state in that case, so this is not modelled.
- `SequencingCard` and `DraggableItem.OnDrag` only forward events or move visuals, so they are not modelled.

## Findings

| source | as written | input that shows it | evidently intended | confidence | as-written member | corrected member |
|---|---|---|---|---|---|---|
| Assets/_Project/Scripts/Session/SessionController.cs:19-26 | with no session loaded, `Start` requests the main menu but does not return, and `StartNextExercise` then dereferences the null session | open the player scene with no session loaded | return to the main menu and start nothing | high, not executed | `SessionFlow.StartWithoutSessionCrashes` | `SessionFlow.Start` |
| Assets/_Project/Scripts/Core/GameManager.cs:203-206 | the summary is skipped only when `totalRounds` is 0, but accuracy divides by `totalAttempts`, so the log shows NaN | leave the scene after a `Start` whose teleport succeeds and before any click (`totalRounds` 1, `totalAttempts` 0) | guard the division by the counter it divides by | medium, not executed | `FindObjects.SummaryBeforeAnyClickIsNaN` | `FindObjects.SessionSummary` |
| Assets/_Project/Scripts/Exercises/Utility/MotorCalibrationController.cs:118-129 | the exercise finds its own id by matching `numTargets`, which picks any earlier exercise with the same value | a session listing an exercise without `numTargets` (read as 0) before a calibration with `numTargets` 0 | log under the id of the exercise the session controller launched | medium, not executed | `MotorCalibration.IdLookupPicksEarlierExercise` | `MotorCalibration.CorrectedIdIsLaunchedExercise` |
