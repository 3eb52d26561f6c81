/** The executive sequencing task (`SequencingTaskController`): the steps
    of a built-in scenario are dealt as shuffled cards, the patient drags
    them into one slot per step, and a submission is accepted only when
    slot i holds the card of step i+1. The cards and slots live in a
    `DragDrop.Board`; the shuffle (`OrderBy(Guid.NewGuid())`) is a
    caller-supplied order of the scenario's keys. */
module Sequencing {
  import opened Base
  import Text
  import Metrics
  import DragDrop

  const HandWashing: map<int, string> := map[
    1 := "Abrir canilla",
    2 := "Mojarse las manos con agua",
    3 := "Aplicar jabón",
    4 := "Frotar las manos durante unos segundos",
    5 := "Enjuagar y secar",
    6 := "Cerrar canilla"]

  const CookPasta: map<int, string> := map[
    1 := "Llenar una olla con agua",
    2 := "Calentar agua hasta que hierva",
    3 := "Agregar la pasta",
    4 := "Cocinar el tiempo indicado",
    5 := "Escurrir la pasta en un colador"]

  /** The scenarios registered in `Awake`. */
  const Scenarios: map<string, map<int, string>> := map["hand_washing" := HandWashing, "cook_pasta" := CookPasta]

  /** Keys 1..n, so that slot i can hold step i+1. */
  predicate Contiguous(steps: map<int, string>)
  {
    && (forall k :: k in steps ==> 1 <= k <= |steps|)
    && (forall k :: 1 <= k <= |steps| ==> k in steps)
  }

  lemma HandWashingContiguous()
    ensures Contiguous(HandWashing) && |HandWashing| == 6
  {
    assert HandWashing.Keys == {1, 2, 3, 4, 5, 6};
    assert |{1, 2, 3, 4, 5, 6}| == 6;
    forall k | 1 <= k <= |HandWashing|
      ensures k in HandWashing
    {
      assert k in {1, 2, 3, 4, 5, 6};
    }
  }

  lemma CookPastaContiguous()
    ensures Contiguous(CookPasta) && |CookPasta| == 5
  {
    assert CookPasta.Keys == {1, 2, 3, 4, 5};
    assert |{1, 2, 3, 4, 5}| == 5;
    forall k | 1 <= k <= |CookPasta|
      ensures k in CookPasta
    {
      assert k in {1, 2, 3, 4, 5};
    }
  }

  /** Both built-in scenarios number their steps 1..n. */
  lemma BuiltInScenariosContiguous(name: string)
    requires name in Scenarios
    ensures Contiguous(Scenarios[name])
    ensures |Scenarios[name]| == (if name == "hand_washing" then 6 else 5)
  {
    assert Scenarios.Keys == {"hand_washing", "cook_pasta"};
    if name == "hand_washing" {
      HandWashingContiguous();
    } else {
      CookPastaContiguous();
    }
  }

  /** A shuffle lists every key of `steps` exactly once. */
  predicate IsShuffle(order: seq<int>, steps: map<int, string>)
  {
    && |order| == |steps|
    && (forall k :: 0 <= k < |order| ==> order[k] in steps)
    && (forall i, j :: 0 <= i < j < |order| ==> order[i] != order[j])
  }

  /** The hierarchy's fixed nodes: the canvas root and the cards container,
      then one node per slot and one item per card. */
  const Root: Id := 0
  const Pool: Id := 1

  function SlotNode(i: nat): Id { 2 + i }

  function CardItem(n: nat, k: nat): Id { 2 + n + k }

  datatype Card = Card(correctIndex: int, text: string)

  datatype Game = Game(
    exerciseId: string,
    steps: map<int, string>,
    cards: seq<Card>,
    board: DragDrop.Board,
    remainingStepsCounter: nat,
    started: bool,
    startTick: nat)

  function SlotCount(g: Game): nat { |g.steps| }

  /** Every card is in the hierarchy, and nothing else is. */
  ghost predicate Valid(g: Game)
  {
    && |g.cards| == |g.steps|
    && g.board.root == Root
    && (forall k :: 0 <= k < |g.cards| ==> CardItem(|g.steps|, k) in g.board.parent)
    && (forall x :: x in g.board.parent ==> |g.steps| + 2 <= x < 2 * |g.steps| + 2)
  }

  function DealCards(steps: map<int, string>, order: seq<int>): (cards: seq<Card>)
    requires IsShuffle(order, steps)
    ensures |cards| == |steps|
    ensures forall k :: 0 <= k < |cards| ==> cards[k] == Card(order[k], steps[order[k]])
  {
    seq(|order|, k requires 0 <= k < |order| => Card(order[k], steps[order[k]]))
  }

  /** The first `k` cards, each under the cards container. */
  function PoolParents(n: nat, k: nat): (m: map<Id, Id>)
    requires k <= n
    ensures forall j :: 0 <= j < k ==> CardItem(n, j) in m && m[CardItem(n, j)] == Pool
    ensures forall x :: x in m ==> n + 2 <= x < n + 2 + k
  {
    if k == 0 then map[] else PoolParents(n, k - 1)[CardItem(n, k - 1) := Pool]
  }

  /** All cards start in the cards container, in dealt order. */
  function InitialBoard(n: nat): (b: DragDrop.Board)
    ensures forall k :: 0 <= k < n ==> CardItem(n, k) in b.parent && b.parent[CardItem(n, k)] == Pool
    ensures forall x :: x in b.parent ==> n + 2 <= x < 2 * n + 2
    ensures b.root == Root
  {
    DragDrop.Board(PoolParents(n, n), seq(n, k requires 0 <= k < n => CardItem(n, k)), map[], map[], Root)
  }

  /** What `Initialize` leaves: a game ready to start, or, for an unknown
      scenario, the completion already signalled. */
  datatype Init = Init(game: Option<Game>, logs: seq<Metrics.LogCall>, completed: bool)

  function Initialize(exerciseId: string, scenario: string, order: seq<int>): (r: Init)
    requires scenario in Scenarios ==> IsShuffle(order, Scenarios[scenario])
    ensures |r.logs| >= 1 && r.logs[0] == Metrics.LogCall(exerciseId, "ExerciseStart", None, "Scenario: " + scenario)
    // an unknown scenario ends at once, with nothing generated
    ensures scenario !in Scenarios <==> r.completed
    ensures scenario !in Scenarios ==>
      && r.game.None?
      && r.logs == [Metrics.LogCall(exerciseId, "ExerciseStart", None, "Scenario: " + scenario),
                    Metrics.LogCall(exerciseId, "ExerciseEnd", None, "Reason: Error_ScenarioNotFound")]
    // a known one deals one card per step onto as many slots, keys shuffled
    ensures scenario in Scenarios ==> r.game.Some? && |r.logs| == 1
    ensures scenario in Scenarios ==>
      var g := r.game.value;
      && Valid(g) && g.steps == Scenarios[scenario]
      && SlotCount(g) == |g.cards| == |Scenarios[scenario]|
      && (forall k :: 0 <= k < |g.cards| ==> g.cards[k].correctIndex == order[k])
      && (forall k :: 0 <= k < |g.cards| ==> g.board.parent[CardItem(|g.steps|, k)] == Pool)
      && g.remainingStepsCounter == 0 && !g.started
  {
    var start := Metrics.LogCall(exerciseId, "ExerciseStart", None, "Scenario: " + scenario);
    if scenario !in Scenarios then
      Init(None, [start, Metrics.LogCall(exerciseId, "ExerciseEnd", None, "Reason: Error_ScenarioNotFound")], true)
    else
      var steps := Scenarios[scenario];
      var g := Game(exerciseId, steps, DealCards(steps, order), InitialBoard(|steps|), 0, false, 0);
      Init(Some(g), [start], false)
  }

  /** The dealt cards carry each scenario key exactly once. */
  lemma DealtIndicesAreKeys(steps: map<int, string>, order: seq<int>)
    requires IsShuffle(order, steps)
    ensures forall key :: key in steps <==> exists k :: 0 <= k < |DealCards(steps, order)| && DealCards(steps, order)[k].correctIndex == key
  {
    var cards := DealCards(steps, order);
    forall key | key in steps
      ensures exists k :: 0 <= k < |cards| && cards[k].correctIndex == key
    {
      var s := set k | 0 <= k < |order| :: order[k];
      assert s <= steps.Keys;
      SetOfDistinct(order);
      assert |s| == |order| == |steps.Keys|;
      SubsetSameSize(s, steps.Keys);
      assert key in s;
    }
  }

  lemma {:induction false} SetOfDistinct(order: seq<int>)
    requires forall i, j :: 0 <= i < j < |order| ==> order[i] != order[j]
    ensures |set k | 0 <= k < |order| :: order[k]| == |order|
    decreases |order|
  {
    if |order| > 0 {
      var init := order[..|order| - 1];
      SetOfDistinct(init);
      var s := set k | 0 <= k < |order| :: order[k];
      var s0 := set k | 0 <= k < |init| :: init[k];
      assert s == s0 + {order[|order| - 1]};
      assert order[|order| - 1] !in s0;
    }
  }

  lemma SubsetSameSize(a: set<int>, b: set<int>)
    requires a <= b && |a| == |b|
    ensures a == b
  {
    assert b == a + (b - a);
    assert a * (b - a) == {};
    assert |b - a| == 0;
  }

  /** Number of slots among the first `n` that hold at least one child. */
  function CountFilled(b: DragDrop.Board, n: nat): nat
  {
    if n == 0 then 0
    else CountFilled(b, n - 1) + (if DragDrop.ChildCount(b, SlotNode(n - 1)) > 0 then 1 else 0)
  }

  /** `Update`'s rule for the check button. */
  predicate CheckButtonInteractable(g: Game)
  {
    g.remainingStepsCounter == |g.steps|
  }

  /** The user's actions once the exercise is initialized. `StartCalled`
      is `StartExercise`, which shows the cards, slots and check button. */
  datatype Event =
    | StartCalled(now: nat)
    | CardDragged(card: nat, dropSlot: Option<nat>, pointerOnSlot: bool, position: Metrics.Vector2)
    | CheckPressed

  /** `fault` is set when reading the slots throws. */
  datatype Outcome = Outcome(game: Game, logs: seq<Metrics.LogCall>, completed: bool, fault: bool)

  /** The slot a drag ends on, if it is one of the generated slots. */
  function DropTarget(g: Game, dropSlot: Option<nat>): DragDrop.Target
  {
    if dropSlot.Some? && dropSlot.value < SlotCount(g) then DragDrop.Slot(SlotNode(dropSlot.value), true)
    else DragDrop.NoSlot
  }

  /** A card drag: the drag-and-drop gesture, then `HandleCardDragged`,
      which recounts the filled slots only when the pointer is over a slot. */
  function DragCard(g: Game, card: nat, dropSlot: Option<nat>, pointerOnSlot: bool,
                    position: Metrics.Vector2): (o: Outcome)
    requires Valid(g) && card < |g.cards|
    ensures Valid(o.game) && !o.completed && !o.fault
    ensures o.game.board == DragDrop.Gesture(g.board, CardItem(SlotCount(g), card), DropTarget(g, dropSlot))
    ensures pointerOnSlot ==> o.game.remainingStepsCounter == CountFilled(o.game.board, SlotCount(g))
    ensures !pointerOnSlot ==> o.game.remainingStepsCounter == g.remainingStepsCounter && o.logs == []
    ensures pointerOnSlot ==>
      o.logs == [Metrics.LogCall(g.exerciseId, "ItemDrop", Some(position), "Card '" + g.cards[card].text + "' dropped.")]
    ensures o.game.steps == g.steps && o.game.cards == g.cards && o.game.started == g.started
  {
    var n := SlotCount(g);
    var item := CardItem(n, card);
    var board := DragDrop.Gesture(g.board, item, DropTarget(g, dropSlot));
    GestureKeepsItems(g.board, item, DropTarget(g, dropSlot));
    var g1 := g.(board := board);
    if pointerOnSlot then
      var log := Metrics.LogCall(g.exerciseId, "ItemDrop", Some(position), "Card '" + g.cards[card].text + "' dropped.");
      Outcome(g1.(remainingStepsCounter := CountFilled(board, n)), [log], false, false)
    else Outcome(g1, [], false, false)
  }

  /** A gesture reparents items but never adds or removes one. */
  lemma GestureKeepsItems(b: DragDrop.Board, item: Id, target: DragDrop.Target)
    requires item in b.parent
    ensures DragDrop.Gesture(b, item, target).parent.Keys == b.parent.Keys
    ensures DragDrop.Gesture(b, item, target).root == b.root
  {
  }

  /** What each slot shows to the check: the index of its first child's
      card, or nothing when it is empty or its first child is no card. */
  function SlotCards(g: Game): (s: seq<Option<int>>)
    ensures |s| == SlotCount(g)
  {
    seq(SlotCount(g), i requires 0 <= i < SlotCount(g) =>
      if DragDrop.ChildCount(g.board, SlotNode(i)) == 0 then None
      else
        var c := DragDrop.FirstChild(g.board, SlotNode(i));
        var k := c - CardItem(SlotCount(g), 0);
        if 0 <= k < |g.cards| then Some(g.cards[k].correctIndex) else None)
  }

  /** One slot's part of the submitted sequence: `$"{correctIndex};"`. */
  function Entry(k: int): string
  {
    Text.IntToString(k) + ";"
  }

  /** The submitted sequence: each index followed by ';', in slot order. */
  function Submitted(ks: seq<int>): string
  {
    if |ks| == 0 then "" else Entry(ks[0]) + Submitted(ks[1..])
  }

  lemma {:induction false} SubmittedSnoc(ks: seq<int>, k: int)
    ensures Submitted(ks + [k]) == Submitted(ks) + Entry(k)
    decreases |ks|
  {
    if |ks| == 0 {
      assert ks + [k] == [k];
      assert Submitted([k]) == Entry(k) + "";
    } else {
      var head := Entry(ks[0]);
      assert (ks + [k])[0] == ks[0] && (ks + [k])[1..] == ks[1..] + [k];
      assert Submitted(ks + [k]) == head + Submitted(ks[1..] + [k]);
      SubmittedSnoc(ks[1..], k);
      assert head + (Submitted(ks[1..]) + Entry(k)) == (head + Submitted(ks[1..])) + Entry(k);
    }
  }

  /** Slot i holds the card of step i+1, for every slot. */
  predicate InPlace(ks: seq<int>)
  {
    forall i :: 0 <= i < |ks| ==> ks[i] == i + 1
  }

  lemma InPlaceSnoc(ks: seq<int>, k: int)
    ensures InPlace(ks + [k]) <==> InPlace(ks) && k == |ks| + 1
  {
    if InPlace(ks + [k]) {
      assert forall i :: 0 <= i < |ks| ==> ks[i] == (ks + [k])[i];
      assert (ks + [k])[|ks|] == k;
    }
  }

  /** The result of `OnCheckButtonPressed`'s loop. */
  datatype Check = Submission(correct: bool, sequence: string) | SlotWithoutCard(slot: nat)

  function Values(s: seq<Option<int>>): (ks: seq<int>)
    requires forall i :: 0 <= i < |s| ==> s[i].Some?
    ensures |ks| == |s| && forall i :: 0 <= i < |s| ==> ks[i] == s[i].value
  {
    seq(|s|, i requires 0 <= i < |s| => s[i].value)
  }

  /** `OnCheckButtonPressed`'s loop over the slots: it throws at the first
      slot without a card, and otherwise reports whether every slot holds
      its own step and the indices submitted. */
  method CheckSlots(slots: seq<Option<int>>) returns (r: Check)
    ensures r.SlotWithoutCard? <==> exists i :: 0 <= i < |slots| && slots[i].None?
    ensures r.SlotWithoutCard? ==>
      && r.slot < |slots| && slots[r.slot].None?
      && (forall i :: 0 <= i < r.slot ==> slots[i].Some?)
    ensures r.Submission? ==> r.correct == InPlace(Values(slots)) && r.sequence == Submitted(Values(slots))
    ensures r == CheckOf(slots)
  {
    var isCorrect := true;
    var sequence := "";
    var ks: seq<int> := [];
    var i := 0;
    while i < |slots|
      invariant 0 <= i <= |slots|
      invariant forall j :: 0 <= j < i ==> slots[j].Some?
      invariant |ks| == i && forall j :: 0 <= j < i ==> ks[j] == slots[j].value
      invariant sequence == Submitted(ks)
      invariant isCorrect == InPlace(ks)
    {
      if slots[i].None? {
        FirstEmptyAt(slots, i);
        assert CheckOf(slots) == SlotWithoutCard(i);
        return SlotWithoutCard(i);
      }
      var k := slots[i].value;
      CheckStep(slots, ks, i);
      sequence := sequence + Entry(k);
      if k != i + 1 {
        isCorrect := false;
      }
      ks := ks + [k];
      i := i + 1;
    }
    AllCardsChecked(slots, ks);
    r := Submission(isCorrect, sequence);
  }

  /** One more card checked: its index joins the list, the submitted
      text and the in-place test. */
  lemma CheckStep(slots: seq<Option<int>>, ks: seq<int>, i: nat)
    requires i < |slots| && forall j :: 0 <= j <= i ==> slots[j].Some?
    requires |ks| == i && forall j :: 0 <= j < i ==> ks[j] == slots[j].value
    ensures var k := slots[i].value;
      forall j :: 0 <= j < i + 1 ==> (ks + [k])[j] == slots[j].value
    ensures Submitted(ks + [slots[i].value]) == Submitted(ks) + Entry(slots[i].value)
    ensures InPlace(ks + [slots[i].value]) <==> InPlace(ks) && slots[i].value == i + 1
  {
    var k := slots[i].value;
    SubmittedSnoc(ks, k);
    InPlaceSnoc(ks, k);
    forall j | 0 <= j < i + 1
      ensures (ks + [k])[j] == slots[j].value
    {
      if j < i {
        assert (ks + [k])[j] == ks[j];
      }
    }
  }

  /** Index of the first empty entry, or the length when there is none. */
  function FirstEmpty(slots: seq<Option<int>>): (i: nat)
    ensures i <= |slots|
    ensures forall j :: 0 <= j < i ==> slots[j].Some?
    ensures i < |slots| ==> slots[i].None?
  {
    if |slots| == 0 || slots[0].None? then 0 else 1 + FirstEmpty(slots[1..])
  }

  /** `FirstEmpty` is the one position with only cards before it and a
      gap (or the end) at it. */
  lemma FirstEmptyAt(slots: seq<Option<int>>, i: nat)
    requires i <= |slots|
    requires forall j :: 0 <= j < i ==> slots[j].Some?
    requires i < |slots| ==> slots[i].None?
    ensures FirstEmpty(slots) == i
  {
  }

  /** With a card in every slot, the check reports the cards' indices. */
  lemma AllCardsChecked(slots: seq<Option<int>>, ks: seq<int>)
    requires |ks| == |slots|
    requires forall j :: 0 <= j < |slots| ==> slots[j].Some? && ks[j] == slots[j].value
    ensures CheckOf(slots) == Submission(InPlace(ks), Submitted(ks))
  {
    FirstEmptyAt(slots, |slots|);
    assert ks == Values(slots);
  }

  /** The same check as a function, for use inside event handling. */
  function CheckOf(slots: seq<Option<int>>): (r: Check)
    ensures r.SlotWithoutCard? <==> exists i :: 0 <= i < |slots| && slots[i].None?
    ensures r.SlotWithoutCard? ==>
      && r.slot < |slots| && slots[r.slot].None?
      && (forall i :: 0 <= i < r.slot ==> slots[i].Some?)
    ensures r.Submission? ==> r.correct == InPlace(Values(slots)) && r.sequence == Submitted(Values(slots))
  {
    var i := FirstEmpty(slots);
    if i < |slots| then SlotWithoutCard(i)
    else Submission(InPlace(Values(slots)), Submitted(Values(slots)))
  }

  function BoolText(b: bool): string { if b then "True" else "False" }

  /** One event; the exercise reacts only once started (before that its
      cards, slots and button are hidden). */
  function Step(g: Game, e: Event): (o: Outcome)
    requires Valid(g)
    ensures Valid(o.game)
    ensures o.game.steps == g.steps && o.game.cards == g.cards
    // the check is reachable only through an interactable button
    ensures e.CheckPressed? && !(g.started && CheckButtonInteractable(g)) ==> o == Outcome(g, [], false, false)
    // a correct submission completes; an incorrect one is logged and play goes on
    ensures e.CheckPressed? && g.started && CheckButtonInteractable(g) && CheckOf(SlotCards(g)).Submission? ==>
      var c := CheckOf(SlotCards(g));
      && o.game == g
      && o.completed == c.correct
      && |o.logs| >= 1
      && o.logs[0] == Metrics.LogCall(g.exerciseId, "SequenceSubmitted", None,
           "Correct: " + BoolText(c.correct) + ", Sequence: " + c.sequence)
      && (c.correct ==> o.logs == [o.logs[0], Metrics.LogCall(g.exerciseId, "ExerciseEnd", None, "Reason: Completed")])
      && (!c.correct ==> |o.logs| == 1)
    // a check that meets an empty slot throws: it logs nothing and changes nothing
    ensures o.fault <==>
      e.CheckPressed? && g.started && CheckButtonInteractable(g) && CheckOf(SlotCards(g)).SlotWithoutCard?
    ensures o.fault ==> o.game == g && o.logs == [] && !o.completed
    // completion needs every slot to show the card of its own step
    ensures o.completed ==> e.CheckPressed? && forall i :: 0 <= i < SlotCount(g) ==> SlotCards(g)[i] == Some(i + 1)
  {
    match e
    case StartCalled(now) =>
      Outcome(g.(started := true, startTick := now), [], false, false)
    case CardDragged(card, dropSlot, onSlot, position) =>
      if g.started && card < |g.cards| then DragCard(g, card, dropSlot, onSlot, position)
      else Outcome(g, [], false, false)
    case CheckPressed =>
      if !(g.started && CheckButtonInteractable(g)) then Outcome(g, [], false, false)
      else
        match CheckOf(SlotCards(g))
        case SlotWithoutCard(_) => Outcome(g, [], false, true)
        case Submission(correct, sequence) =>
          var log := Metrics.LogCall(g.exerciseId, "SequenceSubmitted", None,
                       "Correct: " + BoolText(correct) + ", Sequence: " + sequence);
          if correct then
            Outcome(g, [log, Metrics.LogCall(g.exerciseId, "ExerciseEnd", None, "Reason: Completed")], true, false)
          else Outcome(g, [log], false, false)
  }

  /** Accepting a submission needs the scenario's keys to be exactly 1..n:
      if the slots hold distinct keys of `steps`, one per slot, and every
      slot holds its own step, the keys are contiguous. Conversely the
      ascending arrangement of a contiguous scenario is accepted. */
  lemma {:induction false} AcceptedOnlyWhenContiguous(steps: map<int, string>, ks: seq<int>)
    requires IsShuffle(ks, steps)
    ensures InPlace(ks) ==> Contiguous(steps)
    ensures Contiguous(steps) ==> IsShuffle(seq(|steps|, i => i + 1), steps) && InPlace(seq(|steps|, i => i + 1))
  {
    if Contiguous(steps) {
      var asc := seq(|steps|, i => i + 1);
      forall k | 0 <= k < |asc|
        ensures asc[k] in steps
      {
        assert 1 <= asc[k] <= |steps|;
      }
    }
    if InPlace(ks) {
      var s := set k | 0 <= k < |ks| :: ks[k];
      SetOfDistinct(ks);
      assert s <= steps.Keys;
      SubsetSameSize(s, steps.Keys);
      forall key
        ensures key in steps <==> 1 <= key <= |steps|
      {
        if key in steps {
          assert key in s;
        }
        if 1 <= key <= |steps| {
          assert ks[key - 1] == key;
          assert key in s;
        }
      }
    }
  }

  /** Each index rendered as text. */
  function Rendered(ks: seq<int>): (pieces: seq<string>)
    ensures |pieces| == |ks|
  {
    if |ks| == 0 then [] else [Text.IntToString(ks[0])] + Rendered(ks[1..])
  }

  /** The submitted text splits on ';' into the rendered indices and a
      final empty piece. */
  lemma {:induction false} SubmittedPieces(ks: seq<int>)
    ensures Text.Split(Submitted(ks), ';') == Rendered(ks) + [""]
    decreases |ks|
  {
    if |ks| == 0 {
      assert Text.Split("", ';') == [""];
    } else {
      var head := Text.IntToString(ks[0]);
      var rest := Submitted(ks[1..]);
      assert ';' !in head;
      SubmittedPieces(ks[1..]);
      Text.SplitCons(head, ';', rest);
      assert Submitted(ks) == head + [';'] + rest;
      assert Rendered(ks) + [""] == [head] + (Rendered(ks[1..]) + [""]);
    }
  }

  /** Reading the submitted text back: every piece before the final empty
      one parses as an index. */
  function ParseSubmitted(s: string): Option<seq<int>>
  {
    var pieces := Text.Split(s, ';');
    ParsePieces(pieces[..|pieces| - 1])
  }

  function ParsePieces(pieces: seq<string>): Option<seq<int>>
  {
    if |pieces| == 0 then Some([])
    else
      match Text.ParseInt(pieces[0])
      case Err(_) => None
      case Ok(k) =>
        match ParsePieces(pieces[1..])
        case None => None
        case Some(rest) => Some([k] + rest)
  }

  lemma {:induction false} ParsePiecesOfRendered(ks: seq<int>)
    requires forall i :: 0 <= i < |ks| ==> Text.Int32Min <= ks[i] <= Text.Int32Max
    ensures ParsePieces(Rendered(ks)) == Some(ks)
    decreases |ks|
  {
    if |ks| > 0 {
      ParsePiecesOfRendered(ks[1..]);
      RenderedStep(ks);
    }
  }

  /** The inductive step: the first index parses back in front of the rest. */
  lemma RenderedStep(ks: seq<int>)
    requires |ks| > 0 && Text.Int32Min <= ks[0] <= Text.Int32Max
    ensures ParsePieces(Rendered(ks[1..])) == Some(ks[1..]) ==> ParsePieces(Rendered(ks)) == Some(ks)
  {
    if ParsePieces(Rendered(ks[1..])) == Some(ks[1..]) {
      RenderedCons(ks[0], Rendered(ks[1..]), ks[1..]);
      assert Rendered(ks) == [Text.IntToString(ks[0])] + Rendered(ks[1..]);
      assert [ks[0]] + ks[1..] == ks;
    }
  }

  /** A rendered index parses back in front of pieces that parse. */
  lemma RenderedCons(k: int, rest: seq<string>, ks: seq<int>)
    requires Text.Int32Min <= k <= Text.Int32Max && ParsePieces(rest) == Some(ks)
    ensures ParsePieces([Text.IntToString(k)] + rest) == Some([k] + ks)
  {
    var pieces := [Text.IntToString(k)] + rest;
    Text.ParseIntOfIntToString(k);
    assert pieces[0] == Text.IntToString(k) && pieces[1..] == rest;
  }

  /** The logged sequence records the submission losslessly. */
  lemma SubmittedRoundTrip(ks: seq<int>)
    requires forall i :: 0 <= i < |ks| ==> Text.Int32Min <= ks[i] <= Text.Int32Max
    ensures ParseSubmitted(Submitted(ks)) == Some(ks)
  {
    SubmittedPieces(ks);
    var pieces := Text.Split(Submitted(ks), ';');
    assert pieces[..|pieces| - 1] == Rendered(ks);
    ParsePiecesOfRendered(ks);
  }
}
