/** Shared vocabulary: optional values, results, object ids and the
    singleton rule that SessionManager and MetricsManager both follow. */
module Base {

  /** A C# reference that may be null. */
  datatype Option<+T> = None | Some(value: T)

  /** A computation that either yields a value or throws. */
  datatype Result<+T, +E> = Ok(value: T) | Err(error: E)

  /** Unity objects (game objects, transforms, components) are identified by number. */
  type Id = nat

  /** What a manager's `Awake` leaves behind: the registered `Instance`
      and whether the waking object destroyed itself. */
  datatype AwakeOutcome = AwakeOutcome(instance: Id, destroyedSelf: bool)

  /** The singleton rule: a newcomer that finds a different registered
      instance destroys itself; otherwise it registers itself. */
  function Awake(instance: Option<Id>, self: Id): (r: AwakeOutcome)
    ensures r.destroyedSelf <==> instance.Some? && instance.value != self
    ensures r.destroyedSelf ==> r.instance == instance.value
    ensures !r.destroyedSelf ==> r.instance == self
  {
    if instance.Some? && instance.value != self then AwakeOutcome(instance.value, true)
    else AwakeOutcome(self, false)
  }

  /** Wakes a sequence of manager objects in order, threading `Instance`. */
  function AwakeAll(instance: Option<Id>, objects: seq<Id>): Option<Id>
    decreases |objects|
  {
    if |objects| == 0 then instance
    else AwakeAll(Some(Awake(instance, objects[0]).instance), objects[1..])
  }

  /** Once an instance is registered it is never replaced: however many
      objects wake afterwards, the first registered one stays. */
  lemma {:induction false} FirstInstanceSurvives(instance: Option<Id>, objects: seq<Id>)
    requires instance.Some? || |objects| > 0
    ensures AwakeAll(instance, objects) == Some(if instance.Some? then instance.value else objects[0])
    decreases |objects|
  {
    if |objects| > 0 {
      var next := Awake(instance, objects[0]).instance;
      assert next == (if instance.Some? then instance.value else objects[0]);
      FirstInstanceSurvives(Some(next), objects[1..]);
    }
  }
}
