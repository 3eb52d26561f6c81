/** `InteractableObject.OnValidate`: the object's name in the hierarchy
    shows its type and, when set, its colour. */
module Interactable {
  import opened Base

  /** The `ObjectData` asset; only its display name matters here. */
  datatype ObjectData = ObjectData(displayName: string)

  /** `string.IsNullOrEmpty`. */
  predicate IsNullOrEmpty(s: Option<string>)
  {
    s.None? || s.value == ""
  }

  function FormatName(objectData: Option<ObjectData>, instanceColor: Option<string>, currentName: string): (name: string)
    // without object data the name is left alone
    ensures objectData.None? ==> name == currentName
    // with a colour: "display (colour)"
    ensures objectData.Some? && !IsNullOrEmpty(instanceColor) ==>
      && |name| == |objectData.value.displayName| + |instanceColor.value| + 3
      && name[..|objectData.value.displayName|] == objectData.value.displayName
      && name[|objectData.value.displayName|..] == " (" + instanceColor.value + ")"
    // without one: the display name alone
    ensures objectData.Some? && IsNullOrEmpty(instanceColor) ==> name == objectData.value.displayName
  {
    if objectData.Some? && !IsNullOrEmpty(instanceColor) then
      objectData.value.displayName + " (" + instanceColor.value + ")"
    else if objectData.Some? then objectData.value.displayName
    else currentName
  }

  /** Whenever object data is present the name begins with the display
      name, whatever the colour and the previous name. */
  lemma NameStartsWithDisplayName(d: ObjectData, instanceColor: Option<string>, currentName: string)
    ensures
      var name := FormatName(Some(d), instanceColor, currentName);
      |d.displayName| <= |name| && name[..|d.displayName|] == d.displayName
  {
  }

  /** Validating twice gives the same name as validating once. */
  lemma FormatNameIdempotent(objectData: Option<ObjectData>, instanceColor: Option<string>, currentName: string)
    ensures
      var once := FormatName(objectData, instanceColor, currentName);
      FormatName(objectData, instanceColor, once) == once
  {
  }

  /** The colour can be read back from the name: two colours give the same
      name only if they are equal. */
  lemma ColourRecoverable(d: ObjectData, c1: string, c2: string, n1: string, n2: string)
    requires c1 != "" && c2 != ""
    requires FormatName(Some(d), Some(c1), n1) == FormatName(Some(d), Some(c2), n2)
    ensures c1 == c2
  {
    var a := FormatName(Some(d), Some(c1), n1);
    var k := |d.displayName| + 2;
    assert a[k..|a| - 1] == c1;
    assert FormatName(Some(d), Some(c2), n2)[k..|a| - 1] == c2;
  }
}
