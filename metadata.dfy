/**
 * The metadata registry as the reflective core sees it: a class descriptor
 * listing all its structural features (inherited ones included) and all its
 * operations, each carrying its identifier; a reference may name the
 * identifier of its opposite feature.
 */
module Metadata {
  import opened Wrappers

  datatype Feature =
    | Attribute(name: string, featureID: int)
    | Reference(name: string, featureID: int, oppositeID: Option<int>)

  datatype Operation = Operation(name: string, operationID: int)

  datatype EClass = EClass(name: string, allStructuralFeatures: seq<Feature>, allOperations: seq<Operation>)
  {
    /** EClass::getEStructuralFeature(id): the feature of this class with that identifier, if any. */
    function GetEStructuralFeature(featureID: int): Option<Feature>
    {
      Lookup(allStructuralFeatures, (f: Feature) => f.featureID, featureID)
    }

    /** EClass::getEOperation(id): the operation of this class with that identifier, if any. */
    function GetEOperation(operationID: int): Option<Operation>
    {
      Lookup(allOperations, (o: Operation) => o.operationID, operationID)
    }
  }

  /**
   * The first element of `s` whose identifier is `id`; None exactly when no
   * element of `s` carries that identifier.
   */
  function Lookup<T>(s: seq<T>, idOf: T -> int, id: int): (r: Option<T>)
    ensures r.None? <==> forall x :: x in s ==> idOf(x) != id
    ensures r.Some? ==> exists k :: 0 <= k < |s| && s[k] == r.value && idOf(s[k]) == id &&
                                    forall j :: 0 <= j < k ==> idOf(s[j]) != id
  {
    if s == [] then None
    else if idOf(s[0]) == id then Some(s[0])
    else
      var r := Lookup(s[1..], idOf, id);
      assert forall x :: x in s ==> x == s[0] || x in s[1..];
      assert forall j :: 0 <= j < |s| - 1 ==> s[1..][j] == s[j + 1];
      r
  }
}
