/**
 * The association list (EObjectEList): an ordered list of references owned by
 * a BasicEObject through one of its features. Each mutation updates the
 * backing list, makes the inverse-update call the list's policy selects on the
 * affected element(s), and, when the owner is alive and requires it, hands one
 * notification to the owner's adapters.
 */
module EObjectLists {
  import opened Wrappers
  import opened Metadata
  import opened EObjects

  lemma ConcatAssoc(a: seq<Event>, b: seq<Event>, c: seq<Event>)
    ensures (a + b) + c == a + (b + c)
  {
  }

  /** A "unique" list holds no element twice (by identity). */
  predicate NoDuplicates(s: seq<Value>) {
    forall i, j :: 0 <= i < j < |s| ==> s[i] != s[j]
  }

  /** BasicEList::addUnique(i, x): `x` at `i`, the elements before it unchanged, those after it shifted up by one. */
  function InsertAt(s: seq<Value>, i: nat, x: Value): (r: seq<Value>)
    requires i <= |s|
    ensures |r| == |s| + 1 && r[i] == x
    ensures forall j :: 0 <= j < i ==> r[j] == s[j]
    ensures forall j :: i < j < |r| ==> r[j] == s[j - 1]
  {
    s[..i] + [x] + s[i..]
  }

  /** BasicEList::remove(i): the element at `i` is gone, the others keep their order. */
  function RemoveAt(s: seq<Value>, i: nat): (r: seq<Value>)
    requires i < |s|
    ensures |r| == |s| - 1
    ensures forall j :: 0 <= j < i ==> r[j] == s[j]
    ensures forall j :: i <= j < |r| ==> r[j] == s[j + 1]
  {
    s[..i] + s[i + 1..]
  }

  /** Removing what was just inserted at the same index gives the list back. */
  lemma InsertThenRemove(s: seq<Value>, i: nat, x: Value)
    requires i <= |s|
    ensures RemoveAt(InsertAt(s, i, x), i) == s
  {
    var r := RemoveAt(InsertAt(s, i, x), i);
    assert |r| == |s|;
    forall j | 0 <= j < |s| ensures r[j] == s[j] {
    }
  }

  lemma InsertKeepsUnique(s: seq<Value>, i: nat, x: Value)
    requires NoDuplicates(s) && x !in s && i <= |s|
    ensures NoDuplicates(InsertAt(s, i, x))
  {
    var r := InsertAt(s, i, x);
    forall p, q | 0 <= p < q < |r| ensures r[p] != r[q] {
      if p == i {
        assert r[q] == s[q - 1];
      } else if q == i {
        assert r[p] == s[p];
      } else {
        var p' := if p < i then p else p - 1;
        var q' := if q < i then q else q - 1;
        assert r[p] == s[p'] && r[q] == s[q'] && p' < q';
      }
    }
  }

  lemma RemoveKeepsUnique(s: seq<Value>, i: nat)
    requires NoDuplicates(s) && i < |s|
    ensures NoDuplicates(RemoveAt(s, i))
    ensures s[i] !in RemoveAt(s, i)
  {
    var r := RemoveAt(s, i);
    forall p, q | 0 <= p < q < |r| ensures r[p] != r[q] {
      var p' := if p < i then p else p + 1;
      var q' := if q < i then q else q + 1;
      assert r[p] == s[p'] && r[q] == s[q'] && p' < q';
    }
    forall p | 0 <= p < |r| ensures r[p] != s[i] {
      var p' := if p < i then p else p + 1;
      assert r[p] == s[p'] && p' != i;
    }
  }

  lemma ReplaceKeepsUnique(s: seq<Value>, i: nat, x: Value)
    requires NoDuplicates(s) && i < |s| && x !in RemoveAt(s, i)
    ensures NoDuplicates(s[i := x])
  {
    var r := RemoveAt(s, i);
    var t := s[i := x];
    forall p, q | 0 <= p < q < |t| ensures t[p] != t[q] {
      if p == i {
        assert s[q] == r[q - 1];
      } else if q == i {
        assert s[p] == r[p];
      }
    }
  }

  /** The synthetic identifier of a container slot: BASE - featureID; the real identifier is recovered as BASE - synthetic. */
  function SyntheticFeatureID(base: int, featureID: int): (r: int)
    ensures base - r == featureID
    ensures base < 0 && featureID >= 0 ==> r < 0
  {
    base - featureID
  }

  /**
   * The identifier an inverse update is made with, by policy: none without
   * `inverse`; the declared opposite's identifier with `opposite`; the
   * synthetic container-slot identifier otherwise.
   */
  function InverseFeatureIDFor(inverse: bool, opposite: bool, base: int, featureID: int, inverseFeatureID: int): (r: Option<int>)
    ensures r.Some? <==> inverse
    ensures r.Some? && opposite ==> r.value == inverseFeatureID
    ensures r.Some? && !opposite ==> base - r.value == featureID
  {
    if !inverse then None
    else if opposite then Some(inverseFeatureID)
    else Some(SyntheticFeatureID(base, featureID))
  }

  class EObjectEList {
    const containment: bool
    const inverse: bool
    const opposite: bool
    /** BasicEObject::EOPPOSITE_FEATURE_BASE, declared in a header that is not part of this model. */
    const oppositeFeatureBase: int
    const featureID: int
    const inverseFeatureID: int
    /** The weak owner: None once the owner has been destroyed. */
    var owner: Option<BasicEObject>
    /** The backing BasicEList. */
    var data: seq<Value>

    ghost predicate Valid()
      reads this
    {
      NoDuplicates(data)
    }

    ghost function OwnerFrame(): set<object>
      reads this`owner
    {
      if owner.Some? then {owner.value} else {}
    }

    /**
     * The inverse identifier is the opposite's identifier when the owner's
     * class declares the feature as a reference with an opposite, else -1.
     */
    constructor (owner: BasicEObject, featureID: int, containment: bool, inverse: bool, opposite: bool, oppositeFeatureBase: int)
      ensures this.owner == Some(owner) && data == [] && Valid()
      ensures this.featureID == featureID && this.oppositeFeatureBase == oppositeFeatureBase
      ensures this.containment == containment && this.inverse == inverse && this.opposite == opposite
      ensures match owner.eClass.GetEStructuralFeature(featureID)
              case Some(Reference(_, _, Some(oppositeID))) => inverseFeatureID == oppositeID
              case _ => inverseFeatureID == -1
    {
      this.owner := Some(owner);
      this.featureID := featureID;
      this.containment, this.inverse, this.opposite := containment, inverse, opposite;
      this.oppositeFeatureBase := oppositeFeatureBase;
      data := [];
      var id := -1;
      var reference := owner.eClass.GetEStructuralFeature(featureID);
      if reference.Some? && reference.value.Reference? {
        var oppositeFeature := reference.value.oppositeID;
        if oppositeFeature.Some? {
          id := oppositeFeature.value;
        }
      }
      inverseFeatureID := id;
    }

    /** The inverse identifier is given explicitly. */
    constructor WithInverse(owner: BasicEObject, featureID: int, inverseFeatureID: int,
                            containment: bool, inverse: bool, opposite: bool, oppositeFeatureBase: int)
      ensures this.owner == Some(owner) && data == [] && Valid()
      ensures this.featureID == featureID && this.inverseFeatureID == inverseFeatureID
      ensures this.oppositeFeatureBase == oppositeFeatureBase
      ensures this.containment == containment && this.inverse == inverse && this.opposite == opposite
    {
      this.owner := Some(owner);
      this.featureID := featureID;
      this.inverseFeatureID := inverseFeatureID;
      this.containment, this.inverse, this.opposite := containment, inverse, opposite;
      this.oppositeFeatureBase := oppositeFeatureBase;
      data := [];
    }

    /** The identifier this list's inverse updates use, if it makes any. */
    function InverseID(): (r: Option<int>)
      ensures r == InverseFeatureIDFor(inverse, opposite, oppositeFeatureBase, featureID, inverseFeatureID)
    {
      InverseFeatureIDFor(inverse, opposite, oppositeFeatureBase, featureID, inverseFeatureID)
    }

    /** The list always reports itself unique; that it holds no duplicate is the invariant Valid(). */
    function IsUnique(): (r: bool)
      ensures r
    {
      true
    }

    /** Notification is required only while the owner is alive and itself requires it. */
    function IsNotificationRequired(): (r: bool)
      reads this`owner, OwnerFrame()
      ensures r <==> owner.Some? && owner.value.deliver && |owner.value.adapters| > 0
    {
      if owner.Some? then owner.value.ENotificationRequired() else false
    }

    /** The notification for a change of this list's feature; none once the owner is gone. */
    function CreateNotification(eventType: EventType, oldValue: Value, newValue: Value, position: nat): (r: Option<Notification>)
      reads this`owner
      ensures r.Some? <==> owner.Some?
      ensures r.Some? ==> r.value.notifier == owner.value && r.value.eventType == eventType
      ensures r.Some? ==> r.value.feature == owner.value.eClass.GetEStructuralFeature(featureID)
      ensures r.Some? ==> r.value.oldValue == oldValue && r.value.newValue == newValue && r.value.position == position
    {
      if owner.Some? then
        Some(Notification(eventType, owner.value, owner.value.eClass.GetEStructuralFeature(featureID), oldValue, newValue, position))
      else None
    }

    method DispatchNotification(notification: Option<Notification>, ghost trace: Trace)
      requires owner.Some? ==> notification.Some?
      modifies trace
      ensures trace.events == old(trace.events) + (if owner.Some? then Deliveries(owner.value.adapters, notification.value) else [])
    {
      if owner.Some? {
        owner.value.ENotify(notification.value, trace);
      }
    }

    // Specification of the calls each mutation makes.

    ghost function InverseAddCalls(v: Value): seq<Event>
      reads this`owner
    {
      if IsObject(v) && InverseID().Some? then [Event.InverseAdd(v.obj, owner, InverseID().value)] else []
    }

    ghost function InverseRemoveCalls(v: Value): seq<Event>
      reads this`owner
    {
      if IsObject(v) && InverseID().Some? then [Event.InverseRemove(v.obj, owner, InverseID().value)] else []
    }

    ghost function NotifyCalls(eventType: EventType, oldValue: Value, newValue: Value, position: nat): seq<Event>
      reads this`owner, OwnerFrame()
    {
      if IsNotificationRequired() then
        Deliveries(owner.value.adapters, CreateNotification(eventType, oldValue, newValue, position).value)
      else []
    }

    ghost function AddCalls(e: Value, index: nat): seq<Event>
      reads this`owner, OwnerFrame()
    {
      InverseAddCalls(e) + NotifyCalls(ADD, Null, e, index)
    }

    ghost function RemoveCalls(oldObject: Value, index: nat): seq<Event>
      reads this`owner, OwnerFrame()
    {
      InverseRemoveCalls(oldObject) + NotifyCalls(REMOVE, oldObject, Null, index)
    }

    ghost function SetCalls(oldObject: Value, newObject: Value, index: nat): seq<Event>
      reads this`owner, OwnerFrame()
    {
      (if newObject != oldObject then InverseRemoveCalls(oldObject) + InverseAddCalls(newObject) else [])
      + NotifyCalls(SET, oldObject, newObject, index)
    }

    // The Inverse/Opposite policy structs.

    method InverseAdd(target: BasicEObject, ghost trace: Trace)
      modifies trace
      ensures trace.events == old(trace.events) + InverseAddCalls(Object(target))
    {
      if inverse {
        if opposite {
          target.EInverseAdd(owner, inverseFeatureID, trace);
        } else {
          target.EInverseAdd(owner, oppositeFeatureBase - featureID, trace);
        }
      }
    }

    method InverseRemove(target: BasicEObject, ghost trace: Trace)
      modifies trace
      ensures trace.events == old(trace.events) + InverseRemoveCalls(Object(target))
    {
      if inverse {
        if opposite {
          target.EInverseRemove(owner, inverseFeatureID, trace);
        } else {
          target.EInverseRemove(owner, oppositeFeatureBase - featureID, trace);
        }
      }
    }

    // The four mutations.

    /** Append; a value that is not a BasicEObject is not stored at all. */
    method AddUnique(e: Value, ghost trace: Trace)
      requires Valid() && e !in data
      modifies this`data, trace
      ensures Valid()
      ensures data == if IsObject(e) then old(data) + [e] else old(data)
      ensures trace.events == old(trace.events) + (if IsObject(e) then AddCalls(e, |old(data)|) else [])
    {
      if IsObject(e) {
        var index := |data|;
        InsertKeepsUnique(data, index, e);
        assert InsertAt(data, index, e) == data + [e];
        data := data + [e];
        ghost var before := trace.events;
        InverseAdd(e.obj, trace);
        ghost var added := trace.events;
        if IsNotificationRequired() {
          var notification := CreateNotification(ADD, Null, e, index);
          DispatchNotification(notification, trace);
        }
        assert trace.events == added + NotifyCalls(ADD, Null, e, index);
        ConcatAssoc(before, InverseAddCalls(e), NotifyCalls(ADD, Null, e, index));
      }
    }

    /** Insert at `index`; a value that is not a BasicEObject is not stored at all. */
    method AddUniqueAt(index: nat, e: Value, ghost trace: Trace)
      requires Valid() && e !in data && index <= |data|
      modifies this`data, trace
      ensures Valid()
      ensures data == if IsObject(e) then InsertAt(old(data), index, e) else old(data)
      ensures trace.events == old(trace.events) + (if IsObject(e) then AddCalls(e, index) else [])
    {
      if IsObject(e) {
        InsertKeepsUnique(data, index, e);
        data := InsertAt(data, index, e);
        ghost var before := trace.events;
        InverseAdd(e.obj, trace);
        ghost var added := trace.events;
        if IsNotificationRequired() {
          var notification := CreateNotification(ADD, Null, e, index);
          DispatchNotification(notification, trace);
        }
        assert trace.events == added + NotifyCalls(ADD, Null, e, index);
        ConcatAssoc(before, InverseAddCalls(e), NotifyCalls(ADD, Null, e, index));
      }
    }

    method Remove(index: nat, ghost trace: Trace) returns (oldObject: Value)
      requires Valid() && index < |data|
      modifies this`data, trace
      ensures Valid()
      ensures oldObject == old(data)[index] && data == RemoveAt(old(data), index)
      ensures trace.events == old(trace.events) + RemoveCalls(oldObject, index)
    {
      oldObject := data[index];
      RemoveKeepsUnique(data, index);
      data := RemoveAt(data, index);
      ghost var before := trace.events;
      if IsObject(oldObject) {
        InverseRemove(oldObject.obj, trace);
      }
      ghost var removed := trace.events;
      assert removed == before + InverseRemoveCalls(oldObject);
      if IsNotificationRequired() {
        var notification := CreateNotification(REMOVE, oldObject, Null, index);
        DispatchNotification(notification, trace);
      }
      assert trace.events == removed + NotifyCalls(REMOVE, oldObject, Null, index);
      ConcatAssoc(before, InverseRemoveCalls(oldObject), NotifyCalls(REMOVE, oldObject, Null, index));
    }

    method SetUnique(index: nat, newObject: Value, ghost trace: Trace) returns (oldObject: Value)
      requires Valid() && index < |data| && newObject !in RemoveAt(data, index)
      modifies this`data, trace
      ensures Valid()
      ensures oldObject == old(data)[index] && data == old(data)[index := newObject]
      ensures trace.events == old(trace.events) + SetCalls(oldObject, newObject, index)
    {
      oldObject := data[index];
      ReplaceKeepsUnique(data, index, newObject);
      data := data[index := newObject];
      ghost var before := trace.events;
      if newObject != oldObject {
        if IsObject(oldObject) {
          InverseRemove(oldObject.obj, trace);
        }
        assert trace.events == before + InverseRemoveCalls(oldObject);
        if IsObject(newObject) {
          InverseAdd(newObject.obj, trace);
        }
        assert trace.events == before + InverseRemoveCalls(oldObject) + InverseAddCalls(newObject);
      }
      ghost var swap := if newObject != oldObject then InverseRemoveCalls(oldObject) + InverseAddCalls(newObject) else [];
      assert trace.events == before + swap;
      ghost var swapped := trace.events;
      if IsNotificationRequired() {
        var notification := CreateNotification(SET, oldObject, newObject, index);
        DispatchNotification(notification, trace);
      }
      ghost var notified := NotifyCalls(SET, oldObject, newObject, index);
      assert trace.events == swapped + notified;
      assert SetCalls(oldObject, newObject, index) == swap + notified;
      ConcatAssoc(before, swap, notified);
    }
  }

  // Properties of the calls a mutation makes.

  lemma NotifyCallsMakeNoInverseCall(l: EObjectEList, eventType: EventType, oldValue: Value, newValue: Value, position: nat)
    ensures InverseCallsIn(l.NotifyCalls(eventType, oldValue, newValue, position)) == []
  {
    if l.IsNotificationRequired() {
      DeliveriesCarryOneNotification(l.owner.value.adapters, l.CreateNotification(eventType, oldValue, newValue, position).value);
    }
  }

  /**
   * A mutation hands adapters at most one notification: one copy per adapter
   * of the notification CreateNotification builds, when the owner is alive and
   * requires notification; none otherwise.
   */
  lemma NotifyCallsCarryOneNotification(l: EObjectEList, eventType: EventType, oldValue: Value, newValue: Value, position: nat)
    ensures l.IsNotificationRequired() ==>
      NotificationsIn(l.NotifyCalls(eventType, oldValue, newValue, position))
        == Copies(Notification(eventType, l.owner.value, l.owner.value.eClass.GetEStructuralFeature(l.featureID),
                               oldValue, newValue, position),
                  |l.owner.value.adapters|)
    ensures !l.IsNotificationRequired() ==> NotificationsIn(l.NotifyCalls(eventType, oldValue, newValue, position)) == []
  {
    if l.IsNotificationRequired() {
      DeliveriesCarryOneNotification(l.owner.value.adapters, l.CreateNotification(eventType, oldValue, newValue, position).value);
    }
  }

  lemma InverseCallsOfSingle(l: EObjectEList, v: Value)
    ensures InverseCallsIn(l.InverseAddCalls(v)) == l.InverseAddCalls(v)
    ensures InverseCallsIn(l.InverseRemoveCalls(v)) == l.InverseRemoveCalls(v)
    ensures NotificationsIn(l.InverseAddCalls(v)) == []
    ensures NotificationsIn(l.InverseRemoveCalls(v)) == []
  {
    var a := l.InverseAddCalls(v);
    var r := l.InverseRemoveCalls(v);
    if a != [] {
      assert a[1..] == [];
    }
    if r != [] {
      assert r[1..] == [];
    }
  }

  /**
   * Append or insert of a BasicEObject `e`: exactly one inverse-add, on `e`,
   * with the other end the (possibly expired) owner, and the identifier the
   * policy selects; no inverse call without the inverse policy.
   */
  lemma AddInverseCalls(l: EObjectEList, e: Value, index: nat)
    requires IsObject(e)
    ensures !l.inverse ==> InverseCallsIn(l.AddCalls(e, index)) == []
    ensures l.inverse && !l.opposite ==>
      InverseCallsIn(l.AddCalls(e, index)) == [InverseAdd(e.obj, l.owner, l.oppositeFeatureBase - l.featureID)]
    ensures l.inverse && l.opposite ==>
      InverseCallsIn(l.AddCalls(e, index)) == [InverseAdd(e.obj, l.owner, l.inverseFeatureID)]
  {
    FiltersDistribute(l.InverseAddCalls(e), l.NotifyCalls(ADD, Null, e, index));
    InverseCallsOfSingle(l, e);
    NotifyCallsMakeNoInverseCall(l, ADD, Null, e, index);
  }

  /** An append or insert hands adapters the ADD notification (old null, new `e`, position `index`) and nothing else. */
  lemma AddNotifications(l: EObjectEList, e: Value, index: nat)
    ensures l.IsNotificationRequired() ==>
      NotificationsIn(l.AddCalls(e, index))
        == Copies(Notification(ADD, l.owner.value, l.owner.value.eClass.GetEStructuralFeature(l.featureID), Null, e, index),
                  |l.owner.value.adapters|)
    ensures !l.IsNotificationRequired() ==> NotificationsIn(l.AddCalls(e, index)) == []
  {
    FiltersDistribute(l.InverseAddCalls(e), l.NotifyCalls(ADD, Null, e, index));
    InverseCallsOfSingle(l, e);
    NotifyCallsCarryOneNotification(l, ADD, Null, e, index);
  }

  /** Removal: an inverse-remove only when the removed value is a BasicEObject and the policy asks for one. */
  lemma RemoveInverseCalls(l: EObjectEList, oldObject: Value, index: nat)
    ensures !l.inverse || !IsObject(oldObject) ==> InverseCallsIn(l.RemoveCalls(oldObject, index)) == []
    ensures l.inverse && !l.opposite && IsObject(oldObject) ==>
      InverseCallsIn(l.RemoveCalls(oldObject, index)) == [InverseRemove(oldObject.obj, l.owner, l.oppositeFeatureBase - l.featureID)]
    ensures l.inverse && l.opposite && IsObject(oldObject) ==>
      InverseCallsIn(l.RemoveCalls(oldObject, index)) == [InverseRemove(oldObject.obj, l.owner, l.inverseFeatureID)]
  {
    FiltersDistribute(l.InverseRemoveCalls(oldObject), l.NotifyCalls(REMOVE, oldObject, Null, index));
    InverseCallsOfSingle(l, oldObject);
    NotifyCallsMakeNoInverseCall(l, REMOVE, oldObject, Null, index);
  }

  /** A removal hands adapters the REMOVE notification (old the removed value, new null, position `index`). */
  lemma RemoveNotifications(l: EObjectEList, oldObject: Value, index: nat)
    ensures l.IsNotificationRequired() ==>
      NotificationsIn(l.RemoveCalls(oldObject, index))
        == Copies(Notification(REMOVE, l.owner.value, l.owner.value.eClass.GetEStructuralFeature(l.featureID), oldObject, Null, index),
                  |l.owner.value.adapters|)
    ensures !l.IsNotificationRequired() ==> NotificationsIn(l.RemoveCalls(oldObject, index)) == []
  {
    FiltersDistribute(l.InverseRemoveCalls(oldObject), l.NotifyCalls(REMOVE, oldObject, Null, index));
    InverseCallsOfSingle(l, oldObject);
    NotifyCallsCarryOneNotification(l, REMOVE, oldObject, Null, index);
  }

  /**
   * Replacement: no inverse call when the new value is the old one; otherwise
   * the inverse-remove of the old value comes strictly before the inverse-add
   * of the new one.
   */
  lemma SetInverseCalls(l: EObjectEList, oldObject: Value, newObject: Value, index: nat)
    ensures newObject == oldObject ==> InverseCallsIn(l.SetCalls(oldObject, newObject, index)) == []
    ensures newObject != oldObject ==>
      InverseCallsIn(l.SetCalls(oldObject, newObject, index)) == l.InverseRemoveCalls(oldObject) + l.InverseAddCalls(newObject)
    ensures newObject != oldObject && l.inverse && IsObject(oldObject) && IsObject(newObject) ==>
      InverseCallsIn(l.SetCalls(oldObject, newObject, index))
        == [InverseRemove(oldObject.obj, l.owner, l.InverseID().value), InverseAdd(newObject.obj, l.owner, l.InverseID().value)]
  {
    var swap := if newObject != oldObject then l.InverseRemoveCalls(oldObject) + l.InverseAddCalls(newObject) else [];
    FiltersDistribute(swap, l.NotifyCalls(SET, oldObject, newObject, index));
    NotifyCallsMakeNoInverseCall(l, SET, oldObject, newObject, index);
    InverseCallsOfSingle(l, oldObject);
    InverseCallsOfSingle(l, newObject);
    if newObject != oldObject {
      FiltersDistribute(l.InverseRemoveCalls(oldObject), l.InverseAddCalls(newObject));
    } else {
      assert InverseCallsIn([]) == [];
    }
  }

  /** A replacement hands adapters the SET notification whenever notification is required, even when nothing changed. */
  lemma SetNotifications(l: EObjectEList, oldObject: Value, newObject: Value, index: nat)
    ensures l.IsNotificationRequired() ==>
      NotificationsIn(l.SetCalls(oldObject, newObject, index))
        == Copies(Notification(SET, l.owner.value, l.owner.value.eClass.GetEStructuralFeature(l.featureID), oldObject, newObject, index),
                  |l.owner.value.adapters|)
    ensures !l.IsNotificationRequired() ==> NotificationsIn(l.SetCalls(oldObject, newObject, index)) == []
  {
    var swap := if newObject != oldObject then l.InverseRemoveCalls(oldObject) + l.InverseAddCalls(newObject) else [];
    FiltersDistribute(swap, l.NotifyCalls(SET, oldObject, newObject, index));
    NotifyCallsCarryOneNotification(l, SET, oldObject, newObject, index);
    InverseCallsOfSingle(l, oldObject);
    InverseCallsOfSingle(l, newObject);
    if newObject != oldObject {
      FiltersDistribute(l.InverseRemoveCalls(oldObject), l.InverseAddCalls(newObject));
    } else {
      assert NotificationsIn([]) == [];
    }
  }

  /** Without the inverse policy no mutation makes any inverse-update call. */
  lemma NoInverseCallsWithoutInversePolicy(l: EObjectEList, v: Value, w: Value, index: nat)
    requires !l.inverse
    ensures InverseCallsIn(l.AddCalls(v, index)) == []
    ensures InverseCallsIn(l.RemoveCalls(v, index)) == []
    ensures InverseCallsIn(l.SetCalls(v, w, index)) == []
  {
    FiltersDistribute(l.InverseAddCalls(v), l.NotifyCalls(ADD, Null, v, index));
    NotifyCallsMakeNoInverseCall(l, ADD, Null, v, index);
    RemoveInverseCalls(l, v, index);
    SetInverseCalls(l, v, w, index);
  }

  /**
   * A folder whose containment feature `children` (identifier 0, no opposite)
   * receives a child while one adapter listens; then, with the owner gone, a
   * second child still gets its inverse-add (with no owner) and nobody is notified.
   */
  method FolderScenario(base: int)
  {
    var children := Reference("children", 0, None);
    var folder := new BasicEObject(EClass("Folder", [children], []));
    folder.ESetDeliver(true);
    folder.adapters := [Adapter(1)];
    var list := new EObjectEList(folder, 0, true, true, false, base);
    assert list.inverseFeatureID == -1;
    var trace := new Trace();

    var first := new BasicEObject(EClass("Node", [], []));
    list.AddUnique(Object(first), trace);
    assert list.data == [Object(first)];
    assert trace.events == [
      InverseAdd(first, Some(folder), base),
      NotifyChanged(Adapter(1), Notification(ADD, folder, Some(children), Null, Object(first), 0))];

    list.owner := None;
    var second := new BasicEObject(EClass("Node", [], []));
    list.AddUnique(Object(second), trace);
    assert list.data == [Object(first), Object(second)];
    assert trace.events[2..] == [InverseAdd(second, None, base)];

    list.AddUnique(Opaque(3), trace);
    assert list.data == [Object(first), Object(second)] && |trace.events| == 3;
  }
}
