/**
 * The generic feature-addressed object (BasicEObject): the delivery flag and
 * adapter list that gate notifications, synchronous delivery to adapters,
 * identifier resolution against the class descriptor, and the by-identifier
 * base implementations, which are stubs.
 *
 * Calls into foreign code (an adapter's notifyChanged) and the inverse-update
 * entry points are recorded, in the order they happen, in a ghost Trace.
 */
module EObjects {
  import opened Wrappers
  import opened Metadata

  /** An adapter is foreign code; only its identity matters here. */
  datatype Adapter = Adapter(id: nat)

  /**
   * A payload as the core handles it (a boost::any, or a list element):
   * an empty any, a null pointer, a pointer to a BasicEObject, or a pointer
   * to anything else (identified by an opaque token).
   */
  datatype Value = Empty | Null | Object(obj: BasicEObject) | Opaque(token: nat)

  /** dynamic_pointer_cast<BasicEObject> succeeds. */
  predicate IsObject(v: Value) {
    v.Object?
  }

  datatype EventType = ADD | REMOVE | SET

  /** ENotification: one logical change, as handed to adapters. */
  datatype Notification = Notification(
    eventType: EventType,
    notifier: BasicEObject,
    feature: Option<Feature>,
    oldValue: Value,
    newValue: Value,
    position: nat)

  /** One observable call made by the core. */
  datatype Event =
    | InverseAdd(target: BasicEObject, otherEnd: Option<BasicEObject>, featureID: int)
    | InverseRemove(target: BasicEObject, otherEnd: Option<BasicEObject>, featureID: int)
    | NotifyChanged(adapter: Adapter, notification: Notification)

  /** The calls made so far, oldest first. */
  class Trace {
    ghost var events: seq<Event>

    constructor ()
      ensures events == []
    {
      events := [];
    }
  }

  datatype EcoreError = InvalidFeature(name: string) | InvalidOperation(name: string)

  /** One notifyChanged(n) call per adapter, in the adapters' order. */
  function Deliveries(adapters: seq<Adapter>, n: Notification): (r: seq<Event>)
    ensures |r| == |adapters|
    ensures forall k :: 0 <= k < |r| ==> r[k] == NotifyChanged(adapters[k], n)
  {
    if adapters == [] then [] else [NotifyChanged(adapters[0], n)] + Deliveries(adapters[1..], n)
  }

  /** The inverse-update calls among `events`, in order. */
  function InverseCallsIn(events: seq<Event>): seq<Event>
  {
    if events == [] then []
    else (if events[0].NotifyChanged? then [] else [events[0]]) + InverseCallsIn(events[1..])
  }

  /** The notifications handed to adapters among `events`, in order. */
  function NotificationsIn(events: seq<Event>): seq<Notification>
  {
    if events == [] then []
    else (if events[0].NotifyChanged? then [events[0].notification] else []) + NotificationsIn(events[1..])
  }

  /** `k` copies of one notification. */
  function Copies(n: Notification, k: nat): seq<Notification>
  {
    seq(k, _ => n)
  }

  lemma {:induction false} FiltersDistribute(a: seq<Event>, b: seq<Event>)
    ensures InverseCallsIn(a + b) == InverseCallsIn(a) + InverseCallsIn(b)
    ensures NotificationsIn(a + b) == NotificationsIn(a) + NotificationsIn(b)
  {
    if a == [] {
      assert a + b == b;
    } else {
      assert (a + b)[0] == a[0] && (a + b)[1..] == a[1..] + b;
      FiltersDistribute(a[1..], b);
    }
  }

  /** Delivering a notification makes no inverse call and hands exactly `n` to each adapter. */
  lemma {:induction false} DeliveriesCarryOneNotification(adapters: seq<Adapter>, n: Notification)
    ensures InverseCallsIn(Deliveries(adapters, n)) == []
    ensures NotificationsIn(Deliveries(adapters, n)) == Copies(n, |adapters|)
  {
    if adapters != [] {
      var d := Deliveries(adapters, n);
      assert d[1..] == Deliveries(adapters[1..], n);
      DeliveriesCarryOneNotification(adapters[1..], n);
    }
  }

  class BasicEObject {
    const eClass: EClass
    var deliver: bool
    var adapters: seq<Adapter>
    var eContainer: Option<BasicEObject>
    var eContainingFeature: Option<Feature>

    /** A new object: delivery off, no adapters, no container. */
    constructor (eClass: EClass)
      ensures this.eClass == eClass
      ensures !deliver && adapters == []
      ensures eContainer == None && eContainingFeature == None
      ensures !ENotificationRequired()
    {
      this.eClass := eClass;
      deliver := false;
      adapters := [];
      eContainer := None;
      eContainingFeature := None;
    }

    /** The adapter list; client code changes it by assigning `adapters`. */
    function EAdapters(): (r: seq<Adapter>)
      reads this
      ensures r == adapters
    {
      adapters
    }

    /** The delivery flag: set by ESetDeliver, off in a new object. */
    function EDeliver(): (r: bool)
      reads this
      ensures r == deliver
    {
      deliver
    }

    method ESetDeliver(deliver: bool)
      modifies this`deliver
      ensures EDeliver() == deliver
      ensures EAdapters() == old(EAdapters())
    {
      this.deliver := deliver;
    }

    /** Hands `notification` to every adapter, in list order; the object itself is left alone. */
    method ENotify(notification: Notification, ghost trace: Trace)
      modifies trace
      ensures trace.events == old(trace.events) + Deliveries(adapters, notification)
    {
      var i := 0;
      while i < |adapters|
        invariant 0 <= i <= |adapters|
        invariant trace.events == old(trace.events) + Deliveries(adapters[..i], notification)
      {
        assert adapters[..i + 1] == adapters[..i] + [adapters[i]];
        assert Deliveries(adapters[..i + 1], notification)
            == Deliveries(adapters[..i], notification) + [NotifyChanged(adapters[i], notification)];
        trace.events := trace.events + [NotifyChanged(adapters[i], notification)];
        i := i + 1;
      }
      assert adapters[..i] == adapters;
    }

    /** Notification is required exactly when delivery is on and there is an adapter to deliver to. */
    function ENotificationRequired(): (r: bool)
      reads this
      ensures r <==> EDeliver() && EAdapters() != []
    {
      deliver && |adapters| > 0
    }

    /** BOOST_VERIFY: the feature belongs to this class; the result names a feature of this class. */
    function EDerivedStructuralFeatureID(feature: Feature): (featureID: int)
      requires feature in eClass.allStructuralFeatures
      ensures featureID == feature.featureID
      ensures eClass.GetEStructuralFeature(featureID).Some?
    {
      feature.featureID
    }

    function EDerivedOperationID(operation: Operation): (operationID: int)
      requires operation in eClass.allOperations
      ensures operationID == operation.operationID
      ensures eClass.GetEOperation(operationID).Some?
    {
      operation.operationID
    }

    /** By-feature eGet: delegates on a non-negative identifier, throws otherwise. */
    function EGet(feature: Feature, resolve: bool, coreType: bool): (r: Result<Value, EcoreError>)
      requires feature in eClass.allStructuralFeatures
      ensures r.Success? <==> feature.featureID >= 0
      ensures r.Success? ==> r.value == EGetById(feature.featureID, resolve, coreType)
      ensures r.Failure? ==> r.error == InvalidFeature(feature.name)
    {
      var featureID := EDerivedStructuralFeatureID(feature);
      if featureID >= 0 then Success(EGetById(featureID, resolve, coreType))
      else Failure(InvalidFeature(feature.name))
    }

    /** Base implementation: the identifier must name a feature; the value is an empty any. */
    function EGetById(featureID: int, resolve: bool, coreType: bool): (r: Value)
      requires eClass.GetEStructuralFeature(featureID).Some?
      ensures r == Empty
    {
      Empty
    }

    function EIsSet(feature: Feature): (r: Result<bool, EcoreError>)
      requires feature in eClass.allStructuralFeatures
      ensures r.Success? <==> feature.featureID >= 0
      ensures r.Success? ==> r.value == EIsSetById(feature.featureID)
      ensures r.Failure? ==> r.error == InvalidFeature(feature.name)
    {
      var featureID := EDerivedStructuralFeatureID(feature);
      if featureID >= 0 then Success(EIsSetById(featureID))
      else Failure(InvalidFeature(feature.name))
    }

    /** Base implementation: no feature is ever reported as set. */
    function EIsSetById(featureID: int): (r: bool)
      requires eClass.GetEStructuralFeature(featureID).Some?
      ensures !r
    {
      false
    }

    /**
     * By-feature eSet as written: the throw after the delegation is not
     * guarded, so every call fails, also after a successful delegation.
     */
    method ESet(feature: Feature, newValue: Value) returns (outcome: Outcome<EcoreError>)
      requires feature in eClass.allStructuralFeatures
      ensures outcome == Fail(InvalidFeature(feature.name))
    {
      var featureID := EDerivedStructuralFeatureID(feature);
      if featureID >= 0 {
        ESetById(featureID, newValue);
      }
      outcome := Fail(InvalidFeature(feature.name));
    }

    /** By-feature eSet with the evidently intended early return after the delegation. */
    method ESetCorrected(feature: Feature, newValue: Value) returns (outcome: Outcome<EcoreError>)
      requires feature in eClass.allStructuralFeatures
      ensures outcome.Pass? <==> feature.featureID >= 0
      ensures outcome.Fail? ==> outcome.error == InvalidFeature(feature.name)
    {
      var featureID := EDerivedStructuralFeatureID(feature);
      if featureID >= 0 {
        ESetById(featureID, newValue);
        return Pass;
      }
      outcome := Fail(InvalidFeature(feature.name));
    }

    /** Base implementation: validates the identifier and changes nothing. */
    method ESetById(featureID: int, newValue: Value)
      requires eClass.GetEStructuralFeature(featureID).Some?
      ensures unchanged(this)
    {
    }

    /** By-feature eUnset as written: fails on every path, like ESet. */
    method EUnset(feature: Feature) returns (outcome: Outcome<EcoreError>)
      requires feature in eClass.allStructuralFeatures
      ensures outcome == Fail(InvalidFeature(feature.name))
    {
      var featureID := EDerivedStructuralFeatureID(feature);
      if featureID >= 0 {
        EUnsetById(featureID);
      }
      outcome := Fail(InvalidFeature(feature.name));
    }

    /** By-feature eUnset with the evidently intended early return after the delegation. */
    method EUnsetCorrected(feature: Feature) returns (outcome: Outcome<EcoreError>)
      requires feature in eClass.allStructuralFeatures
      ensures outcome.Pass? <==> feature.featureID >= 0
      ensures outcome.Fail? ==> outcome.error == InvalidFeature(feature.name)
    {
      var featureID := EDerivedStructuralFeatureID(feature);
      if featureID >= 0 {
        EUnsetById(featureID);
        return Pass;
      }
      outcome := Fail(InvalidFeature(feature.name));
    }

    /** Base implementation: validates the identifier and changes nothing. */
    method EUnsetById(featureID: int)
      requires eClass.GetEStructuralFeature(featureID).Some?
      ensures unchanged(this)
    {
    }

    function EInvoke(operation: Operation, arguments: seq<Value>): (r: Result<Value, EcoreError>)
      requires operation in eClass.allOperations
      ensures r.Success? <==> operation.operationID >= 0
      ensures r.Success? ==> r.value == EInvokeById(operation.operationID, arguments)
      ensures r.Failure? ==> r.error == InvalidOperation(operation.name)
    {
      var operationID := EDerivedOperationID(operation);
      if operationID >= 0 then Success(EInvokeById(operationID, arguments))
      else Failure(InvalidOperation(operation.name))
    }

    /** Base implementation: the identifier must name an operation; the result is an empty any. */
    function EInvokeById(operationID: int, arguments: seq<Value>): (r: Value)
      requires eClass.GetEOperation(operationID).Some?
      ensures r == Empty
    {
      Empty
    }

    /**
     * Inverse-update entry point: a no-op in the base object; the trace
     * records that the call was made, with the other end and the identifier.
     */
    method EInverseAdd(otherEnd: Option<BasicEObject>, featureID: int, ghost trace: Trace)
      modifies trace
      ensures unchanged(this)
      ensures trace.events == old(trace.events) + [InverseAdd(this, otherEnd, featureID)]
    {
      trace.events := trace.events + [InverseAdd(this, otherEnd, featureID)];
    }

    method EInverseRemove(otherEnd: Option<BasicEObject>, featureID: int, ghost trace: Trace)
      modifies trace
      ensures unchanged(this)
      ensures trace.events == old(trace.events) + [InverseRemove(this, otherEnd, featureID)]
    {
      trace.events := trace.events + [InverseRemove(this, otherEnd, featureID)];
    }

    /** A no-op in the base object: the container slot keeps its value. */
    method SetEContainer(container: Option<BasicEObject>, containingFeature: Option<Feature>)
      ensures unchanged(this)
    {
    }
  }

  /**
   * Notification is required exactly when delivery is on and delivering would
   * reach at least one adapter.
   */
  lemma NotificationRequiredIffDeliverable(o: BasicEObject, n: Notification)
    ensures o.ENotificationRequired() <==> o.EDeliver() && Deliveries(o.EAdapters(), n) != []
  {
  }

  /** A concrete object on which by-feature eSet and eUnset fail although the feature is valid. */
  method ESetDropsSuccessfulDispatch()
  {
    var name := Attribute("name", 0);
    var o := new BasicEObject(EClass("Folder", [name], []));
    var asWritten := o.ESet(name, Opaque(7));
    var intended := o.ESetCorrected(name, Opaque(7));
    assert asWritten.Fail? && intended.Pass?;
    var unsetAsWritten := o.EUnset(name);
    var unsetIntended := o.EUnsetCorrected(name);
    assert unsetAsWritten.Fail? && unsetIntended.Pass?;
  }
}
