# Reflective object core: BasicEObject and EObjectEList

This project models the core of a reflective object runtime (an Ecore-style
object model in C++). It covers two cooperating pieces:

- **BasicEObject**, the generic feature-addressed object. It holds the
  notification-delivery flag and the adapter list. `eNotificationRequired`
  gates notifications, and `eNotify` hands a notification to every adapter in
  registration order. The by-feature `eGet`/`eIsSet`/`eSet`/`eUnset`/`eInvoke`
  check that the feature or operation belongs to the class, resolve its
  identifier and dispatch to the by-identifier overloads. In the base object,
  those overloads are stubs. So are the inverse-update entry points
  `eInverseAdd`/`eInverseRemove` and `setEContainer`.
- **EObjectEList**, the association list. It is a list of references owned by
  an object through one of its features. On append, insert, remove and replace
  it does three things. It updates the backing list. It makes the
  inverse-update call on the affected element(s), with the identifier its
  policy selects. The policy has three rows: no call without `inverse`; the
  synthetic identifier `EOPPOSITE_FEATURE_BASE - featureID` without
  `opposite`; the opposite's identifier with `opposite`. Finally, while the
  owner is alive and requires notification, it hands one ADD/REMOVE/SET
  notification to the owner's adapters.

Files:

- `wrappers.dfy`: Option, Result and Outcome.
- `metadata.dfy`: the class descriptor the core queries. It lists all
  structural features and all operations, with their identifiers. A reference
  may carry the identifier of its opposite.
- `basic_eobject.dfy` (module `EObjects`): payload values, notifications, the
  ghost call trace and class `BasicEObject`.
- `eobject_elist.dfy` (module `EObjectLists`): the list primitives, the policy
  selection, class `EObjectEList` and the lemmas about the calls each mutation
  makes.

Modelling choices:

- A payload (`boost::any`, or a list element pointer) is a `Value`. It is
  `Empty` (an empty any), `Null`, `Object(o)` for a `BasicEObject`, or
  `Opaque(token)` for anything else. `IsObject` stands for a successful
  `dynamic_pointer_cast<BasicEObject>`. Identity comparison is equality of
  values.
- The calls the core makes into other code are recorded in a ghost `Trace`,
  oldest first. These are the inverse-update calls and each adapter's
  `notifyChanged`. The trace is how ordering and exactly-once properties are
  stated. Each list mutation states its trace extension as a specification
  function (`AddCalls`, `RemoveCalls`, `SetCalls`). Lemmas then filter those
  calls into inverse calls and delivered notifications.
- The weak owner is `owner: Option<BasicEObject>`. `None` means the owner has
  been destroyed, which happens outside the list.
- `BasicEObject::EOPPOSITE_FEATURE_BASE` is declared in a header that is not
  part of this model. The list takes it as a constant (`oppositeFeatureBase`)
  at construction, so every property holds for any value of it.
- The template flags `containement`, `inverse` and `opposite` are constant
  fields fixed by the constructor.
- `BOOST_ASSERT`/`BOOST_VERIFY` become preconditions. `throw` becomes a
  `Failure`/`Fail` result carrying `InvalidFeature`/`InvalidOperation`.
- The list is "unique": callers of `addUnique`/`setUnique` have already
  checked that the value is not present, so this is a precondition. The list
  invariant `Valid()` (no element twice) is kept by every mutation.
- Two behaviours of the code are kept as written:
  - `addUnique` with a value that is not a `BasicEObject` stores nothing,
    makes no call and notifies nobody.
  - With an expired owner, the inverse calls are still made, with a null
    owner. Only the notification is skipped.
- The base `eInverseAdd`/`eInverseRemove`/`setEContainer` change nothing.
- `eInvoke(operation)` returns after a successful delegation. Only
  `eSet`/`eUnset` lack the early return.

## Model

| member | source | states |
|---|---|---|
| `Metadata.Lookup` | ecore/src/ecore/BasicEObject.cpp:88-89 | looking an identifier up in the class finds the first feature (operation) with that identifier, and finds nothing exactly when no feature of the class carries it |
| `EObjects.Deliveries` | ecore/src/ecore/BasicEObject.cpp:45-49 | delivering a notification makes one `notifyChanged` call per adapter, the k-th one to the k-th adapter, all with the same notification |
| `EObjects.DeliveriesCarryOneNotification` | ecore/src/ecore/BasicEObject.cpp:45-49 | delivery makes no inverse-update call and hands exactly the one notification to each adapter, once |
| `EObjects.BasicEObject.constructor` | ecore/src/ecore/BasicEObject.cpp:15-22 | a new object has delivery off, no adapters and no container, so it requires no notification |
| `EObjects.BasicEObject.ESetDeliver` | ecore/src/ecore/BasicEObject.cpp:40-43 | afterwards `eDeliver()` returns the given flag; the adapter list is unchanged |
| `EObjects.BasicEObject.EAdapters` | ecore/src/ecore/BasicEObject.cpp:30-33 | returns the object's own adapter list, the one `ENotify` delivers to and `ENotificationRequired` tests |
| `EObjects.BasicEObject.EDeliver` | ecore/src/ecore/BasicEObject.cpp:35-38 | returns the delivery flag, which a new object has off and only `ESetDeliver` changes |
| `EObjects.BasicEObject.ENotificationRequired` | ecore/src/ecore/BasicEObject.cpp:51-54 | notification is required exactly when delivery is on and the adapter list is not empty |
| `EObjects.BasicEObject.ENotify` | ecore/src/ecore/BasicEObject.cpp:45-49 | the trace grows by exactly one `notifyChanged(n)` per adapter, in list order; the object itself is not changed |
| `EObjects.NotificationRequiredIffDeliverable` | ecore/src/ecore/BasicEObject.cpp:51-54 | notification is required exactly when delivery is on and delivering would reach at least one adapter |
| `EObjects.BasicEObject.EDerivedStructuralFeatureID` | ecore/src/ecore/BasicEObject.cpp:66-70 | requires the feature to be one of the class's structural features; the identifier returned is the feature's and names a feature of the class |
| `EObjects.BasicEObject.EDerivedOperationID` | ecore/src/ecore/BasicEObject.cpp:72-76 | requires the operation to be one of the class's operations; the identifier returned is the operation's and names an operation of the class |
| `EObjects.BasicEObject.EGet` | ecore/src/ecore/BasicEObject.cpp:78-84 | succeeds exactly when the feature's identifier is non-negative, with the by-identifier result (same resolve and coreType); otherwise fails with InvalidFeature |
| `EObjects.BasicEObject.EGetById` | ecore/src/ecore/BasicEObject.cpp:86-91 | requires an identifier that names a feature of the class; the base value is an empty any |
| `EObjects.BasicEObject.EIsSet` | ecore/src/ecore/BasicEObject.cpp:93-99 | succeeds exactly when the feature's identifier is non-negative, with the by-identifier answer; otherwise fails with InvalidFeature |
| `EObjects.BasicEObject.EIsSetById` | ecore/src/ecore/BasicEObject.cpp:101-106 | requires an identifier that names a feature of the class; the base object reports no feature as set |
| `EObjects.BasicEObject.ESet` | ecore/src/ecore/BasicEObject.cpp:108-114 | as written: fails with InvalidFeature on every call, also after delegating a valid identifier |
| `EObjects.BasicEObject.ESetCorrected` | ecore/src/ecore/BasicEObject.cpp:108-114 | with the missing return: passes exactly when the identifier is non-negative, fails with InvalidFeature otherwise |
| `EObjects.BasicEObject.ESetById` | ecore/src/ecore/BasicEObject.cpp:116-120 | requires an identifier that names a feature of the class; changes nothing |
| `EObjects.BasicEObject.EUnset` | ecore/src/ecore/BasicEObject.cpp:123-129 | as written: fails with InvalidFeature on every call, also after delegating a valid identifier |
| `EObjects.BasicEObject.EUnsetCorrected` | ecore/src/ecore/BasicEObject.cpp:123-129 | with the missing return: passes exactly when the identifier is non-negative, fails with InvalidFeature otherwise |
| `EObjects.BasicEObject.EUnsetById` | ecore/src/ecore/BasicEObject.cpp:131-135 | requires an identifier that names a feature of the class; changes nothing |
| `EObjects.BasicEObject.EInvoke` | ecore/src/ecore/BasicEObject.cpp:137-143 | succeeds exactly when the operation's identifier is non-negative, with the by-identifier result; otherwise fails with InvalidOperation |
| `EObjects.BasicEObject.EInvokeById` | ecore/src/ecore/BasicEObject.cpp:145-150 | requires an identifier that names an operation of the class; the base result is an empty any |
| `EObjects.BasicEObject.EInverseAdd` | ecore/src/ecore/BasicEObject.cpp:152-154 | changes no state of the object; the trace records the call with its other end and identifier |
| `EObjects.BasicEObject.EInverseRemove` | ecore/src/ecore/BasicEObject.cpp:156-158 | changes no state of the object; the trace records the call with its other end and identifier |
| `EObjects.BasicEObject.SetEContainer` | ecore/src/ecore/BasicEObject.cpp:160-162 | changes no state: the container slot keeps its value |
| `EObjectLists.InsertAt` | ecore/src/ecore/EObjectEList.hpp:70-80 | insertion at `i` puts the value at `i`, keeps the elements before `i` and shifts those after it up by one |
| `EObjectLists.RemoveAt` | ecore/src/ecore/EObjectEList.hpp:82-89 | removal at `i` shrinks the list by one, keeps the elements before `i` and shifts those after it down by one |
| `EObjectLists.InsertThenRemove` | ecore/src/ecore/EObjectEList.hpp:70-89 | removing at the index just inserted at gives the original list back |
| `EObjectLists.InsertKeepsUnique` | ecore/src/ecore/EObjectEList.hpp:57-80 | inserting a value not yet present keeps the list free of duplicates |
| `EObjectLists.RemoveKeepsUnique` | ecore/src/ecore/EObjectEList.hpp:82-89 | removal keeps the list free of duplicates, and the removed value is no longer in it |
| `EObjectLists.ReplaceKeepsUnique` | ecore/src/ecore/EObjectEList.hpp:91-103 | replacing with a value not present elsewhere keeps the list free of duplicates |
| `EObjectLists.SyntheticFeatureID` | ecore/src/ecore/EObjectEList.hpp:117-119 | the real feature identifier is recovered from the synthetic one as BASE minus it, and a negative BASE never yields a non-negative (real) identifier |
| `EObjectLists.InverseFeatureIDFor` | ecore/src/ecore/EObjectEList.hpp:112-156 | an identifier is selected exactly under the inverse policy: the opposite's identifier with `opposite`, else the synthetic identifier of the list's feature |
| `EObjectLists.EObjectEList.constructor` | ecore/src/ecore/EObjectEList.hpp:29-42 | the inverse identifier is the opposite's identifier when the owner's class declares the feature as a reference with an opposite, and -1 otherwise; the list starts empty |
| `EObjectLists.EObjectEList.WithInverse` | ecore/src/ecore/EObjectEList.hpp:44-50 | the inverse identifier is stored as given; the list starts empty |
| `EObjectLists.EObjectEList.IsUnique` | ecore/src/ecore/EObjectEList.hpp:107-110 | the list always reports itself unique, with no precondition; that it holds no duplicate is the invariant `Valid()` every constructor establishes and every mutation keeps |
| `EObjectLists.EObjectEList.InverseID` | ecore/src/ecore/EObjectEList.hpp:136-156 | the identifier the list's inverse updates use is the policy selection (`InverseFeatureIDFor`) applied to the list's own flags, base, feature and inverse identifier |
| `EObjectLists.EObjectEList.IsNotificationRequired` | ecore/src/ecore/EObjectEList.hpp:164-167 | notification is required exactly when the owner is alive, has delivery on and has at least one adapter |
| `EObjectLists.EObjectEList.CreateNotification` | ecore/src/ecore/EObjectEList.hpp:169-173 | while the owner is alive, the notification names the owner, the feature the owner's class gives for the list's identifier, the kind, both values and the position; none once the owner is gone |
| `EObjectLists.EObjectEList.DispatchNotification` | ecore/src/ecore/EObjectEList.hpp:175-179 | the notification reaches every adapter of a live owner, in order; nothing happens once the owner is gone |
| `EObjectLists.EObjectEList.InverseAdd` | ecore/src/ecore/EObjectEList.hpp:136-156 | the Inverse/Opposite policy structs make exactly the inverse-add call the selection function prescribes, with the (possibly expired) owner |
| `EObjectLists.EObjectEList.InverseRemove` | ecore/src/ecore/EObjectEList.hpp:136-156 | the Inverse/Opposite policy structs make exactly the inverse-remove call the selection function prescribes, with the (possibly expired) owner |
| `EObjectLists.EObjectEList.AddUnique` | ecore/src/ecore/EObjectEList.hpp:57-68 | an object is appended; a non-object leaves list and trace unchanged; the calls made are the inverse-add on the value, then the ADD notification at the old size |
| `EObjectLists.EObjectEList.AddUniqueAt` | ecore/src/ecore/EObjectEList.hpp:70-80 | an object is inserted at the index; a non-object leaves list and trace unchanged; the calls made are the inverse-add on the value, then the ADD notification at the index |
| `EObjectLists.EObjectEList.Remove` | ecore/src/ecore/EObjectEList.hpp:82-89 | returns the element formerly at the index, which is removed with the rest kept in order; the calls made are the inverse-remove on an object value, then the REMOVE notification at the index |
| `EObjectLists.EObjectEList.SetUnique` | ecore/src/ecore/EObjectEList.hpp:91-103 | returns the old element, only that index changes; inverse calls only when the new value is not the old one; the SET notification follows |
| `EObjectLists.NotifyCallsMakeNoInverseCall` | ecore/src/ecore/EObjectEList.hpp:175-179 | dispatching a notification makes no inverse-update call |
| `EObjectLists.NotifyCallsCarryOneNotification` | ecore/src/ecore/EObjectEList.hpp:164-179 | a dispatch hands one notification, one copy per adapter, when notification is required, and nothing when the owner is gone or does not require it |
| `EObjectLists.AddInverseCalls` | ecore/src/ecore/EObjectEList.hpp:57-80 | adding an object makes exactly one inverse-add, on that object, with the identifier of the policy row (none / BASE - featureID / inverseFeatureID) |
| `EObjectLists.AddNotifications` | ecore/src/ecore/EObjectEList.hpp:57-80 | adding hands adapters only the ADD notification with old null, new the value and the given position, and nothing when notification is not required |
| `EObjectLists.RemoveInverseCalls` | ecore/src/ecore/EObjectEList.hpp:82-89 | removal makes an inverse-remove only for an object value and only under the inverse policy, with the identifier of the policy row |
| `EObjectLists.RemoveNotifications` | ecore/src/ecore/EObjectEList.hpp:82-89 | removal hands adapters only the REMOVE notification with old the removed value, new null and the pre-removal index |
| `EObjectLists.SetInverseCalls` | ecore/src/ecore/EObjectEList.hpp:91-103 | replacing a value by itself makes no inverse call; otherwise the inverse-remove of the old value strictly precedes the inverse-add of the new one |
| `EObjectLists.SetNotifications` | ecore/src/ecore/EObjectEList.hpp:91-103 | replacement hands adapters the SET notification whenever notification is required, even when the value is unchanged |
| `EObjectLists.NoInverseCallsWithoutInversePolicy` | ecore/src/ecore/EObjectEList.hpp:136-144 | without the inverse policy, no append, insert, removal or replacement makes any inverse-update call |

## Findings

| source | as written | input that shows it | evidently intended | confidence | as-written member | corrected member |
|---|---|---|---|---|---|---|
| ecore/src/ecore/BasicEObject.cpp:108-114 | `eSet(feature, value)` delegates when the identifier is non-negative and then throws anyway, since the throw is not guarded | a class whose only feature has identifier 0; `eSet` on that feature (`ESetDropsSuccessfulDispatch`) | return after the delegation; throw only for a negative identifier | high; not executed | `EObjects.BasicEObject.ESet` | `EObjects.BasicEObject.ESetCorrected` |
| ecore/src/ecore/BasicEObject.cpp:123-129 | `eUnset(feature)` delegates when the identifier is non-negative and then throws anyway | a class whose only feature has identifier 0; `eUnset` on that feature (`ESetDropsSuccessfulDispatch`) | return after the delegation; throw only for a negative identifier | high; not executed | `EObjects.BasicEObject.EUnset` | `EObjects.BasicEObject.EUnsetCorrected` |

## Left out

- The one- and two-argument `eGet(feature)` overloads (ecore/src/ecore/BasicEObject.cpp:56-64) are not modelled. As they appear here, the two-argument one calls itself with `resolve` set to true, and so never returns; it has no terminating behaviour to specify. The overload it was evidently meant to reach is modelled as `EGet`.
- The body of the backing `BasicEList` is not part of this model. It is a `seq` with insert, remove and replace at an index (`InsertAt`, `RemoveAt`, sequence update). The uniqueness check its `addUnique`/`setUnique` callers perform is a precondition.
- `shared_ptr`/`weak_ptr` lifetimes and `dynamic_pointer_cast` are not modelled. They become `Option<BasicEObject>` for the owner and the `IsObject` predicate for the cast.
- Payloads are opaque `Value`s; no `boost::any` typing is modelled.
- Error-message text built with `ostringstream` is not modelled. An error carries only the feature or operation name.
- The metadata registry (`getEStructuralFeature`, `getEAllStructuralFeatures`, `getEOperation`, `getEOpposite`) is an abstract descriptor. Feature membership uses value equality where the code compares pointers.
- Adapter behaviour inside `notifyChanged` is foreign code. Only the call is recorded.
- EObjects.BasicEObject.ENotify: does not model an adapter that changes the adapter list, or anything else, during delivery. Re-entrant adapters are out of scope.
- The `eInverseAdd(owner, id)` call shape used by the list and the `eInverseAdd(int, any)` stub are matched abstractly, as a call with target, other end and identifier. The overloads that join them are declared in headers that are not part of this model.
- `eAdapters()` returns the adapter list by reference. Here that list is the public field `adapters`, which client code reassigns.
- The `containement` flag is stored but has no effect in these files. Neither does the `resolve` flag of `eGet` in the base object.
- Integer widths are not modelled: `size_t` positions are `nat` and identifiers are unbounded `int`. An `int` overflow of `EOPPOSITE_FEATURE_BASE - featureID` is not considered.
- Destructors (empty) are not modelled.
