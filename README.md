# Bubo registrars in Dafny

Bubo is a small Java library for observer registration. A *registrar*
keeps the listener handles an observable has registered. It offers
`addListener`, `removeListener` and `clear`, and it is `Iterable`, so a
dispatch is a for-each loop over it. This project models the `Registrar`
contract and the two single-threaded, copy-on-write registrars:

- `SingleThreadedRegistrar` keeps an `ArrayList` of handles. `addListener`,
  `removeListener` and `clear` replace the list with a new copy, so they
  never change a list already handed out. The list's own iterator, which
  `iterator()` hands out, still can (see Findings).
- `WeakSingleThreadedRegistrar` keeps an `ArrayList` of `WeakReference`s
  registered with a `ReferenceQueue`. Scans in add and remove enqueue the
  references the collector has cleared, and so does the `WeakIterator`,
  which skips them. `processQueue` drops the enqueued references from a
  fresh copy of the list.

Files and modules:

- `exceptions.dfy` (`Exceptions`): Java exceptions as values. A throwing
  call returns `Thrown(e)` or `Failure(e)` and changes nothing.
- `registrar_contract.dfy` (`RegistrarContract`): the contract of
  `Registrar.java` and of the Observable rules, over the abstract value of
  a registrar, the sequence of registered handles. `Register` and
  `Deregister` state what add and remove do to it. Each registrar class
  has a `Registered()` view and is proved to move it exactly like these
  functions.
- `lists.dfy` (`Lists`): `java.util.ArrayList` as a class with a
  modification counter, plus its fail-fast iterator `Itr`.
- `single_threaded_registrar.dfy` (`SingleThreaded`): the registrar with
  the iterator it hands out (the list's own), dispatches and the scenarios
  of the tests over that iterator, and the corrected read-only iterator of
  Findings.
- `weak_refs.dfy` (`WeakRefs`): `WeakReference`, `ReferenceQueue` and the
  collector. `Live` gives the listeners a list of references still
  registers.
- `weak_single_threaded_registrar.dfy` (`WeakSingleThreaded`): the weak
  registrar, its `WeakIterator` and `processQueue`.
- `weak_scenarios.dfy` (`WeakScenarios`): dispatches over the weak
  registrar, mutations during a dispatch, and the collector reclaiming a
  listener during a dispatch.

Listener handles are Dafny references (`object`, with `object?` where Java
may pass `null`). `==` is Java's `==`. The Registration Key Rule
(Observable.java:51-53) asks the registrar to identify listeners by direct
object comparison, as `UnorderedThreadSafeRegistrar` does with `==`.
`SingleThreadedRegistrar` instead compares with `equals()` through
`ArrayList.contains` and `remove` (lines 51, 62 and 64). The two agree for
listeners that do not override `equals()`, and the model covers only those.

The model follows the code where it departs from the library's design:

- `SingleThreadedRegistrar.iterator()` returns the list's own mutable
  iterator, although the class is copy-on-write (see Findings). Every
  dispatch and scenario of `SingleThreaded` runs over that iterator; the
  corrected read-only iterator is used only by the corrected half of the
  finding.
- `addListener` on the weak registrar returns at once when the listener is
  already registered. It then skips `processQueue`, so references its scan
  enqueued stay in the list until a later add or remove drains the queue.
  `WeakSingleThreaded.WeakSingleThreadedRegistrar.Include` keeps the old
  list object in that case.

`RegistrarTest.java` lines 179 and 280 call `removeListener(testSubject)`,
passing the registrar itself, which was never registered. `Deregister`
covers this: removing an absent handle changes nothing.

## Model

| member | source | states |
|---|---|---|
| RegistrarContract.Register | bubo/src/main/java/com/fiftythree/bubo/Registrar.java:33-41 | after addListener(h) the handle is registered, nothing else is added, every earlier registration stays, in order, as a prefix, and at most one entry is added |
| RegistrarContract.Deregister | bubo/src/main/java/com/fiftythree/bubo/Registrar.java:43-51 | after removeListener(h) the handle is gone, every other handle stays, nothing new appears, and removing an unregistered handle changes nothing (infallible de-registration) |
| RegistrarContract.DeregisterDistinct | bubo/src/main/java/com/fiftythree/bubo/SingleThreadedRegistrar.java:62-65 | de-registration keeps a duplicate-free registration list duplicate-free, and removes exactly one entry when the handle was registered |
| RegistrarContract.RegisterIdempotent | app/src/main/java/com/fiftythree/bubo/annotations/Observable.java:54-56 | registering a handle 1 + n times in a row registers it once |
| RegistrarContract.DeregisterAt | bubo/src/main/java/com/fiftythree/bubo/SingleThreadedRegistrar.java:62-65 | removing the handle at position k deletes exactly that position and keeps the others in order |
| RegistrarContract.ReRegisterMovesToEnd | app/src/test/java/com/fiftythree/bubo/OrdererdRegistrarTest.java:53-67 | remove then re-add moves a handle to the end, others keep their order |
| RegistrarContract.DeregisterPair | app/src/test/java/com/fiftythree/bubo/RegistrarTest.java:216-242 | test example, a concrete instance rather than a property: from two registered handles, removing either leaves exactly the other |
| RegistrarContract.DeregisterMiddle | app/src/main/java/com/fiftythree/bubo/annotations/Observable.java:57-61 | removing a handle held once closes the gap, every other handle keeps its place |
| RegistrarContract.AddThree | app/src/test/java/com/fiftythree/bubo/OrdererdRegistrarTest.java:39-51 | test example, a concrete instance rather than a property: three distinct handles added to an empty registrar are listed in the order added |
| RegistrarContract.MoveMiddleToEnd | app/src/test/java/com/fiftythree/bubo/OrdererdRegistrarTest.java:60-66 | test example, a concrete instance rather than a property: removing and re-adding the middle one of three puts it last |
| RegistrarContract.ReorderScenario | app/src/test/java/com/fiftythree/bubo/OrdererdRegistrarTest.java:53-67 | test example, a concrete instance rather than a property: add h0, h2, h1, remove h2, add h2 gives [h0, h1, h2] |
| Lists.RemoveFirst | bubo/src/main/java/com/fiftythree/bubo/SingleThreadedRegistrar.java:64 | ArrayList.remove(Object): no effect when absent, else exactly one element fewer, no new elements |
| Lists.RemoveFirstAt | bubo/src/main/java/com/fiftythree/bubo/WeakSingleThreadedRegistrar.java:89-92 | removing an element whose first occurrence is at k deletes position k |
| Lists.RemoveFirstDeregisters | bubo/src/main/java/com/fiftythree/bubo/SingleThreadedRegistrar.java:62-65 | on a duplicate-free list, ArrayList.remove(Object) is de-registration |
| Lists.ArrayList.constructor | bubo/src/main/java/com/fiftythree/bubo/SingleThreadedRegistrar.java:40 | a new list is empty |
| Lists.ArrayList.Copy | bubo/src/main/java/com/fiftythree/bubo/SingleThreadedRegistrar.java:52 | new ArrayList(c) holds c's elements |
| Lists.ArrayList.Contains | bubo/src/main/java/com/fiftythree/bubo/SingleThreadedRegistrar.java:51 | contains(o), the guard of addListener here and of removeListener at line 62: true exactly when some position of the list holds the element (indexOf(o) >= 0) |
| Lists.ArrayList.Add | bubo/src/main/java/com/fiftythree/bubo/SingleThreadedRegistrar.java:53 | appends the element and counts one structural modification |
| Lists.ArrayList.Remove | bubo/src/main/java/com/fiftythree/bubo/SingleThreadedRegistrar.java:64 | reports whether the element was present, removes its first occurrence, counts a modification only then |
| Lists.ArrayList.RemoveAt | bubo/src/main/java/com/fiftythree/bubo/SingleThreadedRegistrar.java:77-79 | deletes position i in place (what the list iterator's remove() does) |
| Lists.ArrayList.Iterator | bubo/src/main/java/com/fiftythree/bubo/SingleThreadedRegistrar.java:77-79 | a fresh fail-fast iterator over this very list, with all its elements to come |
| Lists.Itr.constructor | bubo/src/main/java/com/fiftythree/bubo/SingleThreadedRegistrar.java:77-79 | starts at the front, in step with the list's modification count |
| Lists.Itr.HasNext | bubo/src/main/java/com/fiftythree/bubo/SingleThreadedRegistrar.java:77-79 | hasNext() compares the cursor with the list's current size only: while the iterator is in step it is true exactly when elements remain, and when it is false the cursor sits at the current size even if the list shrank behind it (the silent skip of Findings) |
| Lists.Itr.Next | bubo/src/main/java/com/fiftythree/bubo/SingleThreadedRegistrar.java:77-79 | ConcurrentModificationException once the list changed behind it, NoSuchElementException at the end, else the next element |
| Lists.Itr.Remove | bubo/src/main/java/com/fiftythree/bubo/SingleThreadedRegistrar.java:77-79 | IllegalStateException before next(), ConcurrentModificationException when stale, else deletes the last element returned from the list in place |
| SingleThreaded.SingleThreadedRegistrar.constructor | bubo/src/main/java/com/fiftythree/bubo/SingleThreadedRegistrar.java:39-41 | a new registrar has no registrations |
| SingleThreaded.SingleThreadedRegistrar.AddListener | bubo/src/main/java/com/fiftythree/bubo/SingleThreadedRegistrar.java:47-55 | null is refused with IllegalArgumentException; otherwise registrations become Register(old, h), through a fresh list only when h was absent; the old list object is never changed |
| SingleThreaded.SingleThreadedRegistrar.RemoveListener | bubo/src/main/java/com/fiftythree/bubo/SingleThreadedRegistrar.java:57-66 | null is refused; otherwise registrations become Deregister(old, h), through a fresh list only when h was present; the old list object is never changed; no duplicates |
| SingleThreaded.SingleThreadedRegistrar.Clear | bubo/src/main/java/com/fiftythree/bubo/SingleThreadedRegistrar.java:68-71 | no registrations remain, the old list object is not changed |
| SingleThreaded.SingleThreadedRegistrar.Iterator | bubo/src/main/java/com/fiftythree/bubo/SingleThreadedRegistrar.java:76-79 | iterator(): a fresh fail-fast iterator, the list's own, over the registrar's current list object, in step with it and yielding exactly the registered handles in order |
| SingleThreaded.SingleThreadedRegistrar.ReadOnlyIterator | bubo/src/main/java/com/fiftythree/bubo/SingleThreadedRegistrar.java:76-79 | corrected half of the finding: a fresh read-only cursor over the current list, yielding exactly the registered handles |
| SingleThreaded.SnapshotIterator.constructor | bubo/src/main/java/com/fiftythree/bubo/SingleThreadedRegistrar.java:76-79 | corrected iterator: wraps a list iterator that is in step with its list |
| SingleThreaded.SnapshotIterator.HasNext | bubo/src/main/java/com/fiftythree/bubo/SingleThreadedRegistrar.java:76-79 | corrected iterator: true exactly when handles remain |
| SingleThreaded.SnapshotIterator.Next | bubo/src/main/java/com/fiftythree/bubo/SingleThreadedRegistrar.java:76-79 | corrected iterator: the next handle and one fewer to come; NoSuchElementException when none remain |
| SingleThreaded.SnapshotIterator.Remove | bubo/src/main/java/com/fiftythree/bubo/SingleThreadedRegistrar.java:76-79 | corrected iterator: remove() always throws UnsupportedOperationException, so the registrar's list is never changed through it (see Findings) |
| SingleThreaded.Dispatch | app/src/test/java/com/fiftythree/bubo/RegistrarTest.java:67-84 | a for-each loop over the registrar's own iterator (hasNext() then next(), never remove()) notifies exactly what the iterator had to come, in order, and never fails |
| SingleThreaded.Step | app/src/test/java/com/fiftythree/bubo/RegistrarTest.java:76-81 | one turn of the for-each loop: what was notified followed by what is left stays the whole dispatch |
| SingleThreaded.Notify | app/src/main/java/com/fiftythree/bubo/annotations/Observable.java:89-90 | a full dispatch over the registrar's own iterator notifies exactly the registered handles in registration order |
| SingleThreaded.MutationsLeaveIteratorAlone | app/src/test/java/com/fiftythree/bubo/RegistrarTest.java:244-317 | add, remove and clear leave the registrar's iterator taken earlier in step with its list (no ConcurrentModificationException) and with exactly the same handles to come |
| SingleThreaded.ReorderDispatch | app/src/test/java/com/fiftythree/bubo/OrdererdRegistrarTest.java:53-67 | after add h0, h2, h1, remove h2, add h2 a dispatch notifies h0, h1, h2 in that order |
| SingleThreaded.TwoRegistered | app/src/test/java/com/fiftythree/bubo/RegistrarTest.java:190-197 | after adding two distinct handles both are registered in order |
| SingleThreaded.StartDispatch | app/src/test/java/com/fiftythree/bubo/RegistrarTest.java:257-260 | the first turn of a dispatch over the registrar's own iterator yields the first registered handle, leaves the rest to come and keeps the iterator in step |
| SingleThreaded.RemoveDuringDispatch | app/src/main/java/com/fiftythree/bubo/annotations/Observable.java:80-88 | removing a handle from inside a notification (Atomic Dispatch Rule, over the registrar's own iterator): the dispatch in progress still notifies everyone registered at its start, the next one notifies Deregister(old, victim) |
| SingleThreaded.AddDuringDispatch | app/src/main/java/com/fiftythree/bubo/annotations/Observable.java:80-90 | adding a handle from inside a notification (Atomic Dispatch Rule, over the registrar's own iterator): the dispatch in progress notifies the old handles only, the next one notifies Register(old, added) |
| SingleThreaded.RemoveSelfWhileDispatching | app/src/test/java/com/fiftythree/bubo/RegistrarTest.java:244-289 | h0 removing itself: that dispatch notifies h0, h1, the next only h1 |
| SingleThreaded.RemoveOtherWhileDispatching | app/src/test/java/com/fiftythree/bubo/RegistrarTest.java:291-317 | h0 removing h1: h1 is still notified by that dispatch, only h0 by the next |
| SingleThreaded.RemoveThroughIteratorAsWritten | bubo/src/main/java/com/fiftythree/bubo/SingleThreadedRegistrar.java:76-79 | as written: the first listener of a dispatch starts a second dispatch and removes itself through that iterator; the head of the registrar's list is deleted in place, and the first dispatch then has notified only that head: with two handles its hasNext() is false and the second is silently skipped, otherwise its next() throws ConcurrentModificationException |
| SingleThreaded.RemoveHeadThroughIterator | bubo/src/main/java/com/fiftythree/bubo/SingleThreadedRegistrar.java:76-79 | next() then remove() on the registrar's own iterator deletes the first handle from the registrar's current list object and counts a modification |
| SingleThreaded.RemoveThroughSnapshotIterator | bubo/src/main/java/com/fiftythree/bubo/SingleThreadedRegistrar.java:76-79 | corrected half of the finding, the same scenario over the read-only iterator: after the first handle is delivered, the nested remove() is refused, nothing changes, and the first dispatch goes on to notify every registered handle |
| SingleThreaded.FinishReadOnlyDispatch | bubo/src/main/java/com/fiftythree/bubo/SingleThreadedRegistrar.java:76-79 | corrected iterator: the rest of a for-each over it appends exactly the handles it still had to come, in order |
| SingleThreaded.ReadOnlyStep | bubo/src/main/java/com/fiftythree/bubo/SingleThreadedRegistrar.java:76-79 | corrected iterator: one loop turn keeps what was notified followed by what is left equal to the whole dispatch |
| SingleThreaded.RemoveThroughSecondIterator | bubo/src/main/java/com/fiftythree/bubo/SingleThreadedRegistrar.java:76-79 | corrected iterator: remove() in the middle of a dispatch is refused |
| WeakRefs.RefQueue.constructor | bubo/src/main/java/com/fiftythree/bubo/WeakSingleThreadedRegistrar.java:48 | a new queue is empty |
| WeakRefs.RefQueue.Poll | bubo/src/main/java/com/fiftythree/bubo/WeakSingleThreadedRegistrar.java:166 | poll() removes and returns the oldest enqueued reference, or none |
| WeakRefs.WeakEntry.constructor | bubo/src/main/java/com/fiftythree/bubo/WeakSingleThreadedRegistrar.java:68 | a new reference to the listener, registered with the queue, not enqueued |
| WeakRefs.WeakEntry.Enqueue | bubo/src/main/java/com/fiftythree/bubo/WeakSingleThreadedRegistrar.java:155 | enqueue() clears the reference and puts it on its queue the first time only |
| WeakRefs.WeakEntry.Clear | bubo/src/main/java/com/fiftythree/bubo/WeakSingleThreadedRegistrar.java:153-154 | the collector clears the referent; whether it is enqueued is unchanged |
| WeakRefs.Live | bubo/src/main/java/com/fiftythree/bubo/WeakSingleThreadedRegistrar.java:59-66 | the listeners a reference list still registers: every non-null target and nothing else |
| WeakRefs.LiveConcat | bubo/src/main/java/com/fiftythree/bubo/WeakSingleThreadedRegistrar.java:67-68 | the live targets of two lists joined are the two lists' live targets joined |
| WeakRefs.Kept | bubo/src/main/java/com/fiftythree/bubo/WeakSingleThreadedRegistrar.java:89-93 | the references neither enqueued nor referring to the removed listener: exactly those, nothing else, no duplicates |
| WeakRefs.KeptConcat | bubo/src/main/java/com/fiftythree/bubo/WeakSingleThreadedRegistrar.java:163-173 | Kept splits over concatenation |
| WeakRefs.KeptWithoutTarget | bubo/src/main/java/com/fiftythree/bubo/WeakSingleThreadedRegistrar.java:79-93 | with no reference to the listener, removal keeps exactly the unqueued references |
| WeakRefs.LiveUnqueued | bubo/src/main/java/com/fiftythree/bubo/WeakSingleThreadedRegistrar.java:163-173 | dropping enqueued (hence cleared) references loses no listener |
| WeakRefs.LiveKept | bubo/src/main/java/com/fiftythree/bubo/WeakSingleThreadedRegistrar.java:72-94 | keeping the unqueued references not to h de-registers h from the listeners |
| WeakRefs.LiveSkip | bubo/src/main/java/com/fiftythree/bubo/WeakSingleThreadedRegistrar.java:151-157 | cleared positions contribute no listener |
| WeakRefs.LiveAt | bubo/src/main/java/com/fiftythree/bubo/WeakSingleThreadedRegistrar.java:152-153 | from a live position on, the live targets start with that target |
| WeakRefs.NotLive | bubo/src/main/java/com/fiftythree/bubo/WeakSingleThreadedRegistrar.java:59-66 | a listener no reference points to is not registered |
| WeakRefs.LiveRemoveAt | bubo/src/main/java/com/fiftythree/bubo/WeakSingleThreadedRegistrar.java:89-92 | removing the first reference to h de-registers h, and no later reference is to h |
| WeakRefs.KeptDropOne | bubo/src/main/java/com/fiftythree/bubo/WeakSingleThreadedRegistrar.java:89-92 | a reference to h is never kept when h is removed |
| WeakRefs.KeptCut | bubo/src/main/java/com/fiftythree/bubo/WeakSingleThreadedRegistrar.java:89-93 | cutting the one reference to h, then draining, keeps exactly Kept(es, h) |
| WeakRefs.KeptSnoc | bubo/src/main/java/com/fiftythree/bubo/WeakSingleThreadedRegistrar.java:67-69 | a new unqueued reference appended is kept, at the end |
| WeakRefs.Without | bubo/src/main/java/com/fiftythree/bubo/WeakSingleThreadedRegistrar.java:163-173 | the list with every polled reference filtered out: only old elements, none polled, all unpolled ones, no duplicates |
| WeakRefs.WithoutNothing | bubo/src/main/java/com/fiftythree/bubo/WeakSingleThreadedRegistrar.java:165 | before anything is polled the list is as it was |
| WeakRefs.WithoutSnoc | bubo/src/main/java/com/fiftythree/bubo/WeakSingleThreadedRegistrar.java:171 | removing one more polled reference is de-registering it from what is left |
| WeakRefs.WithoutQueued | bubo/src/main/java/com/fiftythree/bubo/WeakSingleThreadedRegistrar.java:163-173 | when exactly the enqueued references are on the queue, draining it keeps the unqueued ones |
| WeakRefs.LiveCleared | bubo/src/main/java/com/fiftythree/bubo/WeakSingleThreadedRegistrar.java:36-43 | clearing every reference to h de-registers h from the listeners |
| WeakRefs.Collect | bubo/src/main/java/com/fiftythree/bubo/WeakSingleThreadedRegistrar.java:36-43 | the collector clears exactly the references to h, nothing else changes |
| WeakSingleThreaded.Drained | bubo/src/main/java/com/fiftythree/bubo/WeakSingleThreadedRegistrar.java:163-173 | draining a well-formed list keeps exactly its unqueued references and every listener |
| WeakSingleThreaded.ExtendedList | bubo/src/main/java/com/fiftythree/bubo/WeakSingleThreadedRegistrar.java:67-68 | appending a new live reference to an unregistered listener keeps the list well-formed and registers it last |
| WeakSingleThreaded.CutList | bubo/src/main/java/com/fiftythree/bubo/WeakSingleThreadedRegistrar.java:89-92 | ArrayList.remove of the found reference deletes that position, keeps the list well-formed and de-registers the listener |
| WeakSingleThreaded.SweptKept | bubo/src/main/java/com/fiftythree/bubo/WeakSingleThreadedRegistrar.java:59-69 | once every cleared reference is enqueued, draining leaves only live references |
| WeakSingleThreaded.Sweep | bubo/src/main/java/com/fiftythree/bubo/WeakSingleThreadedRegistrar.java:59-66 | the add/remove scan stops at the first reference to the listener, if any, having enqueued every cleared reference before it; targets never change |
| WeakSingleThreaded.AheadSkipped | bubo/src/main/java/com/fiftythree/bubo/WeakSingleThreadedRegistrar.java:150-160 | skipping cleared positions does not change what the iterator has still to yield |
| WeakSingleThreaded.AheadCleared | bubo/src/main/java/com/fiftythree/bubo/WeakSingleThreadedRegistrar.java:118-119 | the collector clearing h, which the iterator does not hold, removes h from what the iterator has still to yield |
| WeakSingleThreaded.Advance | bubo/src/main/java/com/fiftythree/bubo/WeakSingleThreadedRegistrar.java:151-158 | the ensureStrongRef loop passes only cleared references, enqueues each of them, and stops holding a live target or at the captured length |
| WeakSingleThreaded.DrainOne | bubo/src/main/java/com/fiftythree/bubo/WeakSingleThreadedRegistrar.java:171 | removing the next polled reference from the list filtered so far filters it out too |
| WeakSingleThreaded.DrainQueue | bubo/src/main/java/com/fiftythree/bubo/WeakSingleThreadedRegistrar.java:163-173 | the processQueue loop empties the queue; the result is the list without every polled reference; a fresh copy only when something was polled, else the same list |
| WeakSingleThreaded.WeakSingleThreadedRegistrar.constructor | bubo/src/main/java/com/fiftythree/bubo/WeakSingleThreadedRegistrar.java:46-49 | an empty list and an empty queue |
| WeakSingleThreaded.WeakSingleThreadedRegistrar.ProcessQueue | bubo/src/main/java/com/fiftythree/bubo/WeakSingleThreadedRegistrar.java:163-173 | the queue is empty afterwards; the list is the old one without its enqueued references; no listener is lost; a copy is made only when something was polled; the old list object is not changed |
| WeakSingleThreaded.WeakSingleThreadedRegistrar.Scan | bubo/src/main/java/com/fiftythree/bubo/WeakSingleThreadedRegistrar.java:59-66 | the scan over the current list: stops at the reference to the listener, enqueues cleared ones before it, registrations unchanged |
| WeakSingleThreaded.WeakSingleThreadedRegistrar.Extend | bubo/src/main/java/com/fiftythree/bubo/WeakSingleThreadedRegistrar.java:67-68 | a fresh copy with a new reference appended becomes current, the listener registered last |
| WeakSingleThreaded.WeakSingleThreadedRegistrar.Append | bubo/src/main/java/com/fiftythree/bubo/WeakSingleThreadedRegistrar.java:67-69 | the new list is the old unqueued references followed by a new reference to the listener; the queue is drained; every reference in it is live |
| WeakSingleThreaded.WeakSingleThreadedRegistrar.Include | bubo/src/main/java/com/fiftythree/bubo/WeakSingleThreadedRegistrar.java:59-69 | registrations become Register(old, h); the same list object when h was registered; otherwise the old unqueued references then a new one to h, the queue drained |
| WeakSingleThreaded.WeakSingleThreadedRegistrar.AddListener | bubo/src/main/java/com/fiftythree/bubo/WeakSingleThreadedRegistrar.java:55-70 | null is refused with IllegalArgumentException and nothing changes; otherwise registrations become Register(old, h); when h was registered the list object is kept; otherwise the new list is the old unqueued references followed by a new reference to h, the queue is drained and every reference is live; the old list object is never changed |
| WeakSingleThreaded.WeakSingleThreadedRegistrar.Cut | bubo/src/main/java/com/fiftythree/bubo/WeakSingleThreadedRegistrar.java:89-92 | a copy without the found reference becomes current, de-registering the listener |
| WeakSingleThreaded.WeakSingleThreadedRegistrar.Detach | bubo/src/main/java/com/fiftythree/bubo/WeakSingleThreadedRegistrar.java:77-92 | scan and removal: the listener is de-registered and, once drained, the references kept are the old ones neither enqueued nor to the listener |
| WeakSingleThreaded.WeakSingleThreadedRegistrar.RemoveListener | bubo/src/main/java/com/fiftythree/bubo/WeakSingleThreadedRegistrar.java:72-94 | null is refused with IllegalArgumentException and nothing changes; otherwise registrations become Deregister(old, h), the list is the old references neither enqueued nor to h, the queue is empty, and the old list object is never changed |
| WeakSingleThreaded.WeakSingleThreadedRegistrar.Clear | bubo/src/main/java/com/fiftythree/bubo/WeakSingleThreadedRegistrar.java:96-100 | a new empty list and a new empty queue |
| WeakSingleThreaded.WeakSingleThreadedRegistrar.Iterator | bubo/src/main/java/com/fiftythree/bubo/WeakSingleThreadedRegistrar.java:105-108 | a fresh WeakIterator over the current list that yields exactly the registered listeners; registrations unchanged |
| WeakSingleThreaded.WeakIterator.constructor | bubo/src/main/java/com/fiftythree/bubo/WeakSingleThreadedRegistrar.java:121-126 | captures the list's length and has exactly the list's live targets to yield |
| WeakSingleThreaded.WeakIterator.EnsureStrongRef | bubo/src/main/java/com/fiftythree/bubo/WeakSingleThreadedRegistrar.java:150-160 | holds the next live target if there is one, enqueues the cleared references it passes, and does not change what is still to yield |
| WeakSingleThreaded.WeakIterator.HasNext | bubo/src/main/java/com/fiftythree/bubo/WeakSingleThreadedRegistrar.java:128-131 | true exactly when listeners remain to yield |
| WeakSingleThreaded.WeakIterator.Next | bubo/src/main/java/com/fiftythree/bubo/WeakSingleThreadedRegistrar.java:133-143 | the next live listener (never null) and one fewer to come; NoSuchElementException when none remain |
| WeakSingleThreaded.WeakIterator.Remove | bubo/src/main/java/com/fiftythree/bubo/WeakSingleThreadedRegistrar.java:145-148 | always UnsupportedOperationException |
| WeakScenarios.HasNextOver | bubo/src/main/java/com/fiftythree/bubo/WeakSingleThreadedRegistrar.java:128-131 | hasNext() during a dispatch leaves the registrar valid with the same listeners |
| WeakScenarios.NextOver | bubo/src/main/java/com/fiftythree/bubo/WeakSingleThreadedRegistrar.java:133-143 | next() during a dispatch yields the next listener and leaves the registrar valid with the same listeners |
| WeakScenarios.Step | app/src/test/java/com/fiftythree/bubo/RegistrarTest.java:76-81 | one turn of the for-each loop: what was notified followed by what is left stays the whole dispatch |
| WeakScenarios.Dispatch | app/src/test/java/com/fiftythree/bubo/RegistrarTest.java:67-84 | a for-each loop notifies exactly what the iterator had to yield, in order, and leaves the registrar's listeners as they were |
| WeakScenarios.Notify | app/src/main/java/com/fiftythree/bubo/annotations/Observable.java:89-90 | a full dispatch notifies exactly the registered listeners in registration order |
| WeakScenarios.RemoveWhileIterating | bubo/src/main/java/com/fiftythree/bubo/WeakSingleThreadedRegistrar.java:72-94 | removeListener leaves an existing iterator with the same listeners to yield |
| WeakScenarios.AddWhileIterating | bubo/src/main/java/com/fiftythree/bubo/WeakSingleThreadedRegistrar.java:55-70 | addListener leaves an existing iterator with the same listeners to yield |
| WeakScenarios.MutationsLeaveIteratorAlone | bubo/src/main/java/com/fiftythree/bubo/WeakSingleThreadedRegistrar.java:55-100 | add, clear and remove leave an earlier iterator with exactly the same listeners to yield |
| WeakScenarios.RemoveDuringDispatch | app/src/main/java/com/fiftythree/bubo/annotations/Observable.java:80-88 | removing a listener from inside a notification: the dispatch still notifies everyone registered at its start; afterwards registrations are Deregister(old, victim) |
| WeakScenarios.AddDuringDispatch | app/src/main/java/com/fiftythree/bubo/annotations/Observable.java:80-90 | adding a listener from inside a notification: the dispatch notifies the old listeners only; afterwards registrations are Register(old, added) |
| WeakScenarios.Collected | bubo/src/main/java/com/fiftythree/bubo/WeakSingleThreadedRegistrar.java:118-119 | reclaiming h, not held by the iterator, removes it from both the registrar and the dispatch in progress |
| WeakScenarios.BeginDispatch | bubo/src/main/java/com/fiftythree/bubo/WeakSingleThreadedRegistrar.java:133-143 | the first next() yields the first listener; the iterator holds the following one, if any |
| WeakScenarios.RegisterAll | bubo/src/main/java/com/fiftythree/bubo/WeakSingleThreadedRegistrar.java:55-70 | adding distinct listeners one by one registers exactly them, in order |
| WeakScenarios.CollectedMidDispatch | bubo/src/main/java/com/fiftythree/bubo/WeakSingleThreadedRegistrar.java:150-160 | a listener reclaimed part way through a dispatch is skipped by the rest of it and is no longer registered |
| WeakScenarios.FirstOfThree | app/src/test/java/com/fiftythree/bubo/OrdererdRegistrarTest.java:39-51 | test example, a concrete instance rather than a property: three listeners added; a dispatch has yielded h0 and holds h1 |
| WeakScenarios.CollectedBeforeReached | bubo/src/main/java/com/fiftythree/bubo/WeakSingleThreadedRegistrar.java:150-160 | with h0, h1, h2 registered and h2 reclaimed after h0 is notified, the dispatch notifies h0, h1 and the registrar holds [h0, h1] |
| WeakScenarios.DropLast | app/src/test/java/com/fiftythree/bubo/RegistrarTest.java:216-242 | test example, a concrete instance rather than a property: removing the last of three distinct handles leaves the first two, in order |

## Left out

- The `Registrar` interface is not a Dafny trait. Its contract is the pair of functions `Register`/`Deregister` plus clearing, and each registrar class is proved against them.
- `ThreadSafeRegistrar`, both `UnorderedThreadSafeRegistrar` classes and the older `app/.../Registrar.java` are not part of this model. They are concurrency code or superseded duplicates. The unordered variants' "each listener exactly once" promise is not modelled.
- Thread confinement, concurrent use and the Concurrent Notification Rule are not modelled; every call here runs to completion before the next.
- The annotation files carry no behaviour. Their rules are cited as contract text.
- The real garbage collector and the Observer Reachability Rule are not modelled. `WeakRefs.Collect` is an environment action that clears every reference to one listener. It is applied only to a listener the iterator does not hold, because the iterator's strong reference keeps that one alive.
- The runtime enqueueing cleared references on its own is not modelled. Here references reach the queue only through `enqueue()` calls in the scans and the iterator. `WeakRefs.WeakEntry.Enqueue` clears the referent, as Java 9 and later do. The code calls it only on references already cleared, so older JDKs behave the same.
- Notification delivery is a recorded sequence of notified handles. A callback's effect is modelled only for the mutations the scenarios perform (one add, one remove, one reclamation).
- `equals()` is taken to be identity (see above). For a listener that overrides `equals()`, `SingleThreadedRegistrar` departs from the Registration Key Rule: an equal but distinct listener is taken as already registered by `addListener`, and `removeListener` removes the first equal one. The model does not capture this departure.
- `int` indices and `ArrayList`'s modification counter are unbounded here; lists never approach 2^31 elements.
- `ArrayList.Itr.next()` also throws ConcurrentModificationException when the backing array shrank under it. The model keeps only the modification-count check, which fires first.
- `WeakSingleThreaded.WeakIterator` keeps a ghost reference to the queue the list's references are registered with; the Java iterator needs none because each reference knows its queue.
- WeakScenarios.RemoveDuringDispatch: states the registrations after the dispatch instead of performing the second dispatch; `WeakScenarios.Notify` states what that dispatch notifies.
- WeakScenarios.AddDuringDispatch: states the registrations after the dispatch instead of performing the second dispatch, as for removal.
- WeakScenarios.CollectedBeforeReached: returns the registrar with [h0, h1] registered instead of dispatching again.
- WeakScenarios.MutationsLeaveIteratorAlone: checks one order (add, clear, remove). Any other order follows from `AddWhileIterating`, `RemoveWhileIterating` and `Clear`, each of which leaves the iterator alone.

## Findings

| source | as written | input that shows it | evidently intended | confidence | as-written member | corrected member |
|---|---|---|---|---|---|---|
| bubo/src/main/java/com/fiftythree/bubo/SingleThreadedRegistrar.java:76-79 | `iterator()` returns `mRegistrar.iterator()`, the list's own iterator. Its `remove()` deletes from the registrar's current list in place, although the class is copy-on-write | registrar [h0, h1]; a dispatch has delivered h0, whose listener starts a second dispatch and calls `next()` then `remove()` on it. h0 is de-registered without `removeListener`, and the first dispatch's `hasNext()` is then false, so h1 is silently never notified. With one handle, or three or more, the first dispatch's `next()` throws ConcurrentModificationException instead. Both break the Atomic Dispatch Rule | a read-only iterator, as `WeakIterator.remove()` already is: `remove()` throws UnsupportedOperationException and the list is never changed | high, not executed | SingleThreaded.RemoveThroughIteratorAsWritten | SingleThreaded.RemoveThroughSnapshotIterator |
