/** SingleThreadedRegistrar: an ordered, duplicate-free list of listener
    handles behind one field that add, remove and clear replace with a
    fresh copy, so they never change a list already handed out. The list's
    own iterator, which iterator() hands out, still can (see
    RemoveThroughIteratorAsWritten). */
module SingleThreaded {
  import opened Exceptions
  import opened RegistrarContract
  import opened Lists

  class SingleThreadedRegistrar {
    /** mRegistrar: the current list; add, remove and clear never mutate it
        once published, only its own iterator's remove() does. */
    var current: ArrayList<object>

    ghost predicate Valid()
      reads this, current
    {
      Distinct(current.elems)
    }

    /** The handles registered now, in registration order. */
    ghost function Registered(): seq<object>
      reads this, current
    {
      current.elems
    }

    constructor ()
      ensures Valid() && Registered() == [] && fresh(current)
    {
      current := new ArrayList();
    }

    method AddListener(listener: object?) returns (outcome: Outcome)
      requires Valid()
      modifies this
      ensures Valid()
      ensures listener == null ==> outcome == Thrown(IllegalArgument)
      ensures listener != null ==>
                outcome == Done && Registered() == Register<object>(old(Registered()), listener)
      ensures listener == null || listener in old(Registered()) ==> current == old(current)
      ensures listener != null && listener !in old(Registered()) ==> fresh(current)
      ensures unchanged(old(current))
    {
      if listener == null {
        return Thrown(IllegalArgument);
      }
      if !current.Contains(listener) {
        current := new ArrayList.Copy(current);
        current.Add(listener);
      }
      outcome := Done;
    }

    method RemoveListener(listener: object?) returns (outcome: Outcome)
      requires Valid()
      modifies this
      ensures Valid()
      ensures listener == null ==> outcome == Thrown(IllegalArgument)
      ensures listener != null ==>
                outcome == Done && Registered() == Deregister<object>(old(Registered()), listener)
      ensures listener != null && listener in old(Registered()) ==> fresh(current)
      ensures listener == null || listener !in old(Registered()) ==> current == old(current)
      ensures unchanged(old(current))
    {
      if listener == null {
        return Thrown(IllegalArgument);
      }
      if current.Contains(listener) {
        RemoveFirstDeregisters<object>(current.elems, listener);
        DeregisterDistinct<object>(current.elems, listener);
        current := new ArrayList.Copy(current);
        var _ := current.Remove(listener);
      }
      outcome := Done;
    }

    method Clear()
      modifies this
      ensures Valid() && Registered() == [] && fresh(current)
      ensures unchanged(old(current))
    {
      current := new ArrayList();
    }

    /** iterator(): ArrayList's own fail-fast iterator over the current
        list object, remove() included. */
    method Iterator() returns (it: Itr<object>)
      requires Valid()
      ensures fresh(it) && it.list == current
      ensures it.Valid() && !it.Stale() && it.Remaining() == Registered()
    {
      it := current.Iterator();
    }

    /** iterator() as evidently intended: a read-only cursor over the
        current list, whose remove() is refused. */
    method ReadOnlyIterator() returns (it: SnapshotIterator)
      requires Valid()
      ensures fresh(it) && fresh(it.inner) && it.inner.list == current
      ensures it.Valid() && it.Remaining() == Registered()
    {
      var inner := current.Iterator();
      it := new SnapshotIterator(inner);
    }
  }

  /** The iterator the registrar hands out: ArrayList's iterator with
      remove() refused, so only registrar mutations (which copy) can change
      registrations. */
  class SnapshotIterator {
    const inner: Itr<object>

    ghost predicate Valid()
      reads this, inner, inner.list
    {
      inner.Valid() && !inner.Stale()
    }

    /** The handles this iterator has still to produce. */
    ghost function Remaining(): seq<object>
      reads this, inner, inner.list
      requires Valid()
    {
      inner.Remaining()
    }

    constructor (inner: Itr<object>)
      requires inner.Valid() && !inner.Stale()
      ensures this.inner == inner && Valid()
    {
      this.inner := inner;
    }

    predicate HasNext()
      reads this, inner, inner.list
      requires Valid()
      ensures HasNext() <==> Remaining() != []
    {
      inner.HasNext()
    }

    method Next() returns (r: Result<object>)
      requires Valid()
      modifies inner
      ensures Valid()
      ensures old(Remaining()) == [] ==>
                r == Failure(NoSuchElement) && Remaining() == [] && unchanged(inner)
      ensures old(Remaining()) != [] ==>
                && r == Value(old(Remaining())[0])
                && Remaining() == old(Remaining())[1..]
                && old(Remaining()) == [r.value] + Remaining()
    {
      r := inner.Next();
    }

    /** remove(): refused, exactly as WeakSingleThreaded.WeakIterator.Remove
        refuses it. */
    method Remove() returns (outcome: Outcome)
      ensures outcome == Thrown(UnsupportedOperation)
    {
      outcome := Thrown(UnsupportedOperation);
    }
  }

  /** A dispatch: the caller's for-each loop over the registrar's
      iterator, notifying every handle it produces. A for-each never calls
      remove(), and nothing else modifies the list the iterator walks. */
  method Dispatch(it: Itr<object>) returns (notified: seq<object>)
    requires it.Valid() && !it.Stale()
    modifies it
    ensures it.Valid() && !it.Stale() && it.Remaining() == []
    ensures notified == old(it.Remaining())
  {
    notified := [];
    ghost var total := it.Remaining();
    while it.HasNext()
      invariant it.Valid() && !it.Stale()
      invariant total == notified + it.Remaining()
      decreases |it.Remaining()|
    {
      notified := Step(it, total, notified);
    }
  }

  /** One turn of a dispatch: next() and notify the handle it returns.
      What has been notified followed by what the iterator has left stays
      the whole dispatch. */
  method Step(it: Itr<object>, ghost total: seq<object>, notified: seq<object>)
    returns (notifiedNow: seq<object>)
    requires it.Valid() && !it.Stale() && it.Remaining() != []
    requires total == notified + it.Remaining()
    modifies it
    ensures it.Valid() && !it.Stale() && total == notifiedNow + it.Remaining()
    ensures |it.Remaining()| < |old(it.Remaining())|
  {
    ghost var ahead := it.Remaining();
    var r := it.Next();
    notifiedNow := notified + [r.value];
    assert notified + ahead == notifiedNow + it.Remaining();
  }

  /** A full notification pass: take an iterator, notify every handle. */
  method Notify(reg: SingleThreadedRegistrar) returns (notified: seq<object>)
    requires reg.Valid()
    ensures notified == reg.Registered()
  {
    var it := reg.Iterator();
    notified := Dispatch(it);
  }

  /** Any iterator already taken is untouched by later add, remove and
      clear calls: it still has exactly the same handles to produce. */
  method MutationsLeaveIteratorAlone(reg: SingleThreadedRegistrar, it: Itr<object>,
                                     x: object?, y: object?)
    requires reg.Valid() && it.Valid() && !it.Stale()
    modifies reg
    ensures reg.Valid() && reg.Registered() == []
    ensures it.Valid() && !it.Stale() && it.Remaining() == old(it.Remaining())
  {
    var outcome := reg.AddListener(x);
    outcome := reg.RemoveListener(y);
    reg.Clear();
  }

  /** Ordered dispatch after a re-registration: add h0, h2, h1, remove h2,
      add h2, then a dispatch notifies h0, h1, h2 in that order. */
  method ReorderDispatch(h0: object, h1: object, h2: object) returns (notified: seq<object>)
    requires h0 != h1 && h1 != h2 && h0 != h2
    ensures notified == [h0, h1, h2]
  {
    var reg := new SingleThreadedRegistrar();
    var outcome := reg.AddListener(h0);
    outcome := reg.AddListener(h2);
    outcome := reg.AddListener(h1);
    outcome := reg.RemoveListener(h2);
    outcome := reg.AddListener(h2);
    ReorderScenario(h0, h1, h2);
    notified := Notify(reg);
  }

  /** A fresh registrar after add h0, add h1. */
  method TwoRegistered(h0: object, h1: object) returns (reg: SingleThreadedRegistrar)
    requires h0 != h1
    ensures fresh(reg) && fresh(reg.current)
    ensures reg.Valid() && reg.Registered() == [h0, h1]
  {
    reg := new SingleThreadedRegistrar();
    var outcome := reg.AddListener(h0);
    outcome := reg.AddListener(h1);
  }

  /** The first turn of a dispatch over a non-empty registrar: iterator(),
      then next(); nothing the registrar holds changes. */
  method StartDispatch(reg: SingleThreadedRegistrar) returns (it: Itr<object>, head: object)
    requires reg.Valid() && reg.Registered() != []
    ensures fresh(it) && it.list == reg.current && it.Valid() && !it.Stale()
    ensures reg.Registered() == [head] + it.Remaining()
  {
    it := reg.Iterator();
    var r := it.Next();
    head := r.value;
  }

  /** Atomic dispatch: a listener notified first de-registers `victim`;
      the dispatch in progress still notifies every handle registered when
      it began, and the next dispatch notifies the de-registered list. */
  method RemoveDuringDispatch(reg: SingleThreadedRegistrar, victim: object)
    returns (first: seq<object>, second: seq<object>)
    requires reg.Valid() && reg.Registered() != []
    modifies reg
    ensures reg.Valid()
    ensures first == old(reg.Registered())
    ensures second == reg.Registered() == Deregister<object>(old(reg.Registered()), victim)
  {
    var it, head := StartDispatch(reg);
    var outcome := reg.RemoveListener(victim);
    var rest := Dispatch(it);
    first := [head] + rest;
    second := Notify(reg);
  }

  /** Atomic dispatch, for adding: a handle registered by the first
      listener notified is not notified by the dispatch in progress, and is
      notified last by the next one. */
  method AddDuringDispatch(reg: SingleThreadedRegistrar, added: object)
    returns (first: seq<object>, second: seq<object>)
    requires reg.Valid() && reg.Registered() != []
    modifies reg
    ensures reg.Valid()
    ensures first == old(reg.Registered())
    ensures second == reg.Registered() == Register<object>(old(reg.Registered()), added)
  {
    var it, head := StartDispatch(reg);
    var outcome := reg.AddListener(added);
    var rest := Dispatch(it);
    first := [head] + rest;
    second := Notify(reg);
  }

  /** With h0 and h1 registered, h0's notification de-registers h0: that
      dispatch notifies both, the next one only h1. */
  method RemoveSelfWhileDispatching(h0: object, h1: object)
    returns (first: seq<object>, second: seq<object>)
    requires h0 != h1
    ensures first == [h0, h1] && second == [h1]
  {
    var reg := TwoRegistered(h0, h1);
    first, second := RemoveDuringDispatch(reg, h0);
    DeregisterPair<object>(h0, h1);
  }

  /** With h0 and h1 registered, h0's notification de-registers h1: h1 is
      still notified by that dispatch, and only h0 by the next. */
  method RemoveOtherWhileDispatching(h0: object, h1: object)
    returns (first: seq<object>, second: seq<object>)
    requires h0 != h1
    ensures first == [h0, h1] && second == [h0]
  {
    var reg := TwoRegistered(h0, h1);
    first, second := RemoveDuringDispatch(reg, h1);
    DeregisterPair<object>(h0, h1);
  }

  /** As written, a listener that de-registers itself through the
      iterator of a dispatch it starts deletes the head of the registrar's
      current list in place. The dispatch that notified it walks that same
      list object: with two handles its next hasNext() is false and the
      second handle is never notified; otherwise its next() throws
      ConcurrentModificationException. Either way the handle is gone
      without removeListener. */
  method RemoveThroughIteratorAsWritten(reg: SingleThreadedRegistrar)
    returns (notified: seq<object>, outcome: Outcome)
    requires reg.Valid() && reg.Registered() != []
    modifies reg.current
    ensures notified == old(reg.Registered())[..1]
    ensures |old(reg.Registered())| == 2 ==> outcome == Done
    ensures |old(reg.Registered())| != 2 ==> outcome == Thrown(ConcurrentModification)
    ensures reg.Registered() == old(reg.Registered())[1..]
  {
    var first := reg.Iterator();
    var r := first.Next();
    notified := [r.value];
    var inner := RemoveHeadThroughIterator(reg);
    if first.HasNext() {
      var next := first.Next();
      outcome := if next.Failure? then Thrown(next.exception) else Done;
    } else {
      outcome := Done;
    }
  }

  /** A second dispatch through the registrar's iterator whose first
      listener removes itself through it: next(), then remove(), which
      deletes the head of the registrar's own list in place and counts a
      modification. */
  method RemoveHeadThroughIterator(reg: SingleThreadedRegistrar) returns (outcome: Outcome)
    requires reg.Valid() && reg.Registered() != []
    modifies reg.current
    ensures outcome == Done
    ensures reg.current.elems == old(reg.current.elems)[1..]
    ensures reg.current.modCount == old(reg.current.modCount) + 1
  {
    var it := reg.Iterator();
    var r := it.Next();
    assert it.lastRet == 0;
    outcome := it.Remove();
  }

  /** The same scenario over the read-only iterator: a dispatch delivers
      the first handle, whose listener starts a second dispatch and tries
      remove() through it. The attempt is refused, no registrar state
      changes (there is no modifies clause), and the first dispatch goes on
      to notify every registered handle. */
  method RemoveThroughSnapshotIterator(reg: SingleThreadedRegistrar)
    returns (refused: Outcome, earlier: seq<object>)
    requires reg.Valid() && reg.Registered() != []
    ensures refused == Thrown(UnsupportedOperation)
    ensures earlier == reg.Registered()
  {
    var first := reg.ReadOnlyIterator();
    var r := first.Next();
    refused := RemoveThroughSecondIterator(reg);
    earlier := FinishReadOnlyDispatch(first, [r.value]);
  }

  /** The rest of a dispatch over the read-only iterator, after the handles
      `notified` were delivered: the for-each loop appends every handle the
      iterator still has to come, in order. */
  method FinishReadOnlyDispatch(it: SnapshotIterator, notified: seq<object>)
    returns (all: seq<object>)
    requires it.Valid()
    modifies it.inner
    ensures it.Valid() && it.Remaining() == []
    ensures all == notified + old(it.Remaining())
  {
    all := notified;
    ghost var total := notified + it.Remaining();
    while it.HasNext()
      invariant it.Valid()
      invariant total == all + it.Remaining()
      decreases |it.Remaining()|
    {
      all := ReadOnlyStep(it, total, all);
    }
  }

  /** One turn of a dispatch over the read-only iterator: next() and notify
      the handle it returns. */
  method ReadOnlyStep(it: SnapshotIterator, ghost total: seq<object>, notified: seq<object>)
    returns (notifiedNow: seq<object>)
    requires it.Valid() && it.Remaining() != []
    requires total == notified + it.Remaining()
    modifies it.inner
    ensures it.Valid() && total == notifiedNow + it.Remaining()
    ensures |it.Remaining()| < |old(it.Remaining())|
  {
    ghost var ahead := it.Remaining();
    var r := it.Next();
    notifiedNow := notified + [r.value];
    assert notified + ahead == notifiedNow + it.Remaining();
  }

  /** A second dispatch over the read-only iterator whose first listener
      tries remove() through it: refused. */
  method RemoveThroughSecondIterator(reg: SingleThreadedRegistrar) returns (refused: Outcome)
    requires reg.Valid() && reg.Registered() != []
    ensures refused == Thrown(UnsupportedOperation)
  {
    var second := reg.ReadOnlyIterator();
    var r := second.Next();
    refused := second.Remove();
  }
}
