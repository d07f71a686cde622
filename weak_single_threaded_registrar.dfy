/** WeakSingleThreadedRegistrar: a copy-on-write list of weak references
    to listeners, plus the reference queue they are registered with. A
    listener whose reference has been cleared is no longer registered; the
    cleared references are enqueued by whoever finds them (add and remove
    scans, iterators, the collector) and dropped from the list the next time
    the queue is drained. */
module WeakSingleThreaded {
  import opened Exceptions
  import opened RegistrarContract
  import opened Lists
  import opened WeakRefs

  /** What may happen to references registered with `q`, and to `q`,
      while something scans them: a target never changes, a reference once
      enqueued stays so, one enqueued now has been cleared and is on `q`,
      and `q` only grows, by cleared references of `es`. */
  twostate predicate Evolved(es: seq<WeakEntry>, q: RefQueue)
    reads es, q
  {
    && (forall e <- es ::
          && e.target == old(e.target)
          && (old(e.enqueued) ==> e.enqueued)
          && (e.enqueued && !old(e.enqueued) ==> e.target == null && e in q.items))
    && old(q.items) <= q.items
    && (forall x <- q.items :: x in old(q.items) || (x in es && x.enqueued && x.target == null))
  }

  /** Draining the queue from a well-formed list keeps exactly its
      unqueued references, and with them every listener it registers. */
  lemma Drained(s: seq<WeakEntry>, q: seq<WeakEntry>)
    requires forall e <- s :: e.Valid() && (e.enqueued ==> e in q)
    requires forall e <- q :: e.enqueued
    ensures Without(s, q) == Kept(s, null)
    ensures Live(Targets(Without(s, q))) == Live(Targets(s))
    ensures forall e <- Without(s, q) :: !e.enqueued
  {
    WithoutQueued(s, q);
    LiveUnqueued(s);
  }

  /** Every reference of `es` is registered with `q`, and one enqueued has
      been cleared and is still waiting on `q`. */
  ghost predicate Attached(es: seq<WeakEntry>, q: RefQueue)
    reads es, q
  {
    forall e <- es :: e.queue == q && e.Valid() && (e.enqueued ==> e in q.items)
  }

  /** The queue holds only enqueued, cleared references. */
  ghost predicate Pending(q: RefQueue)
    reads q, q.items
  {
    forall e <- q.items :: e.enqueued && e.target == null
  }

  /** Every cleared reference of `es` has been enqueued. */
  ghost predicate Swept(es: seq<WeakEntry>)
    reads es
  {
    forall e <- es :: e.target == null ==> e.enqueued
  }

  /** No reference of `es` has been cleared. */
  ghost predicate Alive(es: seq<WeakEntry>)
    reads es
  {
    forall e <- es :: e.target != null
  }

  /** A fresh, unqueued reference joins a list attached to its queue. */
  lemma AttachedSnoc(es: seq<WeakEntry>, e: WeakEntry, q: RefQueue)
    requires Attached(es, q) && e.queue == q && !e.enqueued
    ensures Attached(es + [e], q)
  {
  }

  /** A fresh, live reference joins a swept list. */
  lemma SweptSnoc(es: seq<WeakEntry>, e: WeakEntry)
    requires Swept(es) && e.target != null
    ensures Swept(es + [e])
  {
  }

  /** Appending a new, live, unqueued reference to an unregistered listener:
      the list stays well-formed and swept, and the listener joins the end
      of the live targets. */
  lemma ExtendedList(es: seq<WeakEntry>, e: WeakEntry, q: RefQueue)
    requires Distinct(es) && Attached(es, q) && Swept(es) && e !in es
    requires e.queue == q && !e.enqueued && e.target != null
    requires e.target !in Live(Targets(es)) && Distinct(Live(Targets(es)))
    ensures Distinct(es + [e]) && Attached(es + [e], q) && Swept(es + [e])
    ensures Live(Targets(es + [e])) == Live(Targets(es)) + [e.target]
    ensures Distinct(Live(Targets(es + [e])))
  {
    DistinctCons(e, es);
    TargetsConcat(es, [e]);
    assert Targets([e]) == [e.target];
    LiveConcat(Targets(es), [e.target]);
    assert Live([e.target]) == [e.target];
    AttachedSnoc(es, e, q);
    SweptSnoc(es, e);
    assert Live(Targets(es + [e])) == Register(Live(Targets(es)), e.target);
  }

  /** Removing (with ArrayList.remove) the first reference to `h` from a
      well-formed list: the list stays well-formed and `h` is de-registered. */
  lemma CutList(es: seq<WeakEntry>, i: nat, h: object, q: RefQueue)
    requires Distinct(es) && Attached(es, q) && Distinct(Live(Targets(es)))
    requires i < |es| && es[i].target == h && forall e <- es[..i] :: e.target != h
    ensures RemoveFirst(es, es[i]) == es[..i] + es[i + 1..]
    ensures Distinct(RemoveFirst(es, es[i])) && Attached(RemoveFirst(es, es[i]), q)
    ensures Live(Targets(RemoveFirst(es, es[i]))) == Deregister(Live(Targets(es)), h)
    ensures Distinct(Live(Targets(RemoveFirst(es, es[i]))))
  {
    assert es[i] !in es[..i] by {
      forall j | 0 <= j < i ensures es[j] != es[i] {
      }
    }
    RemoveFirstAt(es, i);
    RemoveFirstDeregisters(es, es[i]);
    LiveRemoveAt(es, i, h);
    DeregisterDistinct(Live(Targets(es)), h);
  }

  /** A swept list, drained of its enqueued references, is alive. */
  lemma SweptKept(es: seq<WeakEntry>)
    requires Swept(es)
    ensures Alive(Kept(es, null))
  {
  }

  /** The scan addListener and removeListener share: walks the list up to
      the first reference to `h`, enqueueing every cleared reference on the
      way; `i` is where it stopped (|es| when no reference is to `h`). */
  method Sweep(es: seq<WeakEntry>, queue: RefQueue, h: object) returns (i: nat)
    requires forall e <- es :: e.queue == queue
    modifies es, queue
    ensures i <= |es| && (i < |es| ==> es[i].target == h)
    ensures forall e <- es[..i] :: e.target != h && (e.target == null ==> e.enqueued)
    ensures Evolved(es, queue)
  {
    i := 0;
    while i < |es| && es[i].target != h
      invariant i <= |es|
      invariant forall e <- es[..i] :: e.target != h && (e.target == null ==> e.enqueued)
      invariant Evolved(es, queue)
    {
      if es[i].target == null {
        var _ := es[i].Enqueue();
      }
      i := i + 1;
    }
  }

  /** What an iterator over targets `ts` captured up to `len` still has to
      return when positioned at `index`, holding `held` when non-null. */
  function Ahead(ts: seq<object?>, index: nat, len: nat, held: object?): seq<object>
    requires index <= len <= |ts| && (held != null ==> index < len)
  {
    if held == null then Live(ts[index..len]) else [held] + Live(ts[index + 1..len])
  }

  /** Moving from `from` to `i` passed only cleared targets, and stopped
      either at `len` holding nothing or at a live target that it holds. */
  ghost predicate Skipped(ts: seq<object?>, from: nat, i: nat, len: nat, held: object?)
  {
    && from <= i <= len <= |ts|
    && (forall j | from <= j < i :: ts[j] == null)
    && (i < len ==> held != null && held == ts[i])
    && (i == len ==> held == null)
  }

  /** Skipping cleared targets does not change what is still to come. */
  lemma AheadSkipped(ts: seq<object?>, from: nat, i: nat, len: nat, held: object?)
    requires Skipped(ts, from, i, len, held)
    ensures Ahead(ts, i, len, held) == Ahead(ts, from, len, null)
  {
    LiveSkip(ts, from, i, len);
    if held != null {
      LiveAt(ts, i, len);
    }
  }

  /** The collector clearing the references to `h` removes `h` from what
      an iterator has still to return, unless the iterator holds `h`. */
  lemma AheadCleared(ts: seq<object?>, us: seq<object?>, index: nat, len: nat, held: object?, h: object)
    requires index <= len <= |ts| && (held != null ==> index < len) && held != h
    requires Cleared(ts, us, h)
    ensures Ahead(us, index, len, held) == Deregister(Ahead(ts, index, len, held), h)
  {
    var from := if held == null then index else index + 1;
    LiveCleared(ts[from..len], us[from..len], h);
    if held != null {
      DeregisterCons(held, Live(ts[from..len]), h);
    }
  }

  /** The loop of ensureStrongRef(): from position from, enqueues each
      cleared reference until one whose target is still alive, or len. */
  method Advance(es: seq<WeakEntry>, ghost queue: RefQueue, from: nat, len: nat) returns (i: nat, held: object?)
    requires from <= len <= |es|
    requires forall e <- es :: e.queue == queue
    modifies es, queue
    ensures Targets(es) == old(Targets(es))
    ensures Skipped(Targets(es), from, i, len, held)
    ensures forall j | from <= j < i :: es[j].enqueued
    ensures Evolved(es, queue)
  {
    ghost var ts := Targets(es);
    i, held := from, null;
    while i < len && held == null
      invariant from <= i <= len
      invariant held != null ==> i < len && held == ts[i]
      invariant forall j | from <= j < i :: ts[j] == null && es[j].enqueued
      invariant Evolved(es, queue)
      invariant Targets(es) == ts
      decreases len - i, if held == null then 1 else 0
    {
      held := es[i].target;
      assert held == ts[i];
      if held == null {
        var _ := es[i].Enqueue();
        assert forall j | 0 <= j < |ts| :: Targets(es)[j] == ts[j];
        i := i + 1;
      }
    }
  }

  /** One turn of the processQueue() loop: ArrayList.remove of the next
      polled reference from the list filtered so far filters that one out
      too. */
  method DrainOne(result: ArrayList<WeakEntry>, ghost s: seq<WeakEntry>, ghost done: seq<WeakEntry>, x: WeakEntry)
    requires Distinct(s) && result.elems == Without(s, done)
    modifies result
    ensures result.elems == Without(s, done + [x])
  {
    WithoutSnoc(s, done, x);
    RemoveFirstDeregisters(Without(s, done), x);
    var _ := result.Remove(x);
  }

  /** The loop of processQueue(): removes each polled reference from the
      list, working on a copy made before the first removal. */
  method DrainQueue(list: ArrayList<WeakEntry>, queue: RefQueue) returns (result: ArrayList<WeakEntry>)
    requires Distinct(list.elems)
    modifies queue
    ensures queue.items == []
    ensures result.elems == Without(list.elems, old(queue.items))
    ensures old(queue.items) == [] ==> result == list
    ensures old(queue.items) != [] ==> fresh(result)
  {
    ghost var s, q := list.elems, queue.items;
    ghost var done: seq<WeakEntry> := [];
    result := list;
    var copied := false;
    var expired := queue.Poll();
    WithoutNothing(s);
    while expired.Some?
      invariant expired.Some? ==> q == done + [expired.value] + queue.items
      invariant expired.None? ==> q == done && queue.items == []
      invariant copied <==> done != []
      invariant !copied ==> result == list
      invariant copied ==> fresh(result)
      invariant result.elems == Without(s, done)
      decreases |q| - |done|
    {
      if !copied {
        result := new ArrayList.Copy(list);
        copied := true;
      }
      DrainOne(result, s, done, expired.value);
      done := done + [expired.value];
      ghost var pending := queue.items;
      assert q == done + pending;
      expired := queue.Poll();
      assert expired.Some? ==> pending == [expired.value] + queue.items;
    }
  }

  class WeakSingleThreadedRegistrar {
    /** mRegistrar: the current list of references, never mutated once published. */
    var current: ArrayList<WeakEntry>
    /** mListenerReferenceQueue. */
    var queue: RefQueue

    /** The list holds each reference once, each registered with this
        registrar's queue, and a reference of the list that has been
        enqueued is still waiting on the queue; the queue holds only
        enqueued, cleared references. */
    ghost predicate Wellformed()
      reads this, current, queue, current.elems, queue.items
    {
      Distinct(current.elems) && Attached(current.elems, queue) && Pending(queue)
    }

    ghost predicate Valid()
      reads this, current, queue, current.elems, queue.items
    {
      Wellformed() && Distinct(Registered())
    }

    /** The listeners registered now: the live targets of the list, in
        registration order. */
    ghost function Registered(): seq<object>
      reads this, current, current.elems
    {
      Live(Targets(current.elems))
    }

    constructor ()
      ensures Valid() && Registered() == [] && current.elems == [] && queue.items == []
      ensures fresh(current) && fresh(queue)
    {
      current := new ArrayList();
      queue := new RefQueue();
    }

    /** processQueue(): polls every reference off the queue and removes it
        from the list, copying the list once, before the first removal. */
    method ProcessQueue()
      requires Wellformed()
      modifies this, queue
      ensures Wellformed() && queue == old(queue) && queue.items == []
      ensures current.elems == old(Kept(current.elems, null))
      ensures forall e <- current.elems :: e in old(current.elems) && !e.enqueued
      ensures Registered() == old(Registered())
      ensures old(queue.items) == [] ==> current == old(current)
      ensures old(queue.items) != [] ==> fresh(current)
      ensures unchanged(old(current))
    {
      ghost var s, q := current.elems, queue.items;
      Drained(s, q);
      ghost var kept, ts := Kept(s, null), Targets(Kept(s, null));
      current := DrainQueue(current, queue);
      assert current.elems == kept;
      assert Targets(current.elems) == ts;
    }

    /** The scan of addListener and removeListener, over the current list:
        stops at the reference to `listener`, if any (`i`), having enqueued
        every cleared reference before it. */
    method Scan(listener: object) returns (i: nat)
      requires Valid()
      modifies current.elems, queue
      ensures Valid() && Registered() == old(Registered())
      ensures i <= |current.elems| && (i < |current.elems| ==> current.elems[i].target == listener)
      ensures forall e <- current.elems[..i] :: e.target != listener
      ensures Swept(current.elems[..i])
      ensures forall e <- current.elems :: e.target == old(e.target)
    {
      var es := current.elems;
      ghost var ts := Targets(es);
      i := Sweep(es, queue, listener);
      assert Targets(es) == ts;
    }

    /** A copy of the list with a new reference to `listener` appended
        becomes the current list. */
    method Extend(listener: object) returns (ghost entry: WeakEntry)
      requires Valid() && listener !in Registered() && Swept(current.elems)
      modifies this
      ensures fresh(entry) && entry.target == listener && !entry.enqueued
      ensures current.elems == old(current.elems) + [entry]
      ensures Wellformed() && Swept(current.elems)
      ensures Registered() == old(Registered()) + [listener] && Distinct(Registered())
      ensures fresh(current) && queue == old(queue) && unchanged(old(current))
    {
      var es := current.elems;
      ghost var r0 := Registered();
      current := new ArrayList.Copy(current);
      var reference := new WeakEntry(listener, queue);
      current.Add(reference);
      entry := reference;
      assert Attached(es, queue) && Swept(es) && Pending(queue) && Live(Targets(es)) == r0;
      ExtendedList(es, entry, queue);
    }

    /** The end of addListener for a listener not registered yet: a copy of
        the list with a new reference to it appended, then the queue
        drained. */
    method Append(listener: object) returns (ghost entry: WeakEntry)
      requires Valid() && forall e <- current.elems :: e.target != listener
      requires Swept(current.elems)
      modifies this, queue
      ensures Valid() && Registered() == old(Registered()) + [listener]
      ensures fresh(current) && queue == old(queue) && queue.items == []
      ensures fresh(entry) && entry.target == listener
      ensures current.elems == old(Kept(current.elems, null)) + [entry]
      ensures Alive(current.elems)
      ensures unchanged(old(current))
    {
      ghost var es := current.elems;
      ghost var k0 := Kept(es, null);
      NotLive(es, listener);
      entry := Extend(listener);
      assert Kept(es, null) == k0;
      KeptSnoc(es, entry);
      SweptKept(current.elems);
      ProcessQueue();
    }

    /** The scan and append steps of addListener, for a listener that is
        not null: it returns at a reference to the listener; failing that,
        appends a new reference to a copy of the list and drains the
        queue. */
    method Include(listener: object)
      requires Valid()
      modifies this, queue, current.elems
      ensures Valid() && Registered() == Register<object>(old(Registered()), listener)
      ensures listener in old(Registered()) ==> current == old(current)
      ensures listener !in old(Registered()) ==>
                && fresh(current) && queue.items == [] && Alive(current.elems)
                && |current.elems| > 0 && fresh(current.elems[|current.elems| - 1])
                && current.elems[|current.elems| - 1].target == listener
                && current.elems[..|current.elems| - 1] == Kept(old(current.elems), null)
      ensures forall e <- current.elems :: e in old(current.elems) || fresh(e)
      ensures forall e <- old(current.elems) :: e.target == old(e.target)
      ensures unchanged(old(current)) && queue == old(queue)
    {
      var i := Scan(listener);
      if i < |current.elems| {
        assert Targets(current.elems)[i] == listener;
        return;
      }
      assert current.elems[..i] == current.elems;
      ghost var es := current.elems;
      ghost var entry := Append(listener);
      assert current.elems[..|current.elems| - 1] == Kept(es, null);
    }

    /** addListener(listener): refuses null; otherwise registers it as
        Include does (which also states the shape of the new list). */
    method AddListener(listener: object?) returns (outcome: Outcome)
      requires Valid()
      modifies this, queue, current.elems
      ensures Valid()
      ensures listener == null ==>
                && outcome == Thrown(IllegalArgument) && Registered() == old(Registered())
                && current == old(current) && current.elems == old(current.elems)
                && queue.items == old(queue.items)
      ensures listener != null ==>
                outcome == Done && Registered() == Register<object>(old(Registered()), listener)
      ensures listener == null || listener in old(Registered()) ==> current == old(current)
      ensures listener != null && listener !in old(Registered()) ==>
                && fresh(current) && queue.items == [] && Alive(current.elems)
                && |current.elems| > 0 && fresh(current.elems[|current.elems| - 1])
                && current.elems[|current.elems| - 1].target == listener
                && current.elems[..|current.elems| - 1] == Kept(old(current.elems), null)
      ensures forall e <- current.elems :: e in old(current.elems) || fresh(e)
      ensures forall e <- old(current.elems) :: e.target == old(e.target)
      ensures unchanged(old(current)) && queue == old(queue)
    {
      if listener == null {
        return Thrown(IllegalArgument);
      }
      Include(listener);
      outcome := Done;
    }

    /** The removal step of removeListener: a copy of the list without the
        reference the scan stopped at becomes the current list. */
    method Cut(i: nat, listener: object)
      requires Valid() && i < |current.elems| && current.elems[i].target == listener
      requires forall e <- current.elems[..i] :: e.target != listener
      modifies this
      ensures Valid() && Registered() == Deregister<object>(old(Registered()), listener)
      ensures current.elems == old(current.elems[..i] + current.elems[i + 1..])
      ensures forall e <- old(current.elems[i + 1..]) :: e.target != listener
      ensures fresh(current) && queue == old(queue) && unchanged(old(current))
    {
      var es := current.elems;
      var theWeakRef := es[i];
      ghost var r0 := Registered();
      current := new ArrayList.Copy(current);
      var _ := current.Remove(theWeakRef);
      assert Attached(es, queue) && Pending(queue) && Live(Targets(es)) == r0;
      CutList(es, i, listener, queue);
      LiveRemoveAt(es, i, listener);
    }

    /** The scan and removal steps of removeListener: afterwards the
        references the registrar keeps, once the queue is drained, are the
        old ones that are neither enqueued nor refer to `listener`. */
    method Detach(listener: object)
      requires Valid()
      modifies this, current.elems, queue
      ensures Valid() && Registered() == Deregister<object>(old(Registered()), listener)
      ensures Kept(current.elems, null) == Kept(old(current.elems), listener)
      ensures forall e <- old(current.elems) :: e.target == old(e.target)
      ensures queue == old(queue) && unchanged(old(current))
    {
      ghost var es := current.elems;
      var i := Scan(listener);
      if i < |current.elems| {
        assert es[i].Valid();
        Cut(i, listener);
        KeptCut(es, i, listener);
      } else {
        assert es[..i] == es;
        NotLive(es, listener);
        KeptWithoutTarget(es, listener);
      }
    }

    /** removeListener(listener): refuses null; otherwise scans the list,
        enqueueing cleared references, up to a reference to the listener;
        if there is one, a copy of the list without it becomes current; in
        every case the queue is then drained. */
    method RemoveListener(listener: object?) returns (outcome: Outcome)
      requires Valid()
      modifies this, queue, current.elems
      ensures Valid()
      ensures listener == null ==>
                && outcome == Thrown(IllegalArgument) && Registered() == old(Registered())
                && current == old(current) && current.elems == old(current.elems)
                && queue.items == old(queue.items)
      ensures listener != null ==>
                && outcome == Done && queue.items == []
                && Registered() == Deregister<object>(old(Registered()), listener)
                && current.elems == Kept(old(current.elems), listener)
      ensures forall e <- current.elems :: e in old(current.elems)
      ensures forall e <- old(current.elems) :: e.target == old(e.target)
      ensures unchanged(old(current)) && queue == old(queue)
    {
      if listener == null {
        return Thrown(IllegalArgument);
      }
      ghost var es := current.elems;
      Detach(listener);
      ghost var k := Kept(es, listener);
      ProcessQueue();
      assert Kept(es, listener) == k;
      outcome := Done;
    }

    /** clear(): a new empty list and a new queue. */
    method Clear()
      modifies this
      ensures Valid() && Registered() == [] && current.elems == [] && queue.items == []
      ensures fresh(current) && fresh(queue)
      ensures unchanged(old(current))
    {
      current := new ArrayList();
      queue := new RefQueue();
    }

    /** iterator(): a WeakIterator over the current list. Creating it
        already enqueues the cleared references ahead of the first live one. */
    method Iterator() returns (it: WeakIterator)
      requires Valid()
      modifies current.elems, queue
      ensures fresh(it) && it.list == current && it.queue == queue && it.Valid()
      ensures it.Remaining() == Registered() == old(Registered())
      ensures Valid() && Evolved(current.elems, queue)
    {
      ghost var es := current.elems;
      ghost var ts := Targets(es);
      it := new WeakIterator(current, queue);
      assert Targets(es) == ts;
      assert old(queue.items) <= queue.items;
    }
  }

  /** WeakIterator: walks the first `len` references of the list it was
      given, skipping (and enqueueing) cleared ones. `nextRef` is the strong
      reference it holds to the next listener it will return. */
  class WeakIterator {
    /** mWeakCollection. */
    const list: ArrayList<WeakEntry>
    /** mCollectionLen: the list's length when the iterator was made. */
    const len: nat
    /** mIndex. */
    var index: nat
    /** mNextRef. */
    var nextRef: object?
    /** The queue every reference of the list is registered with. */
    ghost const queue: RefQueue

    /** The cursor stays within the captured length, and a held strong
        reference belongs to the reference at `index`. */
    ghost predicate Cursor()
      reads this, list
    {
      && index <= len <= |list.elems| && (nextRef != null ==> index < len)
      && forall e <- list.elems :: e.queue == queue
    }

    /** Between calls the cursor either holds the next listener or has
        reached the captured length. */
    ghost predicate Valid()
      reads this, list
    {
      Cursor() && (nextRef == null ==> index == len)
    }

    /** The listeners this iterator has still to return: the one it holds,
        then the live targets of the rest of the captured part of the list. */
    ghost function Remaining(): seq<object>
      reads this, list, list.elems
      requires Cursor()
    {
      Ahead(Targets(list.elems), index, len, nextRef)
    }

    constructor (list: ArrayList<WeakEntry>, ghost queue: RefQueue)
      requires forall e <- list.elems :: e.queue == queue
      modifies list.elems, queue
      ensures this.list == list && this.queue == queue && len == |list.elems| && Valid()
      ensures Remaining() == old(Live(Targets(list.elems)))
      ensures Evolved(list.elems, queue)
    {
      this.list := list;
      this.queue := queue;
      len := |list.elems|;
      index := 0;
      nextRef := null;
      new;
      assert forall e <- list.elems :: e.target == old(e.target) && e.enqueued == old(e.enqueued);
      assert queue.items == old(queue.items);
      ghost var ts := Targets(list.elems);
      assert ts == old(Targets(list.elems)) && ts[0..len] == ts;
      var _ := EnsureStrongRef();
    }

    /** ensureStrongRef(): advances to the next reference whose target is
        still alive and holds that target, enqueueing the cleared references
        it passes; reports whether it holds one. */
    method EnsureStrongRef() returns (held: bool)
      requires Cursor()
      modifies this, list.elems, queue
      ensures Valid() && held == (nextRef != null)
      ensures Remaining() == old(Remaining())
      ensures forall j | old(index) <= j < index :: list.elems[j].enqueued
      ensures Evolved(list.elems, queue)
    {
      if nextRef != null {
        return true;
      }
      ghost var ts := Targets(list.elems);
      ghost var from := index;
      index, nextRef := Advance(list.elems, queue, index, len);
      AheadSkipped(ts, from, index, len, nextRef);
      held := nextRef != null;
    }

    /** hasNext(). */
    method HasNext() returns (r: bool)
      requires Valid()
      modifies this, list.elems, queue
      ensures Valid() && Remaining() == old(Remaining()) && Evolved(list.elems, queue)
      ensures r <==> Remaining() != []
    {
      r := EnsureStrongRef();
    }

    /** next(): the held listener, then advance to the following live one;
        NoSuchElementException when none is held. */
    method Next() returns (r: Result<object>)
      requires Valid()
      modifies this, list.elems, queue
      ensures Valid() && Evolved(list.elems, queue)
      ensures old(Remaining()) == [] ==>
                && r == Failure(NoSuchElement) && Remaining() == []
                && unchanged(this, queue) && unchanged(list.elems)
      ensures old(Remaining()) != [] ==>
                && r == Value(old(Remaining())[0])
                && Remaining() == old(Remaining())[1..]
                && old(Remaining()) == [r.value] + Remaining()
    {
      var strongRef := nextRef;
      if strongRef == null {
        return Failure(NoSuchElement);
      }
      nextRef := null;
      index := index + 1;
      var _ := EnsureStrongRef();
      r := Value(strongRef);
    }

    /** remove(): not supported. SingleThreaded.SnapshotIterator.Remove is
        the same refusal, the correction that registrar's iterator needs. */
    method Remove() returns (outcome: Outcome)
      ensures outcome == Thrown(UnsupportedOperation)
    {
      outcome := Thrown(UnsupportedOperation);
    }
  }
}
