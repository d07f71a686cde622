/** How the weak registrar behaves in use: a dispatch over its iterator,
    mutations made while a dispatch is in progress, and the collector
    clearing a listener that nobody else holds. */
module WeakScenarios {
  import opened Exceptions
  import opened RegistrarContract
  import opened WeakRefs
  import opened WeakSingleThreaded

  /** hasNext() on an iterator over `reg` leaves `reg` valid with the same
      listeners. */
  method HasNextOver(ghost reg: WeakSingleThreadedRegistrar, it: WeakIterator) returns (more: bool)
    requires it.Valid() && reg.Valid() && reg.queue == it.queue
    modifies it, it.list.elems, it.queue
    ensures it.Valid() && it.Remaining() == old(it.Remaining())
    ensures more <==> it.Remaining() != []
    ensures reg.Valid() && reg.Registered() == old(reg.Registered())
  {
    more := it.HasNext();
    assert Targets(reg.current.elems) == old(Targets(reg.current.elems));
    assert old(reg.queue.items) <= reg.queue.items;
  }

  /** next() on an iterator over `reg` leaves `reg` valid with the same
      listeners. */
  method NextOver(ghost reg: WeakSingleThreadedRegistrar, it: WeakIterator) returns (r: Result<object>)
    requires it.Valid() && reg.Valid() && reg.queue == it.queue
    modifies it, it.list.elems, it.queue
    ensures it.Valid()
    ensures old(it.Remaining()) != [] ==> r.Value? && old(it.Remaining()) == [r.value] + it.Remaining()
    ensures old(it.Remaining()) == [] ==> r == Failure(NoSuchElement) && it.Remaining() == []
    ensures reg.Valid() && reg.Registered() == old(reg.Registered())
  {
    r := it.Next();
    assert Targets(reg.current.elems) == old(Targets(reg.current.elems));
    assert old(reg.queue.items) <= reg.queue.items;
  }

  /** One turn of a dispatch: next() and notify the listener it returns,
      then hasNext() for the following turn. What has been notified followed
      by what the iterator has left stays the whole dispatch. */
  method Step(ghost reg: WeakSingleThreadedRegistrar, it: WeakIterator, ghost total: seq<object>,
              notified: seq<object>)
    returns (notifiedNow: seq<object>, more: bool)
    requires it.Valid() && it.Remaining() != [] && reg.Valid() && reg.queue == it.queue
    requires total == notified + it.Remaining()
    modifies it, it.list.elems, it.queue
    ensures it.Valid() && total == notifiedNow + it.Remaining()
    ensures |notifiedNow| == |notified| + 1
    ensures more <==> it.Remaining() != []
    ensures reg.Valid() && reg.Registered() == old(reg.Registered())
  {
    ghost var ahead := it.Remaining();
    var next := NextOver(reg, it);
    notifiedNow := notified + [next.value];
    assert notified + ahead == notifiedNow + it.Remaining();
    more := HasNextOver(reg, it);
  }

  /** A dispatch: the caller's for-each loop over a WeakIterator taken from
      `reg`, notifying every listener it produces. The references it
      enqueues on the way leave `reg` valid with the same listeners. */
  method Dispatch(ghost reg: WeakSingleThreadedRegistrar, it: WeakIterator) returns (notified: seq<object>)
    requires it.Valid() && reg.Valid() && reg.queue == it.queue
    modifies it, it.list.elems, it.queue
    ensures it.Valid() && it.Remaining() == []
    ensures notified == old(it.Remaining())
    ensures reg.Valid() && reg.Registered() == old(reg.Registered())
  {
    notified := [];
    ghost var total := it.Remaining();
    var more := HasNextOver(reg, it);
    while more
      invariant it.Valid() && total == notified + it.Remaining()
      invariant more <==> it.Remaining() != []
      invariant reg.Valid() && reg.Registered() == old(reg.Registered())
      decreases |it.Remaining()|
    {
      notified, more := Step(reg, it, total, notified);
    }
  }

  /** A full notification pass: every registered listener is notified, in
      registration order, and the registrar stays valid with the same
      listeners. */
  method Notify(reg: WeakSingleThreadedRegistrar) returns (notified: seq<object>)
    requires reg.Valid()
    modifies reg.current.elems, reg.queue
    ensures reg.Valid() && reg.Registered() == old(reg.Registered())
    ensures notified == old(reg.Registered())
  {
    var it := reg.Iterator();
    notified := Dispatch(reg, it);
  }

  /** removeListener while an iterator exists: the iterator, over this
      registrar's list or an older one, still has exactly the same
      listeners to produce. */
  method RemoveWhileIterating(reg: WeakSingleThreadedRegistrar, it: WeakIterator, victim: object?)
    returns (outcome: Outcome)
    requires reg.Valid() && it.Valid()
    modifies reg, reg.current.elems, reg.queue
    ensures reg.Valid() && reg.queue == old(reg.queue)
    ensures victim == null ==> reg.Registered() == old(reg.Registered())
    ensures victim != null ==> reg.Registered() == Deregister<object>(old(reg.Registered()), victim)
    ensures forall e <- reg.current.elems :: e in old(reg.current.elems)
    ensures it.Valid() && it.Remaining() == old(it.Remaining())
  {
    ghost var ts := Targets(it.list.elems);
    outcome := reg.RemoveListener(victim);
    assert forall j | 0 <= j < |ts| :: Targets(it.list.elems)[j] == ts[j];
    assert Targets(it.list.elems) == ts;
  }

  /** addListener while an iterator exists: the iterator still has exactly
      the same listeners to produce. */
  method AddWhileIterating(reg: WeakSingleThreadedRegistrar, it: WeakIterator, added: object?)
    returns (outcome: Outcome)
    requires reg.Valid() && it.Valid()
    modifies reg, reg.current.elems, reg.queue
    ensures reg.Valid() && reg.queue == old(reg.queue)
    ensures added == null ==> reg.Registered() == old(reg.Registered())
    ensures added != null ==> reg.Registered() == Register<object>(old(reg.Registered()), added)
    ensures forall e <- reg.current.elems :: e in old(reg.current.elems) || fresh(e)
    ensures it.Valid() && it.Remaining() == old(it.Remaining())
  {
    ghost var ts := Targets(it.list.elems);
    outcome := reg.AddListener(added);
    assert forall j | 0 <= j < |ts| :: Targets(it.list.elems)[j] == ts[j];
    assert Targets(it.list.elems) == ts;
  }

  /** Any iterator already taken is untouched by later add, clear and
      remove calls: it still has exactly the same listeners to produce. */
  method MutationsLeaveIteratorAlone(reg: WeakSingleThreadedRegistrar, it: WeakIterator,
                                     x: object?, y: object?)
    requires reg.Valid() && it.Valid()
    modifies reg, reg.current.elems, reg.queue
    ensures reg.Valid() && reg.Registered() == []
    ensures it.Valid() && it.Remaining() == old(it.Remaining())
  {
    var outcome := AddWhileIterating(reg, it, x);
    reg.Clear();
    outcome := RemoveWhileIterating(reg, it, y);
  }

  /** Atomic dispatch: a listener notified first de-registers `victim`;
      the dispatch in progress still notifies every listener registered
      when it began, and the registrar is left with the de-registered
      list, which the next dispatch notifies (see Notify). */
  method RemoveDuringDispatch(reg: WeakSingleThreadedRegistrar, victim: object)
    returns (first: seq<object>)
    requires reg.Valid() && reg.Registered() != []
    modifies reg, reg.current.elems, reg.queue
    ensures reg.Valid()
    ensures first == old(reg.Registered())
    ensures reg.Registered() == Deregister<object>(old(reg.Registered()), victim)
  {
    var it := reg.Iterator();
    var r := NextOver(reg, it);
    var outcome := RemoveWhileIterating(reg, it, victim);
    var rest := Dispatch(reg, it);
    first := [r.value] + rest;
  }

  /** Atomic dispatch, for adding: a listener registered by the first
      listener notified is not notified by the dispatch in progress, and
      is the last of the registrar's listeners afterwards. */
  method AddDuringDispatch(reg: WeakSingleThreadedRegistrar, added: object)
    returns (first: seq<object>)
    requires reg.Valid() && reg.Registered() != []
    modifies reg, reg.current.elems, reg.queue
    ensures reg.Valid()
    ensures first == old(reg.Registered())
    ensures reg.Registered() == Register<object>(old(reg.Registered()), added)
  {
    var it := reg.Iterator();
    var r := NextOver(reg, it);
    var outcome := AddWhileIterating(reg, it, added);
    var rest := Dispatch(reg, it);
    first := [r.value] + rest;
  }

  /** The collector reclaims `h` while a dispatch over the registrar's
      list is in progress: every reference to `h` is cleared, so neither
      the registrar nor the iterator has `h` any more. The iterator's
      strong reference keeps the listener it holds from being reclaimed,
      hence `h` is not that one. */
  method Collected(reg: WeakSingleThreadedRegistrar, it: WeakIterator, h: object)
    requires reg.Valid() && it.Valid() && it.list == reg.current && it.nextRef != h
    modifies reg.current.elems
    ensures reg.Valid() && reg.Registered() == Deregister<object>(old(reg.Registered()), h)
    ensures it.Valid() && it.Remaining() == Deregister<object>(old(it.Remaining()), h)
  {
    var es := reg.current.elems;
    ghost var ts := Targets(es);
    ghost var ahead := it.Remaining();
    assert ahead == Ahead(ts, it.index, it.len, it.nextRef);
    Collect(h, es);
    ghost var us := Targets(es);
    LiveCleared(ts, us, h);
    DeregisterDistinct(Live(ts), h);
    assert Attached(es, reg.queue) && Pending(reg.queue);
    assert reg.Registered() == Live(us);
    assert it.Valid();
    AheadCleared(ts, us, it.index, it.len, it.nextRef, h);
    assert it.Remaining() == Ahead(us, it.index, it.len, it.nextRef);
  }

  /** The first turn of a dispatch over a non-empty registrar: iterator(),
      then next(). The iterator then holds the head of what it has left, if
      anything. */
  method BeginDispatch(reg: WeakSingleThreadedRegistrar) returns (it: WeakIterator, first: object)
    requires reg.Valid() && reg.Registered() != []
    modifies reg.current.elems, reg.queue
    ensures fresh(it) && it.list == reg.current && it.queue == reg.queue && it.Valid()
    ensures old(reg.Registered()) == [first] + it.Remaining()
    ensures it.nextRef == null <==> it.Remaining() == []
    ensures it.nextRef != null ==> it.nextRef == it.Remaining()[0]
    ensures reg.Valid() && reg.Registered() == old(reg.Registered())
  {
    it := reg.Iterator();
    var r := NextOver(reg, it);
    first := r.value;
  }

  /** A fresh registrar after adding each of hs in turn. */
  method RegisterAll(hs: seq<object>) returns (reg: WeakSingleThreadedRegistrar)
    requires Distinct(hs)
    ensures fresh(reg) && fresh(reg.current) && fresh(reg.queue)
    ensures forall i | 0 <= i < |reg.current.elems| :: fresh(reg.current.elems[i])
    ensures reg.Valid() && reg.Registered() == hs
  {
    reg := new WeakSingleThreadedRegistrar();
    assert hs[..0] == [];
    var k := 0;
    while k < |hs|
      invariant k <= |hs|
      invariant fresh(reg) && fresh(reg.current) && fresh(reg.queue)
      invariant forall i | 0 <= i < |reg.current.elems| :: fresh(reg.current.elems[i])
      invariant reg.Valid() && reg.Registered() == hs[..k]
    {
      ghost var before := reg.current.elems;
      label Add:
      var outcome := reg.AddListener(hs[k]);
      var es := reg.current.elems;
      assert forall i | 0 <= i < |es| :: es[i] in before || fresh@Add(es[i]);
      assert hs[k] !in hs[..k];
      assert hs[..k + 1] == hs[..k] + [hs[k]];
      k := k + 1;
    }
    assert hs[..k] == hs;
  }

  /** With h0, h1 and h2 registered, a dispatch has notified h0 and holds
      h1 when h2 is reclaimed: that dispatch notifies h0 and h1 only, and
      the next dispatch notifies h0 and h1. */
  method CollectedBeforeReached(h0: object, h1: object, h2: object)
    returns (notified: seq<object>, reg: WeakSingleThreadedRegistrar)
    requires h0 != h1 && h1 != h2 && h0 != h2
    ensures notified == [h0, h1]
    ensures reg.Valid() && reg.Registered() == [h0, h1]
  {
    var it, first;
    reg, it, first := FirstOfThree(h0, h1, h2);
    var rest := CollectedMidDispatch(reg, it, h2);
    DropLast(h0, h1, h2);
    notified := [first] + rest;
  }

  /** De-registering the last of three distinct handles, from all three or
      from the last two. */
  lemma DropLast<T>(a: T, b: T, c: T)
    requires a != b && b != c && a != c
    ensures Deregister([b, c], c) == [b] && Deregister([a, b, c], c) == [a, b]
  {
    DeregisterPair(b, c);
    DeregisterCons(a, [b, c], c);
    assert [a] + [b, c] == [a, b, c];
  }

  /** A listener other than the one the iterator holds is reclaimed part way
      through a dispatch: the rest of that dispatch skips it, and it is no
      longer registered. */
  method CollectedMidDispatch(reg: WeakSingleThreadedRegistrar, it: WeakIterator, h: object)
    returns (rest: seq<object>)
    requires reg.Valid() && it.Valid() && it.list == reg.current && it.queue == reg.queue
    requires it.nextRef != h
    modifies it, reg.current.elems, reg.queue
    ensures rest == Deregister<object>(old(it.Remaining()), h)
    ensures reg.Valid() && reg.Registered() == Deregister<object>(old(reg.Registered()), h)
  {
    Collected(reg, it, h);
    rest := Dispatch(reg, it);
  }

  /** A fresh registrar holding h0, h1 and h2, and a dispatch over it that
      has returned h0 and holds h1. */
  method FirstOfThree(h0: object, h1: object, h2: object)
    returns (reg: WeakSingleThreadedRegistrar, it: WeakIterator, first: object)
    requires h0 != h1 && h1 != h2 && h0 != h2
    ensures fresh(reg) && fresh(reg.current) && fresh(reg.queue) && fresh(it)
    ensures forall i | 0 <= i < |reg.current.elems| :: fresh(reg.current.elems[i])
    ensures reg.Valid() && reg.Registered() == [h0, h1, h2]
    ensures it.list == reg.current && it.queue == reg.queue && it.Valid()
    ensures first == h0 && it.Remaining() == [h1, h2] && it.nextRef == h1
  {
    reg := RegisterAll([h0, h1, h2]);
    ghost var es := reg.current.elems;
    assert forall i | 0 <= i < |es| :: fresh(es[i]);
    it, first := BeginDispatch(reg);
    assert [h0, h1, h2][0] == first && [h0, h1, h2][1..] == [h1, h2];
    assert reg.current.elems == es;
  }
}
