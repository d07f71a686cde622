/** The part of java.lang.ref the weak registrar relies on: WeakReference
    objects registered with a ReferenceQueue, the queue itself, and the
    collector, which clears references to listeners nobody else holds.
    The collector is an environment action here: any reference may be
    cleared between two calls, and every property proved holds whichever
    references it clears. */
module WeakRefs {
  import opened RegistrarContract

  datatype Option<T> = None | Some(value: T)

  /** ReferenceQueue: the references enqueued and not yet polled, oldest
      first. */
  class RefQueue {
    var items: seq<WeakEntry>

    constructor ()
      ensures items == []
    {
      items := [];
    }

    /** poll(): removes and returns the oldest enqueued reference, or null. */
    method Poll() returns (r: Option<WeakEntry>)
      modifies this
      ensures old(items) == [] ==> r == None && items == []
      ensures old(items) != [] ==> r == Some(old(items)[0]) && items == old(items)[1..]
    {
      if items == [] {
        return None;
      }
      r := Some(items[0]);
      items := items[1..];
    }
  }

  /** WeakReference<LISTENER>: `target` is what get() returns (null once
      cleared); `enqueued` records that the reference has been put on its
      queue, which happens at most once in its life. */
  class WeakEntry {
    var target: object?
    const queue: RefQueue
    var enqueued: bool

    /** An enqueued reference has been cleared. */
    ghost predicate Valid()
      reads this
    {
      enqueued ==> target == null
    }

    constructor (referent: object, queue: RefQueue)
      ensures target == referent && this.queue == queue && !enqueued
    {
      target := referent;
      this.queue := queue;
      enqueued := false;
    }

    /** enqueue(): clears the reference and adds it to its queue, unless it
        was enqueued before; reports whether it was added now. */
    method Enqueue() returns (added: bool)
      modifies this, queue
      ensures target == null && enqueued
      ensures added == !old(enqueued)
      ensures queue.items == if added then old(queue.items) + [this] else old(queue.items)
    {
      target := null;
      if enqueued {
        return false;
      }
      enqueued := true;
      queue.items := queue.items + [this];
      added := true;
    }

    /** The collector clears the reference (its referent became weakly
        reachable); enqueueing it is a separate later step. */
    method Clear()
      modifies this
      ensures target == null && enqueued == old(enqueued)
    {
      target := null;
    }
  }

  /** What get() returns for each reference, position by position. */
  ghost function Targets(es: seq<WeakEntry>): (ts: seq<object?>)
    reads es
  {
    seq(|es|, i requires 0 <= i < |es| reads es => es[i].target)
  }

  /** The targets still alive, in order: the listeners a list of weak
      references still registers. */
  function Live(ts: seq<object?>): (r: seq<object>)
    ensures |r| <= |ts|
    ensures forall x <- r :: x in ts
    ensures forall x <- ts :: x != null ==> x in r
    decreases |ts|
  {
    if ts == [] then []
    else if ts[0] == null then Live(ts[1..])
    else [ts[0]] + Live(ts[1..])
  }

  lemma {:induction false} LiveConcat(a: seq<object?>, b: seq<object?>)
    ensures Live(a + b) == Live(a) + Live(b)
    decreases |a|
  {
    if a != [] {
      assert (a + b)[0] == a[0] && (a + b)[1..] == a[1..] + b;
      LiveConcat(a[1..], b);
    } else {
      assert a + b == b;
    }
  }

  /** Targets are read position by position, so they split like the list. */
  lemma TargetsConcat(a: seq<WeakEntry>, b: seq<WeakEntry>)
    ensures Targets(a + b) == Targets(a) + Targets(b)
  {
  }

  /** References neither enqueued nor (when `h` is given) referring to `h`:
      what the registrar keeps when it drops queued references and the one
      for a removed listener. */
  ghost function Kept(es: seq<WeakEntry>, h: object?): (r: seq<WeakEntry>)
    reads es
    ensures forall e <- r :: e in es && !e.enqueued && (h == null || e.target != h)
    ensures forall e <- es :: !e.enqueued && (h == null || e.target != h) ==> e in r
    ensures Distinct(es) ==> Distinct(r)
    decreases |es|
  {
    if es == [] then []
    else
      var rest := Kept(es[1..], h);
      DistinctCons(es[0], es[1..]);
      DistinctCons(es[0], rest);
      if !es[0].enqueued && (h == null || es[0].target != h) then [es[0]] + rest else rest
  }

  lemma {:induction false} KeptConcat(a: seq<WeakEntry>, b: seq<WeakEntry>, h: object?)
    ensures Kept(a + b, h) == Kept(a, h) + Kept(b, h)
    decreases |a|
  {
    if a != [] {
      assert (a + b)[0] == a[0] && (a + b)[1..] == a[1..] + b;
      KeptConcat(a[1..], b, h);
    } else {
      assert a + b == b;
    }
  }

  /** With no reference to `h` in the list, keeping the unqueued references
      and keeping those that also do not refer to `h` agree. */
  lemma {:induction false} KeptWithoutTarget(es: seq<WeakEntry>, h: object)
    requires forall e <- es :: e.target != h
    ensures Kept(es, h) == Kept(es, null)
    decreases |es|
  {
    if es != [] {
      KeptWithoutTarget(es[1..], h);
    }
  }

  /** The live targets of a list, split at its first reference. */
  lemma LiveTargetsCons(e: WeakEntry, rest: seq<WeakEntry>)
    ensures Live(Targets([e] + rest)) == (if e.target == null then [] else [e.target]) + Live(Targets(rest))
  {
    assert Targets([e] + rest) == [e.target] + Targets(rest);
    assert ([e.target] + Targets(rest))[1..] == Targets(rest);
  }

  /** Kept, split at the first reference. */
  lemma KeptCons(es: seq<WeakEntry>, h: object?)
    requires es != []
    ensures Kept(es, h) == if !es[0].enqueued && (h == null || es[0].target != h)
                          then [es[0]] + Kept(es[1..], h) else Kept(es[1..], h)
  {
  }

  /** Dropping queued (hence cleared) references loses no listener. */
  lemma {:induction false} LiveUnqueued(es: seq<WeakEntry>)
    requires forall e <- es :: e.Valid()
    ensures Live(Targets(Kept(es, null))) == Live(Targets(es))
    decreases |es|
  {
    if es != [] {
      var e, rest := es[0], es[1..];
      assert es == [e] + rest;
      LiveUnqueued(rest);
      LiveTargetsCons(e, rest);
      KeptCons(es, null);
      assert e.Valid();
      if !e.enqueued {
        LiveTargetsCons(e, Kept(rest, null));
      } else {
        assert Live(Targets(es)) == Live(Targets(rest));
      }
    }
  }

  /** Dropping the queued references and those referring to `h` is
      de-registering `h` from the listeners the list holds. */
  lemma {:induction false} LiveKept(es: seq<WeakEntry>, h: object)
    requires forall e <- es :: e.Valid()
    ensures Live(Targets(Kept(es, h))) == Deregister(Live(Targets(es)), h)
    decreases |es|
  {
    if es != [] {
      var e, rest := es[0], es[1..];
      assert es == [e] + rest && e.Valid();
      LiveKept(rest, h);
      LiveTargetsCons(e, rest);
      KeptCons(es, h);
      var t := e.target;
      var k, l := Kept(rest, h), Live(Targets(rest));
      if t == null {
        assert Live(Targets(es)) == l;
        if !e.enqueued {
          LiveTargetsCons(e, k);
          assert Kept(es, h) == [e] + k;
        }
        assert Live(Targets(Kept(es, h))) == Live(Targets(k));
      } else if t == h {
        assert Kept(es, h) == k;
        assert Live(Targets(es)) == [h] + l;
        DeregisterCons(h, l, h);
      } else {
        assert Kept(es, h) == [e] + k;
        LiveTargetsCons(e, k);
        assert Live(Targets(Kept(es, h))) == [t] + Deregister(l, h);
        assert Live(Targets(es)) == [t] + l;
        DeregisterCons(t, l, h);
      }
    }
  }

  /** Cleared positions contribute nothing to the live targets. */
  lemma {:induction false} LiveSkip(ts: seq<object?>, a: nat, b: nat, n: nat)
    requires a <= b <= n <= |ts|
    requires forall j | a <= j < b :: ts[j] == null
    ensures Live(ts[a..n]) == Live(ts[b..n])
    decreases b - a
  {
    if a < b {
      assert ts[a..n][1..] == ts[a + 1..n];
      LiveSkip(ts, a + 1, b, n);
    }
  }

  /** The live targets from a live position on start with it. */
  lemma LiveAt(ts: seq<object?>, b: nat, n: nat)
    requires b < n <= |ts| && ts[b] != null
    ensures Live(ts[b..n]) == [ts[b]] + Live(ts[b + 1..n])
  {
    assert ts[b..n][1..] == ts[b + 1..n];
  }

  /** A listener none of whose references is in the list is not among its
      live targets. */
  lemma NotLive(es: seq<WeakEntry>, h: object)
    requires forall e <- es :: e.target != h
    ensures h !in Live(Targets(es))
  {
    assert forall j | 0 <= j < |es| :: Targets(es)[j] == es[j].target;
    assert h !in Targets(es);
  }

  /** Removing the first reference to `h` from a list whose live targets
      are duplicate-free de-registers `h`; no later reference is to `h`. */
  lemma LiveRemoveAt(es: seq<WeakEntry>, i: nat, h: object)
    requires i < |es| && es[i].target == h
    requires forall e <- es[..i] :: e.target != h
    requires Distinct(Live(Targets(es)))
    ensures Live(Targets(es[..i] + es[i + 1..])) == Deregister(Live(Targets(es)), h)
    ensures forall e <- es[i + 1..] :: e.target != h
  {
    var a, b := es[..i], es[i + 1..];
    assert es == a + [es[i]] + b;
    TargetsConcat(a + [es[i]], b);
    TargetsConcat(a, [es[i]]);
    TargetsConcat(a, b);
    assert Targets([es[i]]) == [h];
    assert Live([h]) == [h];
    LiveConcat(Targets(a) + [h], Targets(b));
    LiveConcat(Targets(a), [h]);
    LiveConcat(Targets(a), Targets(b));
    NotLive(a, h);
    DistinctMiddle(Live(Targets(a)), h, Live(Targets(b)));
    DeregisterMiddle(Live(Targets(a)), h, Live(Targets(b)));
    assert forall j | 0 <= j < |b| :: Targets(b)[j] == b[j].target;
  }

  /** A reference to `h` is never kept when `h` is dropped. */
  lemma KeptDropOne(a: seq<WeakEntry>, x: WeakEntry, b: seq<WeakEntry>, h: object)
    requires x.target == h
    ensures Kept(a + [x] + b, h) == Kept(a, h) + Kept(b, h)
  {
    var ax := a + [x];
    KeptConcat(ax, b, h);
    KeptConcat(a, [x], h);
    KeptCons([x], h);
    assert [x][1..] == [];
    var none := Kept([x], h);
    assert none == [];
    assert Kept(ax, h) == Kept(a, h);
  }

  /** Cutting out the one reference to `h`, which is not enqueued, and
      then dropping the enqueued references keeps exactly Kept(es, h). */
  lemma KeptCut(es: seq<WeakEntry>, i: nat, h: object)
    requires i < |es| && es[i].target == h
    requires forall e <- es[..i] :: e.target != h
    requires forall e <- es[i + 1..] :: e.target != h
    ensures Kept(es[..i] + es[i + 1..], null) == Kept(es, h)
  {
    var a, b := es[..i], es[i + 1..];
    assert es == a + [es[i]] + b;
    KeptDropOne(a, es[i], b, h);
    KeptWithoutTarget(a, h);
    KeptWithoutTarget(b, h);
    KeptConcat(a, b, null);
  }

  /** A new, unqueued reference at the end is kept. */
  lemma KeptSnoc(es: seq<WeakEntry>, e: WeakEntry)
    requires !e.enqueued
    ensures Kept(es + [e], null) == Kept(es, null) + [e]
  {
    KeptConcat(es, [e], null);
    KeptCons([e], null);
    assert Kept([e], null) == [e];
  }

  /** The sequence with every element of `q` filtered out: what removing each
      polled reference in turn leaves of a duplicate-free list. */
  function Without<T(==)>(s: seq<T>, q: seq<T>): (r: seq<T>)
    ensures forall x <- r :: x in s && x !in q
    ensures forall x <- s :: x !in q ==> x in r
    ensures Distinct(s) ==> Distinct(r)
    decreases |s|
  {
    if s == [] then []
    else
      var rest := Without(s[1..], q);
      DistinctCons(s[0], s[1..]);
      DistinctCons(s[0], rest);
      if s[0] in q then rest else [s[0]] + rest
  }

  /** Filtering nothing leaves the sequence as it is. */
  lemma {:induction false} WithoutNothing<T>(s: seq<T>)
    ensures Without(s, []) == s
    decreases |s|
  {
    if s != [] {
      WithoutNothing(s[1..]);
    }
  }

  /** Filtering one more element is de-registering it from what is left. */
  lemma {:induction false} WithoutSnoc<T>(s: seq<T>, q: seq<T>, x: T)
    ensures Without(s, q + [x]) == Deregister(Without(s, q), x)
    decreases |s|
  {
    if s != [] {
      WithoutSnoc(s[1..], q, x);
    }
  }

  /** When exactly the enqueued references of a list are on the queue,
      draining the queue from it keeps the unqueued ones. */
  lemma {:induction false} WithoutQueued(es: seq<WeakEntry>, q: seq<WeakEntry>)
    requires forall e <- es :: e.enqueued <==> e in q
    ensures Without(es, q) == Kept(es, null)
    decreases |es|
  {
    if es != [] {
      WithoutQueued(es[1..], q);
    }
  }

  /** `us` is `ts` with every occurrence of `h` cleared. */
  ghost predicate Cleared(ts: seq<object?>, us: seq<object?>, h: object)
  {
    |us| == |ts| && forall i | 0 <= i < |ts| :: us[i] == if ts[i] == h then null else ts[i]
  }

  /** Clearing every reference to `h`, the collector's action, de-registers
      `h` from the listeners a list of references holds. */
  lemma {:induction false} LiveCleared(ts: seq<object?>, us: seq<object?>, h: object)
    requires Cleared(ts, us, h)
    ensures Live(us) == Deregister(Live(ts), h)
    decreases |ts|
  {
    if ts != [] {
      LiveCleared(ts[1..], us[1..], h);
    }
  }

  /** The collector: clears every reference in `es` whose referent is `h`
      (the caller passes every reference in existence that may refer to
      `h`); nothing else changes. */
  method Collect(h: object, es: seq<WeakEntry>)
    modifies es
    ensures forall e <- es :: e.target == (if old(e.target) == h then null else old(e.target))
    ensures forall e <- es :: e.enqueued == old(e.enqueued)
    ensures Cleared(old(Targets(es)), Targets(es), h)
  {
    ghost var ts := Targets(es);
    var i := 0;
    while i < |es|
      invariant 0 <= i <= |es|
      invariant forall e <- es :: e.enqueued == old(e.enqueued)
      invariant forall e <- es[..i] :: e.target == (if old(e.target) == h then null else old(e.target))
      invariant forall e <- es[i..] :: e !in es[..i] ==> e.target == old(e.target)
    {
      if es[i].target == h {
        es[i].Clear();
      }
      i := i + 1;
    }
    assert forall i | 0 <= i < |es| :: Targets(es)[i] == if ts[i] == h then null else ts[i];
  }
}
