/** The Registrar contract (Registrar.java and the Observable contract's
    registration rules), stated over the abstract value every registrar
    exposes: the sequence of registered listener handles, in registration
    order. Each registrar class has a `Registered()` view, and its
    mutators are proved to move that view exactly as `Register`,
    `Deregister` and clearing (the empty sequence) do here. */
module RegistrarContract {

  /** Identity uniqueness: no handle is registered twice. */
  predicate Distinct<T(==)>(s: seq<T>)
  {
    forall i, j | 0 <= i < j < |s| :: s[i] != s[j]
  }

  /** A handle in front of a sequence: duplicate-free exactly when the rest
      is and does not contain the handle. */
  lemma DistinctCons<T>(a: T, t: seq<T>)
    ensures Distinct([a] + t) <==> Distinct(t) && a !in t
  {
    assert ([a] + t)[0] == a;
    assert forall i | 0 <= i < |t| :: ([a] + t)[i + 1] == t[i];
  }

  /** addListener: registration is keyed by the handle itself and is
      idempotent; a new handle goes to the end (ordered by default). */
  function Register<T(==)>(s: seq<T>, h: T): (r: seq<T>)
    ensures h in r
    ensures forall x <- r :: x in s || x == h
    ensures forall x <- s :: x in r
    ensures s <= r && |r| <= |s| + 1
  {
    if h in s then s else s + [h]
  }

  /** removeListener: drops the handle, keeps every other handle in its
      order; de-registering an absent handle changes nothing. */
  function Deregister<T(==)>(s: seq<T>, h: T): (r: seq<T>)
    ensures h !in r
    ensures forall x <- r :: x in s && x != h
    ensures forall x <- s :: x != h ==> x in r
    ensures h !in s ==> r == s
    decreases |s|
  {
    if s == [] then []
    else if s[0] == h then Deregister(s[1..], h)
    else [s[0]] + Deregister(s[1..], h)
  }

  /** De-registering keeps a duplicate-free sequence duplicate-free, and
      shortens it by exactly one when the handle was registered. */
  lemma {:induction false} DeregisterDistinct<T>(s: seq<T>, h: T)
    requires Distinct(s)
    ensures Distinct(Deregister(s, h))
    ensures h in s ==> |Deregister(s, h)| == |s| - 1
    decreases |s|
  {
    if s != [] {
      assert s == [s[0]] + s[1..];
      DistinctCons(s[0], s[1..]);
      DeregisterDistinct(s[1..], h);
      DistinctCons(s[0], Deregister(s[1..], h));
    }
  }

  /** De-registration, split at the first handle. */
  lemma DeregisterCons<T>(x: T, s: seq<T>, h: T)
    ensures Deregister([x] + s, h) == if x == h then Deregister(s, h) else [x] + Deregister(s, h)
  {
    assert ([x] + s)[0] == x && ([x] + s)[1..] == s;
  }

  /** De-registering a handle held once, between handles other than it,
      closes the gap. */
  lemma {:induction false} DeregisterMiddle<T>(a: seq<T>, h: T, b: seq<T>)
    requires h !in a && h !in b
    ensures Deregister(a + [h] + b, h) == a + b
    decreases |a|
  {
    if a == [] {
      assert a + [h] + b == [h] + b && a + b == b;
      DeregisterCons(h, b, h);
    } else {
      assert a + [h] + b == [a[0]] + (a[1..] + [h] + b);
      assert a + b == [a[0]] + (a[1..] + b);
      DeregisterCons(a[0], a[1..] + [h] + b, h);
      DeregisterMiddle(a[1..], h, b);
    }
  }

  /** The handle in the middle of a duplicate-free sequence is on neither
      side of it. */
  lemma DistinctMiddle<T>(a: seq<T>, h: T, b: seq<T>)
    requires Distinct(a + [h] + b)
    ensures h !in a && h !in b
  {
    var s := a + [h] + b;
    assert s[|a|] == h;
    assert forall i | 0 <= i < |a| :: s[i] == a[i];
    assert forall i | 0 <= i < |b| :: s[|a| + 1 + i] == b[i];
  }

  /** The sequence after registering `h` `n` times in a row. */
  function RegisterTimes<T(==)>(s: seq<T>, h: T, n: nat): seq<T>
  {
    if n == 0 then s else Register(RegisterTimes(s, h, n - 1), h)
  }

  /** Observer Registration Idempotence Rule: registering 1 + n times
      registers once. */
  lemma {:induction false} RegisterIdempotent<T>(s: seq<T>, h: T, n: nat)
    ensures RegisterTimes(s, h, n + 1) == Register(s, h)
  {
    if n > 0 {
      RegisterIdempotent(s, h, n - 1);
    }
  }

  /** De-registering the handle at position k of a duplicate-free sequence
      deletes exactly that position and keeps the others in order. */
  lemma {:induction false} DeregisterAt<T>(s: seq<T>, k: nat)
    requires Distinct(s) && k < |s|
    ensures Deregister(s, s[k]) == s[..k] + s[k + 1..]
  {
    if k == 0 {
      assert s[0] !in s[1..];
    } else {
      assert s[1..][k - 1] == s[k];
      DeregisterAt(s[1..], k - 1);
      assert s[1..][..k - 1] == s[1..k];
      assert s[1..][k..] == s[k + 1..];
      assert [s[0]] + s[1..k] == s[..k];
    }
  }

  /** Removing a registered handle and registering it again moves it to the
      end and keeps the others in their order. */
  lemma ReRegisterMovesToEnd<T>(s: seq<T>, k: nat)
    requires Distinct(s) && k < |s|
    ensures Register(Deregister(s, s[k]), s[k]) == s[..k] + s[k + 1..] + [s[k]]
  {
    DeregisterAt(s, k);
  }

  /** De-registering either handle of a pair leaves the other. */
  lemma DeregisterPair<T>(h0: T, h1: T)
    requires h0 != h1
    ensures Deregister([h0, h1], h0) == [h1] && Deregister([h0, h1], h1) == [h0]
  {
    assert [h0, h1][1..] == [h1];
  }

  /** The ordered-dispatch reorder test: add h0, h2, h1, remove h2, add h2
      gives [h0, h1, h2]. */
  lemma ReorderScenario<T>(h0: T, h1: T, h2: T)
    requires h0 != h1 && h1 != h2 && h0 != h2
    ensures Register(Deregister(Register(Register(Register([], h0), h2), h1), h2), h2)
            == [h0, h1, h2]
  {
    AddThree(h0, h2, h1);
    MoveMiddleToEnd(h0, h2, h1);
  }

  /** Removing the middle one of three registered handles and registering
      it again puts it last. */
  lemma MoveMiddleToEnd<T>(a: T, b: T, c: T)
    requires a != b && b != c && a != c
    ensures Register(Deregister([a, b, c], b), b) == [a, c, b]
  {
    DeregisterMiddle([a], b, [c]);
    assert [a] + [b] + [c] == [a, b, c];
    assert [a] + [c] + [b] == [a, c, b];
  }

  /** Adding three distinct handles to an empty registrar lists them in
      the order added. */
  lemma AddThree<T>(a: T, b: T, c: T)
    requires a != b && b != c && a != c
    ensures Register(Register(Register([], a), b), c) == [a, b, c]
  {
    assert Register([], a) == [a];
    assert Register([a], b) == [a, b];
  }
}
