/** The part of java.util.ArrayList the registrars rely on: a mutable list
    object that can be copied, appended to and searched, and its fail-fast
    iterator. Membership and removal compare elements with `==`; for the
    registrars' element types (listener handles without an overriding
    equals(), and WeakReference objects) this is what equals() does. */
module Lists {
  import opened Exceptions
  import opened RegistrarContract

  /** List.remove(Object): drops the first occurrence of `x`, if any. */
  function RemoveFirst<T(==)>(s: seq<T>, x: T): (r: seq<T>)
    ensures x !in s ==> r == s
    ensures x in s ==> |r| == |s| - 1
    ensures forall y <- r :: y in s
    decreases |s|
  {
    if s == [] then []
    else if s[0] == x then s[1..]
    else [s[0]] + RemoveFirst(s[1..], x)
  }

  /** When `x` first occurs at position k, RemoveFirst deletes that position. */
  lemma {:induction false} RemoveFirstAt<T>(s: seq<T>, k: nat)
    requires k < |s| && s[k] !in s[..k]
    ensures RemoveFirst(s, s[k]) == s[..k] + s[k + 1..]
  {
    if k > 0 {
      assert s[0] in s[..k];
      assert s[1..][k - 1] == s[k] && s[1..][..k - 1] == s[1..k];
      RemoveFirstAt(s[1..], k - 1);
      assert s[1..][k..] == s[k + 1..];
      assert [s[0]] + s[1..k] == s[..k];
    }
  }

  /** On a duplicate-free list, ArrayList.remove(Object) is de-registration. */
  lemma {:induction false} RemoveFirstDeregisters<T>(s: seq<T>, h: T)
    requires Distinct(s)
    ensures RemoveFirst(s, h) == Deregister(s, h)
  {
    if s != [] {
      assert s == [s[0]] + s[1..];
      DistinctCons(s[0], s[1..]);
      if s[0] != h {
        RemoveFirstDeregisters(s[1..], h);
      }
    }
  }

  class ArrayList<T(==)> {
    var elems: seq<T>
    /** Structural modification counter read by fail-fast iterators. */
    var modCount: nat

    constructor ()
      ensures elems == [] && modCount == 0
    {
      elems := [];
      modCount := 0;
    }

    /** new ArrayList(c): a fresh list with the same elements. */
    constructor Copy(c: ArrayList<T>)
      ensures elems == c.elems && modCount == 0
    {
      elems := c.elems;
      modCount := 0;
    }

    /** contains(o): indexOf(o) >= 0, some position holds `x`. */
    predicate Contains(x: T)
      reads this
      ensures Contains(x) <==> exists i | 0 <= i < |elems| :: elems[i] == x
    {
      x in elems
    }

    method Add(x: T)
      modifies this
      ensures elems == old(elems) + [x]
      ensures modCount == old(modCount) + 1
    {
      elems := elems + [x];
      modCount := modCount + 1;
    }

    /** remove(Object): removes the first occurrence, reports whether there was one. */
    method Remove(x: T) returns (found: bool)
      modifies this
      ensures found == (x in old(elems))
      ensures elems == RemoveFirst(old(elems), x)
      ensures modCount == if found then old(modCount) + 1 else old(modCount)
    {
      found := x in elems;
      if found {
        elems := RemoveFirst(elems, x);
        modCount := modCount + 1;
      }
    }

    /** remove(int), for an index the caller has checked. */
    method RemoveAt(i: nat)
      requires i < |elems|
      modifies this
      ensures elems == old(elems[..i] + elems[i + 1..])
      ensures modCount == old(modCount) + 1
    {
      elems := elems[..i] + elems[i + 1..];
      modCount := modCount + 1;
    }

    /** iterator(): a fail-fast cursor over this very list object. */
    method Iterator() returns (it: Itr<T>)
      ensures fresh(it) && it.list == this
      ensures it.Valid() && !it.Stale() && it.Remaining() == elems
    {
      it := new Itr(this);
    }
  }

  /** ArrayList.Itr: reads the list it was taken from at every step, and
      fails with ConcurrentModificationException once that list has been
      structurally modified by anyone but itself. */
  class Itr<T(==)> {
    const list: ArrayList<T>
    var cursor: nat
    var lastRet: int
    var expectedModCount: nat

    ghost predicate Valid()
      reads this, list
    {
      expectedModCount <= list.modCount &&
      (lastRet == -1 || 0 <= lastRet < cursor) &&
      (!Stale() ==> cursor <= |list.elems| && lastRet < |list.elems|)
    }

    /** The list has been modified behind this iterator's back. */
    predicate Stale()
      reads this, list
    {
      list.modCount != expectedModCount
    }

    /** The elements still to be returned, while the iterator is not stale. */
    ghost function Remaining(): seq<T>
      reads this, list
      requires Valid() && !Stale()
    {
      list.elems[cursor..]
    }

    constructor (list: ArrayList<T>)
      ensures this.list == list && Valid() && !Stale()
      ensures cursor == 0 && lastRet == -1
    {
      this.list := list;
      cursor := 0;
      lastRet := -1;
      expectedModCount := list.modCount;
    }

    /** hasNext(): the cursor is not at the list's current size. It
        compares with the size only, so it does not notice a list modified
        behind the iterator's back; while in step it is true exactly when
        elements remain. */
    predicate HasNext()
      reads this, list
      ensures Valid() && !Stale() ==> (HasNext() <==> Remaining() != [])
      ensures Valid() && !HasNext() ==> cursor == |list.elems|
    {
      cursor != |list.elems|
    }

    method Next() returns (r: Result<T>)
      requires Valid()
      modifies this
      ensures Valid()
      ensures old(Stale()) ==> r == Failure(ConcurrentModification) && unchanged(this)
      ensures !old(Stale()) && old(Remaining()) == [] ==>
                r == Failure(NoSuchElement) && unchanged(this)
      ensures !old(Stale()) && old(Remaining()) != [] ==>
                && r == Value(old(Remaining())[0])
                && !Stale() && Remaining() == old(Remaining())[1..]
                && old(Remaining()) == [r.value] + Remaining()
                && lastRet == old(cursor)
    {
      if list.modCount != expectedModCount {
        return Failure(ConcurrentModification);
      }
      var i := cursor;
      if i >= |list.elems| {
        return Failure(NoSuchElement);
      }
      cursor := i + 1;
      lastRet := i;
      r := Value(list.elems[i]);
    }

    /** Itr.remove(): deletes the element last returned from the
        underlying list itself, in place. */
    method Remove() returns (outcome: Outcome)
      requires Valid()
      modifies this, list
      ensures Valid()
      ensures old(lastRet) < 0 ==> outcome == Thrown(IllegalState) && unchanged(this, list)
      ensures old(lastRet) >= 0 && old(Stale()) ==>
                outcome == Thrown(ConcurrentModification) && unchanged(this, list)
      ensures old(lastRet) >= 0 && !old(Stale()) ==>
                && outcome == Done
                && list.elems == old(list.elems[..lastRet] + list.elems[lastRet + 1..])
                && list.modCount == old(list.modCount) + 1
                && !Stale() && cursor == old(lastRet) && lastRet == -1
    {
      if lastRet < 0 {
        return Thrown(IllegalState);
      }
      if list.modCount != expectedModCount {
        return Thrown(ConcurrentModification);
      }
      list.RemoveAt(lastRet);
      cursor := lastRet;
      lastRet := -1;
      expectedModCount := list.modCount;
      outcome := Done;
    }
  }
}
