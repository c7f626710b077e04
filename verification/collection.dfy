/**
 Ordered lists as the entities use them: Doctrine's ArrayCollection, where
 membership is identity (`contains`), `$c[] = x` appends and `removeElement`
 drops the first occurrence; and PHP's plain arrays for the role list, where
 `array_unique` keeps the first occurrence of every value.
 */
module Collection {

  /** No element occurs twice. */
  predicate NoDup<T(==)>(xs: seq<T>) {
    forall i, j :: 0 <= i < j < |xs| ==> xs[i] != xs[j]
  }

  /** Position of the first occurrence of x (PHP's strict `array_search`). */
  function FirstIndex<T(==)>(xs: seq<T>, x: T): (i: nat)
    requires x in xs
    ensures i < |xs| && xs[i] == x
    ensures x !in xs[..i]
  {
    if xs[0] == x then 0
    else
      var j := FirstIndex(xs[1..], x);
      assert xs[..j + 1] == [xs[0]] + xs[1..][..j];
      j + 1
  }

  /** `if (!$c->contains($x)) { $c[] = $x; }`: append x unless it is already listed. */
  function AddIfAbsent<T(==,!new)>(xs: seq<T>, x: T): (r: seq<T>)
    ensures x in r
    ensures forall y :: y in r <==> y in xs || y == x
    ensures x in xs ==> r == xs
    ensures x !in xs ==> |r| == |xs| + 1 && r[..|xs|] == xs && r[|xs|] == x
    ensures NoDup(xs) ==> NoDup(r)
  {
    if x in xs then xs else xs + [x]
  }

  /** `$c->removeElement($x)`: look x up with a strict `array_search` and unset
      that one slot; a list without x is returned as it was. On a
      duplicate-free list this removes x altogether and keeps every other
      element. */
  function RemoveFirst<T(==,!new)>(xs: seq<T>, x: T): (r: seq<T>)
    ensures x !in xs ==> r == xs
    ensures x in xs ==> |r| == |xs| - 1
    ensures multiset(r) == multiset(xs) - multiset{x}
    ensures forall y :: y in r ==> y in xs
    ensures NoDup(xs) ==> NoDup(r) && x !in r
    ensures NoDup(xs) ==> forall y :: y != x ==> (y in r <==> y in xs)
  {
    if x in xs then
      var i := FirstIndex(xs, x);
      assert xs == xs[..i] + [x] + xs[i + 1..];
      UnsetNoDup(xs, i);
      xs[..i] + xs[i + 1..]
    else xs
  }

  /** Unsetting slot i of a duplicate-free list removes exactly the value held there. */
  lemma UnsetNoDup<T>(xs: seq<T>, i: nat)
    requires i < |xs|
    ensures NoDup(xs) ==> NoDup(xs[..i] + xs[i + 1..])
    ensures NoDup(xs) ==> xs[i] !in xs[..i] + xs[i + 1..]
    ensures forall y :: y in xs && y != xs[i] ==> y in xs[..i] + xs[i + 1..]
    ensures forall y :: y in xs[..i] + xs[i + 1..] ==> y in xs
  {
    var r := xs[..i] + xs[i + 1..];
    forall p | 0 <= p < |r|
      ensures r[p] == xs[if p < i then p else p + 1]
    {
    }
    if NoDup(xs) {
      forall p, q | 0 <= p < q < |r|
        ensures r[p] != r[q]
      {
        assert r[p] == xs[if p < i then p else p + 1];
        assert r[q] == xs[if q < i then q else q + 1];
      }
    }
    forall y | y in xs && y != xs[i]
      ensures y in r
    {
      var k :| 0 <= k < |xs| && xs[k] == y;
      assert r[if k < i then k else k - 1] == y;
    }
  }

  /** `removeElement` drops exactly the first occurrence of x: everything
      before it and everything after it stays, in order, even when x occurs
      again later. */
  lemma RemoveFirstSplit<T(!new)>(a: seq<T>, b: seq<T>, x: T)
    requires x !in a
    ensures RemoveFirst(a + [x] + b, x) == a + b
  {
  }

  /** Appending a new element and then removing it gives back the original list. */
  lemma RemoveFirstUndoesAppend<T(!new)>(xs: seq<T>, x: T)
    requires x !in xs
    ensures RemoveFirst(xs + [x], x) == xs
  {
    var ys := xs + [x];
    assert x in ys && ys[|xs|] == x;
    var i := FirstIndex(ys, x);
    assert i == |xs|;
    assert ys[..i] == xs;
  }

  /** Every occurrence of x removed, the other elements kept in order
      (the loop in `User::deleteRole`). */
  function RemoveAll<T(==)>(xs: seq<T>, x: T): (r: seq<T>)
    ensures x !in r
    ensures multiset(r) == multiset(xs)[x := 0]
    ensures x !in xs ==> r == xs
  {
    if xs == [] then []
    else
      assert xs == [xs[0]] + xs[1..];
      if xs[0] == x then RemoveAll(xs[1..], x)
      else [xs[0]] + RemoveAll(xs[1..], x)
  }

  /** Removal works element by element: it commutes with concatenation, so the
      relative order of the kept elements is the order they had in xs. */
  lemma {:induction false} RemoveAllDistributes<T>(a: seq<T>, b: seq<T>, x: T)
    ensures RemoveAll(a + b, x) == RemoveAll(a, x) + RemoveAll(b, x)
  {
    if a != [] {
      assert (a + b)[0] == a[0];
      assert (a + b)[1..] == a[1..] + b;
      RemoveAllDistributes(a[1..], b, x);
    } else {
      assert a + b == b;
    }
  }

  /** `array_unique`: the first occurrence of every value, in the order of
      those first occurrences (see UniqueKeepsFirstOccurrenceOrder). */
  function Unique<T(==,!new)>(xs: seq<T>): (r: seq<T>)
    ensures NoDup(r)
    ensures forall y :: y in r <==> y in xs
    decreases |xs|
  {
    if xs == [] then []
    else
      var init := xs[..|xs| - 1];
      var last := xs[|xs| - 1];
      assert xs == init + [last];
      var d := Unique(init);
      if last in d then d else d + [last]
  }

  /** `array_unique` lists values in the order in which they first occur. */
  lemma {:induction false} UniqueKeepsFirstOccurrenceOrder<T(!new)>(xs: seq<T>)
    ensures forall i, j :: 0 <= i < j < |Unique(xs)| ==>
      FirstIndex(xs, Unique(xs)[i]) < FirstIndex(xs, Unique(xs)[j])
    decreases |xs|
  {
    if xs != [] {
      var init := xs[..|xs| - 1];
      var last := xs[|xs| - 1];
      assert xs == init + [last];
      var d := Unique(init);
      UniqueKeepsFirstOccurrenceOrder(init);
      FirstIndexExtend(init, last);
      var r := Unique(xs);
      if last !in d {
        assert FirstIndex(xs, last) == |init|;
        assert r == d + [last];
        forall i, j | 0 <= i < j < |r|
          ensures FirstIndex(xs, r[i]) < FirstIndex(xs, r[j])
        {
          assert r[i] == d[i];
          if j < |d| {
            assert r[j] == d[j];
          }
        }
      }
    }
  }

  /** Appending an element does not move the first occurrence of anything
      that was already listed. */
  lemma FirstIndexExtend<T>(xs: seq<T>, z: T)
    ensures forall y :: y in xs ==> FirstIndex(xs + [z], y) == FirstIndex(xs, y)
  {
    forall y | y in xs
      ensures FirstIndex(xs + [z], y) == FirstIndex(xs, y)
    {
      var ys := xs + [z];
      var i := FirstIndex(xs, y);
      var k := FirstIndex(ys, y);
      assert ys[i] == y;
    }
  }

  /** A list that already has no duplicates is its own `array_unique`. */
  lemma {:induction false} UniqueOfNoDup<T(!new)>(xs: seq<T>)
    requires NoDup(xs)
    ensures Unique(xs) == xs
    decreases |xs|
  {
    if xs != [] {
      var init := xs[..|xs| - 1];
      assert NoDup(init) by {
        forall i, j | 0 <= i < j < |init| ensures init[i] != init[j] {
          assert init[i] == xs[i] && init[j] == xs[j];
        }
      }
      UniqueOfNoDup(init);
      assert xs[|xs| - 1] !in init by {
        forall k | 0 <= k < |init| ensures init[k] != xs[|xs| - 1] {
          assert init[k] == xs[k];
        }
      }
      assert xs == init + [xs[|xs| - 1]];
    }
  }

  /** A value not yet present ends up last in `array_unique` when it is appended. */
  lemma UniqueAppendFresh<T(!new)>(xs: seq<T>, x: T)
    requires x !in xs
    ensures Unique(xs + [x]) == Unique(xs) + [x]
  {
    var ys := xs + [x];
    assert ys[..|ys| - 1] == xs;
  }
}
