/** The `Vec` operations the store relies on, over Dafny sequences. */
module Vec {
  import opened Wrappers

  /** `i` is the position of the first element of `v` equal to `x`. */
  ghost predicate IsFirstIndex<T>(v: seq<T>, x: T, i: int)
  {
    0 <= i < |v| && v[i] == x && forall k :: 0 <= k < i ==> v[k] != x
  }

  /** The position of the first occurrence of `x` in `v`. */
  function FirstIndex<T(==)>(v: seq<T>, x: T): (i: nat)
    requires x in v
    ensures IsFirstIndex(v, x, i)
  {
    if v[0] == x then 0
    else
      FirstIndex(v[1..], x) + 1
  }

  /**
   * `Vec::remove_item`: the sequence without its first element equal to
   * `x`; unchanged when no element is. Later duplicates of `x` stay.
   */
  function RemoveItem<T(==)>(v: seq<T>, x: T): (r: seq<T>)
    ensures x !in v ==> r == v
    ensures |r| == if x in v then |v| - 1 else |v|
  {
    if |v| == 0 then v
    else if v[0] == x then v[1..]
    else
      assert x in v <==> x in v[1..];
      [v[0]] + RemoveItem(v[1..], x)
  }

  /** `RemoveItem` takes exactly one copy of `x` out of the multiset, or none if there is none. */
  lemma {:induction false} RemoveItemMultiset<T>(v: seq<T>, x: T)
    ensures multiset(RemoveItem(v, x)) == multiset(v) - multiset{x}
  {
    if |v| > 0 {
      assert v == [v[0]] + v[1..];
      if v[0] != x {
        RemoveItemMultiset(v[1..], x);
      }
    }
  }

  /**
   * `Iterator::position` over `v`: the index of the first element equal
   * to `x`, found by a linear scan.
   */
  method Position<T(==)>(v: seq<T>, x: T) returns (p: Option<nat>)
    ensures p.None? <==> x !in v
    ensures p.Some? ==> IsFirstIndex(v, x, p.value)
  {
    var i := 0;
    while i < |v| && v[i] != x
      invariant 0 <= i <= |v|
      invariant x !in v[..i]
    {
      assert v[..i + 1] == v[..i] + [v[i]];
      i := i + 1;
    }
    if i < |v| {
      p := Some(i);
    } else {
      assert v[..i] == v;
      p := None;
    }
  }

  /**
   * `Vec::remove_item` as the standard library writes it: find the
   * position, then remove the element there, returning it.
   */
  method RemoveItemByPosition<T(==)>(v: seq<T>, x: T) returns (w: seq<T>, removed: Option<T>)
    ensures w == RemoveItem(v, x)
    ensures removed.Some? <==> x in v
    ensures removed.Some? ==> removed.value == x
  {
    var p := Position(v, x);
    match p
    case None =>
      w, removed := v, None;
    case Some(i) =>
      FirstIndexUnique(v, x, i);
      RemoveItemAtFirstIndex(v, x);
      w, removed := v[..i] + v[i + 1..], Some(v[i]);
  }

  /** The first index is unique. */
  lemma FirstIndexUnique<T>(v: seq<T>, x: T, i: int)
    requires x in v
    requires IsFirstIndex(v, x, i)
    ensures i == FirstIndex(v, x)
  {
  }

  /** `RemoveItem` deletes exactly the element at the first index of `x`. */
  lemma {:induction false} RemoveItemAtFirstIndex<T>(v: seq<T>, x: T)
    requires x in v
    ensures RemoveItem(v, x) == v[..FirstIndex(v, x)] + v[FirstIndex(v, x) + 1..]
  {
    if v[0] != x {
      var t := v[1..];
      assert x in t;
      RemoveItemAtFirstIndex(t, x);
      var j := FirstIndex(t, x);
      calc {
        RemoveItem(v, x);
        [v[0]] + RemoveItem(t, x);
        [v[0]] + (t[..j] + t[j + 1..]);
        ([v[0]] + t[..j]) + t[j + 1..];
        { assert [v[0]] + t[..j] == v[..j + 1]; assert t[j + 1..] == v[j + 2..]; }
        v[..j + 1] + v[j + 2..];
      }
    }
  }

  /** Removing an element that was just appended, and occurs nowhere else, restores the sequence. */
  lemma {:induction false} RemoveItemAppendedFresh<T>(v: seq<T>, x: T)
    requires x !in v
    ensures RemoveItem(v + [x], x) == v
  {
    if |v| == 0 {
      assert v + [x] == [x];
    } else {
      assert (v + [x])[1..] == v[1..] + [x];
      RemoveItemAppendedFresh(v[1..], x);
      assert v == [v[0]] + v[1..];
    }
  }

  /**
   * After removal, `y` is still present exactly when it was present and
   * differs from `x`, or it is `x` and `x` occurred at least twice.
   */
  lemma RemoveItemMembership<T>(v: seq<T>, x: T, y: T)
    ensures y in RemoveItem(v, x) <==> (y in v && y != x) || (y == x && multiset(v)[x] >= 2)
  {
    var r := RemoveItem(v, x);
    RemoveItemMultiset(v, x);
    assert y in r <==> y in multiset(r);
    assert y in v <==> y in multiset(v);
  }
}
