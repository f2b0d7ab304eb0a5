/** The part of the observable list that the controller relies on: an
    ordered sequence with append and "delete this element". Elements are
    compared by identity, which for objects is Dafny's `==`. */
module Lists {

  /** No element occurs twice. */
  predicate Distinct<T(==)>(s: seq<T>) {
    forall i, j :: 0 <= i < j < |s| ==> s[i] != s[j]
  }

  /** Position of the first occurrence of `x`, in whose terms the contract
      of `Remove` is stated. */
  function IndexOf<T(==)>(s: seq<T>, x: T): (i: nat)
    requires x in s
    ensures i < |s| && s[i] == x
    ensures x !in s[..i]
  {
    if s[0] == x then 0 else 1 + IndexOf(s[1..], x)
  }

  /** `del`: removes the first occurrence of `x`, keeping the others in
      order; a missing `x` leaves the list as it was. */
  function Remove<T(==)>(s: seq<T>, x: T): (r: seq<T>)
    ensures x !in s ==> r == s
    ensures x in s ==> r == s[..IndexOf(s, x)] + s[IndexOf(s, x) + 1..]
  {
    if s == [] then []
    else if s[0] == x then s[1..]
    else
      assert x in s[1..] ==>
        var j := IndexOf(s[1..], x);
        s[..j + 1] == [s[0]] + s[1..][..j] && s[j + 2..] == s[1..][j + 1..];
      [s[0]] + Remove(s[1..], x)
  }

  /** Removing a present `x` takes exactly one copy of it out of the
      list's contents and nothing else. */
  lemma RemoveMultiset<T>(s: seq<T>, x: T)
    requires x in s
    ensures multiset(s) == multiset(Remove(s, x)) + multiset{x}
  {
    var i := IndexOf(s, x);
    var a, b := s[..i], s[i + 1..];
    assert Remove(s, x) == a + b;
    assert s == a + [x] + b;
    assert multiset(s) == multiset(a) + multiset{x} + multiset(b);
  }

  /** On a list without duplicates, removing `x` leaves no `x` behind and
      keeps the list free of duplicates. */
  lemma RemoveDistinct<T>(s: seq<T>, x: T)
    requires Distinct(s)
    ensures x !in Remove(s, x)
    ensures Distinct(Remove(s, x))
  {
  }

  /** Appending an element that is not yet there keeps the list free of duplicates. */
  lemma AppendDistinct<T>(s: seq<T>, x: T)
    requires Distinct(s) && x !in s
    ensures Distinct(s + [x])
  {
  }
}
