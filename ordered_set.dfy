/**
  A transform's `children` is a std::set of pointers: an ordered set that is
  iterated in key order. It is modelled as a strictly increasing sequence of
  handles; `Insert` and `Erase` are std::set::insert and std::set::erase.
*/
module OrderedSet {

  /** Strictly increasing: ordered and free of duplicates. */
  predicate Sorted(s: seq<nat>) {
    forall i, j :: 0 <= i < j < |s| ==> s[i] < s[j]
  }

  /** Adds `x` in its place; a present `x` leaves the set as it is. */
  function Insert(s: seq<nat>, x: nat): (r: seq<nat>)
    ensures forall y :: y in r <==> y in s || y == x
    ensures Sorted(s) ==> Sorted(r)
  {
    if s == [] then [x]
    else if x < s[0] then [x] + s
    else if x == s[0] then s
    else
      var t := Insert(s[1..], x);
      if Sorted(s) then PrependSorted(s[0], t); [s[0]] + t else [s[0]] + t
  }

  /** Removes `x`; an absent `x` leaves the set as it is. */
  function Erase(s: seq<nat>, x: nat): (r: seq<nat>)
    ensures forall y :: y in r <==> y in s && y != x
    ensures Sorted(s) ==> Sorted(r)
    ensures |r| <= |s|
  {
    if s == [] then []
    else if s[0] == x then Erase(s[1..], x)
    else
      var t := Erase(s[1..], x);
      if Sorted(s) then PrependSorted(s[0], t); [s[0]] + t else [s[0]] + t
  }

  /** A sorted sequence stays sorted when an element below all of its members is put in front. */
  lemma PrependSorted(a: nat, t: seq<nat>)
    requires Sorted(t) && forall y :: y in t ==> a < y
    ensures Sorted([a] + t)
  {
    forall i, j | 0 <= i < j < |[a] + t| ensures ([a] + t)[i] < ([a] + t)[j] {
      assert ([a] + t)[j] == t[j - 1] && t[j - 1] in t;
      if i > 0 { assert ([a] + t)[i] == t[i - 1]; }
    }
  }
}
