/** Sorting by an integer key, as the standard library's unstable sorts promise it. */
module Sorting {

  ghost predicate SortedBy<T>(key: T -> int, s: seq<T>) {
    forall i, j :: 0 <= i < j < |s| ==> key(s[i]) <= key(s[j])
  }

  /** How many elements of the sorted `s` have a smaller key than `x`. */
  function Position<T>(key: T -> int, x: T, s: seq<T>): (k: nat)
    ensures k <= |s|
  {
    if s == [] || key(x) <= key(s[0]) then 0 else 1 + Position(key, x, s[1..])
  }

  function Insert<T>(key: T -> int, x: T, s: seq<T>): seq<T> {
    s[..Position(key, x, s)] + [x] + s[Position(key, x, s)..]
  }

  lemma {:induction false} PositionIs<T>(key: T -> int, x: T, s: seq<T>)
    requires SortedBy(key, s)
    ensures forall i :: 0 <= i < |s| ==> if i < Position(key, x, s) then key(s[i]) < key(x) else key(x) <= key(s[i])
  {
    if s != [] && key(x) > key(s[0]) {
      PositionIs(key, x, s[1..]);
      forall i | 0 < i < |s|
        ensures if i < Position(key, x, s) then key(s[i]) < key(x) else key(x) <= key(s[i])
      {
        assert s[i] == s[1..][i - 1];
      }
    }
  }

  lemma InsertSorts<T>(key: T -> int, x: T, s: seq<T>)
    requires SortedBy(key, s)
    ensures SortedBy(key, Insert(key, x, s))
    ensures multiset(Insert(key, x, s)) == multiset(s) + multiset{x}
  {
    hide Position;
    PositionIs(key, x, s);
    var k := Position(key, x, s);
    assert s == s[..k] + s[k..];
  }

  method SortByKey<T(==)>(s: seq<T>, key: T -> int) returns (sorted: seq<T>)
    ensures SortedBy(key, sorted) && multiset(sorted) == multiset(s)
  {
    hide Insert;
    sorted := [];
    for i := 0 to |s|
      invariant SortedBy(key, sorted) && multiset(sorted) == multiset(s[..i])
    {
      assert s[..i + 1] == s[..i] + [s[i]];
      InsertSorts(key, s[i], sorted);
      sorted := Insert(key, s[i], sorted);
    }
    assert s[..|s|] == s;
  }
}
