/** A stable sort by a total order; any sorted permutation is this one. */
module Sorting {

  ghost predicate TotalOrder<T(!new)>(le: (T, T) -> bool) {
    && (forall x, y :: le(x, y) || le(y, x))
    && (forall x, y :: le(x, y) && le(y, x) ==> x == y)
    && (forall x, y, z :: le(x, y) && le(y, z) ==> le(x, z))
  }

  ghost predicate Sorted<T>(s: seq<T>, le: (T, T) -> bool) {
    forall i, j :: 0 <= i < j < |s| ==> le(s[i], s[j])
  }

  function Place<T>(x: T, s: seq<T>, le: (T, T) -> bool): seq<T> {
    if s == [] || le(x, s[0]) then [x] + s else [s[0]] + Place(x, s[1..], le)
  }

  function Sort<T>(s: seq<T>, le: (T, T) -> bool): seq<T> {
    if s == [] then [] else Place(s[0], Sort(s[1..], le), le)
  }

  lemma {:induction false} PlaceAdds<T>(x: T, s: seq<T>, le: (T, T) -> bool)
    ensures multiset(Place(x, s, le)) == multiset{x} + multiset(s)
  {
    if s != [] && !le(x, s[0]) {
      PlaceAdds(x, s[1..], le);
      assert s == [s[0]] + s[1..];
    }
  }

  lemma {:induction false} PlaceKeepsSorted<T(!new)>(x: T, s: seq<T>, le: (T, T) -> bool)
    requires TotalOrder(le) && Sorted(s, le)
    ensures Sorted(Place(x, s, le), le)
  {
    if s != [] && !le(x, s[0]) {
      var rest := Place(x, s[1..], le);
      PlaceKeepsSorted(x, s[1..], le);
      PlaceAdds(x, s[1..], le);
      forall i | 0 <= i < |rest| ensures le(s[0], rest[i]) {
        assert rest[i] in multiset(rest);
        assert rest[i] == x || rest[i] in s[1..];
      }
    }
  }

  lemma {:induction false} SortSorts<T(!new)>(s: seq<T>, le: (T, T) -> bool)
    requires TotalOrder(le)
    ensures Sorted(Sort(s, le), le) && multiset(Sort(s, le)) == multiset(s)
  {
    if s != [] {
      SortSorts(s[1..], le);
      PlaceAdds(s[0], Sort(s[1..], le), le);
      PlaceKeepsSorted(s[0], Sort(s[1..], le), le);
      assert s == [s[0]] + s[1..];
    }
  }

  lemma HeadIsLeast<T(!new)>(s: seq<T>, x: T, le: (T, T) -> bool)
    requires TotalOrder(le) && Sorted(s, le) && x in multiset(s)
    ensures s != [] && le(s[0], x)
  {
    var i :| 0 <= i < |s| && s[i] == x;
    if i > 0 { assert le(s[0], s[i]); }
  }

  /** Two sorted lists with the same elements are the same list. */
  lemma {:induction false} SortedUnique<T(!new)>(a: seq<T>, b: seq<T>, le: (T, T) -> bool)
    requires TotalOrder(le) && Sorted(a, le) && Sorted(b, le) && multiset(a) == multiset(b)
    ensures a == b
  {
    assert |a| == |multiset(a)| == |multiset(b)| == |b|;
    if a != [] {
      assert a[0] in multiset(a) && b[0] in multiset(b);
      HeadIsLeast(a, b[0], le);
      HeadIsLeast(b, a[0], le);
      assert a == [a[0]] + a[1..] && b == [b[0]] + b[1..];
      assert multiset(a[1..]) == multiset(a) - multiset{a[0]};
      assert multiset(b[1..]) == multiset(b) - multiset{b[0]};
      SortedUnique(a[1..], b[1..], le);
    }
  }

  predicate HasDuplicate<T(==)>(s: seq<T>) {
    exists i, j :: 0 <= i < j < |s| && s[i] == s[j]
  }

  predicate HasAdjacentPair<T(==)>(s: seq<T>) {
    exists i :: 0 <= i < |s| - 1 && s[i] == s[i + 1]
  }

  lemma DuplicateCounts<T>(s: seq<T>, i: nat, j: nat)
    requires i < j < |s| && s[i] == s[j]
    ensures multiset(s)[s[i]] >= 2
  {
    assert s == s[..j] + s[j..];
    assert s[..j][i] in multiset(s[..j]) && s[j..][0] in multiset(s[j..]);
  }

  lemma {:induction false} CountedTwice<T>(s: seq<T>, x: T) returns (i: nat, j: nat)
    requires multiset(s)[x] >= 2
    ensures i < j < |s| && s[i] == s[j]
  {
    assert s == [s[0]] + s[1..];
    if s[0] == x {
      assert x in multiset(s[1..]);
      var k :| 0 <= k < |s[1..]| && s[1..][k] == x;
      i, j := 0, k + 1;
    } else {
      i, j := CountedTwice(s[1..], x);
      i, j := i + 1, j + 1;
    }
  }

  lemma DuplicateSurvivesPermutation<T>(s: seq<T>, t: seq<T>)
    requires multiset(s) == multiset(t) && HasDuplicate(s)
    ensures HasDuplicate(t)
  {
    var i, j :| 0 <= i < j < |s| && s[i] == s[j];
    DuplicateCounts(s, i, j);
    var k, l := CountedTwice(t, s[i]);
  }

  /** Looking at neighbours in sorted order finds exactly the duplicates. */
  lemma SortedNeighbours<T(!new)>(s: seq<T>, le: (T, T) -> bool)
    requires TotalOrder(le)
    ensures HasAdjacentPair(Sort(s, le)) <==> HasDuplicate(s)
  {
    SortSorts(s, le);
    var t := Sort(s, le);
    if HasAdjacentPair(t) {
      DuplicateSurvivesPermutation(t, s);
    }
    if HasDuplicate(s) {
      DuplicateSurvivesPermutation(s, t);
      var i, j :| 0 <= i < j < |t| && t[i] == t[j];
      assert le(t[i], t[i + 1]) && (i + 1 < j ==> le(t[i + 1], t[j]));
      assert t[i] == t[i + 1];
    }
  }

  // ----- the elements of a set, in order -----

  predicate IsLeast<T(==)>(x: T, s: set<T>, le: (T, T) -> bool) {
    x in s && forall y :: y in s ==> le(x, y)
  }

  lemma {:induction false} LeastExists<T(!new)>(s: set<T>, le: (T, T) -> bool)
    requires TotalOrder(le) && s != {}
    ensures exists x :: IsLeast(x, s, le)
  {
    var z :| z in s;
    var rest := s - {z};
    if rest == {} {
      assert s == {z} && IsLeast(z, s, le);
    } else {
      LeastExists(rest, le);
      var x :| IsLeast(x, rest, le);
      var m := if le(z, x) then z else x;
      forall y | y in s ensures le(m, y) {
        if y != z { assert y in rest; }
      }
      assert IsLeast(m, s, le);
    }
  }

  /** The iteration order of an ordered set or map. */
  ghost function InOrder<T(!new)>(s: set<T>, le: (T, T) -> bool): (keys: seq<T>)
    requires TotalOrder(le)
    ensures |keys| == |s| && forall k :: k in keys <==> k in s
  {
    if s == {} then [] else
    LeastExists(s, le);
    var x :| IsLeast(x, s, le);
    [x] + InOrder(s - {x}, le)
  }

  lemma {:induction false} InOrderIsSorted<T(!new)>(s: set<T>, le: (T, T) -> bool)
    requires TotalOrder(le)
    ensures Sorted(InOrder(s, le), le) && !HasDuplicate(InOrder(s, le))
  {
    if s != {} {
      var keys := InOrder(s, le);
      assert keys[0] in s && keys[1..] == InOrder(s - {keys[0]}, le);
      InOrderIsSorted(s - {keys[0]}, le);
      forall j | 0 < j < |keys| ensures le(keys[0], keys[j]) && keys[0] != keys[j] {
        assert keys[1..][j - 1] in s - {keys[0]};
      }
      forall i, j | 0 <= i < j < |keys| ensures le(keys[i], keys[j]) && keys[i] != keys[j] {
        if i > 0 { assert keys[1..][i - 1] == keys[i] && keys[1..][j - 1] == keys[j]; }
      }
    }
  }

  /** Iteration starts at the least element. */
  lemma InOrderStep<T(!new)>(s: set<T>, x: T, le: (T, T) -> bool)
    requires TotalOrder(le) && IsLeast(x, s, le)
    ensures InOrder(s, le) == [x] + InOrder(s - {x}, le)
  {
    var y := InOrder(s, le)[0];
    assert y == x;
  }
}
