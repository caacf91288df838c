/** Facts about integer sequences used by the model: distinct elements, element sets,
    ascending order, and the sort behind Python's `sorted`. */
module Seqs {

  /** No value occurs twice. */
  predicate Distinct(s: seq<int>) {
    forall i, j :: 0 <= i < j < |s| ==> s[i] != s[j]
  }

  /** The set of values held, as Python's `set(s)`. */
  function Elems(s: seq<int>): set<int> {
    set x | x in s
  }

  predicate Ascending(s: seq<int>) {
    forall i, j :: 0 <= i < j < |s| ==> s[i] <= s[j]
  }

  /** Sorted ascending with no repeated element. */
  predicate StrictlyAscending(s: seq<int>) {
    forall i, j :: 0 <= i < j < |s| ==> s[i] < s[j]
  }

  function Max(a: int, b: int): int {
    if a < b then b else a
  }

  function Min(a: int, b: int): int {
    if a < b then a else b
  }

  lemma SubsetCard(a: set<int>, b: set<int>)
    requires a <= b
    ensures |a| <= |b|
  {
    assert b == a + (b - a);
  }

  /** A sequence holds at least as many places as it holds distinct values. */
  lemma {:induction false} ElemsCard(s: seq<int>)
    ensures |Elems(s)| <= |s|
    ensures Distinct(s) ==> |Elems(s)| == |s|
  {
    if |s| > 0 {
      ElemsCard(s[1..]);
      assert Elems(s) == {s[0]} + Elems(s[1..]);
      if Distinct(s) {
        assert Distinct(s[1..]);
        assert s[0] !in Elems(s[1..]);
      }
    }
  }

  /** Inserts `x` into an ascending sequence, keeping it ascending. */
  function Insert(x: int, s: seq<int>): (r: seq<int>)
    requires Ascending(s)
    ensures Ascending(r)
    ensures multiset(r) == multiset(s) + multiset{x}
  {
    if |s| == 0 || x <= s[0] then [x] + s
    else
      var rest := Insert(x, s[1..]);
      assert s == [s[0]] + s[1..];
      BoundedBelow(s[0], x, s[1..], rest);
      [s[0]] + rest
  }

  /** Every element of `r` is at least `lo` when `r` holds the values of `s` and `x`, all at least `lo`. */
  lemma BoundedBelow(lo: int, x: int, s: seq<int>, r: seq<int>)
    requires lo <= x && forall i :: 0 <= i < |s| ==> lo <= s[i]
    requires multiset(r) == multiset(s) + multiset{x}
    ensures forall i :: 0 <= i < |r| ==> lo <= r[i]
  {
    forall i | 0 <= i < |r| ensures lo <= r[i] {
      assert r[i] in multiset(r);
      if r[i] != x {
        assert r[i] in multiset(s);
      }
    }
  }

  /** Python's `sorted` on a list of integers: an ascending permutation of the input. */
  function Sort(s: seq<int>): (r: seq<int>)
    ensures Ascending(r)
    ensures multiset(r) == multiset(s)
  {
    if |s| == 0 then []
    else
      assert s == [s[0]] + s[1..];
      Insert(s[0], Sort(s[1..]))
  }

  /** Sorting a list of distinct values gives a strictly ascending list of the same values. */
  lemma SortDistinct(s: seq<int>)
    requires Distinct(s)
    ensures StrictlyAscending(Sort(s))
    ensures Elems(Sort(s)) == Elems(s)
    ensures |Sort(s)| == |s|
  {
    var r := Sort(s);
    assert |r| == |multiset(r)| == |multiset(s)| == |s|;
    forall x ensures x in r <==> x in s {
      assert x in r <==> x in multiset(r);
      assert x in s <==> x in multiset(s);
    }
    forall i, j | 0 <= i < j < |r| ensures r[i] < r[j] {
      if r[i] == r[j] {
        MultisetTwice(r, i, j);
        assert multiset(s)[r[i]] >= 2;
        DistinctOnce(s, r[i]);
        assert false;
      }
    }
  }

  lemma {:induction false} MultisetTwice(s: seq<int>, i: nat, j: nat)
    requires i < j < |s| && s[i] == s[j]
    ensures multiset(s)[s[i]] >= 2
  {
    var x := s[i];
    assert s == s[..i] + [x] + s[i+1..j] + [x] + s[j+1..];
    assert multiset(s) == multiset(s[..i]) + multiset{x} + multiset(s[i+1..j]) + multiset{x} + multiset(s[j+1..]);
  }

  lemma {:induction false} DistinctOnce(s: seq<int>, x: int)
    requires Distinct(s)
    ensures multiset(s)[x] <= 1
  {
    if |s| > 0 {
      assert s == [s[0]] + s[1..];
      assert Distinct(s[1..]);
      DistinctOnce(s[1..], x);
      if s[0] == x {
        assert x !in s[1..];
        assert multiset(s[1..])[x] == 0;
      }
    }
  }
}
