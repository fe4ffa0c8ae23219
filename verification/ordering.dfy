/** Generic filtering, counting and sorting of table rows: the building
    blocks from which the derived repository queries (`findBy…Where…`,
    `countBy…`, `…OrderBy…`) are assembled. */
module Ordering {
  import opened Wrappers

  /** The rows of `s` that satisfy `p`, in table order (a SQL `WHERE`). */
  function Where<T(==,!new)>(s: seq<T>, p: T -> bool): (r: seq<T>)
    ensures |r| <= |s|
    ensures forall x :: multiset(r)[x] == if p(x) then multiset(s)[x] else 0
    ensures forall x :: x in r <==> x in s && p(x)
  {
    if s == [] then []
    else
      assert s == [s[0]] + s[1..];
      if p(s[0]) then [s[0]] + Where(s[1..], p) else Where(s[1..], p)
  }

  /** The number of rows of `s` that satisfy `p` (a SQL `COUNT` with a `WHERE`). */
  function Count<T>(s: seq<T>, p: T -> bool): (n: nat)
    ensures n <= |s|
  {
    if s == [] then 0 else (if p(s[0]) then 1 else 0) + Count(s[1..], p)
  }

  /** Counting the matches is the same as listing them and taking the size. */
  lemma {:induction false} CountIsSizeOfWhere<T(!new)>(s: seq<T>, p: T -> bool)
    ensures Count(s, p) == |Where(s, p)|
  {
    if s != [] {
      CountIsSizeOfWhere(s[1..], p);
    }
  }

  /** The first row of `s` that satisfies `p`, if any (an `Optional` finder). */
  function First<T>(s: seq<T>, p: T -> bool): (r: Option<T>)
    ensures r.Some? ==> r.value in s && p(r.value)
    ensures r.None? <==> forall i :: 0 <= i < |s| ==> !p(s[i])
  {
    if s == [] then None else if p(s[0]) then Some(s[0]) else First(s[1..], p)
  }

  /** `s` is in non-decreasing order of `key`. */
  predicate SortedBy<T>(s: seq<T>, key: T -> int) {
    forall i, j :: 0 <= i < j < |s| ==> key(s[i]) <= key(s[j])
  }

  /** Every element of `s` has a key of at least `k`. */
  predicate AllAtLeast<T>(s: seq<T>, key: T -> int, k: int) {
    forall i :: 0 <= i < |s| ==> k <= key(s[i])
  }

  lemma AllAtLeastOfPermutation<T>(a: seq<T>, b: seq<T>, key: T -> int, k: int)
    requires multiset(a) == multiset(b) && AllAtLeast(b, key, k)
    ensures AllAtLeast(a, key, k)
  {
    forall i | 0 <= i < |a|
      ensures k <= key(a[i])
    {
      assert a[i] in multiset(b);
      var j :| 0 <= j < |b| && b[j] == a[i];
    }
  }

  /** Inserts `x` into the sorted `s` after every element with a smaller key. */
  function Insert<T(!new)>(x: T, s: seq<T>, key: T -> int): (r: seq<T>)
    requires SortedBy(s, key)
    ensures SortedBy(r, key)
    ensures multiset(r) == multiset(s) + multiset{x}
    ensures |r| == |s| + 1
    ensures forall y :: y in r <==> y == x || y in s
  {
    if s == [] || key(x) <= key(s[0]) then
      ConsSorted(x, s, key);
      [x] + s
    else
      assert s == [s[0]] + s[1..];
      var rest := Insert(x, s[1..], key);
      assert AllAtLeast(rest, key, key(s[0])) by {
        assert multiset(rest) == multiset(s[1..] + [x]);
        AllAtLeastOfPermutation(rest, s[1..] + [x], key, key(s[0]));
      }
      ConsSorted(s[0], rest, key);
      [s[0]] + rest
  }

  /** A sorted sequence stays sorted under a head no larger than any of it. */
  lemma ConsSorted<T>(h: T, s: seq<T>, key: T -> int)
    requires SortedBy(s, key) && (s == [] || key(h) <= key(s[0]) || AllAtLeast(s, key, key(h)))
    ensures SortedBy([h] + s, key)
  {
    var r := [h] + s;
    forall i, j | 0 <= i < j < |r|
      ensures key(r[i]) <= key(r[j])
    {
      if i > 0 {
        assert r[i] == s[i - 1] && r[j] == s[j - 1];
      } else if !AllAtLeast(s, key, key(h)) {
        assert r[j] == s[j - 1];
        assert key(s[0]) <= key(s[j - 1]) || j == 1;
      }
    }
  }

  /** An insertion sort by ascending `key`: the result is a sorted
      permutation of `s`. */
  function SortBy<T(!new)>(s: seq<T>, key: T -> int): (r: seq<T>)
    ensures SortedBy(r, key)
    ensures multiset(r) == multiset(s)
    ensures |r| == |s|
    ensures forall x :: x in r <==> x in s
  {
    if s == [] then []
    else
      assert s == [s[0]] + s[1..];
      Insert(s[0], SortBy(s[1..], key), key)
  }
}
