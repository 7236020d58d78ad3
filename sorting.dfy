/** The exchange sort every scheduling routine runs on its arrays (SchedulingAlgorithms.java:24-36,
    73-82 and the other copies), and the sorted list of distinct arrival times the preemptive
    routines use as decision points. */
module Sorting {

  ghost predicate SortedBy<T>(s: seq<T>, key: T -> int)
  {
    forall i, j :: 0 <= i < j < |s| ==> key(s[i]) <= key(s[j])
  }

  ghost predicate StrictlyIncreasing(s: seq<int>)
  {
    forall i, j :: 0 <= i < j < |s| ==> s[i] < s[j]
  }

  ghost predicate NoDuplicates(s: seq<int>)
  {
    forall i, j :: 0 <= i < j < |s| ==> s[i] != s[j]
  }

  /** `s` with the entries at i and j exchanged. */
  function SwapAt<T>(s: seq<T>, i: nat, j: nat): (r: seq<T>)
    requires i < |s| && j < |s|
    ensures |r| == |s|
  {
    seq(|s|, k requires 0 <= k < |s| => if k == j then s[i] else if k == i then s[j] else s[k])
  }

  /** The inner loop of the exchange sort for outer index i, from inner index j on: whenever the
      key at i exceeds the key at j the two entries are exchanged. */
  function Pass<T>(s: seq<T>, key: T -> int, i: nat, j: nat): (r: seq<T>)
    requires i < j <= |s|
    ensures |r| == |s|
    decreases |s| - j
  {
    if j == |s| then s
    else Pass(if key(s[i]) > key(s[j]) then SwapAt(s, i, j) else s, key, i, j + 1)
  }

  /** The outer loop of the exchange sort from outer index i on. */
  function SortFrom<T>(s: seq<T>, key: T -> int, i: nat): (r: seq<T>)
    requires i <= |s|
    ensures |r| == |s|
    decreases |s| - i
  {
    if i == |s| then s else SortFrom(Pass(s, key, i, i + 1), key, i + 1)
  }

  /** What the nested swap loop leaves in an array that held `s`. */
  function ExchangeSorted<T>(s: seq<T>, key: T -> int): seq<T>
  {
    SortFrom(s, key, 0)
  }

  /** One pass leaves the entries before i alone. */
  lemma {:induction false} PassKeepsPrefix<T>(s: seq<T>, key: T -> int, i: nat, j: nat)
    requires i < j <= |s|
    ensures forall k :: 0 <= k < i ==> Pass(s, key, i, j)[k] == s[k]
    decreases |s| - j
  {
    if j < |s| {
      var t := if key(s[i]) > key(s[j]) then SwapAt(s, i, j) else s;
      assert forall k :: 0 <= k < i ==> t[k] == s[k];
      PassKeepsPrefix(t, key, i, j + 1);
    }
  }

  /** One pass only exchanges entries from i on, so a lower bound on their keys survives it. */
  lemma {:induction false} PassBound<T>(s: seq<T>, key: T -> int, i: nat, j: nat, lo: int)
    requires i < j <= |s|
    requires forall m :: i <= m < |s| ==> lo <= key(s[m])
    ensures forall m :: i <= m < |s| ==> lo <= key(Pass(s, key, i, j)[m])
    decreases |s| - j
  {
    if j < |s| {
      var t := if key(s[i]) > key(s[j]) then SwapAt(s, i, j) else s;
      assert forall m :: i <= m < |t| ==> t[m] == s[m] || t[m] == s[i] || t[m] == s[j];
      PassBound(t, key, i, j + 1, lo);
    }
  }

  /** One pass puts at i an entry whose key is at most every later key. */
  lemma {:induction false} PassLeast<T>(s: seq<T>, key: T -> int, i: nat, j: nat)
    requires i < j <= |s|
    requires forall m :: i < m < j ==> key(s[i]) <= key(s[m])
    ensures forall m :: i < m < |s| ==> key(Pass(s, key, i, j)[i]) <= key(Pass(s, key, i, j)[m])
    decreases |s| - j
  {
    if j < |s| {
      var t := if key(s[i]) > key(s[j]) then SwapAt(s, i, j) else s;
      forall m | i < m < j + 1 ensures key(t[i]) <= key(t[m]) {
        if m < j { assert t[m] == s[m]; }
      }
      PassLeast(t, key, i, j + 1);
    }
  }

  /** The passes from i on sort the whole sequence when the entries before i are sorted and
      none of them has a larger key than an entry from i on. */
  lemma {:induction false} SortFromProperties<T>(s: seq<T>, key: T -> int, i: nat)
    requires i <= |s|
    requires forall k, k' :: 0 <= k < k' < i ==> key(s[k]) <= key(s[k'])
    requires forall k, m :: 0 <= k < i <= m < |s| ==> key(s[k]) <= key(s[m])
    ensures SortedBy(SortFrom(s, key, i), key)
    decreases |s| - i
  {
    if i < |s| {
      var t := Pass(s, key, i, i + 1);
      PassKeepsPrefix(s, key, i, i + 1);
      PassLeast(s, key, i, i + 1);
      forall k | 0 <= k < i
        ensures forall m :: i <= m < |t| ==> key(t[k]) <= key(t[m])
      {
        PassBound(s, key, i, i + 1, key(s[k]));
      }
      SortFromProperties(t, key, i + 1);
    }
  }

  lemma SwapAtPermutation<T>(s: seq<T>, i: nat, j: nat)
    requires i < |s| && j < |s|
    ensures multiset(SwapAt(s, i, j)) == multiset(s)
  {
    assert SwapAt(s, i, j) == s[i := s[j]][j := s[i]];
  }

  /** The outer loop from i on only reorders. */
  lemma {:induction false} SortFromPermutation<T>(s: seq<T>, key: T -> int, i: nat)
    requires i <= |s|
    ensures multiset(SortFrom(s, key, i)) == multiset(s)
    decreases |s| - i
  {
    if i < |s| {
      PassPermutation(s, key, i, i + 1);
      SortFromPermutation(Pass(s, key, i, i + 1), key, i + 1);
    }
  }

  lemma {:induction false} PassPermutation<T>(s: seq<T>, key: T -> int, i: nat, j: nat)
    requires i < j <= |s|
    ensures multiset(Pass(s, key, i, j)) == multiset(s)
    decreases |s| - j
  {
    if j < |s| {
      var t := if key(s[i]) > key(s[j]) then SwapAt(s, i, j) else s;
      SwapAtPermutation(s, i, j);
      PassPermutation(t, key, i, j + 1);
    }
  }

  /** The exchange sort orders by the key and only reorders. It is NOT stable: entries with equal
      keys may come out in a different relative order. */
  lemma ExchangeSortedProperties<T>(s: seq<T>, key: T -> int)
    ensures |ExchangeSorted(s, key)| == |s|
    ensures SortedBy(ExchangeSorted(s, key), key)
    ensures multiset(ExchangeSorted(s, key)) == multiset(s)
  {
    SortFromProperties(s, key, 0);
    SortFromPermutation(s, key, 0);
  }

  /** The source's `swap`, applied to a whole row of the parallel arrays at once. */
  method Swap<T>(a: array<T>, i: int, j: int)
    requires 0 <= i < a.Length && 0 <= j < a.Length
    modifies a
    ensures a[..] == SwapAt(old(a[..]), i, j)
    ensures multiset(a[..]) == multiset(old(a[..]))
  {
    var t := a[i];
    a[i] := a[j];
    a[j] := t;
  }

  /** One step of the inner loop: rows i and j are exchanged when the key at i is the larger, so
      the rest of the pass from j on is the rest of the pass from j + 1 on the new contents. */
  method CompareExchange<T>(a: array<T>, key: T -> int, i: nat, j: nat)
    requires i < j < a.Length
    modifies a
    ensures Pass(old(a[..]), key, i, j) == Pass(a[..], key, i, j + 1)
    ensures multiset(a[..]) == multiset(old(a[..]))
  {
    if key(a[i]) > key(a[j]) {
      Swap(a, i, j);
    }
  }

  /** The inner loop for outer index i: one pass of compare-exchange steps over j = i + 1 .. n - 1. */
  method ExchangePass<T>(a: array<T>, key: T -> int, i: nat)
    requires i < a.Length
    modifies a
    ensures a[..] == Pass(old(a[..]), key, i, i + 1)
    ensures multiset(a[..]) == multiset(old(a[..]))
  {
    var n := a.Length;
    for j := i + 1 to n
      invariant Pass(a[..], key, i, j) == Pass(old(a[..]), key, i, i + 1)
      invariant multiset(a[..]) == multiset(old(a[..]))
    {
      CompareExchange(a, key, i, j);
    }
  }

  /** The nested exchange loop run in place on `a`, comparing `key` of rows i < j. */
  method ExchangeSort<T>(a: array<T>, key: T -> int)
    modifies a
    ensures a[..] == ExchangeSorted(old(a[..]), key)
    ensures SortedBy(a[..], key) && multiset(a[..]) == multiset(old(a[..]))
  {
    var n := a.Length;
    for i := 0 to n
      invariant SortFrom(a[..], key, i) == ExchangeSorted(old(a[..]), key)
      invariant multiset(a[..]) == multiset(old(a[..]))
    {
      ExchangePass(a, key, i);
    }
    ExchangeSortedProperties(old(a[..]), key);
  }

  function Identity(x: int): int { x }

  /** The source's `sortIntArray`: the same exchange loop on a plain int array. */
  method SortIntArray(arr: array<int>)
    modifies arr
    ensures arr[..] == ExchangeSorted(old(arr[..]), Identity)
    ensures SortedBy(arr[..], Identity) && multiset(arr[..]) == multiset(old(arr[..]))
  {
    ExchangeSort(arr, Identity);
  }

  lemma {:induction false} NoDuplicatesCount(s: seq<int>, x: int)
    requires NoDuplicates(s)
    ensures multiset(s)[x] <= 1
  {
    if s != [] {
      assert s == [s[0]] + s[1..];
      assert NoDuplicates(s[1..]) by {
        forall i, j | 0 <= i < j < |s[1..]| ensures s[1..][i] != s[1..][j] {
          assert s[1..][i] == s[i + 1] && s[1..][j] == s[j + 1];
        }
      }
      NoDuplicatesCount(s[1..], x);
      if x == s[0] {
        assert x !in s[1..] by {
          forall k | 0 <= k < |s[1..]| ensures s[1..][k] != x {
            assert s[1..][k] == s[k + 1];
          }
        }
      }
    }
  }

  /** A permutation of a sequence without duplicates has none either. */
  lemma NoDuplicatesPermutation(s: seq<int>, t: seq<int>)
    requires NoDuplicates(s) && multiset(s) == multiset(t)
    ensures NoDuplicates(t)
  {
    forall i, j | 0 <= i < j < |t| ensures t[i] != t[j] {
      if t[i] == t[j] {
        assert t == t[..j] + t[j..];
        assert t[i] in t[..j] by { assert t[..j][i] == t[i]; }
        assert t[j] in t[j..] by { assert t[j..][0] == t[j]; }
        assert multiset(t)[t[i]] >= 2;
        NoDuplicatesCount(s, t[i]);
      }
    }
  }

  /** The values of `xs`, each taken once, in the order first seen (the LinkedHashSet). */
  function FirstSeen(xs: seq<int>): seq<int>
  {
    if xs == [] then []
    else
      var seen := FirstSeen(xs[..|xs| - 1]);
      if xs[|xs| - 1] in seen then seen else seen + [xs[|xs| - 1]]
  }

  /** The decision points of the preemptive schedulers: the first-seen values sorted with
      `sortIntArray`. */
  function Distinct(xs: seq<int>): seq<int>
  {
    ExchangeSorted(FirstSeen(xs), Identity)
  }

  lemma {:induction false} FirstSeenProperties(xs: seq<int>)
    ensures NoDuplicates(FirstSeen(xs))
    ensures forall x :: x in FirstSeen(xs) <==> x in xs
  {
    if xs != [] {
      var init := xs[..|xs| - 1];
      FirstSeenProperties(init);
      assert xs == init + [xs[|xs| - 1]];
    }
  }

  /** The decision points are the distinct values of `xs`, in strictly increasing order. */
  lemma DistinctProperties(xs: seq<int>)
    ensures StrictlyIncreasing(Distinct(xs))
    ensures forall x :: x in Distinct(xs) <==> x in xs
  {
    var seen := FirstSeen(xs);
    var arr := Distinct(xs);
    FirstSeenProperties(xs);
    ExchangeSortedProperties(seen, Identity);
    NoDuplicatesPermutation(seen, arr);
    forall x ensures x in arr <==> x in seen {
      assert x in arr <==> x in multiset(arr);
      assert x in seen <==> x in multiset(seen);
    }
  }

  /** The source's construction: collect the values first seen into a list, copy it into an
      array and sort that with `sortIntArray`. */
  method DistinctSorted(xs: seq<int>) returns (arr: seq<int>)
    ensures arr == Distinct(xs)
    ensures StrictlyIncreasing(arr)
    ensures forall x :: x in arr <==> x in xs
  {
    var seen: seq<int> := [];
    for i := 0 to |xs|
      invariant seen == FirstSeen(xs[..i])
    {
      assert xs[..i + 1][..i] == xs[..i];
      if xs[i] !in seen {
        seen := seen + [xs[i]];
      }
    }
    assert xs[..|xs|] == xs;
    var a := new int[|seen|];
    for k := 0 to |seen|
      invariant a[..k] == seen[..k]
    {
      a[k] := seen[k];
    }
    assert a[..] == seen;
    SortIntArray(a);
    arr := a[..];
    DistinctProperties(xs);
  }

  /** `f` applied to every entry. */
  function Map<T, U>(s: seq<T>, f: T -> U): (r: seq<U>)
    ensures |r| == |s| && forall i {:trigger r[i]} :: 0 <= i < |s| ==> r[i] == f(s[i])
  {
    seq(|s|, i requires 0 <= i < |s| => f(s[i]))
  }

  lemma MapConcat<T, U>(s: seq<T>, t: seq<T>, f: T -> U)
    ensures Map(s + t, f) == Map(s, f) + Map(t, f)
  {
  }

  /** Taking entry k out of a sequence, leaving `rest`, takes one copy of it out of its
      multiset and one copy of its image out of the multiset of images. */
  lemma RemoveAt<T, U>(t: seq<T>, k: nat, rest: seq<T>, f: T -> U)
    requires k < |t| && rest == t[..k] + t[k + 1..]
    ensures multiset(t) == multiset(rest) + multiset{t[k]}
    ensures multiset(Map(t, f)) == multiset(Map(rest, f)) + multiset{f(t[k])}
  {
    assert t == t[..k] + ([t[k]] + t[k + 1..]);
    MapConcat(t[..k], [t[k]] + t[k + 1..], f);
    MapConcat([t[k]], t[k + 1..], f);
    MapConcat(t[..k], t[k + 1..], f);
  }

  lemma Cancel<T>(a: multiset<T>, b: multiset<T>, x: T)
    requires a + multiset{x} == b + multiset{x}
    ensures a == b
  {
    forall y ensures a[y] == b[y] {
      assert (a + multiset{x})[y] == (b + multiset{x})[y];
    }
  }

  /** Reordering the entries reorders their images the same way. */
  lemma {:induction false} MapPermutation<T, U>(s: seq<T>, t: seq<T>, f: T -> U)
    requires multiset(s) == multiset(t)
    ensures multiset(Map(s, f)) == multiset(Map(t, f))
    decreases |s|
  {
    if s == [] {
      assert |t| == |multiset(t)| == 0;
    } else {
      var x := s[0];
      assert x in multiset(t);
      var k :| 0 <= k < |t| && t[k] == x;
      var s1, t1 := s[1..], t[..k] + t[k + 1..];
      assert s1 == s[..0] + s[1..];
      RemoveAt(s, 0, s1, f);
      RemoveAt(t, k, t1, f);
      Cancel(multiset(s1), multiset(t1), x);
      MapPermutation(s1, t1, f);
    }
  }

  /** A property every entry has survives reordering. */
  lemma PermutationAll<T>(s: seq<T>, t: seq<T>, p: T -> bool)
    requires multiset(s) == multiset(t)
    requires forall k :: 0 <= k < |s| ==> p(s[k])
    ensures forall k :: 0 <= k < |t| ==> p(t[k])
  {
    forall k | 0 <= k < |t| ensures p(t[k]) {
      assert t[k] in multiset(t);
      var m :| 0 <= m < |s| && s[m] == t[k];
    }
  }
}
