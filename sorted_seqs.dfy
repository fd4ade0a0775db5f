/** The ordered-container algorithms the estimator relies on: the in-place sort of
    `CMath::qsort`, the in-order copy out of a `std::set`, and `std::set_difference`
    over two ascending ranges. */
module SortedSeqs {

  ghost predicate StrictlyIncreasing(s: seq<nat>)
  {
    forall i, j :: 0 <= i < j < |s| ==> s[i] < s[j]
  }

  ghost predicate Ascending(s: seq<nat>)
  {
    forall i, j :: 0 <= i < j < |s| ==> s[i] <= s[j]
  }

  lemma StrictlyIncreasingIsAscending(s: seq<nat>)
    requires StrictlyIncreasing(s)
    ensures Ascending(s)
  {
  }

  lemma HeadIsLeast(t: seq<nat>, x: nat)
    requires Ascending(t)
    requires x in t
    ensures t[0] <= x
  {
    var k :| 0 <= k < |t| && t[k] == x;
    if k > 0 {
      assert t[0] <= t[k];
    }
  }

  /** Sorting an already strictly increasing sequence cannot change it: the only ascending
      permutation of a strictly increasing sequence is the sequence itself. */
  lemma {:induction false} SortedPermutationIsIdentity(s: seq<nat>, t: seq<nat>)
    requires StrictlyIncreasing(s)
    requires Ascending(t)
    requires multiset(s) == multiset(t)
    ensures t == s
  {
    assert |s| == |multiset(s)| == |multiset(t)| == |t|;
    if |s| > 0 {
      assert s[0] in multiset(t) && t[0] in multiset(s);
      HeadIsLeast(t, s[0]);
      StrictlyIncreasingIsAscending(s);
      HeadIsLeast(s, t[0]);
      var s', t' := s[1..], t[1..];
      assert s == [s[0]] + s' && t == [t[0]] + t';
      assert multiset(s) == multiset{s[0]} + multiset(s');
      assert multiset(t) == multiset{t[0]} + multiset(t');
      forall x ensures multiset(s')[x] == multiset(t')[x] {
        assert multiset(s)[x] == multiset{s[0]}[x] + multiset(s')[x];
        assert multiset(t)[x] == multiset{t[0]}[x] + multiset(t')[x];
      }
      assert multiset(s') == multiset(t');
      assert StrictlyIncreasing(s') && Ascending(t');
      SortedPermutationIsIdentity(s', t');
    }
  }

  /** `CMath::qsort`: sorts the array in place into ascending order (an insertion sort
      with the same contract stands in for the library's quicksort). */
  method SortAscending(a: array<nat>)
    modifies a
    ensures Ascending(a[..])
    ensures multiset(a[..]) == multiset(old(a[..]))
  {
    var i := 0;
    while i < a.Length
      invariant 0 <= i <= a.Length
      invariant forall p, q :: 0 <= p < q < i ==> a[p] <= a[q]
      invariant multiset(a[..]) == multiset(old(a[..]))
    {
      var j := i;
      while j > 0 && a[j - 1] > a[j]
        invariant 0 <= j <= i
        invariant forall p, q :: 0 <= p < q <= i && p != j && q != j ==> a[p] <= a[q]
        invariant forall q :: j < q <= i ==> a[j] < a[q]
        invariant forall p, q :: 0 <= p < j < q <= i ==> a[p] <= a[q]
        invariant multiset(a[..]) == multiset(old(a[..]))
      {
        a[j - 1], a[j] := a[j], a[j - 1];
        j := j - 1;
      }
      i := i + 1;
    }
  }

  lemma Minimum(s: set<nat>) returns (m: nat)
    requires s != {}
    ensures m in s
    ensures forall x :: x in s ==> m <= x
    decreases s
  {
    var x :| x in s;
    if s == {x} {
      m := x;
    } else {
      var m' := Minimum(s - {x});
      m := if x < m' then x else m';
      forall y | y in s ensures m <= y {
        if y != x {
          assert y in s - {x};
        }
      }
    }
  }

  /** Copying a `std::set` out in iteration order: its elements, ascending, each once. */
  method SortedElements(s: set<nat>) returns (r: seq<nat>)
    ensures StrictlyIncreasing(r)
    ensures forall x :: x in r <==> x in s
    ensures |r| == |s|
  {
    var rest := s;
    r := [];
    while rest != {}
      invariant rest <= s
      invariant forall k :: 0 <= k < |r| ==> r[k] in s && r[k] !in rest
      invariant forall x :: x in s && x !in rest ==> x in r
      invariant StrictlyIncreasing(r)
      invariant forall k, y :: 0 <= k < |r| && y in rest ==> r[k] < y
      invariant |r| + |rest| == |s|
      decreases rest
    {
      ghost var least := Minimum(rest);
      var m :| m in rest && forall x :: x in rest ==> m <= x;
      assert |rest - {m}| == |rest| - 1;
      r := r + [m];
      rest := rest - {m};
    }
  }

  /** `std::set_difference` of two ascending, duplicate-free ranges: the elements of `xs`
      that do not occur in `ys`, in ascending order. */
  method SetDifference(xs: seq<nat>, ys: seq<nat>) returns (r: seq<nat>)
    requires StrictlyIncreasing(xs)
    requires StrictlyIncreasing(ys)
    ensures StrictlyIncreasing(r)
    ensures forall v :: v in r <==> v in xs && v !in ys
  {
    var i, j := 0, 0;
    r := [];
    while i < |xs|
      invariant 0 <= i <= |xs| && 0 <= j <= |ys|
      invariant StrictlyIncreasing(r)
      invariant forall v :: v in r <==> v in xs[..i] && v !in ys
      invariant i < |xs| ==> forall k :: 0 <= k < |r| ==> r[k] < xs[i]
      invariant i < |xs| ==> forall k :: 0 <= k < j ==> ys[k] < xs[i]
      invariant 0 < i && j < |ys| ==> xs[i - 1] < ys[j]
      decreases |xs| - i + |ys| - j
    {
      if j == |ys| || xs[i] < ys[j] {
        assert xs[i] !in ys by {
          if j < |ys| {
            forall k | j <= k < |ys| ensures ys[k] != xs[i] {
              assert ys[j] <= ys[k];
            }
          }
        }
        assert xs[..i + 1] == xs[..i] + [xs[i]];
        r := r + [xs[i]];
        i := i + 1;
      } else if ys[j] < xs[i] {
        j := j + 1;
      } else {
        assert xs[..i + 1] == xs[..i] + [xs[i]];
        i := i + 1;
        j := j + 1;
      }
    }
    assert xs[..i] == xs;
  }

  /** A strictly increasing sequence of `n` values below `n` is exactly 0, 1, ..., n - 1. */
  lemma {:induction false} IncreasingBelowIsRange(s: seq<nat>, n: nat)
    requires StrictlyIncreasing(s)
    requires |s| == n
    requires forall k :: 0 <= k < |s| ==> s[k] < n
    ensures forall k :: 0 <= k < |s| ==> s[k] == k
  {
    forall k | 0 <= k < |s| ensures s[k] == k {
      AtLeastIndex(s, k);
      AtMostIndex(s, n, k);
    }
  }

  lemma {:induction false} AtLeastIndex(s: seq<nat>, k: nat)
    requires StrictlyIncreasing(s)
    requires k < |s|
    ensures k <= s[k]
  {
    if k > 0 {
      AtLeastIndex(s, k - 1);
    }
  }

  lemma {:induction false} AtMostIndex(s: seq<nat>, n: nat, k: nat)
    requires StrictlyIncreasing(s)
    requires |s| == n
    requires forall m :: 0 <= m < |s| ==> s[m] < n
    requires k < |s|
    ensures s[k] <= k
    decreases |s| - k
  {
    if k < |s| - 1 {
      AtMostIndex(s, n, k + 1);
    }
  }

  /** Two strictly increasing sequences with the same members are the same sequence. */
  lemma {:induction false} SameMembersIncreasingEqual(s: seq<nat>, t: seq<nat>)
    requires StrictlyIncreasing(s) && StrictlyIncreasing(t)
    requires forall x :: x in s <==> x in t
    ensures s == t
    decreases |s|
  {
    if s != [] {
      assert s[0] in t;
    }
    if t != [] {
      assert t[0] in s;
    }
    if s != [] {
      StrictlyIncreasingIsAscending(s);
      StrictlyIncreasingIsAscending(t);
      assert s[0] in t && t[0] in s;
      HeadIsLeast(t, s[0]);
      HeadIsLeast(s, t[0]);
      forall x ensures x in s[1..] <==> x in t[1..] {
        if x in s[1..] {
          var m :| 1 <= m < |s| && s[m] == x;
          assert x in t && x != t[0];
        }
        if x in t[1..] {
          var m :| 1 <= m < |t| && t[m] == x;
          assert x in s && x != s[0];
        }
      }
      SameMembersIncreasingEqual(s[1..], t[1..]);
      assert s == [s[0]] + s[1..] && t == [t[0]] + t[1..];
    }
  }

  /** A strictly increasing sequence of values below `n` has at most `n` elements. */
  lemma IncreasingBelowLength(s: seq<nat>, n: nat)
    requires StrictlyIncreasing(s)
    requires forall k :: 0 <= k < |s| ==> s[k] < n
    ensures |s| <= n
  {
    if |s| > 0 {
      AtLeastIndex(s, |s| - 1);
    }
  }

  /** A strictly increasing sequence of values below `n` that contains every value below
      `n` has exactly `n` elements. */
  lemma CoversBelow(s: seq<nat>, n: nat)
    requires StrictlyIncreasing(s)
    requires forall k :: 0 <= k < |s| ==> s[k] < n
    requires forall a: nat :: a < n ==> a in s
    ensures |s| == n
  {
    IncreasingBelowLength(s, n);
    if n > 0 {
      assert n - 1 in s;
      var m :| 0 <= m < |s| && s[m] == n - 1;
      CoveredIndex(s, n, m);
    }
  }

  lemma {:induction false} CoveredIndex(s: seq<nat>, n: nat, k: nat)
    requires StrictlyIncreasing(s)
    requires forall m :: 0 <= m < |s| ==> s[m] < n
    requires forall a: nat :: a < n ==> a in s
    requires k < |s|
    ensures s[k] == k
  {
    if k > 0 {
      CoveredIndex(s, n, k - 1);
    }
    AtLeastIndex(s, k);
    assert k in s;
    var m :| 0 <= m < |s| && s[m] == k;
  }
}
