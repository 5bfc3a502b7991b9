/**
 * The array sort the dashboard calls, `Array.prototype.sort` with a three-way
 * comparator, which the language requires to be stable. A functional stable
 * insertion sort specifies the result; the in-place method performs it.
 */
module Sorting {

  /** `a` is not placed after `b`. */
  predicate NotAfter<T>(cmp: (T, T) -> int, a: T, b: T)
  {
    cmp(a, b) <= 0
  }

  /**
   * What the sort needs from a comparator: when `a` is placed after `b` then `b` is
   * placed before `a`, and "not after" is transitive, so the comparator is a total
   * preorder.
   */
  ghost predicate Consistent<T(!new)>(cmp: (T, T) -> int)
  {
    && (forall a, b {:trigger NotAfter(cmp, a, b)} :: NotAfter(cmp, a, b) || cmp(b, a) < 0)
    && (forall a, b, c {:trigger NotAfter(cmp, a, b), NotAfter(cmp, b, c)} ::
          NotAfter(cmp, a, b) && NotAfter(cmp, b, c) ==> NotAfter(cmp, a, c))
  }

  /**
   * Inserts `x` after `s`, moving it left past every element the comparator
   * puts after it, and stopping at the first one that is not.
   */
  function Insert<T>(cmp: (T, T) -> int, s: seq<T>, x: T): (r: seq<T>)
    ensures |r| == |s| + 1
    decreases |s|
  {
    if |s| == 0 then [x]
    else if cmp(s[|s| - 1], x) > 0 then Insert(cmp, s[..|s| - 1], x) + [s[|s| - 1]]
    else s + [x]
  }

  /** Stable ascending sort: each element in turn is inserted into the sorted prefix. */
  function InsertionSort<T>(cmp: (T, T) -> int, s: seq<T>): (r: seq<T>)
    ensures |r| == |s|
    decreases |s|
  {
    if |s| == 0 then []
    else Insert(cmp, InsertionSort(cmp, s[..|s| - 1]), s[|s| - 1])
  }

  /** Sorts `a` in place, exactly as InsertionSort orders its contents. */
  method Sort<T>(a: array<T>, cmp: (T, T) -> int)
    modifies a
    ensures a[..] == InsertionSort(cmp, old(a[..]))
  {
    ghost var input := a[..];
    var i := 0;
    while i < a.Length
      invariant 0 <= i <= a.Length
      invariant a[..i] == InsertionSort(cmp, input[..i])
      invariant a[i..] == input[i..]
    {
      SortPrefixStep(cmp, input, i);
      NextOfSuffix(a[..], input, i);
      InsertAt(a, i, cmp);
      i := i + 1;
    }
    assert a[..] == a[..a.Length] && input[..a.Length] == input;
  }

  /** Sorting one more element of the input inserts it into the sorted prefix. */
  lemma SortPrefixStep<T>(cmp: (T, T) -> int, input: seq<T>, i: nat)
    requires i < |input|
    ensures InsertionSort(cmp, input[..i + 1]) == Insert(cmp, InsertionSort(cmp, input[..i]), input[i])
  {
    assert input[..i + 1][..i] == input[..i];
  }

  /** Two sequences that agree from `i` on agree at `i` and from `i + 1` on. */
  lemma NextOfSuffix<T>(s: seq<T>, t: seq<T>, i: nat)
    requires i < |s| == |t|
    requires s[i..] == t[i..]
    ensures s[i] == t[i] && s[i + 1..] == t[i + 1..]
  {
    assert s[i] == s[i..][0] && t[i] == t[i..][0];
    assert s[i + 1..] == s[i..][1..] && t[i + 1..] == t[i..][1..];
  }

  /** Moves `a[i]` left into the prefix `a[..i]`, exactly as Insert places it. */
  method InsertAt<T>(a: array<T>, i: nat, cmp: (T, T) -> int)
    requires i < a.Length
    modifies a
    ensures a[..i + 1] == Insert(cmp, old(a[..i]), old(a[i]))
    ensures a[i + 1..] == old(a[i + 1..])
  {
    var x := a[i];
    ghost var orig := a[..];
    ghost var done := orig[..i];
    var k := i;
    GapStart(orig, i);
    assert done[..k] == done && done[k..] == [];
    while k > 0 && cmp(a[k - 1], x) > 0
      invariant 0 <= k <= i
      invariant a[..] == Gap(orig, k, i)
      invariant Insert(cmp, done, x) == Insert(cmp, done[..k], x) + done[k..]
    {
      GapShift(orig, k, i);
      ShiftStep(cmp, done, x, k);
      a[k] := a[k - 1];
      k := k - 1;
    }
    GapShift(orig, k, i);
    InsertStops(cmp, done, x, k);
    a[k] := x;
    GapFill(orig, k, i, x);
  }

  /**
   * The array during the inner loop: the elements before `i` from `k` on are
   * shifted one place right, and position `k` still holds a copy of its neighbour.
   */
  ghost function Gap<T>(orig: seq<T>, k: nat, i: nat): seq<T>
    requires k <= i < |orig|
  {
    orig[..k + 1] + orig[k..i] + orig[i + 1..]
  }

  lemma GapStart<T>(orig: seq<T>, i: nat)
    requires i < |orig|
    ensures Gap(orig, i, i) == orig
  {
    assert orig == orig[..i + 1] + orig[i + 1..];
  }

  /** Shifting `orig[k - 1]` into position `k` opens the gap one place further left. */
  lemma GapShift<T>(orig: seq<T>, k: nat, i: nat)
    requires k <= i < |orig|
    ensures |Gap(orig, k, i)| == |orig|
    ensures k > 0 ==> Gap(orig, k, i)[k - 1] == orig[k - 1]
    ensures k > 0 ==> Gap(orig, k, i)[k := orig[k - 1]] == Gap(orig, k - 1, i)
  {
    if k > 0 {
      var g := Gap(orig, k, i);
      var h := Gap(orig, k - 1, i);
      assert |g| == |h|;
      forall m | 0 <= m < |g|
        ensures g[k := orig[k - 1]][m] == h[m]
      {
        if m < k {
        } else if m == k {
        } else if m <= i {
          assert g[m] == orig[m - 1] && h[m] == orig[m - 1];
        } else {
          assert g[m] == orig[m] && h[m] == orig[m];
        }
      }
    }
  }

  /** Writing `x` into the gap gives the prefix, `x`, the shifted rest, and the untouched suffix. */
  lemma GapFill<T>(orig: seq<T>, k: nat, i: nat, x: T)
    requires k <= i < |orig|
    ensures |Gap(orig, k, i)| == |orig|
    ensures Gap(orig, k, i)[k := x][..i + 1] == orig[..i][..k] + [x] + orig[..i][k..]
    ensures Gap(orig, k, i)[k := x][i + 1..] == orig[i + 1..]
  {
    var g := Gap(orig, k, i)[k := x];
    var p := orig[..i][..k] + [x] + orig[..i][k..];
    assert |g[..i + 1]| == |p|;
    forall m | 0 <= m <= i
      ensures g[m] == p[m]
    {
      if m < k {
      } else if m > k {
        assert p[m] == orig[m - 1];
      }
    }
    assert g[..i + 1] == p;
    forall m | i < m < |orig|
      ensures g[m] == orig[m]
    {
    }
    assert g[i + 1..] == orig[i + 1..];
  }

  /** One step of the inner loop: moving `x` past an element placed after it. */
  lemma ShiftStep<T>(cmp: (T, T) -> int, done: seq<T>, x: T, k: nat)
    requires 0 < k <= |done|
    requires cmp(done[k - 1], x) > 0
    ensures Insert(cmp, done[..k], x) + done[k..] == Insert(cmp, done[..k - 1], x) + done[k - 1..]
  {
    assert done[..k][..k - 1] == done[..k - 1];
    assert done[k - 1..] == [done[k - 1]] + done[k..];
  }

  /** Where the inner loop stops, Insert places `x` right after the prefix. */
  lemma InsertStops<T>(cmp: (T, T) -> int, done: seq<T>, x: T, k: nat)
    requires k <= |done|
    requires k > 0 ==> cmp(done[k - 1], x) <= 0
    ensures Insert(cmp, done[..k], x) == done[..k] + [x]
  {
  }

  lemma {:induction false} InsertPermutes<T>(cmp: (T, T) -> int, s: seq<T>, x: T)
    ensures multiset(Insert(cmp, s, x)) == multiset(s) + multiset{x}
    decreases |s|
  {
    if |s| > 0 && cmp(s[|s| - 1], x) > 0 {
      InsertPermutes(cmp, s[..|s| - 1], x);
      assert s == s[..|s| - 1] + [s[|s| - 1]];
    }
  }

  /** The sort only reorders: the same elements, each as many times as before. */
  lemma {:induction false} SortPermutes<T>(cmp: (T, T) -> int, s: seq<T>)
    ensures multiset(InsertionSort(cmp, s)) == multiset(s)
    decreases |s|
  {
    if |s| > 0 {
      var init, last := s[..|s| - 1], s[|s| - 1];
      calc {
        multiset(InsertionSort(cmp, s));
        multiset(Insert(cmp, InsertionSort(cmp, init), last));
        { InsertPermutes(cmp, InsertionSort(cmp, init), last); }
        multiset(InsertionSort(cmp, init)) + multiset{last};
        { SortPermutes(cmp, init); }
        multiset(init) + multiset{last};
        { assert s == init + [last]; }
        multiset(s);
      }
    }
  }

  /** Every pair in `s` is in the comparator's ascending order. */
  ghost predicate SortedBy<T>(cmp: (T, T) -> int, s: seq<T>)
  {
    forall i, j :: 0 <= i < j < |s| ==> cmp(s[i], s[j]) <= 0
  }

  lemma {:induction false} InsertSorted<T(!new)>(cmp: (T, T) -> int, s: seq<T>, x: T)
    requires Consistent(cmp)
    requires SortedBy(cmp, s)
    ensures SortedBy(cmp, Insert(cmp, s, x))
    decreases |s|
  {
    if |s| > 0 {
      var init, last := s[..|s| - 1], s[|s| - 1];
      assert SortedBy(cmp, init) by {
        forall i, j | 0 <= i < j < |init| ensures cmp(init[i], init[j]) <= 0 {
          assert init[i] == s[i] && init[j] == s[j];
        }
      }
      if cmp(last, x) > 0 {
        InsertSorted(cmp, init, x);
        var r := Insert(cmp, init, x);
        InsertPermutes(cmp, init, x);
        forall i | 0 <= i < |r|
          ensures cmp(r[i], last) <= 0
        {
          assert r[i] in multiset(r);
          if r[i] != x {
            assert r[i] in multiset(init);
            var k :| 0 <= k < |init| && init[k] == r[i];
            assert s[k] == r[i];
          } else {
            assert !NotAfter(cmp, last, x);
          }
        }
        AppendSorted(cmp, r, last);
      } else {
        forall i | 0 <= i < |s|
          ensures cmp(s[i], x) <= 0
        {
          if i < |s| - 1 {
            assert NotAfter(cmp, s[i], last) && NotAfter(cmp, last, x);
          }
        }
        AppendSorted(cmp, s, x);
      }
    }
  }

  /** Appending an element that nothing in a sorted sequence comes after keeps it sorted. */
  lemma AppendSorted<T>(cmp: (T, T) -> int, r: seq<T>, y: T)
    requires SortedBy(cmp, r)
    requires forall i :: 0 <= i < |r| ==> cmp(r[i], y) <= 0
    ensures SortedBy(cmp, r + [y])
  {
  }

  /** The result of the sort is in ascending order for a consistent comparator. */
  lemma {:induction false} SortIsSorted<T(!new)>(cmp: (T, T) -> int, s: seq<T>)
    requires Consistent(cmp)
    ensures SortedBy(cmp, InsertionSort(cmp, s))
    decreases |s|
  {
    if |s| > 0 {
      SortIsSorted(cmp, s[..|s| - 1]);
      InsertSorted(cmp, InsertionSort(cmp, s[..|s| - 1]), s[|s| - 1]);
    }
  }

  /** A sequence already in order is left exactly as it is. */
  lemma {:induction false} SortKeepsSorted<T>(cmp: (T, T) -> int, s: seq<T>)
    requires SortedBy(cmp, s)
    ensures InsertionSort(cmp, s) == s
    decreases |s|
  {
    if |s| > 0 {
      var init := s[..|s| - 1];
      assert SortedBy(cmp, init) by {
        forall i, j | 0 <= i < j < |init| ensures cmp(init[i], init[j]) <= 0 {
          assert init[i] == s[i] && init[j] == s[j];
        }
      }
      SortKeepsSorted(cmp, init);
      if |s| > 1 {
        assert cmp(init[|init| - 1], s[|s| - 1]) <= 0 by {
          assert init[|init| - 1] == s[|s| - 2];
        }
      }
      assert s == init + [s[|s| - 1]];
    }
  }

  /** The elements of `s` that the comparator ties with `t`, in their order in `s`. */
  function TiedWith<T>(cmp: (T, T) -> int, t: T, s: seq<T>): seq<T>
    decreases |s|
  {
    if |s| == 0 then []
    else TiedWith(cmp, t, s[..|s| - 1]) + (if cmp(s[|s| - 1], t) == 0 then [s[|s| - 1]] else [])
  }

  lemma {:induction false} InsertKeepsTies<T(!new)>(cmp: (T, T) -> int, t: T, s: seq<T>, x: T)
    requires Consistent(cmp)
    ensures TiedWith(cmp, t, Insert(cmp, s, x)) == TiedWith(cmp, t, s + [x])
    decreases |s|
  {
    if |s| > 0 {
      var init, last := s[..|s| - 1], s[|s| - 1];
      if cmp(last, x) > 0 {
        InsertKeepsTies(cmp, t, init, x);
        if cmp(x, t) == 0 {
          // `last` comes after `x`, which is tied with `t`, so `last` is not tied with `t`
          assert NotAfter(cmp, t, x);
          assert !NotAfter(cmp, last, t) || !NotAfter(cmp, t, x) || NotAfter(cmp, last, x);
        }
        assert s == init + [last];
        TiedSwap(cmp, t, Insert(cmp, init, x), init, x, last);
      } else {
        assert Insert(cmp, s, x) == s + [x];
      }
    }
  }

  /**
   * Moving `x` past `last` does not change the ties with `t` when at most one of
   * them is tied with `t`.
   */
  lemma TiedSwap<T>(cmp: (T, T) -> int, t: T, r: seq<T>, init: seq<T>, x: T, last: T)
    requires cmp(x, t) == 0 ==> cmp(last, t) != 0
    requires TiedWith(cmp, t, r) == TiedWith(cmp, t, init + [x])
    ensures TiedWith(cmp, t, r + [last]) == TiedWith(cmp, t, init + [last] + [x])
  {
  }


  /** Stability: the elements tied with any `t` come out in the order they went in. */
  lemma {:induction false} SortIsStable<T(!new)>(cmp: (T, T) -> int, t: T, s: seq<T>)
    requires Consistent(cmp)
    ensures TiedWith(cmp, t, InsertionSort(cmp, s)) == TiedWith(cmp, t, s)
    decreases |s|
  {
    if |s| > 0 {
      var init, last := s[..|s| - 1], s[|s| - 1];
      var sortedInit := InsertionSort(cmp, init);
      assert InsertionSort(cmp, s) == Insert(cmp, sortedInit, last);
      SortIsStable(cmp, t, init);
      InsertKeepsTies(cmp, t, sortedInit, last);
      TiedSnoc(cmp, t, sortedInit, init, last);
      assert s == init + [last];
    }
  }

  /** Sequences with the same ties with `t` still have them after the same element is appended. */
  lemma TiedSnoc<T>(cmp: (T, T) -> int, t: T, r: seq<T>, u: seq<T>, y: T)
    requires TiedWith(cmp, t, r) == TiedWith(cmp, t, u)
    ensures TiedWith(cmp, t, r + [y]) == TiedWith(cmp, t, u + [y])
  {
  }
}
