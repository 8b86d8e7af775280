/** runtime/stdlib.c: qsort, in place and with a recursion only into the smaller side. */
module Sorting {
  import opened Words

  // What the standard asks of a comparison: signs of swapped arguments agree, and "not above" is transitive.
  ghost predicate TotalPreorder<T(!new)>(cmp: (T, T) -> int) {
    && (forall x, y :: cmp(x, y) < 0 <==> cmp(y, x) > 0)
    && (forall x, y, z :: cmp(x, y) <= 0 && cmp(y, z) <= 0 ==> cmp(x, z) <= 0)
  }

  // Sorted but for the elements of s[lo..hi] among themselves.
  ghost predicate SortedAround<T>(s: seq<T>, lo: nat, hi: nat, cmp: (T, T) -> int) {
    forall i, j :: 0 <= i < j < |s| && !(lo <= i && j < hi) ==> cmp(s[i], s[j]) <= 0
  }

  // Sorted but for two parts.
  ghost predicate SortedAroundBoth<T>(s: seq<T>, lo: nat, mid: nat, hi: nat, cmp: (T, T) -> int) {
    forall i, j :: 0 <= i < j < |s| && !(lo <= i && j < mid) && !(mid < i && j < hi) ==> cmp(s[i], s[j]) <= 0
  }

  ghost predicate Sorted<T>(s: seq<T>, cmp: (T, T) -> int) {
    forall i, j :: 0 <= i < j < |s| ==> cmp(s[i], s[j]) <= 0
  }

  // t is s with the elements between lo and hi permuted.
  ghost predicate Permuted<T>(s: seq<T>, t: seq<T>, lo: nat, hi: nat) {
    && |s| == |t| && lo <= hi <= |s| && s[..lo] == t[..lo] && s[hi..] == t[hi..]
    && multiset(s[lo..hi]) == multiset(t[lo..hi])
  }

  lemma PermutedThen<T>(s: seq<T>, t: seq<T>, u: seq<T>, lo: nat, hi: nat)
    requires Permuted(s, t, lo, hi) && Permuted(t, u, lo, hi)
    ensures Permuted(s, u, lo, hi)
  {
  }

  // A part permuted is the whole permuted.
  lemma PermutedWithin<T>(s: seq<T>, t: seq<T>, lo: nat, hi: nat, from: nat, to: nat)
    requires Permuted(s, t, from, to) && lo <= from && to <= hi <= |s|
    ensures Permuted(s, t, lo, hi)
  {
    assert s[..lo] == s[..from][..lo] && t[..lo] == t[..from][..lo];
    assert s[hi..] == s[to..][hi - to..] && t[hi..] == t[to..][hi - to..];
    assert s[lo..hi] == s[..from][lo..] + s[from..to] + s[to..][..hi - to];
    assert t[lo..hi] == t[..from][lo..] + t[from..to] + t[to..][..hi - to];
  }

  // s with two elements exchanged
  function Swapped<T>(s: seq<T>, i: nat, j: nat): seq<T>
    requires i < |s| && j < |s|
  {
    s[i := s[j]][j := s[i]]
  }

  lemma SwapPermutes<T>(s: seq<T>, i: nat, j: nat, lo: nat, hi: nat)
    requires lo <= i < hi && lo <= j < hi && hi <= |s|
    ensures Permuted(s, Swapped(s, i, j), lo, hi)
  {
    var t := Swapped(s, i, j);
    assert t[lo..hi] == s[lo..hi][i - lo := s[j]][j - lo := s[i]];
  }

  // An element of a permuted part was there before.
  lemma Came<T>(s: seq<T>, t: seq<T>, lo: nat, hi: nat, k: nat) returns (i: nat)
    requires Permuted(s, t, lo, hi) && lo <= k < hi
    ensures lo <= i < hi && s[i] == t[k]
  {
    assert t[lo..hi][k - lo] == t[k];
    assert t[k] in multiset(t[lo..hi]);
    assert t[k] in s[lo..hi];
    var m :| 0 <= m < hi - lo && s[lo..hi][m] == t[k];
    i := lo + m;
  }

  // Permuting the open part keeps the rest in order.
  lemma OrderKept<T>(s: seq<T>, t: seq<T>, lo: nat, hi: nat, cmp: (T, T) -> int)
    requires SortedAround(s, lo, hi, cmp) && Permuted(s, t, lo, hi)
    ensures SortedAround(t, lo, hi, cmp)
  {
    forall i, j | 0 <= i < j < |t| && !(lo <= i && j < hi) ensures cmp(t[i], t[j]) <= 0 {
      var i', j' := i, j;
      if lo <= i < hi {
        i' := Came(s, t, lo, hi, i);
      } else {
        SameOutside(s, t, lo, hi, i);
      }
      if lo <= j < hi {
        j' := Came(s, t, lo, hi, j);
      } else {
        SameOutside(s, t, lo, hi, j);
      }
      assert cmp(s[i'], s[j']) <= 0;
    }
  }

  lemma SameOutside<T>(s: seq<T>, t: seq<T>, lo: nat, hi: nat, k: nat)
    requires Permuted(s, t, lo, hi) && k < |s| && !(lo <= k < hi)
    ensures s[k] == t[k]
  {
    if k < lo {
      assert s[..lo][k] == t[..lo][k];
    } else {
      assert s[hi..][k - hi] == t[hi..][k - hi];
    }
  }

  // Partitioned around the pivot at mid, only the two sides are open.
  lemma Partitioned<T(!new)>(s: seq<T>, lo: nat, mid: nat, hi: nat, cmp: (T, T) -> int)
    requires TotalPreorder(cmp) && SortedAround(s, lo, hi, cmp) && lo <= mid < hi <= |s|
    requires AllBelow(s, lo, mid, s[mid], cmp) && NoneBelow(s, mid + 1, hi, s[mid], cmp)
    ensures SortedAroundBoth(s, lo, mid, hi, cmp)
  {
    forall i, j | 0 <= i < j < |s| && !(lo <= i && j < mid) && !(mid < i && j < hi) ensures cmp(s[i], s[j]) <= 0 {
      if lo <= i && j < hi {
        assert cmp(s[i], s[mid]) <= 0 || i == mid;
        assert cmp(s[mid], s[j]) <= 0 || j == mid;
        assert cmp(s[mid], s[mid]) <= 0;
      }
    }
  }

  lemma Pick<T>(s: seq<T>, lo: nat, mid: nat, hi: nat, i: nat, j: nat, cmp: (T, T) -> int)
    requires SortedAroundBoth(s, lo, mid, hi, cmp) && i < j < |s| && !(lo <= i && j < mid) && !(mid < i && j < hi)
    ensures cmp(s[i], s[j]) <= 0
  {
  }

  lemma PermutedLength<T>(s: seq<T>, t: seq<T>, lo: nat, hi: nat)
    requires Permuted(s, t, lo, hi)
    ensures |s| == |t|
  {
  }

  // Sorting one side closes it.
  lemma LeftClosed<T>(s: seq<T>, t: seq<T>, lo: nat, mid: nat, hi: nat, cmp: (T, T) -> int)
    requires SortedAroundBoth(s, lo, mid, hi, cmp) && lo <= mid < hi <= |s|
    requires Permuted(s, t, lo, mid) && Sorted(t[lo..mid], cmp)
    ensures SortedAround(t, mid + 1, hi, cmp)
  {
    hide Permuted, SortedAroundBoth;
    PermutedLength(s, t, lo, mid);
    forall i, j | 0 <= i < j < |t| && !(mid + 1 <= i && j < hi) ensures cmp(t[i], t[j]) <= 0 {
      if lo <= i && j < mid {
        assert t[lo..mid][i - lo] == t[i] && t[lo..mid][j - lo] == t[j];
      } else {
        forall i', j' | 0 <= i' < j' < |s| && (i' == i || (lo <= i < mid && lo <= i' < mid))
                        && (j' == j || (lo <= j < mid && lo <= j' < mid)) ensures cmp(s[i'], s[j']) <= 0 {
          Pick(s, lo, mid, hi, i', j', cmp);
        }
        Related(s, t, lo, mid, i, j, cmp);
      }
    }
  }

  lemma RightClosed<T>(s: seq<T>, t: seq<T>, lo: nat, mid: nat, hi: nat, cmp: (T, T) -> int)
    requires SortedAroundBoth(s, lo, mid, hi, cmp) && lo <= mid < hi <= |s|
    requires Permuted(s, t, mid + 1, hi) && Sorted(t[mid + 1..hi], cmp)
    ensures SortedAround(t, lo, mid, cmp)
  {
    hide Permuted, SortedAroundBoth;
    PermutedLength(s, t, mid + 1, hi);
    forall i, j | 0 <= i < j < |t| && !(lo <= i && j < mid) ensures cmp(t[i], t[j]) <= 0 {
      if mid + 1 <= i && j < hi {
        assert t[mid + 1..hi][i - mid - 1] == t[i] && t[mid + 1..hi][j - mid - 1] == t[j];
      } else {
        forall i', j' | 0 <= i' < j' < |s| && (i' == i || (mid < i < hi && mid < i' < hi))
                        && (j' == j || (mid < j < hi && mid < j' < hi)) ensures cmp(s[i'], s[j']) <= 0 {
          Pick(s, lo, mid, hi, i', j', cmp);
        }
        Related(s, t, mid + 1, hi, i, j, cmp);
      }
    }
  }

  // Two elements, not both from the permuted part, are ordered if wherever they came from was.
  lemma Related<T>(s: seq<T>, t: seq<T>, lo: nat, hi: nat, i: nat, j: nat, cmp: (T, T) -> int)
    requires Permuted(s, t, lo, hi) && i < j < |t| && !(lo <= i && j < hi)
    requires forall i', j' :: (0 <= i' < j' < |s| && (i' == i || (lo <= i < hi && lo <= i' < hi))
                               && (j' == j || (lo <= j < hi && lo <= j' < hi))) ==> cmp(s[i'], s[j']) <= 0
    ensures cmp(t[i], t[j]) <= 0
  {
    var i', j' := i, j;
    if lo <= i < hi {
      i' := Came(s, t, lo, hi, i);
    } else {
      SameOutside(s, t, lo, hi, i);
    }
    if lo <= j < hi {
      j' := Came(s, t, lo, hi, j);
    } else {
      SameOutside(s, t, lo, hi, j);
    }
  }

  method Swap<T>(a: array<T>, i: nat, j: nat, ghost lo: nat, ghost hi: nat)
    requires lo <= i < hi && lo <= j < hi && hi <= a.Length
    modifies a
    ensures a[..] == Swapped(old(a[..]), i, j) && Permuted(old(a[..]), a[..], lo, hi)
  {
    hide Permuted;
    SwapPermutes(a[..], i, j, lo, hi);
    a[i], a[j] := a[j], a[i];
    assert a[..] == Swapped(old(a[..]), i, j);
  }

  ghost predicate AllBelow<T>(s: seq<T>, lo: nat, hi: nat, p: T, cmp: (T, T) -> int) {
    hi <= |s| && forall k :: lo <= k < hi ==> cmp(s[k], p) < 0
  }

  ghost predicate NoneBelow<T>(s: seq<T>, lo: nat, hi: nat, p: T, cmp: (T, T) -> int) {
    hi <= |s| && forall k :: lo <= k < hi ==> cmp(s[k], p) >= 0
  }

  // Element i joins those below the pivot, changing places with the first that is not.
  lemma SwapDown<T>(s: seq<T>, t: seq<T>, lo: nat, store: nat, i: nat, p: T, cmp: (T, T) -> int)
    requires lo <= store <= i < |s| && t == Swapped(s, i, store) && cmp(s[i], p) < 0
    requires AllBelow(s, lo, store, p, cmp) && NoneBelow(s, store, i, p, cmp)
    ensures AllBelow(t, lo, store + 1, p, cmp) && NoneBelow(t, store + 1, i + 1, p, cmp)
  {
  }

  // The pivot changes places with the first element that is not below it.
  lemma SwapPivot<T>(s: seq<T>, t: seq<T>, lo: nat, store: nat, last: nat, cmp: (T, T) -> int)
    requires lo <= store <= last < |s| && t == Swapped(s, store, last)
    requires AllBelow(s, lo, store, s[last], cmp) && NoneBelow(s, store, last, s[last], cmp)
    ensures AllBelow(t, lo, store, t[store], cmp) && NoneBelow(t, store + 1, last + 1, t[store], cmp)
  {
  }

  // The partition of qsort_rec around its last element.
  method Partition<T(!new)>(a: array<T>, lo: nat, n: nat, cmp: (T, T) -> int) returns (store: nat)
    requires n > 1 && lo + n <= a.Length
    modifies a
    ensures store < n && Permuted(old(a[..]), a[..], lo, lo + n)
    ensures AllBelow(a[..], lo, lo + store, a[lo + store], cmp) && NoneBelow(a[..], lo + store + 1, lo + n, a[lo + store], cmp)
  {
    hide Permuted, AllBelow, NoneBelow;
    ghost var was := a[..];
    NotPermuted(was, lo, lo + n);
    var last := lo + n - 1;
    ghost var p := a[last];
    NoneYet(was, lo, p, cmp);
    store := 0;
    var i := 0;
    while i < n - 1
      invariant 0 <= store <= i <= n - 1 && a[last] == p && Permuted(was, a[..], lo, lo + n)
      invariant AllBelow(a[..], lo, lo + store, p, cmp) && NoneBelow(a[..], lo + store, lo + i, p, cmp)
    {
      if cmp(a[lo + i], a[last]) < 0 {
        MoveDown(a, lo, n, store, i, cmp, was);
        store := store + 1;
      } else {
        OneMore(a[..], lo + store, lo + i, p, cmp);
      }
      i := i + 1;
    }
    PlacePivot(a, lo, n, store, cmp, was);
  }

  // The swap of one round, left out when the element already is in place.
  method MoveDown<T(!new)>(a: array<T>, lo: nat, n: nat, store: nat, i: nat, cmp: (T, T) -> int, ghost was: seq<T>)
    requires store <= i < n - 1 && lo + n <= a.Length && Permuted(was, a[..], lo, lo + n)
    requires var p := a[lo + n - 1];
             cmp(a[lo + i], p) < 0 && AllBelow(a[..], lo, lo + store, p, cmp) && NoneBelow(a[..], lo + store, lo + i, p, cmp)
    modifies a
    ensures Permuted(was, a[..], lo, lo + n) && a[lo + n - 1] == old(a[lo + n - 1])
    ensures var p := a[lo + n - 1];
            AllBelow(a[..], lo, lo + store + 1, p, cmp) && NoneBelow(a[..], lo + store + 1, lo + i + 1, p, cmp)
  {
    hide Permuted, AllBelow, NoneBelow, Swapped;
    ghost var before := a[..];
    if i != store {
      Swap(a, lo + i, lo + store, lo, lo + n);
      PermutedThen(was, before, a[..], lo, lo + n);
      NotMoved(before, lo + i, lo + store, lo + n - 1);
      SwapDown(before, a[..], lo, lo + store, lo + i, before[lo + n - 1], cmp);
    } else {
      Stays(before, lo + i);
      SwapDown(before, before, lo, lo + store, lo + i, before[lo + n - 1], cmp);
    }
  }

  lemma NotMoved<T>(s: seq<T>, i: nat, j: nat, k: nat)
    requires i < |s| && j < |s| && k < |s| && i != k && j != k
    ensures Swapped(s, i, j)[k] == s[k]
  {
  }

  lemma Stays<T>(s: seq<T>, i: nat)
    requires i < |s|
    ensures s == Swapped(s, i, i)
  {
  }

  method PlacePivot<T(!new)>(a: array<T>, lo: nat, n: nat, store: nat, cmp: (T, T) -> int, ghost was: seq<T>)
    requires store < n && lo + n <= a.Length && Permuted(was, a[..], lo, lo + n)
    requires var p := a[lo + n - 1];
             AllBelow(a[..], lo, lo + store, p, cmp) && NoneBelow(a[..], lo + store, lo + n - 1, p, cmp)
    modifies a
    ensures Permuted(was, a[..], lo, lo + n)
    ensures AllBelow(a[..], lo, lo + store, a[lo + store], cmp) && NoneBelow(a[..], lo + store + 1, lo + n, a[lo + store], cmp)
  {
    hide Permuted, AllBelow, NoneBelow, Swapped;
    ghost var before := a[..];
    if store != n - 1 {
      Swap(a, lo + store, lo + n - 1, lo, lo + n);
      PermutedThen(was, before, a[..], lo, lo + n);
    } else {
      Stays(before, lo + store);
    }
    SwapPivot(before, a[..], lo, lo + store, lo + n - 1, cmp);
  }

  lemma NoneYet<T>(s: seq<T>, lo: nat, p: T, cmp: (T, T) -> int)
    requires lo <= |s|
    ensures AllBelow(s, lo, lo, p, cmp) && NoneBelow(s, lo, lo, p, cmp)
  {
  }

  lemma OneMore<T>(s: seq<T>, lo: nat, i: nat, p: T, cmp: (T, T) -> int)
    requires i < |s| && NoneBelow(s, lo, i, p, cmp) && cmp(s[i], p) >= 0
    ensures NoneBelow(s, lo, i + 1, p, cmp)
  {
  }

  lemma NotPermuted<T>(s: seq<T>, lo: nat, hi: nat)
    requires lo <= hi <= |s|
    ensures Permuted(s, s, lo, hi)
  {
  }

  // qsort_rec; depth counts the calls active at once below this one.
  method QsortRec<T(!new)>(a: array<T>, base: nat, size: nat, cmp: (T, T) -> int) returns (ghost depth: nat)
    requires TotalPreorder(cmp) && base + size <= a.Length
    modifies a
    ensures Permuted(old(a[..]), a[..], base, base + size) && Sorted(a[base..base + size], cmp)
    ensures Pow2(depth) <= if size == 0 then 1 else size
    decreases size
  {
    hide Permuted, SortedAround, SortedAroundBoth, Sorted, TotalPreorder, AllBelow, NoneBelow, Pow2;
    ghost var end := base + size;
    ghost var was := a[..];
    NotPermuted(was, base, end);
    StartOpen(a[base..end], cmp);
    Pow2Zero();
    depth := 0;
    var lo: nat, n: nat := base, size;
    while n > 1
      invariant base <= lo && lo + n <= end && Permuted(was, a[..], base, end)
      invariant SortedAround(a[base..end], lo - base, lo - base + n, cmp)
      invariant Pow2(depth) <= if size == 0 then 1 else size
      decreases n
    {
      ghost var before := a[..];
      var store := Partition(a, lo, n, cmp);
      ghost var parted := a[..];
      AfterPartition(was, before, parted, base, end, lo, store, n, cmp);
      ghost var d;
      if store < n - store - 1 {
        d := QsortRec(a, lo, store, cmp);
        AfterLeft(was, parted, a[..], base, end, lo, store, n, cmp);
        lo := lo + store + 1;
        n := n - store - 1;
      } else {
        d := QsortRec(a, lo + store + 1, n - store - 1, cmp);
        AfterRight(was, parted, a[..], base, end, lo, store, n, cmp);
        n := store;
      }
      Pow2Next(d);
      if d + 1 > depth {
        depth := d + 1;
      }
    }
    Closed(a[base..end], lo - base, lo - base + n, cmp);
  }

  lemma Pow2Zero()
    ensures Pow2(0) == 1
  {
  }

  lemma StartOpen<T>(s: seq<T>, cmp: (T, T) -> int)
    ensures SortedAround(s, 0, |s|, cmp)
  {
  }

  lemma Closed<T>(s: seq<T>, lo: nat, hi: nat, cmp: (T, T) -> int)
    requires SortedAround(s, lo, hi, cmp) && hi <= lo + 1
    ensures Sorted(s, cmp)
  {
  }

  // A permuted part of the array, seen inside the range that is being sorted.
  lemma InRange<T>(s: seq<T>, t: seq<T>, base: nat, end: nat, lo: nat, hi: nat)
    requires Permuted(s, t, lo, hi) && base <= lo && hi <= end <= |s|
    ensures Permuted(s[base..end], t[base..end], lo - base, hi - base)
  {
    assert s[base..end][..lo - base] == s[..lo][base..] && t[base..end][..lo - base] == t[..lo][base..];
    assert s[base..end][hi - base..] == s[hi..][..end - hi] && t[base..end][hi - base..] == t[hi..][..end - hi];
    PartOfPart(s, base, end, lo, hi);
    PartOfPart(t, base, end, lo, hi);
  }

  lemma PartOfPart<T>(s: seq<T>, base: nat, end: nat, lo: nat, hi: nat)
    requires base <= lo <= hi <= end <= |s|
    ensures s[base..end][lo - base..hi - base] == s[lo..hi]
  {
    var u := s[base..end];
    forall k | 0 <= k < hi - lo ensures u[lo - base..hi - base][k] == s[lo..hi][k] {
      assert u[lo - base..hi - base][k] == u[lo - base + k];
    }
  }

  lemma AfterPartition<T(!new)>(was: seq<T>, s: seq<T>, t: seq<T>, base: nat, end: nat, lo: nat, store: nat, n: nat, cmp: (T, T) -> int)
    requires TotalPreorder(cmp) && |s| == |t| && base <= lo && lo + n <= end <= |s| && store < n
    requires Permuted(was, s, base, end) && Permuted(s, t, lo, lo + n)
    requires SortedAround(s[base..end], lo - base, lo - base + n, cmp)
    requires AllBelow(t, lo, lo + store, t[lo + store], cmp) && NoneBelow(t, lo + store + 1, lo + n, t[lo + store], cmp)
    ensures Permuted(was, t, base, end)
    ensures SortedAroundBoth(t[base..end], lo - base, lo - base + store, lo - base + n, cmp)
  {
    hide Permuted, SortedAround, SortedAroundBoth, TotalPreorder;
    PermutedWithin(s, t, base, end, lo, lo + n);
    PermutedThen(was, s, t, base, end);
    InRange(s, t, base, end, lo, lo + n);
    OrderKept(s[base..end], t[base..end], lo - base, lo - base + n, cmp);
    Partitioned(t[base..end], lo - base, lo - base + store, lo - base + n, cmp);
  }

  lemma AfterLeft<T>(was: seq<T>, s: seq<T>, t: seq<T>, base: nat, end: nat, lo: nat, store: nat, n: nat, cmp: (T, T) -> int)
    requires base <= lo && lo + n <= end <= |s| && store < n
    requires Permuted(was, s, base, end) && Permuted(s, t, lo, lo + store) && Sorted(t[lo..lo + store], cmp)
    requires SortedAroundBoth(s[base..end], lo - base, lo - base + store, lo - base + n, cmp)
    ensures Permuted(was, t, base, end)
    ensures |t| == |s| && SortedAround(t[base..end], lo - base + store + 1, lo - base + n, cmp)
  {
    hide Permuted, SortedAround, SortedAroundBoth, Sorted;
    PermutedLength(s, t, lo, lo + store);
    PermutedWithin(s, t, base, end, lo, lo + store);
    PermutedThen(was, s, t, base, end);
    InRange(s, t, base, end, lo, lo + store);
    PartOfPart(t, base, end, lo, lo + store);
    LeftClosed(s[base..end], t[base..end], lo - base, lo - base + store, lo - base + n, cmp);
  }

  lemma AfterRight<T>(was: seq<T>, s: seq<T>, t: seq<T>, base: nat, end: nat, lo: nat, store: nat, n: nat, cmp: (T, T) -> int)
    requires base <= lo && lo + n <= end <= |s| && store < n
    requires Permuted(was, s, base, end) && Permuted(s, t, lo + store + 1, lo + n) && Sorted(t[lo + store + 1..lo + n], cmp)
    requires SortedAroundBoth(s[base..end], lo - base, lo - base + store, lo - base + n, cmp)
    ensures Permuted(was, t, base, end)
    ensures |t| == |s| && SortedAround(t[base..end], lo - base, lo - base + store, cmp)
  {
    hide Permuted, SortedAround, SortedAroundBoth, Sorted;
    PermutedLength(s, t, lo + store + 1, lo + n);
    PermutedWithin(s, t, base, end, lo + store + 1, lo + n);
    PermutedThen(was, s, t, base, end);
    InRange(s, t, base, end, lo + store + 1, lo + n);
    PartOfPart(t, base, end, lo + store + 1, lo + n);
    RightClosed(s[base..end], t[base..end], lo - base, lo - base + store, lo - base + n, cmp);
  }

  lemma WholePermuted<T>(s: seq<T>, t: seq<T>)
    requires Permuted(s, t, 0, |s|)
    ensures multiset(s) == multiset(t)
  {
    WholePart(s);
    WholePart(t);
  }

  lemma WholePart<T>(s: seq<T>)
    ensures s[0..|s|] == s
  {
  }

  // qsort
  method Qsort<T(!new)>(a: array<T>, cmp: (T, T) -> int) returns (ghost depth: nat)
    requires TotalPreorder(cmp)
    modifies a
    ensures multiset(a[..]) == multiset(old(a[..])) && Sorted(a[..], cmp)
    ensures Pow2(depth) <= if a.Length == 0 then 1 else a.Length
  {
    hide Permuted, TotalPreorder;
    if a.Length < 2 {
      Pow2Zero();
      return 0;
    }
    ghost var was := a[..];
    depth := QsortRec(a, 0, a.Length, cmp);
    WholePermuted(was, a[..]);
    WholePart(a[..]);
  }
}
