/** Gapped insertion sort over the gaps 1, 4, 13, 40, ... (shell_sort).

    The inner loop, one pass and the whole sort are each given as a function on
    sequences.  The lemmas about these functions say that the passes never undo
    each other, how many shifts each outer index can cost, and what that adds up
    to; the method at the end is the in-place program, proved against them. */
module ShellSort {

  // ---------- Order along a gap ----------

  /** Every element is at least the one `k` places before it. */
  ghost predicate GapSorted(s: seq<int>, k: int)
    requires 0 < k
  {
    PrefixGapSorted(s, |s|, k)
  }

  ghost predicate PrefixGapSorted(s: seq<int>, m: int, k: int)
    requires 0 < k && m <= |s|
  {
    forall i :: k <= i < m ==> s[i - k] <= s[i]
  }

  ghost predicate Sorted(s: seq<int>) {
    forall i, j :: 0 <= i < j < |s| ==> s[i] <= s[j]
  }

  /** The number of elements above `v` at the places i-h, i-2h, ... of `s`.
      Places at or past the end of `s` hold nothing. */
  ghost function Above(s: seq<int>, h: int, i: int, v: int): nat
    requires 0 < h
    decreases i
  {
    if i < h then 0
    else Above(s, h, i - h, v) + if i - h < |s| && s[i - h] > v then 1 else 0
  }

  /** Each chain of places at distance `h` holds the same elements in `s` and in `t`. */
  ghost predicate SameChains(s: seq<int>, t: seq<int>, h: int)
    requires 0 < h
  {
    && |s| == |t|
    && forall i, v :: |s| <= i ==> Above(s, h, i, v) == Above(t, h, i, v)
  }

  // ---------- The inner loop ----------

  /** Shifts elements above `tmp` up by `h`, from place `j` down, and puts `tmp`
      into the hole that is left. */
  ghost function Insertion(s: seq<int>, h: int, j: int, tmp: int): (r: seq<int>)
    requires 0 < h && 0 <= j < |s|
    ensures |r| == |s|
    decreases j
  {
    if j >= h && tmp < s[j - h]
    then Insertion(s[j := s[j - h]], h, j - h, tmp)
    else s[j := tmp]
  }

  /** How many elements that insertion shifts. */
  ghost function Shifts(s: seq<int>, h: int, j: int, tmp: int): nat
    requires 0 < h && 0 <= j < |s|
    decreases j
  {
    if j >= h && tmp < s[j - h]
    then 1 + Shifts(s[j := s[j - h]], h, j - h, tmp)
    else 0
  }

  lemma {:induction false} InsertionLeavesRest(s: seq<int>, h: int, j: int, tmp: int, y: int)
    requires 0 < h && 0 <= j < y < |s|
    ensures Insertion(s, h, j, tmp)[y] == s[y]
    decreases j
  {
    if j >= h && tmp < s[j - h] {
      InsertionLeavesRest(s[j := s[j - h]], h, j - h, tmp, y);
    }
  }

  lemma {:induction false} InsertionPermutes(s: seq<int>, h: int, j: int, tmp: int)
    requires 0 < h && 0 <= j < |s|
    ensures multiset(Insertion(s, h, j, tmp)) == multiset(s[j := tmp])
    decreases j
  {
    if j >= h && tmp < s[j - h] {
      var t := s[j := s[j - h]];
      InsertionPermutes(t, h, j - h, tmp);
      assert t[j - h := tmp] == s[j := tmp][j - h := tmp][j := s[j - h]];
    }
  }

  /** Inserting into a sorted chain gives a sorted chain one longer. */
  lemma {:induction false} InsertionSorts(s: seq<int>, h: int, i: int, j: int, tmp: int)
    requires 0 < h && 0 <= j <= i < |s|
    requires PrefixGapSorted(s, if j < i then i + 1 else i, h)
    requires j < i ==> j + h <= i && s[j + h] > tmp
    ensures PrefixGapSorted(Insertion(s, h, j, tmp), i + 1, h)
    decreases j
  {
    if j >= h && tmp < s[j - h] {
      var t := s[j := s[j - h]];
      forall y | h <= y < i + 1 ensures t[y - h] <= t[y] {
        if y == j + h { assert s[j - h] <= s[j] <= s[j + h]; }
      }
      InsertionSorts(t, h, i, j - h, tmp);
    } else {
      var t := s[j := tmp];
      forall y | h <= y < i + 1 ensures t[y - h] <= t[y] {
        assert y != j && y != j + h ==> s[y - h] <= s[y];
      }
    }
  }

  // ---------- Counting along chains ----------

  lemma {:induction false} AboveReadsPrefix(s: seq<int>, t: seq<int>, h: int, i: int, v: int)
    requires 0 < h && |s| == |t|
    requires forall y :: 0 <= y < |s| && y <= i - h ==> s[y] == t[y]
    ensures Above(s, h, i, v) == Above(t, h, i, v)
    decreases i
  {
    if i >= h { AboveReadsPrefix(s, t, h, i - h, v); }
  }

  /** Insertion at `j` leaves the other chains alone. */
  lemma {:induction false} InsertionOtherChains(s: seq<int>, h: int, j: int, tmp: int, x: int, v: int)
    requires 0 < h && 0 <= j < |s| && j < x < j + h
    ensures Above(Insertion(s, h, j, tmp), h, x, v) == Above(s, h, x, v)
    decreases j
  {
    if j >= h && tmp < s[j - h] {
      var t := s[j := s[j - h]];
      InsertionOtherChains(t, h, j - h, tmp, x - h, v);
      InsertionLeavesRest(t, h, j - h, tmp, x - h);
      AboveReadsPrefix(s, t, h, x - h, v);
    } else {
      AboveReadsPrefix(s, s[j := tmp], h, x, v);
    }
  }

  /** Insertion rearranges its own chain. */
  lemma {:induction false} InsertionOwnChain(s: seq<int>, h: int, j: int, tmp: int, v: int)
    requires 0 < h && 0 <= j < |s|
    ensures Above(Insertion(s, h, j, tmp), h, j + h, v) == Above(s[j := tmp], h, j + h, v)
    decreases j
  {
    if j >= h && tmp < s[j - h] {
      var t := s[j := s[j - h]];
      InsertionOwnChain(t, h, j - h, tmp, v);
      InsertionLeavesRest(t, h, j - h, tmp, j);
      AboveReadsPrefix(t[j - h := tmp], s[j := tmp], h, j - h, v);
    }
  }

  lemma {:induction false} NoneAbove(s: seq<int>, h: int, i: int, v: int)
    requires 0 < h <= i && i - h < |s| && PrefixGapSorted(s, i - h + 1, h)
    requires s[i - h] <= v
    ensures Above(s, h, i, v) == 0
    decreases i
  {
    if i >= 2 * h { NoneAbove(s, h, i - h, v); }
  }

  /** The inner loop shifts exactly the elements of the chain above the inserted one. */
  lemma {:induction false} ShiftsCountAbove(s: seq<int>, h: int, j: int, tmp: int)
    requires 0 < h && 0 <= j < |s| && PrefixGapSorted(s, j, h)
    ensures Shifts(s, h, j, tmp) == Above(s, h, j, tmp)
    decreases j
  {
    if j >= h {
      if tmp < s[j - h] {
        var t := s[j := s[j - h]];
        ShiftsCountAbove(t, h, j - h, tmp);
        AboveReadsPrefix(s, t, h, j - h, tmp);
      } else {
        NoneAbove(s, h, j, tmp);
      }
    }
  }

  // ---------- One pass ----------

  /** The array once the outer indices h, ..., m-1 have been inserted. */
  ghost function Passed(s: seq<int>, h: int, m: int): (r: seq<int>)
    requires 0 < h && m <= |s|
    ensures |r| == |s|
    decreases m
  {
    if m <= h then s
    else var p := Passed(s, h, m - 1); Insertion(p, h, m - 1, p[m - 1])
  }

  /** The shifts done for outer index `i` in a pass over `s`. */
  ghost function ShiftsAt(s: seq<int>, h: int, i: int): nat
    requires 0 < h && 0 <= i < |s|
  {
    var p := Passed(s, h, i); Shifts(p, h, i, p[i])
  }

  /** The shifts done for the outer indices h, ..., m-1. */
  ghost function PassShifts(s: seq<int>, h: int, m: int): nat
    requires 0 < h && m <= |s|
    decreases m
  {
    if m <= h then 0 else PassShifts(s, h, m - 1) + ShiftsAt(s, h, m - 1)
  }

  /** What holds of the array `p` between two outer iterations of a pass over `s`. */
  ghost predicate PassInvariant(s: seq<int>, p: seq<int>, h: int, m: int)
    requires 0 < h <= m <= |s|
  {
    && |p| == |s|
    && PrefixGapSorted(p, m, h)
    && multiset(p) == multiset(s)
    && (forall y :: m <= y < |s| ==> p[y] == s[y])
    && forall x, v :: m <= x < m + h ==> Above(p, h, x, v) == Above(s, h, x, v)
  }

  /** One outer iteration rearranges the chains it has reached and no others. */
  lemma StepKeepsChains(p: seq<int>, h: int, i: int, x: int, v: int)
    requires 0 < h <= i < |p| && i < x <= i + h
    ensures Above(Insertion(p, h, i, p[i]), h, x, v) == Above(p, h, x, v)
  {
    if x < i + h {
      InsertionOtherChains(p, h, i, p[i], x, v);
    } else {
      InsertionOwnChain(p, h, i, p[i], v);
      assert p[i := p[i]] == p;
    }
  }

  lemma StepKeepsRest(p: seq<int>, h: int, i: int)
    requires 0 < h <= i < |p|
    ensures forall y :: i < y < |p| ==> Insertion(p, h, i, p[i])[y] == p[y]
    ensures multiset(Insertion(p, h, i, p[i])) == multiset(p)
  {
    forall y | i < y < |p| ensures Insertion(p, h, i, p[i])[y] == p[y] {
      InsertionLeavesRest(p, h, i, p[i], y);
    }
    InsertionPermutes(p, h, i, p[i]);
    assert p[i := p[i]] == p;
  }

  lemma StepKeepsInvariant(s: seq<int>, p: seq<int>, h: int, i: int)
    requires 0 < h <= i < |s| && PassInvariant(s, p, h, i)
    ensures PassInvariant(s, Insertion(p, h, i, p[i]), h, i + 1)
  {
    var q := Insertion(p, h, i, p[i]);
    assert PrefixGapSorted(q, i + 1, h) by { InsertionSorts(p, h, i, i, p[i]); }
    StepKeepsRest(p, h, i);
    forall x, v | i + 1 <= x < i + 1 + h ensures Above(q, h, x, v) == Above(s, h, x, v) {
      StepKeepsChains(p, h, i, x, v);
      if x == i + h {
        assert Above(p, h, i, v) == Above(s, h, i, v);
      }
    }
  }

  lemma {:induction false} PassKeepsInvariant(s: seq<int>, h: int, m: int)
    requires 0 < h <= m <= |s|
    ensures PassInvariant(s, Passed(s, h, m), h, m)
    decreases m
  {
    if m > h {
      PassKeepsInvariant(s, h, m - 1);
      StepKeepsInvariant(s, Passed(s, h, m - 1), h, m - 1);
    }
  }

  lemma {:induction false} AbovePastEnd(s: seq<int>, t: seq<int>, h: int, i: int, v: int)
    requires 0 < h && |s| == |t| && |s| <= i
    requires forall x :: |s| <= x < |s| + h ==> Above(s, h, x, v) == Above(t, h, x, v)
    ensures Above(s, h, i, v) == Above(t, h, i, v)
    decreases i
  {
    if i >= |s| + h { AbovePastEnd(s, t, h, i - h, v); }
  }

  /** A whole pass sorts along its gap, permutes, and permutes within chains. */
  lemma PassSorts(s: seq<int>, h: int)
    requires 0 < h
    ensures var p := Passed(s, h, |s|);
      GapSorted(p, h) && multiset(p) == multiset(s) && SameChains(s, p, h)
  {
    if h <= |s| {
      PassKeepsInvariant(s, h, |s|);
      var p := Passed(s, h, |s|);
      forall i, v | |s| <= i ensures Above(s, h, i, v) == Above(p, h, i, v) {
        AbovePastEnd(s, p, h, i, v);
      }
    }
  }

  /** The shifts for outer index `i` are the elements of i's chain that stood
      before it, larger, when the pass began. */
  lemma ShiftsAtPassStart(s: seq<int>, h: int, i: int)
    requires 0 < h <= i < |s|
    ensures ShiftsAt(s, h, i) == Above(s, h, i, s[i])
  {
    PassKeepsInvariant(s, h, i);
    var p := Passed(s, h, i);
    ShiftsCountAbove(p, h, i, p[i]);
  }

  // ---------- A pass keeps the order of earlier passes ----------

  /** Places x, x+h, ..., x+(m-1)h that lie below `n`. */
  ghost function Span(n: int, h: int, x: int, m: nat): nat {
    if m == 0 then 0 else Span(n, h, x, m - 1) + if x + (m - 1) * h < n then 1 else 0
  }

  /** Places i-h, i-2h, ... that lie in [n, n+k). */
  ghost function Overhang(n: int, k: int, h: int, i: int): nat
    requires 0 < h
    decreases i
  {
    if i < h then 0 else Overhang(n, k, h, i - h) + if n <= i - h < n + k then 1 else 0
  }

  /** Moving a chain down by `k` in a k-sorted sequence loses nothing above `v`
      except what falls off the end. */
  lemma {:induction false} AboveShifted(s: seq<int>, k: int, h: int, i: int, v: int)
    requires 0 < h && 0 < k && GapSorted(s, k)
    ensures Above(s, h, i - k, v) <= Above(s, h, i, v) + Overhang(|s|, k, h, i)
    decreases i
  {
    if i - k >= h {
      AboveShifted(s, k, h, i - h, v);
      assert (i - h) - k == (i - k) - h;
    }
  }

  lemma {:induction false} AboveAtMost(t: seq<int>, h: int, x: int, m: nat, v: int, i: int)
    requires 0 < h && GapSorted(t, h) && 0 <= x < |t| && t[x] <= v && m > 0
    requires i == x + m * h
    ensures Above(t, h, i, v) < Span(|t|, h, x, m)
    decreases m
  {
    if m == 1 {
      NoneAbove(t, h, i, v);
      assert Span(|t|, h, x, 0) == 0;
    } else {
      assert i - h == x + (m - 1) * h;
      assert (m - 1) * h >= 0;
      AboveAtMost(t, h, x, m - 1, v, i - h);
    }
  }

  lemma {:induction false} ChainAscends(t: seq<int>, h: int, x: int, m: nat, y: int)
    requires 0 < h && GapSorted(t, h) && 0 <= x && y == x + m * h < |t|
    ensures x <= y && t[x] <= t[y]
    decreases m
  {
    if m > 0 {
      assert y - h == x + (m - 1) * h;
      ChainAscends(t, h, x, m - 1, y - h);
    }
  }

  lemma {:induction false} AboveAtLeast(t: seq<int>, h: int, x: int, m: nat, v: int, i: int)
    requires 0 < h && GapSorted(t, h) && 0 <= x < |t| && t[x] > v
    requires i == x + m * h
    ensures Above(t, h, i, v) >= Span(|t|, h, x, m)
    decreases m
  {
    if m > 0 {
      assert i - h == x + (m - 1) * h;
      assert (m - 1) * h >= 0;
      AboveAtLeast(t, h, x, m - 1, v, i - h);
      if i - h < |t| { ChainAscends(t, h, x, m - 1, i - h); }
    }
  }

  lemma {:induction false} NoOverhang(n: int, k: int, h: int, i: int)
    requires 0 < h && i < n + h
    ensures Overhang(n, k, h, i) == 0
    decreases i
  {
    if i >= h { NoOverhang(n, k, h, i - h); }
  }

  lemma {:induction false} SpanShifted(n: int, k: int, h: int, x: int, m: nat, i: int)
    requires 0 < h && 0 < k && 0 <= x < n && i == x + m * h
    ensures Span(n, h, x - k, m) == Span(n, h, x, m) + Overhang(n, k, h, i)
    decreases m
  {
    if m == 0 {
      NoOverhang(n, k, h, i);
    } else {
      assert i - h == x + (m - 1) * h;
      assert (m - 1) * h >= 0;
      SpanShifted(n, k, h, x, m - 1, i - h);
      assert (x - k) + (m - 1) * h == i - h - k;
    }
  }

  /** A sequence that is k-sorted stays k-sorted when each of its h-chains is sorted. */
  lemma ChainSortKeepsOrder(s: seq<int>, t: seq<int>, h: int, k: int)
    requires 0 < h && 0 < k
    requires GapSorted(s, k) && GapSorted(t, h) && SameChains(s, t, h)
    ensures GapSorted(t, k)
  {
    hide Above, Span, Overhang;
    forall x | k <= x < |t| ensures t[x - k] <= t[x] {
      var v, m := t[x], |t| + k;
      var i := x + m * h;
      assert m * h >= m by { Times(1, h, m); }
      if t[x - k] > v {
        AboveAtMost(t, h, x, m, v, i);
        AboveAtLeast(t, h, x - k, m, v, i - k);
        AboveShifted(s, k, h, i, v);
        SpanShifted(|t|, k, h, x, m, i);
        assert false;
      }
    }
  }

  /** Gap passes never undo each other. */
  lemma PassKeepsOrder(s: seq<int>, h: int, k: int)
    requires 0 < h && 0 < k && GapSorted(s, k)
    ensures GapSorted(Passed(s, h, |s|), h) && GapSorted(Passed(s, h, |s|), k)
  {
    PassSorts(s, h);
    ChainSortKeepsOrder(s, Passed(s, h, |s|), h, k);
  }

  /** In the middle of a pass this is not so: with gap 1, the 2-sorted 5, 1, 6, 2 becomes
      1, 5, 6, 2 after the first outer index. */
  lemma MidPassLosesOrder()
    ensures var s := [5, 1, 6, 2]; GapSorted(s, 2) && !GapSorted(Passed(s, 1, 2), 2)
  {
    var s := [5, 1, 6, 2];
    assert Passed(s, 1, 1) == s;
    assert s[1 := 5] == [5, 5, 6, 2];
    assert Insertion([5, 5, 6, 2], 1, 0, 1) == [1, 5, 6, 2];
    assert Insertion(s, 1, 1, 1) == [1, 5, 6, 2];
    assert Passed(s, 1, 2)[3 - 2] > Passed(s, 1, 2)[3];
  }

  // ---------- The gaps ----------

  /** 0, 1, 4, 13, 40, ...: the k-th value of h in the growing loop. */
  ghost function Gap(k: nat): nat {
    if k == 0 then 0 else 3 * Gap(k - 1) + 1
  }

  ghost function Power3(k: nat): nat {
    if k == 0 then 1 else 3 * Power3(k - 1)
  }

  /** The gaps are (3^k - 1) / 2, and division by 3 retraces the growth. */
  lemma {:induction false} GapForm(k: nat)
    ensures 2 * Gap(k) + 1 == Power3(k)
    ensures k > 0 ==> Gap(k) / 3 == Gap(k - 1) && Gap(k) > Gap(k - 1)
  {
    if k > 0 { GapForm(k - 1); }
  }

  lemma {:induction false} GapsAscend(j: nat, k: nat)
    requires j <= k
    ensures Gap(j) <= Gap(k)
    decreases k
  {
    if j < k { GapsAscend(j, k - 1); }
  }

  /** Sorted along the j-th gap for every j in [lo, hi]. */
  ghost predicate SortedForGaps(s: seq<int>, lo: nat, hi: nat)
    requires 0 < lo
  {
    forall j :: lo <= j <= hi ==> GapSorted(s, GapOf(j))
  }

  /** Gap(j) for j > 0, known to be positive. */
  ghost function GapOf(j: nat): (g: int)
    ensures j > 0 ==> g > 0
  {
    if j == 0 then 1 else Gap(j)
  }

  /** After each pass the array is sorted for every gap used so far. */
  lemma PassAccumulatesOrder(s: seq<int>, k: nat, top: nat)
    requires 0 < k <= top && SortedForGaps(s, k + 1, top)
    ensures SortedForGaps(Passed(s, Gap(k), |s|), k, top)
  {
    PassSorts(s, Gap(k));
    forall j | k <= j <= top ensures GapSorted(Passed(s, Gap(k), |s|), GapOf(j)) {
      if j > k { PassKeepsOrder(s, Gap(k), GapOf(j)); }
    }
  }

  /** The result of the passes with gaps Gap(k), ..., Gap(1). */
  ghost function Sort(s: seq<int>, k: nat): seq<int>
    decreases k
  {
    if k == 0 then s else Sort(Passed(s, Gap(k), |s|), k - 1)
  }

  /** The shifts of those passes; entry j belongs to the gap Gap(j+1). */
  ghost function Work(s: seq<int>, k: nat): (w: seq<nat>)
    ensures |w| == k
    decreases k
  {
    if k == 0 then []
    else Work(Passed(s, Gap(k), |s|), k - 1) + [PassShifts(s, Gap(k), |s|)]
  }

  lemma {:induction false} OneSortedIsSorted(s: seq<int>)
    requires GapSorted(s, 1)
    ensures Sorted(s)
  {
    forall i, j | 0 <= i < j < |s| ensures s[i] <= s[j] {
      ChainAscends(s, 1, i, j - i, j);
    }
  }

  /** Passes over any gaps that end with 1 leave a sorted permutation that is in
      order along every gap used. */
  lemma {:induction false} SortSorts(s: seq<int>, k: nat, top: nat)
    requires k <= top && SortedForGaps(s, k + 1, top) && 0 < top
    ensures multiset(Sort(s, k)) == multiset(s) && |Sort(s, k)| == |s|
    ensures SortedForGaps(Sort(s, k), 1, top) && Sorted(Sort(s, k))
    decreases k
  {
    if k == 0 {
      assert Gap(1) == 3 * Gap(0) + 1 == 1;
      assert GapSorted(s, GapOf(1));
      OneSortedIsSorted(s);
    } else {
      PassSorts(s, Gap(k));
      PassAccumulatesOrder(s, k, top);
      SortSorts(Passed(s, Gap(k), |s|), k - 1, top);
    }
  }

  // ---------- How far an element can travel ----------

  lemma Times(a: int, b: int, c: int)
    requires a <= b && 0 <= c
    ensures a * c <= b * c && c * a <= c * b
  {
  }

  lemma LessFactor(x: int, y: int, h: int)
    requires 0 < h && x * h < y * h
    ensures x < y
  {
    if x >= y { Times(y, x, h); }
  }

  lemma QuotientAtLeast(d: int, p: int, q: int)
    requires 0 < p && d >= q * p
    ensures d / p >= q
  {
    assert d == (d / p) * p + d % p;
    assert (d / p + 1) * p == (d / p) * p + p;
    LessFactor(q, d / p + 1, p);
  }

  /** p and 3p+1 are coprime: every distance from 3p(p-1) on is a sum of them. */
  lemma Representable(p: int, d: int) returns (x: nat, y: nat)
    requires p > 0 && d >= 3 * p * (p - 1)
    ensures d == x * p + y * (3 * p + 1)
  {
    y := d % p;
    QuotientAtLeast(d, p, 3 * (p - 1));
    x := d / p - 3 * y;
    calc {
      x * p + y * (3 * p + 1);
      (d / p) * p - 3 * y * p + y * (3 * p + 1);
      (d / p) * p + y;
      d;
    }
  }

  /** With both orders in place, no element is below one that far before it. */
  lemma FarBehindIsSmaller(s: seq<int>, p: int, i: int, z: int)
    requires p > 0 && GapSorted(s, p) && GapSorted(s, 3 * p + 1)
    requires 0 <= z <= i < |s| && i - z >= 3 * p * (p - 1)
    ensures s[z] <= s[i]
  {
    hide GapSorted;
    var x, y := Representable(p, i - z);
    Times(0, y, 3 * p + 1);
    ChainAscends(s, p, z, x, z + x * p);
    ChainAscends(s, 3 * p + 1, z + x * p, y, i);
  }

  lemma {:induction false} AboveNear(s: seq<int>, h: int, i: int, v: int, lo: int)
    requires 0 < h && forall z :: 0 <= z <= lo && z < |s| ==> s[z] <= v
    ensures Above(s, h, i, v) * h <= if i > lo + 1 then i - lo - 1 else 0
    decreases i
  {
    if i >= h {
      AboveNear(s, h, i - h, v, lo);
      assert (Above(s, h, i - h, v) + 1) * h == Above(s, h, i - h, v) * h + h;
    }
  }

  lemma ReachOfGap(h: int, i: int)
    requires 0 < h && i < 27 * h + 9
    ensures i < (27 * h + 9) * h
  {
    Times(1, h, 27 * h + 9);
  }

  lemma NextGaps(h: int)
    ensures 3 * (3 * h + 1) * ((3 * h + 1) - 1) == (27 * h + 9) * h
  {
  }

  /** No element `reach` or more places before i is above it. */
  lemma ShiftsWithin(s: seq<int>, h: int, i: int, reach: int)
    requires 0 < h <= i < |s|
    requires 0 < reach && forall z :: 0 <= z <= i - reach ==> s[z] <= s[i]
    ensures ShiftsAt(s, h, i) * h < reach
  {
    ShiftsAtPassStart(s, h, i);
    AboveNear(s, h, i, s[i], i - reach);
  }

  /** In the pass with gap h = Gap(k) no outer index shifts 27h+9 elements or more,
      whatever the length: either two larger gaps have been used, or the array is
      too short for that many steps. */
  lemma ShiftBound(s: seq<int>, k: nat, top: nat, i: int)
    requires 0 < k <= top && SortedForGaps(s, k + 1, top) && |s| < 9 * Gap(top)
    requires Gap(k) <= i < |s|
    ensures ShiftsAt(s, Gap(k), i) < 27 * Gap(k) + 9
  {
    hide GapSorted, ShiftsAt;
    var h := Gap(k);
    var reach := (27 * h + 9) * h;
    ReachOfGap(h, 1);
    assert forall z :: 0 <= z <= i - reach ==> s[z] <= s[i] by {
      if k + 2 <= top {
        TwoGapsReach(s, k, i);
      } else {
        assert top == k || top == k + 1;
        ReachOfGap(h, i);
      }
    }
    ShiftsWithin(s, h, i, reach);
    LessFactor(ShiftsAt(s, h, i), 27 * h + 9, h);
  }

  lemma TwoGapsReach(s: seq<int>, k: nat, i: int)
    requires 0 < k && i < |s| && SortedForGaps(s, k + 1, k + 2)
    ensures forall z :: 0 <= z <= i - (27 * Gap(k) + 9) * Gap(k) ==> s[z] <= s[i]
  {
    hide GapSorted;
    var h, p := Gap(k), Gap(k + 1);
    assert p == 3 * h + 1 && Gap(k + 2) == 3 * p + 1;
    assert GapSorted(s, GapOf(k + 1)) && GapSorted(s, GapOf(k + 2));
    NextGaps(h);
    ReachOfGap(h, 1);
    forall z | 0 <= z <= i - (27 * h + 9) * h ensures s[z] <= s[i] { FarBehindIsSmaller(s, p, i, z); }
  }

  // ---------- The total number of shifts ----------

  lemma Regroup(a: int, b: int, c: int)
    ensures b * (a * c) == a * b * c == a * (b * c)
  {
  }

  lemma Distribute(a: int, b: int, c: int)
    ensures (a + b) * c == a * c + b * c
  {
  }

  lemma {:induction false} PassShiftsBound(s: seq<int>, h: int, m: int, c: nat)
    requires 0 < h && 0 <= m <= |s|
    requires forall i :: h <= i < m ==> ShiftsAt(s, h, i) <= c
    ensures PassShifts(s, h, m) <= m * c
    decreases m
  {
    if m > h {
      PassShiftsBound(s, h, m - 1, c);
      Distribute(m - 1, 1, c);
    }
  }

  lemma {:induction false} PassShiftsTrivial(s: seq<int>, h: int, m: int)
    requires 0 < h && 0 <= m <= |s|
    ensures PassShifts(s, h, m) * h <= m * |s|
    decreases m
  {
    if m > h {
      PassShiftsTrivial(s, h, m - 1);
      ShiftsWithin(s, h, m - 1, m);
      Distribute(PassShifts(s, h, m - 1), ShiftsAt(s, h, m - 1), h);
      Distribute(m - 1, 1, |s|);
    }
  }

  /** Each pass is bounded linearly in its gap, and inversely. */
  ghost predicate Affordable(w: seq<nat>, n: nat) {
    forall j :: 0 <= j < |w| ==> w[j] <= 36 * n * Gap(j + 1) && w[j] * Gap(j + 1) <= n * n
  }

  lemma PassAffordable(s: seq<int>, k: nat, top: nat)
    requires 0 < k <= top && SortedForGaps(s, k + 1, top) && |s| < 9 * Gap(top)
    ensures PassShifts(s, Gap(k), |s|) <= 36 * |s| * Gap(k)
    ensures PassShifts(s, Gap(k), |s|) * Gap(k) <= |s| * |s|
  {
    var h := Gap(k);
    forall i | h <= i < |s| ensures ShiftsAt(s, h, i) <= 36 * h { ShiftBound(s, k, top, i); }
    PassShiftsBound(s, h, |s|, 36 * h);
    assert |s| * (36 * h) == 36 * |s| * h by { Regroup(36, |s|, h); }
    PassShiftsTrivial(s, h, |s|);
  }

  lemma {:induction false} WorkAffordable(s: seq<int>, k: nat, top: nat)
    requires k <= top && SortedForGaps(s, k + 1, top) && |s| < 9 * Gap(top)
    ensures Affordable(Work(s, k), |s|)
    decreases k
  {
    if k > 0 {
      PassAffordable(s, k, top);
      PassAccumulatesOrder(s, k, top);
      WorkAffordable(Passed(s, Gap(k), |s|), k - 1, top);
    }
  }

  ghost function Sum(w: seq<nat>): nat {
    if w == [] then 0 else w[0] + Sum(w[1..])
  }

  lemma {:induction false} SumAppend(v: seq<nat>, w: seq<nat>)
    ensures Sum(v + w) == Sum(v) + Sum(w)
  {
    if v == [] {
      assert v + w == w;
    } else {
      assert (v + w)[1..] == v[1..] + w;
      SumAppend(v[1..], w);
    }
  }

  /** Small gaps: a geometric sum dominated by the largest of them. */
  lemma {:induction false} SmallGapWork(w: seq<nat>, n: nat, m: nat)
    requires Affordable(w, n) && m <= |w|
    ensures Sum(w[..m]) <= 54 * n * Gap(m)
    decreases m
  {
    if m > 0 {
      SmallGapWork(w, n, m - 1);
      assert w[..m] == w[..m - 1] + [w[m - 1]];
      SumAppend(w[..m - 1], [w[m - 1]]);
      assert w[m - 1] <= 36 * n * Gap(m);
      LinearStep(18 * n, Gap(m - 1));
    }
  }

  lemma LinearStep(c: nat, g: nat)
    ensures 3 * c * g + 2 * c * (3 * g + 1) <= 3 * c * (3 * g + 1)
  {
  }

  /** Large gaps: a geometric sum dominated by the smallest of them. */
  lemma {:induction false} LargeGapWork(w: seq<nat>, q: nat, m: nat)
    requires m < |w| && forall j :: 0 <= j < |w| ==> w[j] * Gap(j + 1) <= q
    ensures 2 * Sum(w[m..]) * Gap(m + 1) <= 3 * q
    decreases |w| - m
  {
    var g, x, rest := Gap(m + 1), w[m], w[m + 1..];
    assert w[m..] == [x] + rest;
    SumAppend([x], rest);
    assert Sum([x]) == x by { assert [x][1..] == []; }
    var y := Sum(rest);
    if m + 1 < |w| {
      LargeGapWork(w, q, m + 1);
      assert Gap(m + 2) == 3 * g + 1;
    }
    GeometricStep(x, y, g, q);
  }

  lemma GeometricStep(x: nat, y: nat, g: nat, q: nat)
    requires x * g <= q && (y == 0 || 2 * y * (3 * g + 1) <= 3 * q)
    ensures 2 * (x + y) * g <= 3 * q
  {
    Distribute(x, y, g);
    Regroup(2, x + y, g);
    Regroup(2, y, 3 * g + 1);
    assert y * (3 * g + 1) == 3 * (y * g) + y;
  }

  lemma SquareMonotone(a: int, b: int)
    requires 0 <= a <= b
    ensures a * a <= b * b
  {
    assert a * a <= a * b <= b * b;
  }

  lemma LowSquare(lo: nat, n: nat, g: nat)
    requires lo <= 54 * n * g && g * g <= n
    ensures lo * lo <= 2916 * (n * n * n)
  {
    SquareMonotone(lo, 54 * n * g);
    assert (54 * n * g) * (54 * n * g) == 2916 * (n * n) * (g * g);
    assert (n * n) * (g * g) <= (n * n) * n;
  }

  lemma HighSquare(hi: nat, n: nat, g: nat)
    requires 2 * hi * g <= 3 * (n * n) && n < g * g
    ensures 4 * (hi * hi) <= 9 * (n * n * n)
  {
    if n == 0 {
      Times(1, g, 2 * hi);
      return;
    }
    SquareMonotone(2 * hi * g, 3 * (n * n));
    var a := 4 * (hi * hi);
    assert (2 * hi * g) * (2 * hi * g) == a * (g * g);
    assert (3 * (n * n)) * (3 * (n * n)) == (9 * (n * n * n)) * n;
    assert a * n <= a * (g * g);
    if a > 9 * (n * n * n) { LessFactor(a, 9 * (n * n * n) + 1, n); }
  }

  lemma SquareOfSum(lo: nat, hi: nat)
    ensures (lo + hi) * (lo + hi) <= 2 * (lo * lo) + 2 * (hi * hi)
  {
    assert 2 * (lo * lo) + 2 * (hi * hi) - (lo + hi) * (lo + hi) == (lo - hi) * (lo - hi);
    assert (lo - hi) * (lo - hi) >= 0;
  }

  lemma SumOfBounds(lo: nat, hi: nat, c: nat)
    requires lo * lo <= 2916 * c && 4 * (hi * hi) <= 9 * c
    ensures (lo + hi) * (lo + hi) <= 5837 * c
  {
    SquareOfSum(lo, hi);
  }

  /** The last index m, up to `k`, whose gap is at most the square root of `n`. */
  lemma {:induction false} SplitPoint(n: nat, k: nat) returns (m: nat)
    ensures m <= k && Gap(m) * Gap(m) <= n
    ensures m < k ==> n < Gap(m + 1) * Gap(m + 1)
    decreases k
  {
    m := k;
    if k > 0 && Gap(k) * Gap(k) > n { m := SplitPoint(n, k - 1); }
  }

  lemma SmallGapSquare(w: seq<nat>, n: nat, m: nat)
    requires Affordable(w, n) && m <= |w| && Gap(m) * Gap(m) <= n
    ensures Sum(w[..m]) * Sum(w[..m]) <= 2916 * (n * n * n)
  {
    SmallGapWork(w, n, m);
    LowSquare(Sum(w[..m]), n, Gap(m));
  }

  lemma LargeGapSquare(w: seq<nat>, n: nat, m: nat)
    requires Affordable(w, n) && m <= |w|
    requires m < |w| ==> n < Gap(m + 1) * Gap(m + 1)
    ensures 4 * (Sum(w[m..]) * Sum(w[m..])) <= 9 * (n * n * n)
  {
    if m < |w| {
      LargeGapWork(w, n * n, m);
      HighSquare(Sum(w[m..]), n, Gap(m + 1));
    }
  }

  /** All passes together shift O(n^(3/2)) elements. */
  lemma TotalBound(w: seq<nat>, n: nat)
    requires Affordable(w, n)
    ensures Sum(w) * Sum(w) <= 5837 * (n * n * n)
  {
    var m := SplitPoint(n, |w|);
    SmallGapSquare(w, n, m);
    LargeGapSquare(w, n, m);
    SumOfBounds(Sum(w[..m]), Sum(w[m..]), n * n * n);
    assert Sum(w) == Sum(w[..m]) + Sum(w[m..]) by {
      SumAppend(w[..m], w[m..]);
      assert w == w[..m] + w[m..];
    }
  }

  // ---------- The program ----------

  /** The number of the first gap above a ninth of the length. */
  ghost predicate IsStart(n: nat, k: nat) {
    k > 0 && Gap(k) > n / 9 && (k > 1 ==> Gap(k - 1) <= n / 9)
  }

  /** The array when the pass with gap Gap(k) begins. */
  ghost function Before(s: seq<int>, top: nat, k: nat): (r: seq<int>)
    requires k <= top
    ensures |r| == |s|
    decreases top - k
  {
    if k == top then s else Passed(Before(s, top, k + 1), Gap(k + 1), |s|)
  }

  lemma {:induction false} OrderBefore(s: seq<int>, top: nat, k: nat)
    requires k <= top
    ensures SortedForGaps(Before(s, top, k), k + 1, top)
    decreases top - k
  {
    if k < top {
      OrderBefore(s, top, k + 1);
      PassAccumulatesOrder(Before(s, top, k + 1), k + 1, top);
    }
  }

  /** In every pass of the sort, no outer index shifts 27h+9 elements or more. */
  lemma EveryShiftBounded(s: seq<int>, top: nat, k: nat, i: int)
    requires IsStart(|s|, top) && 0 < k <= top && Gap(k) <= i < |s|
    ensures ShiftsAt(Before(s, top, k), Gap(k), i) < 27 * Gap(k) + 9
  {
    OrderBefore(s, top, k);
    ShiftBound(Before(s, top, k), k, top, i);
  }

  /** The shifts of the single outer indices h, h+1, ... of a pass over `s`. */
  ghost predicate CountsOf(s: seq<int>, h: int, counts: seq<nat>)
    requires 0 < h
  {
    && |counts| == (if h <= |s| then |s| - h else 0)
    && forall x :: 0 <= x < |counts| ==> counts[x] == ShiftsAt(s, h, h + x)
  }

  ghost predicate Bounded(counts: seq<nat>, h: int) {
    forall x :: 0 <= x < |counts| ==> counts[x] < 27 * h + 9
  }

  lemma PassIsBounded(s: seq<int>, top: nat, k: nat, counts: seq<nat>)
    requires IsStart(|s|, top) && 0 < k <= top && CountsOf(Before(s, top, k), Gap(k), counts)
    ensures Bounded(counts, Gap(k))
  {
    hide ShiftsAt, Before, IsStart;
    forall x | 0 <= x < |counts| ensures counts[x] < 27 * Gap(k) + 9 {
      EveryShiftBounded(s, top, k, Gap(k) + x);
    }
  }

  /** What the sort promises of its result and of the shifts it took. */
  ghost predicate SortPromise(before: seq<int>, after: seq<int>, top: nat, shifts: nat) {
    && IsStart(|before|, top)
    && Sorted(after) && multiset(after) == multiset(before)
    && SortedForGaps(after, 1, top)
    && shifts * shifts <= 5837 * (|before| * |before| * |before|)
  }

  lemma SortKeepsPromise(s: seq<int>, top: nat)
    requires IsStart(|s|, top)
    ensures SortPromise(s, Sort(s, top), top, Sum(Work(s, top)))
  {
    SortSorts(s, top, top);
    WorkAffordable(s, top, top);
    TotalBound(Work(s, top), |s|);
  }

  lemma WorkSplits(s: seq<int>, k: nat)
    requires k > 0
    ensures Sum(Work(s, k)) == Sum(Work(Passed(s, Gap(k), |s|), k - 1)) + PassShifts(s, Gap(k), |s|)
  {
    var done := PassShifts(s, Gap(k), |s|);
    SumAppend(Work(Passed(s, Gap(k), |s|), k - 1), [done]);
    assert Sum([done]) == done by { assert [done][1..] == []; }
  }

  /** What holds of the array `p` with the passes down to Gap(k+1) of a sort of `s` done. */
  ghost predicate Underway(s: seq<int>, p: seq<int>, top: nat, k: nat, shifts: nat, counts: seq<seq<nat>>) {
    && k <= top && p == Before(s, top, k)
    && Sort(p, k) == Sort(s, top)
    && shifts + Sum(Work(p, k)) == Sum(Work(s, top))
    && Counted(s, top, k, counts)
  }

  /** counts[i] are the shifts of the i-th pass of the sort. */
  ghost predicate Counted(s: seq<int>, top: nat, k: nat, counts: seq<seq<nat>>)
    requires k <= top
  {
    && |counts| == top - k
    && forall i :: 0 <= i < |counts| ==> CountsOf(Before(s, top, top - i), GapOf(top - i), counts[i])
  }

  lemma PassUnderway(s: seq<int>, p: seq<int>, top: nat, k: nat, shifts: nat, counts: seq<seq<nat>>, each: seq<nat>)
    requires 0 < k && Underway(s, p, top, k, shifts, counts) && CountsOf(p, Gap(k), each)
    ensures Underway(s, Passed(p, Gap(k), |p|), top, k - 1, shifts + PassShifts(p, Gap(k), |p|), counts + [each])
  {
    hide Gap, Counted, CountsOf, Passed, PassShifts, Work, Sum;
    WorkSplits(p, k);
    OneMoreCounted(s, top, k, counts, each);
  }

  lemma OneMoreCounted(s: seq<int>, top: nat, k: nat, counts: seq<seq<nat>>, each: seq<nat>)
    requires 0 < k <= top && Counted(s, top, k, counts) && CountsOf(Before(s, top, k), Gap(k), each)
    ensures Counted(s, top, k - 1, counts + [each])
  {
    hide CountsOf, Before, Gap;
    var all := counts + [each];
    forall i | 0 <= i < |all| ensures CountsOf(Before(s, top, top - i), GapOf(top - i), all[i]) {
      assert i < |counts| ==> all[i] == counts[i];
    }
  }

  lemma Begun(s: seq<int>, top: nat)
    ensures Underway(s, s, top, top, 0, [])
  {
  }

  lemma AllBounded(s: seq<int>, top: nat, counts: seq<seq<nat>>)
    requires IsStart(|s|, top) && Counted(s, top, 0, counts)
    ensures forall i :: 0 <= i < top ==> Bounded(counts[i], GapOf(top - i))
  {
    hide Gap, IsStart, CountsOf, Bounded, Before;
    forall i | 0 <= i < top ensures Bounded(counts[i], GapOf(top - i)) {
      PassIsBounded(s, top, top - i, counts[i]);
    }
  }

  lemma Finished(s: seq<int>, p: seq<int>, top: nat, shifts: nat, counts: seq<seq<nat>>)
    requires IsStart(|s|, top) && Underway(s, p, top, 0, shifts, counts)
    ensures p == Sort(s, top) && shifts == Sum(Work(s, top)) && SortPromise(s, p, top, shifts)
    ensures Counted(s, top, 0, counts)
    ensures forall i :: 0 <= i < top ==> Bounded(counts[i], GapOf(top - i))
  {
    hide IsStart, SortPromise, Counted, Bounded, Before, Gap;
    SortKeepsPromise(s, top);
    AllBounded(s, top, counts);
  }

  /** Sorts `a` in place.  `top` is the number of gaps used, `shifts` counts the
      executions of the innermost assignment, and counts[p][x] those for the x-th outer
      index of pass p. */
  method ShellSort(a: array<int>) returns (ghost top: nat, ghost shifts: nat, ghost counts: seq<seq<nat>>)
    modifies a
    ensures a[..] == Sort(old(a[..]), top) && shifts == Sum(Work(old(a[..]), top))
    ensures SortPromise(old(a[..]), a[..], top, shifts)
    ensures Counted(old(a[..]), top, 0, counts)
    ensures forall p :: 0 <= p < top ==> Bounded(counts[p], GapOf(top - p))
  {
    hide Underway, SortPromise, Counted, Bounded, Sort, Work, CountsOf, Sum, Passed;
    ghost var s := a[..];
    var h := 1;
    top := 1;
    while h <= a.Length / 9
      invariant top > 0 && h == Gap(top) && (top > 1 ==> Gap(top - 1) <= a.Length / 9)
      invariant a[..] == s
      decreases a.Length - h
    {
      h := 3 * h + 1;
      top := top + 1;
    }
    ghost var k: nat := top;
    shifts, counts := 0, [];
    Begun(s, top);
    while h > 0
      invariant k <= top && h == Gap(k) && Underway(s, a[..], top, k, shifts, counts)
      decreases k
    {
      ghost var p := a[..];
      GapForm(k);
      ghost var done, each := GapPass(a, h);
      PassUnderway(s, p, top, k, shifts, counts, each);
      shifts, counts := shifts + done, counts + [each];
      h := h / 3;
      k := k - 1;
    }
    Finished(s, a[..], top, shifts, counts);
  }

  /** One pass of the sort. */
  method GapPass(a: array<int>, h: int) returns (ghost shifts: nat, ghost counts: seq<nat>)
    requires h > 0
    modifies a
    ensures a[..] == Passed(old(a[..]), h, a.Length)
    ensures shifts == PassShifts(old(a[..]), h, a.Length)
    ensures CountsOf(old(a[..]), h, counts)
  {
    ghost var s := a[..];
    shifts, counts := 0, [];
    var i := h;
    while i < a.Length
      invariant h <= i && (i <= a.Length || i == h)
      invariant i <= a.Length ==> a[..] == Passed(s, h, i) && shifts == PassShifts(s, h, i)
      invariant i > a.Length ==> a[..] == s && shifts == 0
      invariant |counts| == i - h && forall x :: 0 <= x < |counts| ==> counts[x] == ShiftsAt(s, h, h + x)
    {
      ghost var p := a[..];
      var j, tmp := i, a[i];
      ghost var moved := 0;
      while j >= h && tmp < a[j - h]
        invariant 0 <= j <= i && tmp == p[i]
        invariant Insertion(a[..], h, j, tmp) == Insertion(p, h, i, tmp)
        invariant moved + Shifts(a[..], h, j, tmp) == Shifts(p, h, i, tmp)
      {
        ghost var q := a[..];
        a[j] := a[j - h];
        assert a[..] == q[j := q[j - h]];
        j := j - h;
        moved := moved + 1;
      }
      ghost var q := a[..];
      a[j] := tmp;
      assert a[..] == q[j := tmp];
      shifts, counts := shifts + moved, counts + [moved];
      i := i + 1;
    }
    assert i > a.Length ==> Passed(s, h, a.Length) == s && PassShifts(s, h, a.Length) == 0;
  }
}
