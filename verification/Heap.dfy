/** The binary max-heap over the growable array (namespace heap). */
module Heap {
  import opened GrowableArray
  import opened Options

  // ---------- Heap order ----------

  function Parent(j: nat): nat
    requires 0 < j
  {
    (j - 1) / 2
  }

  /** No element below `lo` is above its parent. */
  ghost predicate HeapFrom(s: seq<real>, lo: nat) {
    forall j :: 0 < j < |s| && Parent(j) >= lo ==> s[Parent(j)] >= s[j]
  }

  ghost predicate IsHeap(s: seq<real>) {
    HeapFrom(s, 0)
  }

  ghost predicate IsMax(m: multiset<real>, x: real) {
    x in m && forall y :: y in m ==> y <= x
  }

  lemma {:induction false} RootIsLargest(s: seq<real>, j: nat)
    requires IsHeap(s) && j < |s|
    ensures s[0] >= s[j]
  {
    if j > 0 { RootIsLargest(s, Parent(j)); }
  }

  lemma RootIsMax(s: seq<real>)
    requires IsHeap(s) && s != []
    ensures IsMax(multiset(s), s[0])
  {
    assert s[0] in s;
    forall y | y in multiset(s) ensures y <= s[0] {
      assert y in s;
      var j :| 0 <= j < |s| && s[j] == y;
      RootIsLargest(s, j);
    }
  }

  function Swap(s: seq<real>, i: nat, j: nat): (t: seq<real>)
    requires i < |s| && j < |s|
    ensures |t| == |s| && multiset(t) == multiset(s)
  {
    s[i := s[j]][j := s[i]]
  }

  // ---------- Sifting down ----------

  function Largest(s: seq<real>, i: nat): (k: nat)
    ensures k == i || (k < |s| && i < k && Parent(k) == i)
  {
    var left, right := 2 * i + 1, 2 * i + 2;
    var k := if left < |s| && s[left] > s[i] then left else i;
    if right < |s| && s[right] > s[k] then right else k
  }

  function SiftDown(s: seq<real>, i: nat): (t: seq<real>)
    ensures |t| == |s| && multiset(t) == multiset(s)
    decreases |s| - i
  {
    var k := Largest(s, i);
    if k == i then s else SiftDown(Swap(s, i, k), k)
  }

  /** In order from `lo` on, except that `i` may be below its children; those are
      no larger than the parent of `i`. */
  ghost predicate HoleAt(s: seq<real>, lo: nat, i: nat) {
    && (forall j :: 0 < j < |s| && Parent(j) >= lo && Parent(j) != i ==> s[Parent(j)] >= s[j])
    && forall j :: 0 < j < |s| && Parent(j) == i && 0 < i < |s| && Parent(i) >= lo
                   ==> s[Parent(i)] >= s[j]
  }

  lemma LargestIsLargest(s: seq<real>, i: nat, j: nat)
    requires 0 < j < |s| && Parent(j) == i
    ensures s[Largest(s, i)] >= s[j] && s[Largest(s, i)] >= s[i]
  {
    assert j == 2 * i + 1 || j == 2 * i + 2;
  }

  lemma HoleMovesDown(s: seq<real>, lo: nat, i: nat)
    requires lo <= i < |s| && HoleAt(s, lo, i) && Largest(s, i) != i
    ensures HoleAt(Swap(s, i, Largest(s, i)), lo, Largest(s, i))
  {
    var k := Largest(s, i);
    var t := Swap(s, i, k);
    forall j | 0 < j < |s| && Parent(j) >= lo && Parent(j) != k ensures t[Parent(j)] >= t[j] {
      if Parent(j) == i { LargestIsLargest(s, i, j); }
    }
  }

  /** Sifting the hole down closes it. */
  lemma {:induction false} SiftDownRestores(s: seq<real>, lo: nat, i: nat)
    requires lo <= i && HoleAt(s, lo, i)
    ensures HeapFrom(SiftDown(s, i), lo)
    decreases |s| - i
  {
    if Largest(s, i) != i {
      HoleMovesDown(s, lo, i);
      SiftDownRestores(Swap(s, i, Largest(s, i)), lo, Largest(s, i));
    } else {
      forall j | 0 < j < |s| && Parent(j) == i ensures s[i] >= s[j] { LargestIsLargest(s, i, j); }
    }
  }

  // ---------- Sifting up ----------

  function SiftUp(s: seq<real>, i: nat): (t: seq<real>)
    requires i < |s|
    ensures |t| == |s| && multiset(t) == multiset(s)
    decreases i
  {
    if i == 0 || s[i] <= s[Parent(i)] then s else SiftUp(Swap(s, i, Parent(i)), Parent(i))
  }

  /** In order, except that `i` may be above its parent. */
  ghost predicate BumpAt(s: seq<real>, i: nat) {
    && (forall j :: 0 < j < |s| && j != i ==> s[Parent(j)] >= s[j])
    && forall j :: 0 < j < |s| && Parent(j) == i && 0 < i < |s| ==> s[Parent(i)] >= s[j]
  }

  lemma BumpMovesUp(s: seq<real>, i: nat)
    requires 0 < i < |s| && BumpAt(s, i) && s[i] > s[Parent(i)]
    ensures BumpAt(Swap(s, i, Parent(i)), Parent(i))
  {
    var k := Parent(i);
    var t := Swap(s, i, k);
    forall j | 0 < j < |s| && j != k ensures t[Parent(j)] >= t[j] {
      if Parent(j) == i { assert s[Parent(i)] >= s[j]; }
    }
    forall j | 0 < j < |s| && Parent(j) == k && 0 < k ensures t[Parent(k)] >= t[j] {
      assert s[Parent(k)] >= s[k];
      if j != i { assert s[Parent(j)] >= s[j]; }
    }
  }

  lemma {:induction false} SiftUpRestores(s: seq<real>, i: nat)
    requires i < |s| && BumpAt(s, i)
    ensures IsHeap(SiftUp(s, i))
    decreases i
  {
    if i > 0 && s[i] > s[Parent(i)] {
      BumpMovesUp(s, i);
      SiftUpRestores(Swap(s, i, Parent(i)), Parent(i));
    }
  }

  // ---------- The operations ----------

  /** The sifts for i, i-1, ..., 0. */
  function MakeFrom(s: seq<real>, i: int): (t: seq<real>)
    ensures |t| == |s| && multiset(t) == multiset(s)
    decreases i + 1
  {
    if i < 0 then s else MakeFrom(SiftDown(s, i), i - 1)
  }

  function Make(s: seq<real>): seq<real> {
    MakeFrom(s, |s| / 2 - 1)
  }

  function Add(s: seq<real>, x: real): seq<real> {
    SiftUp(s + [x], |s|)
  }

  /** What is left when the root has been taken out. */
  function Rest(s: seq<real>): (t: seq<real>)
    requires s != []
    ensures |t| == |s| - 1
  {
    var last := |s| - 1;
    if last == 0 then [] else SiftDown(s[..last][0 := s[last]], 0)
  }

  lemma {:induction false} MakeFromRestores(s: seq<real>, i: int)
    requires -1 <= i && HeapFrom(s, i + 1)
    ensures IsHeap(MakeFrom(s, i))
    decreases i + 1
  {
    hide SiftDown;
    if i >= 0 {
      assert HoleAt(s, i, i);
      SiftDownRestores(s, i, i);
      MakeFromRestores(SiftDown(s, i), i - 1);
    }
  }

  /** MakeHeap makes a heap of any array. */
  lemma MakeRestores(s: seq<real>)
    ensures IsHeap(Make(s)) && multiset(Make(s)) == multiset(s)
  {
    assert forall j :: 0 < j < |s| ==> Parent(j) < |s| / 2;
    MakeFromRestores(s, |s| / 2 - 1);
  }

  lemma AddRestores(s: seq<real>, x: real)
    requires IsHeap(s)
    ensures IsHeap(Add(s, x)) && multiset(Add(s, x)) == multiset(s) + multiset{x}
  {
    assert BumpAt(s + [x], |s|);
    SiftUpRestores(s + [x], |s|);
  }

  lemma RestRestores(s: seq<real>)
    requires IsHeap(s) && s != []
    ensures IsHeap(Rest(s)) && multiset(Rest(s)) + multiset{s[0]} == multiset(s)
  {
    var last := |s| - 1;
    assert s == s[..last] + [s[last]];
    if last > 0 {
      var t := s[..last][0 := s[last]];
      assert s[..last] == [s[0]] + s[1..last] && t == [s[last]] + s[1..last];
      forall j | 0 < j < |t| && Parent(j) != 0 ensures t[Parent(j)] >= t[j] {
        assert s[Parent(j)] >= s[j];
      }
      assert HoleAt(t, 0, 0);
      SiftDownRestores(t, 0, 0);
    }
  }

  // ---------- Refining a priority queue ----------

  datatype Op = MakeHeap | Insert(x: real) | ExtractMax | HeapMaximum

  /** One call: the new array and, for the last two, the value returned.  None is
      the exception on an empty array. */
  function Apply(s: seq<real>, op: Op): (seq<real>, Option<real>) {
    match op
    case MakeHeap => (Make(s), None)
    case Insert(x) => (Add(s, x), None)
    case ExtractMax => if s == [] then (s, None) else (Rest(s), Some(s[0]))
    case HeapMaximum => if s == [] then (s, None) else (s, Some(s[0]))
  }

  /** The same call on a priority queue that is nothing but a multiset. */
  ghost predicate QueueStep(m: multiset<real>, op: Op, m': multiset<real>, r: Option<real>) {
    match op
    case MakeHeap => m' == m && r == None
    case Insert(x) => m' == m + multiset{x} && r == None
    case ExtractMax =>
      if m == multiset{} then m' == m && r == None
      else r.Some? && IsMax(m, r.value) && m' + multiset{r.value} == m
    case HeapMaximum =>
      m' == m && if m == multiset{} then r == None else r.Some? && IsMax(m, r.value)
  }

  lemma StepRefines(s: seq<real>, op: Op)
    requires op.MakeHeap? || IsHeap(s)
    ensures IsHeap(Apply(s, op).0)
    ensures QueueStep(multiset(s), op, multiset(Apply(s, op).0), Apply(s, op).1)
  {
    assert s == [] <==> multiset(s) == multiset{} by {
      if s != [] { assert s[0] in multiset(s); }
    }
    match op
    case MakeHeap => MakeRestores(s);
    case Insert(x) => AddRestores(s, x);
    case ExtractMax => if s != [] { RootIsMax(s); RestRestores(s); }
    case HeapMaximum => if s != [] { RootIsMax(s); }
  }

  /** The arrays and results of a run. */
  function Run(s: seq<real>, ops: seq<Op>): (r: (seq<real>, seq<Option<real>>))
    ensures |r.1| == |ops|
    decreases |ops|
  {
    if ops == [] then (s, [])
    else
      var one := Apply(s, ops[0]);
      var more := Run(one.0, ops[1..]);
      (more.0, [one.1] + more.1)
  }

  ghost predicate QueueRun(m: multiset<real>, ops: seq<Op>, m': multiset<real>, rs: seq<Option<real>>)
    requires |rs| == |ops|
    decreases |ops|
  {
    if ops == [] then m' == m
    else exists n :: QueueStep(m, ops[0], n, rs[0]) && QueueRun(n, ops[1..], m', rs[1..])
  }

  /** Every run on a heap, or on any array if it begins with MakeHeap, ends in a heap
      and returns what the priority queue returns. */
  lemma {:induction false} RunRefines(s: seq<real>, ops: seq<Op>)
    requires IsHeap(s) || (ops != [] && ops[0].MakeHeap?)
    ensures IsHeap(Run(s, ops).0)
    ensures QueueRun(multiset(s), ops, multiset(Run(s, ops).0), Run(s, ops).1)
    decreases |ops|
  {
    hide Apply, QueueStep, IsHeap;
    if ops != [] {
      var one := Apply(s, ops[0]);
      StepRefines(s, ops[0]);
      RunRefines(one.0, ops[1..]);
      assert Run(s, ops).1[1..] == Run(one.0, ops[1..]).1;
      assert QueueStep(multiset(s), ops[0], multiset(one.0), Run(s, ops).1[0]);
    }
  }

  /** The values ExtractMax returns until the array is empty. */
  function Drain(s: seq<real>): seq<real>
    decreases |s|
  {
    if s == [] then [] else [s[0]] + Drain(Rest(s))
  }

  ghost predicate NonIncreasing(s: seq<real>) {
    forall i, j :: 0 <= i < j < |s| ==> s[i] >= s[j]
  }

  lemma {:induction false} DrainSorts(s: seq<real>)
    requires IsHeap(s)
    ensures NonIncreasing(Drain(s)) && multiset(Drain(s)) == multiset(s)
    decreases |s|
  {
    hide Rest, IsHeap, NonIncreasing;
    if s != [] {
      RestRestores(s);
      RootIsMax(s);
      DrainSorts(Rest(s));
      var t := Drain(Rest(s));
      forall j | 0 <= j < |t| ensures s[0] >= t[j] {
        assert t[j] in multiset(t);
        assert t[j] in multiset(s);
      }
      FirstNonIncreasing(s[0], t);
      assert multiset([s[0]] + t) == multiset{s[0]} + multiset(t);
    } else {
      NoneNonIncreasing();
    }
  }

  lemma NoneNonIncreasing()
    ensures NonIncreasing([])
  {
  }

  lemma FirstNonIncreasing(x: real, t: seq<real>)
    requires NonIncreasing(t) && forall j :: 0 <= j < |t| ==> x >= t[j]
    ensures NonIncreasing([x] + t)
  {
  }

  /** Draining any array after MakeHeap sorts it, largest first. */
  lemma HeapSort(s: seq<real>)
    ensures NonIncreasing(Drain(Make(s))) && multiset(Drain(Make(s))) == multiset(s)
  {
    MakeRestores(s);
    DrainSorts(Make(s));
  }

  // ---------- How many swaps ----------

  /** The levels below a place in an array of n elements; `m` is the place counted from
      one, so that its left child is 2m. */
  ghost function Below(n: nat, m: nat): nat
    requires m > 0
    decreases n - m
  {
    if 2 * m > n then 0 else 1 + Below(n, 2 * m)
  }

  /** The levels below the root. */
  ghost function Height(n: nat): nat {
    Below(n, 1)
  }

  ghost function SwapsDown(s: seq<real>, i: nat): nat
    decreases |s| - i
  {
    var k := Largest(s, i);
    if k == i then 0 else 1 + SwapsDown(Swap(s, i, k), k)
  }

  ghost function SwapsUp(s: seq<real>, i: nat): nat
    requires i < |s|
    decreases i
  {
    if i == 0 || s[i] <= s[Parent(i)] then 0 else 1 + SwapsUp(Swap(s, i, Parent(i)), Parent(i))
  }

  /** The swaps of the sifts for i, i-1, ..., 0. */
  ghost function SwapsMaking(s: seq<real>, i: int): nat
    decreases i + 1
  {
    if i < 0 then 0 else SwapsDown(s, i) + SwapsMaking(SiftDown(s, i), i - 1)
  }

  lemma {:induction false} BelowAntitone(n: nat, m: nat, p: nat)
    requires 0 < m <= p
    ensures Below(n, p) <= Below(n, m)
    decreases n - m
  {
    if 2 * p <= n { BelowAntitone(n, 2 * m, 2 * p); }
  }

  lemma BelowParent(n: nat, j: nat)
    requires 0 < j < n
    ensures Below(n, j + 1) < Below(n, Parent(j) + 1)
  {
    var m := Parent(j) + 1;
    assert j + 1 == 2 * m || j + 1 == 2 * m + 1;
    BelowAntitone(n, 2 * m, j + 1);
  }

  /** A sift down does at most as many swaps as there are levels below. */
  lemma {:induction false} SwapsDownBounded(s: seq<real>, i: nat)
    ensures SwapsDown(s, i) <= Below(|s|, i + 1) <= Height(|s|)
    decreases |s| - i
  {
    hide Largest, Swap, Below;
    var k := Largest(s, i);
    if k != i {
      SwapsDownBounded(Swap(s, i, k), k);
      BelowParent(|s|, k);
    }
    BelowAntitone(|s|, 1, i + 1);
  }

  /** A sift up does at most as many swaps as there are levels above. */
  lemma {:induction false} SwapsUpBounded(s: seq<real>, i: nat)
    requires i < |s|
    ensures SwapsUp(s, i) + Below(|s|, i + 1) <= Height(|s|)
    decreases i
  {
    if i > 0 { BelowParent(|s|, i); }
    if i > 0 && s[i] > s[Parent(i)] {
      SwapsUpBounded(Swap(s, i, Parent(i)), Parent(i));
    } else {
      BelowAntitone(|s|, 1, i + 1);
    }
  }

  /** The levels below the first k places, added up. */
  ghost function Levels(n: nat, k: nat): nat {
    if k == 0 then 0 else Levels(n, k - 1) + Below(n, k)
  }

  lemma {:induction false} SwapsMakingBounded(s: seq<real>, i: int)
    requires -1 <= i
    ensures SwapsMaking(s, i) <= Levels(|s|, i + 1)
    decreases i + 1
  {
    hide SwapsDown, SiftDown, Below;
    if i >= 0 {
      SwapsDownBounded(s, i);
      SwapsMakingBounded(SiftDown(s, i), i - 1);
    }
  }

  lemma {:induction false} BelowHalf(n: nat, m: nat)
    requires m > 0
    ensures Below(n, 2 * m) == Below(n / 2, m)
    decreases n - m
  {
    if 2 * (2 * m) <= n { BelowHalf(n, 2 * m); }
  }

  lemma {:induction false} LevelsHalf(n: nat, k: nat)
    requires k <= n / 2
    ensures Levels(n, k) == k + Levels(n / 2, k)
  {
    if k > 0 {
      LevelsHalf(n, k - 1);
      BelowHalf(n, k);
    }
  }

  /** The leaves add nothing. */
  lemma {:induction false} LevelsOfLeaves(n: nat, k: nat)
    requires n / 2 <= k
    ensures Levels(n, k) == Levels(n, n / 2)
  {
    if n / 2 < k { LevelsOfLeaves(n, k - 1); }
  }

  /** Halving an array of n elements takes n / 2 off the sum of its levels. */
  lemma {:induction false} LevelsBounded(n: nat)
    requires n > 0
    ensures Levels(n, n / 2) < n
  {
    LevelsHalf(n, n / 2);
    if n > 1 {
      LevelsOfLeaves(n / 2, n / 2);
      LevelsBounded(n / 2);
    }
  }

  /** MakeHeap is linear: fewer swaps than elements. */
  lemma MakeIsLinear(s: seq<real>)
    requires s != []
    ensures SwapsMaking(s, |s| / 2 - 1) < |s|
  {
    SwapsMakingBounded(s, |s| / 2 - 1);
    LevelsBounded(|s|);
  }

  lemma {:induction false} DoubledTwice(c: nat, k: nat)
    ensures Doubled(2 * c, k) == Doubled(c, k + 1)
  {
    if k > 0 { DoubledTwice(c, k - 1); }
  }

  lemma {:induction false} BelowIsLog(n: nat, m: nat)
    requires 0 < m <= n
    ensures Doubled(m, Below(n, m)) <= n < Doubled(m, Below(n, m) + 1)
    decreases n - m
  {
    if 2 * m <= n {
      BelowIsLog(n, 2 * m);
      DoubledTwice(m, Below(n, 2 * m));
      DoubledTwice(m, Below(n, 2 * m) + 1);
    } else {
      assert Doubled(m, 1) == 2 * Doubled(m, 0);
    }
  }

  /** The height is the logarithm of the number of elements. */
  lemma HeightIsLog(n: nat)
    requires n > 0
    ensures Doubled(1, Height(n)) <= n < Doubled(1, Height(n) + 1)
  {
    BelowIsLog(n, 1);
  }

  // ---------- The program ----------

  method Exchange(arr: DArray, i: nat, j: nat)
    requires arr.Valid() && i < arr.actualSize && j < arr.actualSize
    modifies arr.buffer
    ensures arr.Contents() == Swap(old(arr.Contents()), i, j)
  {
    arr.buffer[i], arr.buffer[j] := arr.buffer[j], arr.buffer[i];
  }

  /** `swaps` counts the exchanges, here and below. */
  method SiftDownAt(arr: DArray, i: nat) returns (ghost swaps: nat)
    requires arr.Valid()
    modifies arr.buffer
    ensures arr.Contents() == SiftDown(old(arr.Contents()), i)
    ensures swaps == SwapsDown(old(arr.Contents()), i) <= Height(arr.actualSize)
    decreases arr.actualSize - i
  {
    SwapsDownBounded(arr.Contents(), i);
    swaps := 0;
    var left, right := 2 * i + 1, 2 * i + 2;
    var largest := i;
    if left < arr.actualSize && arr.buffer[left] > arr.buffer[i] {
      largest := left;
    }
    if right < arr.actualSize && arr.buffer[right] > arr.buffer[largest] {
      largest := right;
    }
    assert largest == Largest(arr.Contents(), i);
    if largest != i {
      Exchange(arr, i, largest);
      swaps := SiftDownAt(arr, largest);
      swaps := swaps + 1;
    }
  }

  method SiftUpFrom(arr: DArray, start: nat) returns (ghost swaps: nat)
    requires arr.Valid() && start < arr.actualSize
    modifies arr.buffer
    ensures arr.Contents() == SiftUp(old(arr.Contents()), start)
    ensures swaps == SwapsUp(old(arr.Contents()), start) <= Height(arr.actualSize)
  {
    SwapsUpBounded(arr.Contents(), start);
    swaps := 0;
    var i := start;
    while i > 0
      invariant 0 <= i < arr.actualSize
      invariant swaps + SwapsUp(arr.Contents(), i) == SwapsUp(old(arr.Contents()), start)
      invariant SiftUp(arr.Contents(), i) == SiftUp(old(arr.Contents()), start)
    {
      var parent := (i - 1) / 2;
      if arr.buffer[i] <= arr.buffer[parent] {
        return;
      }
      Exchange(arr, i, parent);
      swaps := swaps + 1;
      i := parent;
    }
  }

  method MakeHeapOf(arr: DArray) returns (ghost swaps: nat)
    requires arr.Valid()
    modifies arr.buffer
    ensures arr.Contents() == Make(old(arr.Contents()))
    ensures IsHeap(arr.Contents())
    ensures swaps == 0 || swaps < arr.actualSize
  {
    hide SiftDown, SwapsDown, Below, Amortised;
    ghost var s := arr.Contents();
    swaps := 0;
    var i := arr.actualSize / 2 - 1;
    while i >= 0
      invariant -1 <= i
      invariant MakeFrom(arr.Contents(), i) == Make(s)
      invariant swaps + SwapsMaking(arr.Contents(), i) == SwapsMaking(s, |s| / 2 - 1)
      decreases i + 1
    {
      ghost var done := SiftDownAt(arr, i);
      swaps := swaps + done;
      i := i - 1;
    }
    MakeRestores(s);
    if s != [] { MakeIsLinear(s); }
  }

  method AddElement(arr: DArray, element: real) returns (ghost swaps: nat)
    requires arr.Valid()
    modifies arr, arr.buffer
    ensures arr.Valid() && (arr.buffer == old(arr.buffer) || fresh(arr.buffer))
    ensures arr.growth == Pushed(old(arr.growth))
    ensures arr.Contents() == Add(old(arr.Contents()), element)
    ensures IsHeap(old(arr.Contents())) ==> IsHeap(arr.Contents())
    ensures swaps <= Height(arr.actualSize)
  {
    arr.PushBack(element);
    swaps := SiftUpFrom(arr, arr.actualSize - 1);
    if IsHeap(old(arr.Contents())) {
      AddRestores(old(arr.Contents()), element);
    }
  }

  method ExtractMaximum(arr: DArray) returns (r: Option<real>, ghost swaps: nat)
    requires arr.Valid()
    modifies arr, arr.buffer
    ensures arr.Valid() && arr.buffer == old(arr.buffer) && arr.growth == Popped(old(arr.growth))
    ensures (arr.Contents(), r) == Apply(old(arr.Contents()), ExtractMax)
    ensures IsHeap(old(arr.Contents())) ==>
      IsHeap(arr.Contents()) && (r.Some? ==> IsMax(multiset(old(arr.Contents())), r.value))
    ensures swaps <= Height(arr.actualSize)
  {
    hide IsHeap, IsMax, SiftDown, SwapsDown, Height, Amortised;
    swaps := 0;
    ghost var s := arr.Contents();
    if IsHeap(s) {
      StepRefines(s, ExtractMax);
    }
    if arr.actualSize == 0 {
      return None, 0;
    }
    var res := arr.buffer[0];
    var last := arr.PopBack();
    assert arr.Contents() == s[..|s| - 1];
    arr.buffer[0] := last.value;
    if arr.actualSize != 0 {
      assert arr.Contents() == s[..|s| - 1][0 := s[|s| - 1]];
      swaps := SiftDownAt(arr, 0);
    } else {
      assert arr.Contents() == [];
    }
    r := Some(res);
  }

  method Maximum(arr: DArray) returns (r: Option<real>)
    requires arr.Valid()
    ensures (arr.Contents(), r) == Apply(arr.Contents(), HeapMaximum)
    ensures IsHeap(arr.Contents()) && r.Some? ==> IsMax(multiset(arr.Contents()), r.value)
  {
    if arr.actualSize == 0 {
      return None;
    }
    if IsHeap(arr.Contents()) {
      RootIsMax(arr.Contents());
    }
    return Some(arr.buffer[0]);
  }
}
