/** The list cache is the fast form of the generation cache. */
module CacheSimulation {
  import opened CacheHistory
  import opened Sequences
  import FastCache
  import SlowCache

  /** Ordering the slow cache's keys by descending generation gives the fast list.  No
      stamp is ahead of the counter, and the newest key bears no zero unless the counter
      itself is zero. */
  ghost predicate Agree<K(!new), V>(f: FastCache.State<K, V>, s: SlowCache.State<K, V>) {
    && SameOrder(f, s)
    && (forall k :: k in s.cache ==> s.cache[k].gen <= s.generation)
    && (f.list != [] && s.generation > 0 ==> s.cache[f.list[0]].gen > 0)
  }

  /** Agreement as far as keys and order go. */
  ghost predicate SameOrder<K(!new), V>(f: FastCache.State<K, V>, s: SlowCache.State<K, V>) {
    && (forall k :: k in f.list <==> k in s.cache)
    && forall i, j :: 0 <= i < j < |f.list| ==> s.cache[f.list[i]].gen > s.cache[f.list[j]].gen
  }

  lemma SameCount<K(!new), V>(n: nat, f: FastCache.State<K, V>, s: SlowCache.State<K, V>)
    requires FastCache.WellFormed(n, f) && Agree(f, s)
    ensures |s.cache| == |f.data| && s.cache.Keys == f.data.Keys
  {
    assert s.cache.Keys == f.data.Keys;
  }

  /** A new key at the front, before any eviction. */
  lemma EnterAgrees<K(!new), V>(n: nat, f: FastCache.State<K, V>, s: SlowCache.State<K, V>, k: K, d: V)
    requires FastCache.WellFormed(n, f) && Agree(f, s) && k !in s.cache
    requires s.generation + 1 < SlowCache.GENERATIONS
    ensures var g := s.generation + 1;
      Agree(FastCache.State([k] + f.list, f.data[k := d]),
            SlowCache.State(s.cache[k := SlowCache.Stamped(d, g)], g))
  {
    hide FastCache.WellFormed;
    var list := [k] + f.list;
    var cache := s.cache[k := SlowCache.Stamped(d, s.generation + 1)];
    forall i, j | 0 <= i < j < |list| ensures cache[list[i]].gen > cache[list[j]].gen {
      assert list[j] == f.list[j - 1] && f.list[j - 1] in f.list;
      if i > 0 { assert list[i] == f.list[i - 1] && f.list[i - 1] in f.list; }
    }
  }

  lemma OldestIsLast<K(!new), V>(f: FastCache.State<K, V>, s: SlowCache.State<K, V>, x: K)
    requires Agree(f, s) && SlowCache.IsOldest(s.cache, x)
    ensures f.list != [] && x == f.list[|f.list| - 1]
  {
    var i :| 0 <= i < |f.list| && f.list[i] == x;
    var last := |f.list| - 1;
    assert f.list[last] in f.list;
  }

  lemma EvictAgrees<K(!new), V>(n: nat, f: FastCache.State<K, V>, s: SlowCache.State<K, V>, x: K)
    requires FastCache.WellFormed(n, f) && Agree(f, s) && SlowCache.IsOldest(s.cache, x)
    ensures var last := |f.list| - 1;
      && f.list != [] && x == f.list[last]
      && Agree(FastCache.State(f.list[..last], f.data - {f.list[last]}),
               SlowCache.State(s.cache - {x}, s.generation))
  {
    hide FastCache.WellFormed, Agree, SlowCache.IsOldest, Distinct;
    OldestIsLast(f, s, x);
    FastCache.FormIsDistinct(n, f);
    LastLeaves(f, s);
  }

  lemma LastLeaves<K(!new), V>(f: FastCache.State<K, V>, s: SlowCache.State<K, V>)
    requires Agree(f, s) && Distinct(f.list) && f.list != []
    ensures var last := |f.list| - 1;
      Agree(FastCache.State(f.list[..last], f.data - {f.list[last]}),
            SlowCache.State(s.cache - {f.list[last]}, s.generation))
  {
    hide Distinct, SameOrder;
    LastLeavesOrder(f, s);
    var last := |f.list| - 1;
    if last > 0 { assert f.list[..last][0] == f.list[0] && f.list[0] in f.list[..last]; }
    if last > 0 { ResidentAt(f, s, 0); StaysAt(f.list, 0); }
  }

  lemma StaysAt<K(!new)>(list: seq<K>, i: nat)
    requires Distinct(list) && i < |list| - 1
    ensures list[i] != list[|list| - 1] && list[..|list| - 1][i] == list[i]
  {
  }

  lemma LastLeavesOrder<K(!new), V>(f: FastCache.State<K, V>, s: SlowCache.State<K, V>)
    requires Agree(f, s) && Distinct(f.list) && f.list != []
    ensures var last := |f.list| - 1;
      SameOrder(FastCache.State(f.list[..last], f.data - {f.list[last]}),
                SlowCache.State(s.cache - {f.list[last]}, s.generation))
  {
    hide Distinct, Agree;
    WithoutLast(f.list);
    var last := |f.list| - 1;
    var list, cache := f.list[..last], s.cache - {f.list[last]};
    forall k ensures k in list <==> k in cache { SameKeys(f, s, k); }
    forall i, j | 0 <= i < j < |list| ensures cache[list[i]].gen > cache[list[j]].gen {
      StaysAt(f.list, i);
      StaysAt(f.list, j);
      ResidentAt(f, s, i);
      ResidentAt(f, s, j);
      OrderedAt(f, s, i, j);
    }
  }

  lemma ResidentAt<K(!new), V>(f: FastCache.State<K, V>, s: SlowCache.State<K, V>, i: nat)
    requires Agree(f, s) && i < |f.list|
    ensures f.list[i] in s.cache && s.cache[f.list[i]].gen <= s.generation
  {
    assert f.list[i] in f.list;
  }

  lemma OrderedAt<K(!new), V>(f: FastCache.State<K, V>, s: SlowCache.State<K, V>, i: nat, j: nat)
    requires Agree(f, s) && i < j < |f.list| && f.list[i] in s.cache && f.list[j] in s.cache
    ensures s.cache[f.list[i]].gen > s.cache[f.list[j]].gen
  {
  }

  /** Every key but `k` bears a stamp below `g`. */
  ghost predicate Behind<K, V>(f: FastCache.State<K, V>, s: SlowCache.State<K, V>, k: K, g: nat) {
    forall i :: 0 <= i < |f.list| && f.list[i] != k ==> f.list[i] in s.cache && s.cache[f.list[i]].gen < g
  }

  lemma RestampPair<K(!new), V>(f: FastCache.State<K, V>, s: SlowCache.State<K, V>, k: K, g: nat, i: nat, j: nat)
    requires Agree(f, s) && k in s.cache && Behind(f, s, k, g) && i < j < |[k] + Without(f.list, k)|
    ensures var list := [k] + Without(f.list, k);
      && list[i] in s.cache && list[j] in s.cache && list[j] != k
      && s.cache[list[j]].gen < g
      && (i > 0 ==> list[i] != k && s.cache[list[i]].gen > s.cache[list[j]].gen)
  {
    hide Without, Agree;
    var t := Without(f.list, k);
    var list := [k] + t;
    assert list[j] == t[j - 1];
    var q := Place(f.list, k, j - 1);
    WithoutAt(f.list, k, j - 1);
    ResidentAt(f, s, q);
    if i > 0 {
      assert list[i] == t[i - 1];
      var p := Place(f.list, k, i - 1);
      WithoutAt(f.list, k, i - 1);
      ResidentAt(f, s, p);
      PlacesAscend(f.list, k, i - 1, j - 1);
      OrderedAt(f, s, p, q);
    }
  }

  /** A resident key moves to the front with a stamp above all others. */
  lemma RestampAgrees<K(!new), V>(f: FastCache.State<K, V>, s: SlowCache.State<K, V>, k: K, d: V, g: nat)
    requires Agree(f, s) && k in s.cache && Behind(f, s, k, g)
    ensures Agree(FastCache.State([k] + Without(f.list, k), f.data[k := d]),
                  SlowCache.State(s.cache[k := SlowCache.Stamped(s.cache[k].data, g)], g))
  {
    hide Without;
    var t := Without(f.list, k);
    WithoutKeeps(f.list, k);
    var list := [k] + t;
    var cache := s.cache[k := SlowCache.Stamped(s.cache[k].data, g)];
    forall x | x in list ensures x in cache {
      if x != k { assert x in t; assert x in f.list; }
    }
    forall x | x in cache ensures x in list {
      if x != k { assert x in f.list; assert x in t; }
    }
    forall x | x in cache ensures cache[x].gen <= g {
      if x != k { assert x in f.list; }
    }
    forall i, j | 0 <= i < j < |list| ensures cache[list[i]].gen > cache[list[j]].gen {
      RestampPair(f, s, k, g, i, j);
    }
  }

  lemma AllBehindNext<K(!new), V>(f: FastCache.State<K, V>, s: SlowCache.State<K, V>, k: K, g: nat)
    requires Agree(f, s) && s.generation < g
    ensures Behind(f, s, k, g)
  {
    forall i | 0 <= i < |f.list| ensures f.list[i] in s.cache && s.cache[f.list[i]].gen < g {
      assert f.list[i] in f.list;
    }
  }

  lemma NewKeyAgrees<K(!new), V>(n: nat, f: FastCache.State<K, V>, s: SlowCache.State<K, V>, k: K, d: V,
                           s': SlowCache.State<K, V>)
    requires FastCache.WellFormed(n, f) && Agree(f, s) && n > 0 && k !in s.cache
    requires SlowCache.InsertKey(n, s, k, d, s') && s.generation + 1 < SlowCache.GENERATIONS
    ensures Agree(FastCache.InsertKey(n, f, k, d), s') && s'.generation == s.generation + 1
  {
    hide Without, Agree, SlowCache.Next, SlowCache.IsOldest, FastCache.WellFormed;
    SlowCache.NextGeneration(s.generation);
    var g := s.generation + 1;
    var f1 := FastCache.State([k] + f.list, f.data[k := d]);
    var s1 := SlowCache.State(s.cache[k := SlowCache.Stamped(d, g)], g);
    SameCount(n, f, s);
    EnterAgrees(n, f, s, k, d);
    FastCache.GrowKeepsForm(n, f, k, d);
    SameCount(n + 1, f1, s1);
    if |s1.cache| > n {
      var x :| x in s1.cache && SlowCache.IsOldest(s1.cache, x) && s'.cache == s1.cache - {x};
      EvictAgrees(n + 1, f1, s1, x);
    }
  }

  lemma ResidentKeyAgrees<K(!new), V>(n: nat, f: FastCache.State<K, V>, s: SlowCache.State<K, V>, k: K, d: V,
                                s': SlowCache.State<K, V>)
    requires FastCache.WellFormed(n, f) && Agree(f, s) && n > 0 && k in s.cache
    requires SlowCache.InsertKey(n, s, k, d, s') && s.generation + 2 < SlowCache.GENERATIONS
    ensures Agree(FastCache.InsertKey(n, f, k, d), s') && s'.generation == s.generation + 2
  {
    hide Without, Agree, Behind, SlowCache.Next, FastCache.WellFormed;
    SlowCache.NextGeneration(s.generation);
    SlowCache.NextGeneration(s.generation + 1);
    SameCount(n, f, s);
    AllBehindNext(f, s, k, s.generation + 2);
    RestampAgrees(f, s, k, d, s.generation + 2);
  }

  /** The generations an operation uses up: two for a key already resident. */
  ghost function Cost<K, V>(n: nat, resident: seq<K>, op: Op<K, V>): nat {
    if n == 0 || op.Clear? then 0 else if op.key in resident then 2 else 1
  }

  /** One operation on both caches during which the counter does not wrap. */
  lemma StepAgrees<K(!new), V>(n: nat, f: FastCache.State<K, V>, s: SlowCache.State<K, V>, op: Op<K, V>,
                         s': SlowCache.State<K, V>)
    requires FastCache.WellFormed(n, f) && Agree(f, s) && SlowCache.Apply(n, s, op, s')
    requires s.generation < SlowCache.GENERATIONS && s.generation <= s'.generation
    ensures Agree(FastCache.Apply(n, f, op), s')
    ensures s'.generation == s.generation + Cost(n, f.list, op) < SlowCache.GENERATIONS
  {
    hide Agree, SlowCache.Next;
    SlowCache.NextGeneration(s.generation);
    SlowCache.NextGeneration(SlowCache.Next(s.generation));
    match op
    case Clear => EmptyAgrees<K, V>(s'.generation);
    case Insert(k, d) =>
      SameKeys(f, s, k);
      if n == 0 {
      } else if k in s.cache {
        ResidentKeyAgrees(n, f, s, k, d, s');
      } else {
        NewKeyAgrees(n, f, s, k, d, s');
      }
  }

  /** With as many generations left as the operation costs, the counter does not wrap. */
  lemma StepDoesNotWrap<K(!new), V>(n: nat, f: FastCache.State<K, V>, s: SlowCache.State<K, V>, op: Op<K, V>,
                                    s': SlowCache.State<K, V>)
    requires Agree(f, s) && SlowCache.Apply(n, s, op, s')
    requires s.generation + Cost(n, f.list, op) < SlowCache.GENERATIONS
    ensures s.generation <= s'.generation
  {
    hide Agree, SlowCache.Next;
    SlowCache.NextGeneration(s.generation);
    SlowCache.NextGeneration(SlowCache.Next(s.generation));
    if op.Insert? { SameKeys(f, s, op.key); }
  }

  lemma EmptyAgrees<K(!new), V>(g: nat)
    ensures Agree<K, V>(FastCache.State([], map[]), SlowCache.State(map[], g))
  {
  }

  // ---------- Where the counter wraps ----------

  lemma AgreeIsSameOrder<K(!new), V>(f: FastCache.State<K, V>, s: SlowCache.State<K, V>)
    requires Agree(f, s)
    ensures SameOrder(f, s)
  {
  }

  lemma NotInOrder<K(!new), V>(f: FastCache.State<K, V>, s: SlowCache.State<K, V>)
    requires |f.list| > 1 && f.list[0] in s.cache && f.list[1] in s.cache
    requires s.cache[f.list[0]].gen <= s.cache[f.list[1]].gen
    ensures !SameOrder(f, s)
  {
  }

  lemma MissingKey<K(!new), V>(f: FastCache.State<K, V>, s: SlowCache.State<K, V>, k: K)
    requires k in f.list && k !in s.cache
    ensures !SameOrder(f, s)
  {
  }

  lemma NoneBehindZero<K(!new), V>(f: FastCache.State<K, V>, s: SlowCache.State<K, V>, k: K)
    requires k !in f.list
    ensures Behind(f, s, k, 0) <==> f.list == []
  {
    if f.list != [] { assert f.list[0] in f.list; }
  }

  /** The newest resident key is not the one to leave when the counter stands at its end. */
  lemma FirstStays<K(!new), V>(f: FastCache.State<K, V>, s: SlowCache.State<K, V>, k: K, d: V, x: K)
    requires Agree(f, s) && s.generation > 0 && k !in s.cache && f.list != []
    requires SlowCache.IsOldest(s.cache[k := SlowCache.Stamped(d, 0)], x)
    ensures f.list[0] in s.cache && x != f.list[0] && f.list[0] != k && s.cache[f.list[0]].gen > 0
  {
    var cache := s.cache[k := SlowCache.Stamped(d, 0)];
    assert f.list[0] in f.list;
    assert cache[x].gen <= cache[k].gen;
  }

  lemma SingleAgrees<K(!new), V>(f: FastCache.State<K, V>, s: SlowCache.State<K, V>, k: K)
    requires f.list == [k] && (forall x :: x in s.cache <==> x == k) && s.cache[k].gen == s.generation
    ensures Agree(f, s)
  {
  }

  /** The stamp of a new key wraps to zero: the key leaves at once, or it stands behind
      the others. */
  lemma NewKeyWraps<K(!new), V>(n: nat, f: FastCache.State<K, V>, s: SlowCache.State<K, V>, k: K, d: V,
                                s': SlowCache.State<K, V>)
    requires FastCache.WellFormed(n, f) && Agree(f, s) && n > 0 && k !in s.cache
    requires SlowCache.InsertKey(n, s, k, d, s') && s.generation + 1 == SlowCache.GENERATIONS
    ensures s'.generation == 0
    ensures SameOrder(FastCache.InsertKey(n, f, k, d), s') ==> f.list == []
    ensures f.list == [] ==> Agree(FastCache.InsertKey(n, f, k, d), s')
  {
    hide Without, Agree, SameOrder, SlowCache.Next, SlowCache.IsOldest;
    SlowCache.NextGeneration(s.generation);
    SameCount(n, f, s);
    var fast := FastCache.InsertKey(n, f, k, d);
    var cache := s.cache[k := SlowCache.Stamped(d, 0)];
    assert cache.Keys == s.cache.Keys + {k};
    assert f.data[k := d].Keys == f.data.Keys + {k};
    assert fast.list[0] == k;
    if f.list == [] {
      SingleAgrees(fast, s', k);
    } else if |f.list| == n {
      var x := SlowCache.FullInsertEvicts(n, s, k, d, s');
      FirstStays(f, s, k, d, x);
      if x == k { MissingKey(fast, s', k); } else { EvictedBehind(n, f, s, k, d, x); }
    } else {
      AllBehind(f, s, k, d);
    }
  }

  lemma AllBehind<K(!new), V>(f: FastCache.State<K, V>, s: SlowCache.State<K, V>, k: K, d: V)
    requires Agree(f, s) && k !in s.cache && f.list != []
    ensures !SameOrder(FastCache.State([k] + f.list, f.data[k := d]),
                       SlowCache.State(s.cache[k := SlowCache.Stamped(d, 0)], 0))
  {
    hide SameOrder;
    assert f.list[0] in s.cache by { AgreeIsSameOrder(f, s); ResidentAt(f, s, 0); }
    NotInOrder(FastCache.State([k] + f.list, f.data[k := d]),
               SlowCache.State(s.cache[k := SlowCache.Stamped(d, 0)], 0));
  }

  /** Another key with a zero leaves: the new one still stands behind the first. */
  lemma EvictedBehind<K(!new), V>(n: nat, f: FastCache.State<K, V>, s: SlowCache.State<K, V>, k: K, d: V, x: K)
    requires FastCache.WellFormed(n, f) && Agree(f, s) && k !in s.cache && |f.list| == n > 0
    requires x in s.cache && f.list[0] in s.cache && x != f.list[0]
    ensures !SameOrder(FastCache.InsertKey(n, f, k, d),
                       SlowCache.State(s.cache[k := SlowCache.Stamped(d, 0)] - {x}, 0))
  {
    hide SameOrder, FastCache.WellFormed, Without;
    SameKeys(f, s, x);
    var i :| 0 <= i < |f.list| && f.list[i] == x;
    SameKeys(f, s, k);
    FullInsert(n, f, k, d);
    NotInOrder(FastCache.InsertKey(n, f, k, d),
               SlowCache.State(s.cache[k := SlowCache.Stamped(d, 0)] - {x}, 0));
  }

  lemma FullInsert<K(!new), V>(n: nat, f: FastCache.State<K, V>, k: K, d: V)
    requires FastCache.WellFormed(n, f) && k !in f.list && |f.list| == n > 0
    ensures FastCache.InsertKey(n, f, k, d).list == [k] + f.list[..n - 1]
  {
    assert f.data[k := d].Keys == f.data.Keys + {k};
    assert ([k] + f.list)[..n] == [k] + f.list[..n - 1];
  }

  /** The stamp of a resident key wraps to zero or one. */
  lemma ResidentKeyWraps<K(!new), V>(n: nat, f: FastCache.State<K, V>, s: SlowCache.State<K, V>, k: K, d: V,
                                     s': SlowCache.State<K, V>)
    requires FastCache.WellFormed(n, f) && Agree(f, s) && n > 0 && k in s.cache
    requires SlowCache.InsertKey(n, s, k, d, s')
    requires s.generation < SlowCache.GENERATIONS <= s.generation + 2
    ensures s'.generation == s.generation + 2 - SlowCache.GENERATIONS
    ensures SameOrder(FastCache.InsertKey(n, f, k, d), s') ==> Behind(f, s, k, s'.generation)
    ensures Behind(f, s, k, s'.generation) ==> Agree(FastCache.InsertKey(n, f, k, d), s')
  {
    hide Without, SlowCache.Next, FastCache.WellFormed, Agree, SameOrder, Behind;
    SlowCache.NextGeneration(s.generation);
    SlowCache.NextGeneration(SlowCache.Next(s.generation));
    SameCount(n, f, s) by { assert FastCache.WellFormed(n, f); }
    SameKeys(f, s, k);
    assert k in f.data by { SameCount(n, f, s); }
    if SameOrder(FastCache.InsertKey(n, f, k, d), s') { OrderMeansBehind(f, s, k, d, s'.generation); }
    if Behind(f, s, k, s'.generation) { RestampAgrees(f, s, k, d, s'.generation); }
  }

  lemma OrderMeansBehind<K(!new), V>(f: FastCache.State<K, V>, s: SlowCache.State<K, V>, k: K, d: V, g: nat)
    requires Agree(f, s) && k in s.cache
    requires SameOrder(FastCache.State([k] + Without(f.list, k), f.data[k := d]),
                       SlowCache.State(s.cache[k := SlowCache.Stamped(s.cache[k].data, g)], g))
    ensures Behind(f, s, k, g)
  {
    hide Without;
    var t := Without(f.list, k);
    WithoutKeeps(f.list, k);
    var list, cache := [k] + t, s.cache[k := SlowCache.Stamped(s.cache[k].data, g)];
    forall i | 0 <= i < |f.list| && f.list[i] != k ensures f.list[i] in s.cache && s.cache[f.list[i]].gen < g {
      assert f.list[i] in f.list;
      var j :| 0 <= j < |t| && t[j] == f.list[i];
      assert list[0] == k && list[j + 1] == t[j];
      assert cache[list[0]].gen > cache[list[j + 1]].gen;
    }
  }

  /** From agreeing states, an insertion keeps the caches in the same order if and only if
      the counter does not wrap in it or the wrapped stamp is still above those of the
      other resident keys. */
  lemma InsertAgreesIff<K(!new), V>(n: nat, f: FastCache.State<K, V>, s: SlowCache.State<K, V>, k: K, d: V,
                                    s': SlowCache.State<K, V>)
    requires FastCache.WellFormed(n, f) && Agree(f, s) && s.generation < SlowCache.GENERATIONS
    requires SlowCache.InsertKey(n, s, k, d, s')
    ensures SameOrder(FastCache.InsertKey(n, f, k, d), s')
       <==> s.generation <= s'.generation || Behind(f, s, k, s'.generation)
    ensures SameOrder(FastCache.InsertKey(n, f, k, d), s') ==> Agree(FastCache.InsertKey(n, f, k, d), s')
    ensures s.generation <= s'.generation
       <==> s.generation + Cost(n, f.list, Insert(k, d)) < SlowCache.GENERATIONS
    ensures s'.generation == Wrapped(s.generation + Cost(n, f.list, Insert(k, d)))
  {
    hide Agree, SameOrder, FastCache.InsertKey, SlowCache.InsertKey, FastCache.WellFormed, Behind;
    var op := Insert(k, d);
    SameKeys(f, s, k);
    if s.generation + Cost(n, f.list, op) < SlowCache.GENERATIONS {
      StepDoesNotWrap(n, f, s, op, s');
      StepAgrees(n, f, s, op, s');
      AgreeIsSameOrder(FastCache.InsertKey(n, f, k, d), s');
    } else if k in s.cache {
      ResidentKeyWraps(n, f, s, k, d, s');
      if Behind(f, s, k, s'.generation) { AgreeIsSameOrder(FastCache.InsertKey(n, f, k, d), s'); }
    } else {
      NewKeyWraps(n, f, s, k, d, s');
      NoneBehindZero(f, s, k);
      if f.list == [] { AgreeIsSameOrder(FastCache.InsertKey(n, f, k, d), s'); }
    }
  }

  /** A count of generations as the 64-bit counter shows it. */
  function Wrapped(g: nat): nat {
    g % SlowCache.GENERATIONS
  }

  lemma WrappedStep(g: nat, c: nat)
    requires c < SlowCache.GENERATIONS
    ensures Wrapped(Wrapped(g) + c) == Wrapped(g + c)
    ensures Wrapped(g) <= Wrapped(g + c) <==> Wrapped(g) + c < SlowCache.GENERATIONS
  {
  }

  // ---------- Runs ----------

  /** The generations a run uses up, told from its operations alone. */
  ghost function Stamps<K, V>(n: nat, ops: seq<Op<K, V>>): nat {
    if ops == [] then 0
    else
      var m := |ops| - 1;
      Stamps(n, ops[..m]) + Cost(n, Take(ByRecency(ops[..m]), n), ops[m])
  }

  lemma {:induction false} StampsOfPrefix<K, V>(n: nat, ops: seq<Op<K, V>>, i: nat)
    requires i <= |ops|
    ensures Stamps(n, ops[..i]) <= Stamps(n, ops)
    decreases |ops|
  {
    if i == |ops| {
      assert ops[..i] == ops;
    } else {
      var m := |ops| - 1;
      assert ops[..m][..i] == ops[..i];
      StampsOfPrefix(n, ops[..m], i);
    }
  }

  /** The stamp of a resident key, told from the operations alone. */
  ghost function StampOf<K, V>(n: nat, ops: seq<Op<K, V>>, k: K): nat {
    Wrapped(Stamps(n, ops[..LastInsertion(ops, k) + 1]))
  }

  /** If the counter wraps in step `i`, then to a stamp above those of the other keys
      resident at the time. */
  ghost predicate KeepsUp<K(!new), V>(n: nat, ops: seq<Op<K, V>>, i: nat)
    requires i < |ops|
  {
    var g := Wrapped(Stamps(n, ops[..i + 1]));
    ops[i].Insert? && g < Wrapped(Stamps(n, ops[..i])) ==>
      forall x :: x in Take(ByRecency(ops[..i]), n) && x != ops[i].key ==> StampOf(n, ops[..i], x) < g
  }

  ghost predicate InStep<K(!new), V>(n: nat, ops: seq<Op<K, V>>) {
    forall i :: 0 <= i < |ops| ==> KeepsUp(n, ops, i)
  }

  /** Counter and stamps are those told from the operations. */
  ghost predicate Tracked<K(!new), V>(n: nat, ops: seq<Op<K, V>>, s: SlowCache.State<K, V>) {
    && s.generation == Wrapped(Stamps(n, ops))
    && forall x :: x in s.cache ==> s.cache[x].gen == StampOf(n, ops, x)
  }

  lemma KeepsUpInPrefix<K(!new), V>(n: nat, ops: seq<Op<K, V>>, m: nat, i: nat)
    requires i < m <= |ops|
    ensures KeepsUp(n, ops[..m], i) <==> KeepsUp(n, ops, i)
  {
    assert ops[..m][..i] == ops[..i] && ops[..m][..i + 1] == ops[..i + 1];
  }

  lemma InStepPrefix<K(!new), V>(n: nat, ops: seq<Op<K, V>>, m: nat)
    requires InStep(n, ops) && m <= |ops|
    ensures InStep(n, ops[..m])
  {
    hide KeepsUp;
    forall i | 0 <= i < m ensures KeepsUp(n, ops[..m], i) { KeepsUpInPrefix(n, ops, m, i); }
  }

  lemma BehindIsKeepsUp<K(!new), V>(n: nat, ops: seq<Op<K, V>>, f: FastCache.State<K, V>, s: SlowCache.State<K, V>)
    requires ops != []
    requires var m := |ops| - 1;
      ops[m].Insert? && f.list == Take(ByRecency(ops[..m]), n) && Agree(f, s) && Tracked(n, ops[..m], s)
    ensures var m, g := |ops| - 1, Wrapped(Stamps(n, ops));
      KeepsUp(n, ops, m) <==> s.generation <= g || Behind(f, s, ops[m].key, g)
  {
    hide Stamps, Take, ByRecency, StampOf, Wrapped;
    var m := |ops| - 1;
    assert ops[..m + 1] == ops;
    assert forall x :: x in f.list <==> x in s.cache;
    var g := Wrapped(Stamps(n, ops));
    if g < s.generation {
      if Behind(f, s, ops[m].key, g) {
        forall x | x in f.list && x != ops[m].key ensures StampOf(n, ops[..m], x) < g {
          var i :| 0 <= i < |f.list| && f.list[i] == x;
        }
      }
      if KeepsUp(n, ops, m) {
        forall i | 0 <= i < |f.list| && f.list[i] != ops[m].key
          ensures f.list[i] in s.cache && s.cache[f.list[i]].gen < g
        {
          assert f.list[i] in f.list;
        }
      }
    }
  }

  /** The slow cache's records after a step: the new stamp on the key, the old ones on
      the others. */
  lemma StepKeepsTrack<K(!new), V>(n: nat, ops: seq<Op<K, V>>, s: SlowCache.State<K, V>, s': SlowCache.State<K, V>)
    requires ops != [] && (n == 0 ==> s.cache == map[])
    requires var m := |ops| - 1;
      Tracked(n, ops[..m], s) && SlowCache.Apply(n, s, ops[m], s')
    requires s'.generation == Wrapped(Stamps(n, ops))
    ensures Tracked(n, ops, s')
  {
    hide Stamps, Wrapped, StampOf, SlowCache.Apply;
    var m := |ops| - 1;
    forall x | x in s'.cache ensures s'.cache[x].gen == StampOf(n, ops, x) {
      StampAfterStep(n, s, ops[m], s', x);
      StampOfStep(n, ops, x);
    }
  }

  lemma StampAfterStep<K(!new), V>(n: nat, s: SlowCache.State<K, V>, op: Op<K, V>, s': SlowCache.State<K, V>, x: K)
    requires (n == 0 ==> s.cache == map[]) && SlowCache.Apply(n, s, op, s') && x in s'.cache
    ensures op.Insert?
    ensures s'.cache[x].gen == if x == op.key then s'.generation else if x in s.cache then s.cache[x].gen else 0
    ensures x == op.key || x in s.cache
  {
    hide SlowCache.Next, SlowCache.IsOldest;
  }

  lemma StampOfStep<K(!new), V>(n: nat, ops: seq<Op<K, V>>, x: K)
    requires ops != [] && ops[|ops| - 1].Insert?
    ensures var m := |ops| - 1;
      StampOf(n, ops, x) == if x == ops[m].key then Wrapped(Stamps(n, ops)) else StampOf(n, ops[..m], x)
  {
    hide Stamps, Wrapped;
    var m := |ops| - 1;
    LastStep(ops, x);
    if x == ops[m].key {
      assert ops[..m + 1] == ops;
    } else {
      var j := LastInsertion(ops[..m], x);
      assert ops[..m][..j + 1] == ops[..j + 1];
    }
  }

  /** One step of a run from agreeing caches. */
  lemma StepInStep<K(!new), V>(n: nat, ops: seq<Op<K, V>>, s: SlowCache.State<K, V>, s': SlowCache.State<K, V>)
    requires ops != []
    requires var m := |ops| - 1;
      Agree(FastCache.Run(n, ops[..m]), s) && Tracked(n, ops[..m], s) && SlowCache.Apply(n, s, ops[m], s')
    ensures SameOrder(FastCache.Run(n, ops), s') <==> KeepsUp(n, ops, |ops| - 1)
    ensures KeepsUp(n, ops, |ops| - 1) ==> Agree(FastCache.Run(n, ops), s') && Tracked(n, ops, s')
  {
    hide Agree, SameOrder, Behind, FastCache.InsertKey, SlowCache.InsertKey, KeepsUp, Cost, ByRecency, Take, StampOf;
    var m := |ops| - 1;
    var f := FastCache.Run(n, ops[..m]);
    FastCache.RunKeepsForm(n, ops[..m]);
    FastCache.RunList(n, ops[..m]);
    WrappedStep(Stamps(n, ops[..m]), Cost(n, f.list, ops[m])) by { CostIsSmall(n, f.list, ops[m]); }
    SameCount(n, f, s);
    match ops[m] {
      case Clear =>
        ClearKeepsUp(n, ops);
        EmptyAgrees<K, V>(s.generation);
        AgreeIsSameOrder(FastCache.Run(n, ops), s');
      case Insert(k, d) =>
        InsertAgreesIff(n, f, s, k, d, s');
        BehindIsKeepsUp(n, ops, f, s);
    }
    StepKeepsTrack(n, ops, s, s');
  }

  lemma CostIsSmall<K, V>(n: nat, resident: seq<K>, op: Op<K, V>)
    ensures Cost(n, resident, op) <= 2 && (op.Clear? ==> Cost(n, resident, op) == 0)
  {
  }

  lemma ClearKeepsUp<K(!new), V>(n: nat, ops: seq<Op<K, V>>)
    requires ops != [] && ops[|ops| - 1].Clear?
    ensures KeepsUp(n, ops, |ops| - 1) && Stamps(n, ops) == Stamps(n, ops[..|ops| - 1])
  {
  }

  /** Over every run that is in step the two caches hold the same keys in the same order
      of recency. */
  lemma {:induction false} Simulation<K(!new), V>(n: nat, ops: seq<Op<K, V>>, states: seq<SlowCache.State<K, V>>)
    requires SlowCache.IsRun(n, ops, states) && InStep(n, ops)
    ensures Agree(FastCache.Run(n, ops), states[|ops|]) && Tracked(n, ops, states[|ops|])
  {
    hide Agree, SlowCache.Apply, FastCache.Apply, ByRecency, Take, Stamps, KeepsUp;
    if ops == [] {
      EmptyAgrees<K, V>(0);
      assert Stamps(n, ops) == 0 by { NoStamps<K, V>(n); }
    } else {
      var m := |ops| - 1;
      InStepPrefix(n, ops, m);
      Simulation(n, ops[..m], states[..m + 1]);
      StepInStep(n, ops, states[m], states[m + 1]);
    }
  }

  lemma NoStamps<K, V>(n: nat)
    ensures Stamps<K, V>(n, []) == 0
  {
  }

  /** The exact condition: the caches are in the same order all along a run if and only if
      the run is in step. */
  lemma {:induction false} RunAgreesIff<K(!new), V>(n: nat, ops: seq<Op<K, V>>, states: seq<SlowCache.State<K, V>>)
    requires SlowCache.IsRun(n, ops, states)
    ensures (forall i :: 0 <= i <= |ops| ==> SameOrder(FastCache.Run(n, ops[..i]), states[i])) <==> InStep(n, ops)
  {
    hide SameOrder, Agree, SlowCache.Apply, FastCache.Run, KeepsUp, Tracked;
    if InStep(n, ops) {
      forall i | 0 <= i <= |ops| ensures SameOrder(FastCache.Run(n, ops[..i]), states[i]) {
        InStepPrefix(n, ops, i);
        Simulation(n, ops[..i], states[..i + 1]);
        AgreeIsSameOrder(FastCache.Run(n, ops[..i]), states[i]);
      }
    } else {
      var i := FirstOutOfStep(n, ops);
      Simulation(n, ops[..i], states[..i + 1]);
      assert ops[..i + 1][..i] == ops[..i];
      KeepsUpInPrefix(n, ops, i + 1, i);
      StepInStep(n, ops[..i + 1], states[i], states[i + 1]);
    }
  }

  lemma {:induction false} FirstOutOfStep<K(!new), V>(n: nat, ops: seq<Op<K, V>>) returns (i: nat)
    requires !InStep(n, ops)
    ensures i < |ops| && InStep(n, ops[..i]) && !KeepsUp(n, ops, i)
    decreases |ops|
  {
    hide KeepsUp;
    var m := |ops| - 1;
    if InStep(n, ops[..m]) {
      forall i | 0 <= i < m ensures KeepsUp(n, ops, i) { KeepsUpInPrefix(n, ops, m, i); }
      i := m;
    } else {
      i := FirstOutOfStep(n, ops[..m]);
      assert ops[..m][..i] == ops[..i];
      KeepsUpInPrefix(n, ops, m, i);
    }
  }

  /** A run that does not use the generations up, however long, is in step. */
  lemma FewStampsInStep<K(!new), V>(n: nat, ops: seq<Op<K, V>>)
    requires Stamps(n, ops) < SlowCache.GENERATIONS
    ensures InStep(n, ops)
  {
    hide Stamps, Take, ByRecency, StampOf;
    forall i | 0 <= i < |ops| ensures KeepsUp(n, ops, i) {
      StampsOfPrefix(n, ops, i + 1);
      assert ops[..i + 1][..i] == ops[..i];
      StampsOfPrefix(n, ops[..i + 1], i);
    }
  }

  /** The counter wraps nowhere in a run if and only if the run does not use the
      generations up. */
  lemma {:induction false} NoWrapIff<K(!new), V>(n: nat, ops: seq<Op<K, V>>, states: seq<SlowCache.State<K, V>>)
    requires SlowCache.IsRun(n, ops, states)
    ensures (forall i :: 0 <= i < |ops| ==> states[i].generation <= states[i + 1].generation)
       <==> Stamps(n, ops) < SlowCache.GENERATIONS
    decreases |ops|
  {
    hide Stamps, SlowCache.Apply;
    if ops == [] {
      NoStamps<K, V>(n);
    } else {
      var m := |ops| - 1;
      var prefix := states[..m + 1];
      StampsOfPrefix(n, ops, m);
      NoWrapIff(n, ops[..m], prefix);
      assert SlowCache.IsRun(n, ops[..m], prefix);
      if Stamps(n, ops[..m]) < SlowCache.GENERATIONS {
        NextWrapIff(n, ops, prefix, states[m + 1]);
        forall i | 0 <= i < m ensures states[i].generation <= states[i + 1].generation {
          assert prefix[i].generation <= prefix[i + 1].generation;
        }
      } else {
        var i :| 0 <= i < m && prefix[i].generation > prefix[i + 1].generation;
        assert states[i].generation > states[i + 1].generation;
      }
    }
  }

  lemma NextWrapIff<K(!new), V>(n: nat, ops: seq<Op<K, V>>, states: seq<SlowCache.State<K, V>>,
                                s': SlowCache.State<K, V>)
    requires ops != []
    requires var m := |ops| - 1;
      && SlowCache.IsRun(n, ops[..m], states) && SlowCache.Apply(n, states[m], ops[m], s')
      && Stamps(n, ops[..m]) < SlowCache.GENERATIONS
    ensures states[|ops| - 1].generation <= s'.generation <==> Stamps(n, ops) < SlowCache.GENERATIONS
  {
    hide Agree, SlowCache.Apply, FastCache.Run, ByRecency, Take, Cost, InStep;
    var m := |ops| - 1;
    var f := FastCache.Run(n, ops[..m]);
    FewStampsInStep(n, ops[..m]);
    Simulation(n, ops[..m], states);
    FastCache.RunKeepsForm(n, ops[..m]);
    FastCache.RunList(n, ops[..m]);
    if states[m].generation <= s'.generation {
      StepAgrees(n, f, states[m], ops[m], s');
    }
    if Stamps(n, ops) < SlowCache.GENERATIONS {
      StepDoesNotWrap(n, f, states[m], ops[m], s');
    }
  }

  /** The keys that leave in an insertion of `k`, `k` itself among them if it does not stay. */
  ghost function Evicted<K, V>(before: map<K, V>, k: K, after: map<K, V>): set<K> {
    before.Keys + {k} - after.Keys
  }

  /** At every step of a run both caches hold the same keys and evict the same ones. */
  lemma SameEvictions<K(!new), V>(n: nat, ops: seq<Op<K, V>>, states: seq<SlowCache.State<K, V>>, i: nat)
    requires SlowCache.IsRun(n, ops, states) && InStep(n, ops)
    requires i < |ops| && ops[i].Insert?
    ensures var f, f' := FastCache.Run(n, ops[..i]), FastCache.Run(n, ops[..i + 1]);
      && f.data.Keys == states[i].cache.Keys && f'.data.Keys == states[i + 1].cache.Keys
      && Evicted(f.data, ops[i].key, f'.data) == Evicted(states[i].cache, ops[i].key, states[i + 1].cache)
  {
    hide Agree;
    SameKeysAt(n, ops, states, i);
    SameKeysAt(n, ops, states, i + 1);
  }

  lemma SameKeysAt<K(!new), V>(n: nat, ops: seq<Op<K, V>>, states: seq<SlowCache.State<K, V>>, i: nat)
    requires SlowCache.IsRun(n, ops, states) && InStep(n, ops) && i <= |ops|
    ensures FastCache.Run(n, ops[..i]).data.Keys == states[i].cache.Keys
  {
    hide Agree;
    InStepPrefix(n, ops, i);
    Simulation(n, ops[..i], states[..i + 1]);
    FastCache.RunKeepsForm(n, ops[..i]);
    SameCount(n, FastCache.Run(n, ops[..i]), states[i]);
  }

  /** The insertion that brought a resident key in: the first one after which it has
      been among the last n distinct keys without a break. */
  ghost function Entry<K, V>(n: nat, ops: seq<Op<K, V>>, k: K): (i: int)
    ensures -1 <= i < |ops|
  {
    if ops == [] then -1
    else
      var m := |ops| - 1;
      if ops[m].Insert? && k in Take(ByRecency(ops[..m]), n) then Entry(n, ops[..m], k) else m
  }

  /** After every run both caches find exactly the last n distinct keys; the fast one
      returns the data inserted last, the slow one the data that brought the key in. */
  lemma {:induction false} FindAfterRun<K(!new), V>(n: nat, ops: seq<Op<K, V>>,
                                                   states: seq<SlowCache.State<K, V>>, k: K)
    requires SlowCache.IsRun(n, ops, states) && InStep(n, ops)
    ensures k in FastCache.Run(n, ops).data <==> k in Take(ByRecency(ops), n)
    ensures k in states[|ops|].cache <==> k in Take(ByRecency(ops), n)
    ensures k in states[|ops|].cache ==>
      var i, j := LastInsertion(ops, k), Entry(n, ops, k);
      && i >= 0 && FastCache.Run(n, ops).data[k] == ops[i].data
      && j >= 0 && ops[j].Insert? && ops[j].key == k
      && states[|ops|].cache[k].data == ops[j].data
  {
    Simulation(n, ops, states);
    FastCache.RunKeepsForm(n, ops);
    FastCache.RunList(n, ops);
    if k in states[|ops|].cache {
      FastCache.RunData(n, ops, k);
      SlowData(n, ops, states, k);
    }
  }

  lemma SameKeys<K(!new), V>(f: FastCache.State<K, V>, s: SlowCache.State<K, V>, k: K)
    requires Agree(f, s)
    ensures k in f.list <==> k in s.cache
  {
  }

  /** A record keeps its data for as long as its key stays. */
  lemma DataAfterStep<K(!new), V>(n: nat, s: SlowCache.State<K, V>, op: Op<K, V>,
                                  s': SlowCache.State<K, V>, k: K)
    requires SlowCache.Apply(n, s, op, s') && k in s'.cache
    ensures op.Insert?
    ensures k in s.cache ==> s'.cache[k].data == s.cache[k].data
    ensures k !in s.cache ==> op.key == k && s'.cache[k].data == op.data
  {
    hide SlowCache.Next, SlowCache.IsOldest;
  }

  lemma {:induction false} SlowData<K(!new), V>(n: nat, ops: seq<Op<K, V>>,
                                               states: seq<SlowCache.State<K, V>>, k: K)
    requires SlowCache.IsRun(n, ops, states) && InStep(n, ops)
    requires k in states[|ops|].cache
    ensures var j := Entry(n, ops, k);
      && j >= 0 && ops[j].Insert? && ops[j].key == k
      && states[|ops|].cache[k].data == ops[j].data
  {
    hide Take, ByRecency, Agree, SlowCache.Apply, FastCache.Run, InStep;
    var m := |ops| - 1;
    assert SlowCache.IsRun(n, ops[..m], states[..m + 1]);
    InStepPrefix(n, ops, m);
    Simulation(n, ops[..m], states[..m + 1]);
    SameKeys(FastCache.Run(n, ops[..m]), states[m], k);
    FastCache.RunList(n, ops[..m]);
    DataAfterStep(n, states[m], ops[m], states[m + 1], k);
    if k in states[m].cache {
      SlowData(n, ops[..m], states[..m + 1], k);
    }
  }

  // ---------- Before the first wrap ----------

  ghost predicate Positive<K, V>(s: SlowCache.State<K, V>) {
    forall k :: k in s.cache ==> s.cache[k].gen > 0
  }

  /** No key but `k` is resident. */
  ghost predicate Alone<K>(list: seq<K>, k: K) {
    forall i :: 0 <= i < |list| ==> list[i] == k
  }

  /** As long as no stamp is zero, an insertion keeps the caches in the same order if and
      only if the counter does not wrap in it or no other key is resident. */
  lemma FirstWrapAgreesIff<K(!new), V>(n: nat, f: FastCache.State<K, V>, s: SlowCache.State<K, V>, k: K, d: V,
                                       s': SlowCache.State<K, V>)
    requires FastCache.WellFormed(n, f) && Agree(f, s) && Positive(s) && s.generation < SlowCache.GENERATIONS
    requires SlowCache.InsertKey(n, s, k, d, s')
    ensures SameOrder(FastCache.InsertKey(n, f, k, d), s')
       <==> s.generation <= s'.generation || Alone(f.list, k)
  {
    hide Agree, SameOrder, FastCache.InsertKey, SlowCache.InsertKey, FastCache.WellFormed;
    InsertAgreesIff(n, f, s, k, d, s');
    if s'.generation < s.generation && !Alone(f.list, k) {
      var i :| 0 <= i < |f.list| && f.list[i] != k;
      assert s'.generation <= 1;
    }
  }

  /** Once a stamp is zero this is no longer exact: a refresh from the last generation
      wraps to one, which is above zero. */
  lemma WrapIsSurvived<K(!new), V>(n: nat, f: FastCache.State<K, V>, s: SlowCache.State<K, V>, k: K, a: K, d: V,
                                   s': SlowCache.State<K, V>)
    requires FastCache.WellFormed(n, f) && Agree(f, s) && f.list == [k, a] && n > 0
    requires a in s.cache && s.cache[a].gen == 0 && s.generation == SlowCache.GENERATIONS - 1
    requires SlowCache.InsertKey(n, s, k, d, s')
    ensures s'.generation < s.generation && !Alone(f.list, k)
    ensures SameOrder(FastCache.InsertKey(n, f, k, d), s')
  {
    hide Agree, SameOrder, FastCache.InsertKey, SlowCache.InsertKey, FastCache.WellFormed;
    InsertAgreesIff(n, f, s, k, d, s');
    assert Distinct(f.list) by { FastCache.FormIsDistinct(n, f); }
    assert f.list[0] == k && f.list[1] == a;
    assert s'.generation == 1;
  }

  /** In particular, a new key leaves full caches with the same keys if and only if the
      counter does not wrap. */
  lemma FullInsertAgreesIff<K(!new), V>(n: nat, f: FastCache.State<K, V>, s: SlowCache.State<K, V>, k: K, d: V,
                                  s': SlowCache.State<K, V>)
    requires FastCache.WellFormed(n, f) && Agree(f, s) && Positive(s) && |f.list| == n > 0
    requires s.generation < SlowCache.GENERATIONS && k !in s.cache
    requires SlowCache.InsertKey(n, s, k, d, s')
    ensures FastCache.InsertKey(n, f, k, d).data.Keys == s'.cache.Keys
       <==> s.generation + 1 < SlowCache.GENERATIONS
  {
    hide Without, Agree, SlowCache.Next, SlowCache.InsertKey, SameOrder;
    SameCount(n, f, s);
    var fast := FastCache.InsertKey(n, f, k, d);
    FastCache.InsertKeepsForm(n, f, k, d);
    if s.generation + 1 < SlowCache.GENERATIONS {
      NewKeyAgrees(n, f, s, k, d, s');
      SameCount(n, fast, s');
    } else {
      NewKeyLeaves(n, s, k, d, s');
      assert fast.list[0] == k;
      assert k in fast.data.Keys;
    }
  }

  lemma NewKeyLeaves<K(!new), V>(n: nat, s: SlowCache.State<K, V>, k: K, d: V, s': SlowCache.State<K, V>)
    requires Positive(s) && |s.cache| == n > 0 && k !in s.cache && s.generation + 1 == SlowCache.GENERATIONS
    requires SlowCache.InsertKey(n, s, k, d, s')
    ensures k !in s'.cache
  {
    hide SlowCache.IsOldest, SlowCache.InsertKey, SlowCache.Next;
    SlowCache.NextGeneration(s.generation);
    var cache := s.cache[k := SlowCache.Stamped(d, 0)];
    var x := SlowCache.FullInsertEvicts(n, s, k, d, s');
    ZeroIsOldest(cache, k, x);
  }

  /** A refresh that wraps to zero leaves the keys alone, but makes the refreshed key the
      next to go: after one more new key the two caches hold different keys. */
  lemma RefreshWrapParts<K(!new), V>(n: nat, f: FastCache.State<K, V>, s: SlowCache.State<K, V>, k: K, d: V,
                                     s1: SlowCache.State<K, V>, k2: K, d2: V, s2: SlowCache.State<K, V>)
    requires FastCache.WellFormed(n, f) && Agree(f, s) && Positive(s) && |f.list| == n > 1
    requires s.generation + 2 == SlowCache.GENERATIONS && k in s.cache && k2 !in s.cache
    requires SlowCache.InsertKey(n, s, k, d, s1) && SlowCache.InsertKey(n, s1, k2, d2, s2)
    ensures var fast := FastCache.InsertKey(n, FastCache.InsertKey(n, f, k, d), k2, d2);
      k in fast.list && k !in s2.cache
  {
    hide FastCache.InsertKey, SlowCache.InsertKey, Agree, Positive;
    SameCount(n, f, s);
    FastCache.InsertKeepsForm(n, f, k, d);
    FastRefresh(n, f, k, d);
    FastEvicts(n, FastCache.InsertKey(n, f, k, d), k2, d2);
    SlowRefresh(n, f, s, k, d, s1);
    SlowEvicts(n, s1, k, k2, d2, s2);
  }

  lemma SlowRefresh<K(!new), V>(n: nat, f: FastCache.State<K, V>, s: SlowCache.State<K, V>, k: K, d: V,
                                s1: SlowCache.State<K, V>)
    requires Agree(f, s) && Positive(s) && k in s.cache && n > 0 && SlowCache.InsertKey(n, s, k, d, s1)
    requires s.generation + 2 == SlowCache.GENERATIONS
    ensures s1.generation == 0 && s1.cache.Keys == s.cache.Keys && |s1.cache| == |s.cache|
    ensures forall x :: x in s1.cache ==> (s1.cache[x].gen == 0 <==> x == k)
  {
    hide SlowCache.Next;
    SlowCache.NextGeneration(s.generation);
    SlowCache.NextGeneration(s.generation + 1);
    assert s1.cache.Keys == s.cache.Keys;
  }

  lemma SlowEvicts<K(!new), V>(n: nat, s: SlowCache.State<K, V>, k: K, k2: K, d: V, s': SlowCache.State<K, V>)
    requires k in s.cache && k2 !in s.cache && |s.cache| == n > 0 && s.generation == 0
    requires forall x :: x in s.cache ==> (s.cache[x].gen == 0 <==> x == k)
    requires SlowCache.InsertKey(n, s, k2, d, s')
    ensures k !in s'.cache
  {
    hide SlowCache.IsOldest, SlowCache.InsertKey, SlowCache.Next;
    SlowCache.NextGeneration(0);
    var cache := s.cache[k2 := SlowCache.Stamped(d, 1)];
    var x := SlowCache.FullInsertEvicts(n, s, k2, d, s');
    ZeroIsOldest(cache, k, x);
  }

  lemma ZeroIsOldest<K(!new), V>(cache: map<K, SlowCache.Stamped<V>>, k: K, x: K)
    requires k in cache && cache[k].gen == 0 && SlowCache.IsOldest(cache, x)
    ensures cache[x].gen == 0
  {
    assert cache[x].gen <= cache[k].gen;
  }

  lemma FastRefresh<K(!new), V>(n: nat, f: FastCache.State<K, V>, k: K, d: V)
    requires FastCache.WellFormed(n, f) && k in f.data && n > 0
    ensures var f1 := FastCache.InsertKey(n, f, k, d);
      |f1.list| == |f.list| && f1.data.Keys == f.data.Keys && f1.list[0] == k
  {
    FastCache.InsertKeepsForm(n, f, k, d);
    assert f.data[k := d].Keys == f.data.Keys;
  }

  lemma FastEvicts<K(!new), V>(n: nat, f: FastCache.State<K, V>, k: K, d: V)
    requires FastCache.WellFormed(n, f) && k !in f.data && |f.list| == n > 1
    ensures f.list[0] in FastCache.InsertKey(n, f, k, d).list
  {
    assert f.data[k := d].Keys == f.data.Keys + {k};
    var list := [k] + f.list;
    assert FastCache.InsertKey(n, f, k, d).list == list[..n];
    assert list[..n][1] == f.list[0];
  }
}
