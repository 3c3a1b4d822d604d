/** Runs from construction that wrap the generation counter: one that parts the caches, and
    one that does not although another key is resident. */
module CacheWraps {
  import opened CacheHistory
  import FastCache
  import SlowCache
  import opened CacheSimulation

  // ---------- The wrap is reached ----------

  /** The same insertion, m times. */
  ghost function Again<K, V>(op: Op<K, V>, m: nat): (ops: seq<Op<K, V>>)
    ensures |ops| == m
  {
    if m == 0 then [] else Again(op, m - 1) + [op]
  }

  /** Inserting one key m times uses up 2m-1 generations. */
  lemma {:induction false} AgainStamps<K(!new), V>(n: nat, op: Op<K, V>, m: nat)
    requires op.Insert? && n > 0 && m > 0
    ensures ByRecency(Again(op, m)) == [op.key] && Stamps(n, Again(op, m)) == 2 * m - 1
  {
    hide Take, Without;
    var ops := Again(op, m);
    var before := Again(op, m - 1);
    assert ops[..m - 1] == before && ops[m - 1] == op;
    OneKey(op.key, n);
    if m > 1 { AgainStamps(n, op, m - 1); }
    assert ByRecency(ops) == [op.key] + Without(ByRecency(before), op.key);
    assert Stamps(n, ops) == Stamps(n, before) + Cost(n, Take(ByRecency(before), n), op);
  }

  /** For every capacity there is a run that wraps the counter, and after it the caches
      are not in the same order. */
  lemma WrapIsReached<K(!new), V>(n: nat, k: K, k2: K, d: V)
    returns (ops: seq<Op<K, V>>, states: seq<SlowCache.State<K, V>>)
    requires n > 0 && k != k2
    ensures SlowCache.IsRun(n, ops, states) && |ops| > 0
    ensures states[|ops| - 1].generation > states[|ops|].generation
    ensures !SameOrder(FastCache.Run(n, ops), states[|ops|])
  {
    hide Agree, SameOrder, SlowCache.Apply, FastCache.Apply, Again;
    var m := SlowCache.GENERATIONS / 2;
    var again := Again(Insert(k, d), m);
    ops := again + [Insert(k2, d)];
    states := SlowCache.RunExists(n, ops);
    assert ops[..m] == again;
    assert SlowCache.IsRun(n, again, states[..m + 1]);
    AfterAgain(n, Insert(k, d), m, states[..m + 1]);
    assert SlowCache.Apply(n, states[m], ops[m], states[m + 1]);
    LastStamp(n, FastCache.Run(n, again), states[m], k, Insert(k2, d), states[m + 1]);
  }

  /** The caches after the m insertions. */
  lemma AfterAgain<K(!new), V>(n: nat, op: Op<K, V>, m: nat, states: seq<SlowCache.State<K, V>>)
    requires op.Insert? && n > 0 && 0 < m && 2 * m <= SlowCache.GENERATIONS
    requires SlowCache.IsRun(n, Again(op, m), states)
    ensures var f := FastCache.Run(n, Again(op, m));
      && FastCache.WellFormed(n, f) && f.list == [op.key]
      && Agree(f, states[m]) && states[m].generation == 2 * m - 1
  {
    hide Agree, SlowCache.Apply, FastCache.Apply, Again, Stamps, ByRecency, Take, FastCache.WellFormed;
    AgainStamps(n, op, m);
    FewStampsInStep(n, Again(op, m));
    Simulation(n, Again(op, m), states);
    FastCache.RunKeepsForm(n, Again(op, m));
    FastCache.RunList(n, Again(op, m));
    OneKey(op.key, n);
  }

  /** The last generation goes to another key. */
  lemma LastStamp<K(!new), V>(n: nat, f: FastCache.State<K, V>, s: SlowCache.State<K, V>, k: K,
                              op: Op<K, V>, s': SlowCache.State<K, V>)
    requires FastCache.WellFormed(n, f) && Agree(f, s) && n > 0 && f.list == [k]
    requires s.generation == SlowCache.GENERATIONS - 1
    requires op.Insert? && op.key != k && SlowCache.Apply(n, s, op, s')
    ensures s'.generation < s.generation && !SameOrder(FastCache.Apply(n, f, op), s')
  {
    hide Agree, SameOrder, FastCache.WellFormed, FastCache.InsertKey, SlowCache.InsertKey;
    InsertAgreesIff(n, f, s, op.key, op.data, s');
    assert f.list[0] != op.key;
    NoneBehindZero(f, s, op.key);
  }

  lemma OneKey<K(!new)>(k: K, n: nat)
    requires n > 0
    ensures Take([k], n) == [k] && Take<K>([], n) == []
    ensures Without([k], k) == [] && Without([], k) == []
  {
    assert [k][1..] == [];
  }

  // ---------- A wrap that is survived ----------

  /** What one more operation adds. */
  lemma OneMore<K(!new), V>(n: nat, ops: seq<Op<K, V>>, op: Op<K, V>)
    ensures var next := ops + [op];
      && next[..|ops|] == ops
      && Stamps(n, next) == Stamps(n, ops) + Cost(n, Take(ByRecency(ops), n), op)
      && ByRecency(next) == if op.Clear? then [] else [op.key] + Without(ByRecency(ops), op.key)
  {
    assert (ops + [op])[..|ops|] == ops;
  }

  /** One more operation in step: the counter does not wrap in it, or the other keys are
      stamped lower. */
  lemma OneMoreInStep<K(!new), V>(n: nat, ops: seq<Op<K, V>>, op: Op<K, V>)
    requires InStep(n, ops)
    requires var g := Wrapped(Stamps(n, ops + [op]));
      || Wrapped(Stamps(n, ops)) <= g
      || forall x :: x in Take(ByRecency(ops), n) && op.Insert? && x != op.key ==> StampOf(n, ops, x) < g
    ensures InStep(n, ops + [op])
  {
    hide Stamps, Take, ByRecency, StampOf, Wrapped;
    var next, m := ops + [op], |ops|;
    assert next[..m] == ops && next[..m + 1] == next;
    assert KeepsUp(n, next, m);
    forall i | 0 <= i < |next| ensures KeepsUp(n, next, i) {
      if i < m { KeepsUpInPrefix(n, next, m, i); }
    }
  }

  lemma TwoKeys<K(!new)>(k: K, a: K, n: nat)
    requires n > 1 && a != k
    ensures Take([k, a], n) == [k, a] && Without([k, a], k) == [a] && Without([a], k) == [a]
  {
    hide Without;
    WithoutFirst(k, [a], k);
    WithoutFirst(a, [], k);
    OneKey(k, n);
    assert [k] + [a] == [k, a] && [a] + [] == [a];
  }

  /** One key goes in and is cleared out; then `a` goes in m times. */
  ghost function FirstKey<K, V>(a: K, b: K, d: V, m: nat): (ops: seq<Op<K, V>>)
    ensures |ops| == m + 2
  {
    if m == 0 then [Insert(b, d), Clear] else FirstKey(a, b, d, m - 1) + [Insert(a, d)]
  }

  /** After the 2^63rd time `k` goes in j times. */
  ghost function SecondKey<K, V>(a: K, b: K, k: K, d: V, j: nat): (ops: seq<Op<K, V>>)
    ensures |ops| == j + SlowCache.GENERATIONS / 2 + 2
  {
    if j == 0 then FirstKey(a, b, d, SlowCache.GENERATIONS / 2)
    else SecondKey(a, b, k, d, j - 1) + [Insert(k, d)]
  }

  lemma NoOps<K, V>()
    ensures ByRecency<K, V>([]) == []
  {
  }

  lemma Cleared<K(!new), V>(n: nat, b: K, d: V)
    requires n > 0
    ensures var ops := [Insert(b, d), Clear];
      InStep(n, ops) && ByRecency(ops) == [] && Stamps(n, ops) == 1
  {
    hide InStep, Stamps, ByRecency, Take, Without;
    NoStamps<K, V>(n);
    NoOps<K, V>();
    OneKey(b, n);
    var none: seq<Op<K, V>> := [];
    var one: seq<Op<K, V>> := [Insert(b, d)];
    var ops: seq<Op<K, V>> := [Insert(b, d), Clear];
    OneMore(n, none, Insert(b, d));
    assert none + [Insert(b, d)] == one;
    OneMore(n, one, Clear);
    assert one + [Clear] == ops;
    FewStampsInStep(n, ops);
  }

  /** The stamps of `a` are 2, 4, ..., 2m; it is alone, so it may wrap. */
  lemma {:induction false} FirstKeyInStep<K(!new), V>(n: nat, a: K, b: K, d: V, m: nat)
    requires n > 0
    ensures var ops := FirstKey(a, b, d, m);
      && InStep(n, ops) && ByRecency(ops) == (if m == 0 then [] else [a])
      && Stamps(n, ops) == (if m == 0 then 1 else 2 * m)
      && (m > 0 ==> StampOf(n, ops, a) == Wrapped(2 * m))
  {
    hide InStep, Stamps, ByRecency, Take, Without, Wrapped, StampOf;
    Cleared(n, b, d);
    if m > 0 {
      var before := FirstKey(a, b, d, m - 1);
      FirstKeyInStep(n, a, b, d, m - 1);
      OneKey(a, n);
      OneMore(n, before, Insert(a, d));
      OneMoreInStep(n, before, Insert(a, d));
      StampOfStep(n, before + [Insert(a, d)], a);
    }
  }

  /** The stamps of `k` are 1, 3, ..., 2j-1, and that of `a` stays zero. */
  lemma {:induction false} SecondKeyInStep<K(!new), V>(n: nat, a: K, b: K, k: K, d: V, j: nat)
    requires n > 1 && a != k && j <= SlowCache.GENERATIONS / 2
    ensures var ops := SecondKey(a, b, k, d, j);
      && InStep(n, ops) && ByRecency(ops) == (if j == 0 then [a] else [k, a])
      && Stamps(n, ops) == SlowCache.GENERATIONS + (if j == 0 then 0 else 2 * j - 1)
      && StampOf(n, ops, a) == 0
  {
    hide InStep, Stamps, ByRecency, Take, Without, Wrapped, StampOf, FirstKey;
    var g := SlowCache.GENERATIONS;
    WrappedOnce(0);
    if j == 0 {
      FirstKeyInStep(n, a, b, d, g / 2);
    } else {
      var before := SecondKey(a, b, k, d, j - 1);
      SecondKeyInStep(n, a, b, k, d, j - 1);
      OneKey(a, n);
      TwoKeys(k, a, n);
      OneMore(n, before, Insert(k, d));
      WrappedOnce(2 * j - 1);
      if j > 1 { WrappedOnce(2 * j - 3); }
      OneMoreInStep(n, before, Insert(k, d));
      StampOfStep(n, before + [Insert(k, d)], a);
    }
  }

  lemma WrappedOnce(c: nat)
    requires c < SlowCache.GENERATIONS
    ensures Wrapped(SlowCache.GENERATIONS + c) == c
  {
  }

  lemma WrappedTwice()
    ensures Wrapped(2 * SlowCache.GENERATIONS + 1) == 1
  {
  }

  /** In the run that inserts `b`, clears, inserts `a` 2^63 times, `k` 2^63 times and `k`
      once more, the last insertion wraps the counter to one while `a` is resident with the
      stamp zero.  The run is in step all the same, so the caches stay in the same order. */
  lemma SurvivedWrapIsReached<K(!new), V>(n: nat, a: K, b: K, k: K, d: V)
    returns (ops: seq<Op<K, V>>, states: seq<SlowCache.State<K, V>>)
    requires n > 1 && a != k
    ensures ops == SecondKey(a, b, k, d, SlowCache.GENERATIONS / 2) + [Insert(k, d)]
    ensures SlowCache.IsRun(n, ops, states) && InStep(n, ops)
    ensures var m := |ops| - 1;
      && states[m].generation == SlowCache.GENERATIONS - 1 && states[m + 1].generation == 1
      && a in states[m].cache && states[m].cache[a].gen == 0
    ensures forall i :: 0 <= i <= |ops| ==> SameOrder(FastCache.Run(n, ops[..i]), states[i])
  {
    hide InStep, Stamps, ByRecency, Take, Without, Wrapped, StampOf, Agree, SameOrder, SlowCache.Apply, FastCache.Run;
    var before := SecondKey(a, b, k, d, SlowCache.GENERATIONS / 2);
    ops := before + [Insert(k, d)];
    SurvivedInStep(n, a, b, k, d);
    states := SlowCache.RunExists(n, ops);
    var m := |before|;
    assert ops[..m] == before;
    assert SlowCache.IsRun(n, before, states[..m + 1]);
    Simulation(n, before, states[..m + 1]);
    Simulation(n, ops, states);
    FastCache.RunList(n, before);
    TwoKeys(k, a, n);
    SameKeys(FastCache.Run(n, before), states[m], a);
    assert [k, a][1] == a;
    RunAgreesIff(n, ops, states);
  }

  lemma SurvivedInStep<K(!new), V>(n: nat, a: K, b: K, k: K, d: V)
    requires n > 1 && a != k
    ensures var before := SecondKey(a, b, k, d, SlowCache.GENERATIONS / 2);
      var ops := before + [Insert(k, d)];
      && InStep(n, before) && InStep(n, ops) && ByRecency(before) == [k, a] && StampOf(n, before, a) == 0
      && Wrapped(Stamps(n, before)) == SlowCache.GENERATIONS - 1 && Wrapped(Stamps(n, ops)) == 1
  {
    hide InStep, Stamps, ByRecency, Take, Without, Wrapped, StampOf, SecondKey;
    var before := SecondKey(a, b, k, d, SlowCache.GENERATIONS / 2);
    SecondKeyInStep(n, a, b, k, d, SlowCache.GENERATIONS / 2);
    TwoKeys(k, a, n);
    OneMore(n, before, Insert(k, d));
    WrappedOnce(SlowCache.GENERATIONS - 1);
    WrappedTwice();
    OneMoreInStep(n, before, Insert(k, d));
  }
}
