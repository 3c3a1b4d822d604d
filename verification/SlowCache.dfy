/** The cache that stamps its records with generations and scans for the oldest. */
module SlowCache {
  import opened CacheHistory
  import opened Options

  /** Generations are 64-bit. */
  const GENERATIONS: nat := 0x1_0000_0000_0000_0000

  datatype Stamped<V> = Stamped(data: V, gen: nat)

  datatype State<K, V> = State(cache: map<K, Stamped<V>>, generation: nat)

  function Next(g: nat): nat {
    (g + 1) % GENERATIONS
  }

  lemma NextGeneration(g: nat)
    requires g < GENERATIONS
    ensures Next(g) == if g + 1 < GENERATIONS then g + 1 else 0
  {
  }

  ghost predicate IsOldest<K, V>(cache: map<K, Stamped<V>>, x: K) {
    x in cache && forall y :: y in cache ==> cache[x].gen <= cache[y].gen
  }

  /** One insertion.  With equal stamps the order of an unordered map decides which
      oldest record leaves, so this is a relation. */
  ghost predicate InsertKey<K, V>(n: nat, s: State<K, V>, k: K, d: V, s': State<K, V>) {
    if n == 0 then s' == s
    else
      var g := Next(s.generation);
      if k in s.cache then
        s' == State(s.cache[k := Stamped(s.cache[k].data, Next(g))], Next(g))
      else
        var cache := s.cache[k := Stamped(d, g)];
        && s'.generation == g
        && if |cache| > n then
             exists x :: x in cache && IsOldest(cache, x) && s'.cache == cache - {x}
           else s'.cache == cache
  }

  ghost predicate Apply<K, V>(n: nat, s: State<K, V>, op: Op<K, V>, s': State<K, V>) {
    match op
    case Insert(k, d) => InsertKey(n, s, k, d, s')
    case Clear => s' == State(map[], s.generation)
  }

  /** The states a run goes through, from construction on. */
  ghost predicate IsRun<K, V>(n: nat, ops: seq<Op<K, V>>, states: seq<State<K, V>>) {
    && |states| == |ops| + 1
    && states[0] == State(map[], 0)
    && forall i :: 0 <= i < |ops| ==> Apply(n, states[i], ops[i], states[i + 1])
  }

  lemma OneMore<K(!new), V>(cache: map<K, Stamped<V>>, k: K, r: Stamped<V>)
    requires k !in cache
    ensures |cache[k := r]| == |cache| + 1
  {
    assert cache[k := r].Keys == cache.Keys + {k};
  }

  /** A new key throws an oldest record out of a full cache. */
  lemma FullInsertEvicts<K(!new), V>(n: nat, s: State<K, V>, k: K, d: V, s': State<K, V>) returns (x: K)
    requires k !in s.cache && |s.cache| == n > 0 && InsertKey(n, s, k, d, s')
    ensures var cache := s.cache[k := Stamped(d, Next(s.generation))];
      x in cache && IsOldest(cache, x) && s'.cache == cache - {x}
  {
    hide Next, IsOldest;
    var cache := s.cache[k := Stamped(d, Next(s.generation))];
    OneMore(s.cache, k, Stamped(d, Next(s.generation)));
    x :| x in cache && IsOldest(cache, x) && s'.cache == cache - {x};
  }

  lemma {:induction false} OldestExists<K(!new), V>(cache: map<K, Stamped<V>>, keys: set<K>) returns (x: K)
    requires keys != {} && forall y :: y in keys ==> y in cache
    ensures x in keys && forall y :: y in keys ==> cache[x].gen <= cache[y].gen
    decreases |keys|
  {
    var z :| z in keys;
    var rest := keys - {z};
    x := z;
    if rest != {} {
      var y := OldestExists(cache, rest);
      if cache[y].gen < cache[z].gen { x := y; }
    }
    assert keys == rest + {z};
  }

  lemma StepExists<K(!new), V>(n: nat, s: State<K, V>, op: Op<K, V>) returns (s': State<K, V>)
    ensures Apply(n, s, op, s')
  {
    if op.Clear? {
      s' := State(map[], s.generation);
    } else if n == 0 {
      s' := s;
    } else {
      var k, g := op.key, Next(s.generation);
      if k in s.cache {
        s' := State(s.cache[k := Stamped(s.cache[k].data, Next(g))], Next(g));
      } else {
        var cache := s.cache[k := Stamped(op.data, g)];
        s' := State(cache, g);
        if |cache| > n {
          assert k in cache.Keys;
          var x := OldestExists(cache, cache.Keys);
          assert x in cache && IsOldest(cache, x);
          s' := State(cache - {x}, g);
        }
      }
    }
  }

  /** Every sequence of operations has a run. */
  lemma {:induction false} RunExists<K(!new), V>(n: nat, ops: seq<Op<K, V>>) returns (states: seq<State<K, V>>)
    ensures IsRun(n, ops, states)
  {
    hide Apply;
    if ops == [] {
      states := [State(map[], 0)];
    } else {
      var m := |ops| - 1;
      var before := RunExists(n, ops[..m]);
      var s' := StepExists(n, before[m], ops[m]);
      states := before + [s'];
      forall i | 0 <= i < |ops| ensures Apply(n, states[i], ops[i], states[i + 1]) {
        if i < m { assert Apply(n, before[i], ops[..m][i], before[i + 1]); }
      }
    }
  }

  // ---------- The program ----------

  class LastUsedCache<K(==,!new), V> {
    var cache: map<K, Stamped<V>>
    const maxSize: nat
    var generation: nat

    ghost predicate Valid()
      reads this
    {
      generation < GENERATIONS && forall k :: k in cache ==> cache[k].gen < GENERATIONS
    }

    ghost function Abs(): State<K, V>
      reads this
    {
      State(cache, generation)
    }

    constructor (n: nat)
      ensures Valid() && maxSize == n && Abs() == State(map[], 0)
    {
      maxSize := n;
      cache, generation := map[], 0;
    }

    function Find(key: K): (r: Option<V>)
      reads this
      ensures r.Some? <==> key in Abs().cache
      ensures r.Some? ==> r.value == Abs().cache[key].data
    {
      if key !in cache then None else Some(cache[key].data)
    }

    method Insert(key: K, data: V)
      requires Valid()
      modifies this
      ensures Valid() && InsertKey(maxSize, old(Abs()), key, data, Abs())
    {
      if maxSize != 0 {
        generation := Next(generation);
        if key !in cache {
          cache := cache[key := Stamped(data, generation)];
          if |cache| > maxSize {
            EraseOldest();
          }
        } else {
          generation := Next(generation);
          cache := cache[key := Stamped(cache[key].data, generation)];
        }
      }
    }

    /** The two scans: one for the least generation, one for a record bearing it. */
    method EraseOldest()
      requires Valid() && cache != map[]
      modifies this`cache
      ensures Valid()
      ensures exists x :: x in old(cache) && IsOldest(old(cache), x) && cache == old(cache) - {x}
    {
      var minGen, todo := GENERATIONS - 1, cache.Keys;
      ghost var all := cache.Keys;
      while todo != {}
        invariant todo <= all && cache == old(cache)
        invariant forall y :: y in all - todo ==> minGen <= cache[y].gen
        invariant minGen == GENERATIONS - 1 || exists y :: y in cache && cache[y].gen == minGen
        decreases |todo|
      {
        var x :| x in todo;
        if cache[x].gen < minGen {
          minGen := cache[x].gen;
        }
        todo := todo - {x};
      }
      assert forall y :: y in cache ==> y in all - todo;
      assert exists y :: y in cache && cache[y].gen == minGen by {
        if minGen == GENERATIONS - 1 {
          var y :| y in cache;
          assert minGen <= cache[y].gen;
        }
      }
      todo := cache.Keys;
      while todo != {}
        invariant todo <= all && cache == old(cache)
        invariant exists y :: y in todo && cache[y].gen == minGen
        decreases |todo|
      {
        var x :| x in todo;
        if cache[x].gen == minGen {
          assert IsOldest(old(cache), x);
          cache := cache - {x};
          return;
        }
        todo := todo - {x};
      }
    }

    method Clear()
      requires Valid()
      modifies this
      ensures Valid() && Apply<K, V>(maxSize, old(Abs()), Op.Clear, Abs())
    {
      cache := map[];
    }
  }
}
