/** The cache that keeps its keys in a list and the list nodes in its records. */
module FastCache {
  import opened CacheHistory
  import opened Sequences
  import opened Options

  /** What a client can tell: the keys from the most recent on, and the data. */
  datatype State<K, V> = State(list: seq<K>, data: map<K, V>)

  ghost predicate WellFormed<K, V>(n: nat, s: State<K, V>) {
    && Distinct(s.list)
    && (forall k :: k in s.list ==> k in s.data)
    && (forall k :: k in s.data ==> k in s.list)
    && |s.data| == |s.list| <= n
  }

  function InsertKey<K, V>(n: nat, s: State<K, V>, k: K, d: V): State<K, V> {
    if n == 0 then s
    else if k in s.data then State([k] + Without(s.list, k), s.data[k := d])
    else
      var list, data := [k] + s.list, s.data[k := d];
      if |data| > n then
        var last := |list| - 1;
        State(list[..last], data - {list[last]})
      else State(list, data)
  }

  function Apply<K, V>(n: nat, s: State<K, V>, op: Op<K, V>): State<K, V> {
    match op
    case Insert(k, d) => InsertKey(n, s, k, d)
    case Clear => State([], map[])
  }

  function Run<K, V>(n: nat, ops: seq<Op<K, V>>): State<K, V> {
    if ops == [] then State([], map[])
    else Apply(n, Run(n, ops[..|ops| - 1]), ops[|ops| - 1])
  }

  lemma RefreshKeepsForm<K(!new), V>(n: nat, s: State<K, V>, k: K, d: V)
    requires WellFormed(n, s) && k in s.data
    ensures WellFormed(n, State([k] + Without(s.list, k), s.data[k := d]))
  {
    hide Without;
    var t := Without(s.list, k);
    WithoutKeeps(s.list, k);
    WithoutDistinct(s.list, k);
    WithoutLength(s.list, k);
    assert s.data[k := d].Keys == s.data.Keys;
    var u := State([k] + t, s.data[k := d]);
    forall x | x in s.data ensures x in u.list { assert x == k || x in t; }
    forall i, j | 0 <= i < j < |u.list| ensures u.list[i] != u.list[j] {
      assert t[j - 1] in t;
    }
    assert Distinct(u.list);
    assert forall x :: x in u.list ==> x in u.data;
    assert forall x :: x in u.data ==> x in u.list;
    assert |u.data| == |u.list|;
  }

  lemma GrowKeepsForm<K(!new), V>(n: nat, s: State<K, V>, k: K, d: V)
    requires WellFormed(n, s) && k !in s.data
    ensures WellFormed(n + 1, State([k] + s.list, s.data[k := d]))
  {
    var t := s.list;
    assert s.data[k := d].Keys == s.data.Keys + {k};
    forall i, j | 0 <= i < j < |[k] + t| ensures ([k] + t)[i] != ([k] + t)[j] {
      assert t[j - 1] in t;
    }
  }

  lemma EvictKeepsForm<K(!new), V>(n: nat, s: State<K, V>)
    requires WellFormed(n + 1, s) && s.list != []
    ensures var last := |s.list| - 1; WellFormed(n, State(s.list[..last], s.data - {s.list[last]}))
  {
    var last := |s.list| - 1;
    var t, x := s.list[..last], s.list[last];
    assert x in s.list && s.list == t + [x];
    assert (s.data - {x}).Keys == s.data.Keys - {x};
    forall k | k in s.data - {x} ensures k in t { assert k in s.list; }
  }

  lemma FitsForm<K(!new), V>(n: nat, s: State<K, V>)
    requires WellFormed(n + 1, s) && |s.data| <= n
    ensures WellFormed(n, s)
  {
  }

  lemma InsertKeepsForm<K(!new), V>(n: nat, s: State<K, V>, k: K, d: V)
    requires WellFormed(n, s)
    ensures WellFormed(n, InsertKey(n, s, k, d))
  {
    hide Without, WellFormed;
    if n > 0 {
      if k in s.data {
        RefreshKeepsForm(n, s, k, d);
      } else {
        var grown := State([k] + s.list, s.data[k := d]);
        GrowKeepsForm(n, s, k, d);
        if |grown.data| > n {
          EvictKeepsForm(n, grown);
        } else {
          FitsForm(n, grown);
        }
      }
    }
  }

  lemma {:induction false} RunKeepsForm<K(!new), V>(n: nat, ops: seq<Op<K, V>>)
    ensures WellFormed(n, Run(n, ops))
  {
    if ops != [] {
      var m := |ops| - 1;
      RunKeepsForm(n, ops[..m]);
      if ops[m].Insert? { InsertKeepsForm(n, Run(n, ops[..m]), ops[m].key, ops[m].data); }
    }
  }

  /** After any run the resident keys are the last n distinct keys inserted since
      the last clearing, in the order of their last insertions. */
  lemma {:induction false} RunList<K(!new), V>(n: nat, ops: seq<Op<K, V>>)
    ensures Run(n, ops).list == Take(ByRecency(ops), n)
  {
    if ops != [] && ops[|ops| - 1].Insert? {
      var m := |ops| - 1;
      RunList(n, ops[..m]);
      RunKeepsForm(n, ops[..m]);
      RecencyOrder(ops[..m]);
      if n > 0 {
        ListStep(n, Run(n, ops[..m]), ByRecency(ops[..m]), ops[m].key, ops[m].data);
      }
    }
  }

  lemma ListStep<K(!new), V>(n: nat, s: State<K, V>, all: seq<K>, k: K, d: V)
    requires n > 0 && WellFormed(n, s) && Distinct(all) && s.list == Take(all, n)
    ensures InsertKey(n, s, k, d).list == Take([k] + Without(all, k), n)
  {
    hide Without, Take;
    TakeWithout(all, n, k);
    if k !in s.data {
      assert k !in s.list;
      assert s.data[k := d].Keys == s.data.Keys + {k};
      TakeFits([k] + s.list, n);
    } else {
      assert k in s.list;
    }
  }

  lemma TakeFits<K(!new)>(s: seq<K>, n: nat)
    requires 0 < |s| <= n + 1
    ensures Take(s, n) == if |s| > n then s[..|s| - 1] else s
  {
  }

  /** ... and each maps to the data inserted last. */
  lemma {:induction false} RunData<K(!new), V>(n: nat, ops: seq<Op<K, V>>, k: K)
    requires k in Run(n, ops).data
    ensures var i := LastInsertion(ops, k); i >= 0 && Run(n, ops).data[k] == ops[i].data
  {
    var m := |ops| - 1;
    RunKeepsForm(n, ops);
    if ops[m].Insert? && ops[m].key != k {
      assert k in Run(n, ops[..m]).data;
      RunData(n, ops[..m], k);
    }
  }

  // ---------- The program ----------

  /** A node of the list.  Its reference is what a stored iterator denotes. */
  class Node<K> {
    const key: K

    constructor (k: K)
      ensures key == k
    {
      key := k;
    }
  }

  datatype Record<K, V> = Record(data: V, place: Node<K>)

  function Keys<K>(nodes: seq<Node<K>>): (s: seq<K>)
    ensures |s| == |nodes| && forall i :: 0 <= i < |s| ==> s[i] == nodes[i].key
  {
    seq(|nodes|, i requires 0 <= i < |nodes| => nodes[i].key)
  }

  function Data<K, V>(cache: map<K, Record<K, V>>): map<K, V> {
    map k | k in cache :: cache[k].data
  }

  /** Erasing the element an iterator denotes. */
  function Erase<K>(nodes: seq<Node<K>>, x: Node<K>): seq<Node<K>> {
    if nodes == [] then []
    else if nodes[0] == x then nodes[1..]
    else [nodes[0]] + Erase(nodes[1..], x)
  }

  lemma KeysCons<K(!new)>(x: Node<K>, nodes: seq<Node<K>>)
    ensures Keys([x] + nodes) == [x.key] + Keys(nodes)
  {
  }

  lemma KeysMember<K(!new)>(nodes: seq<Node<K>>, k: K)
    requires k in Keys(nodes)
    ensures exists x :: x in nodes && x.key == k
  {
    var i :| 0 <= i < |nodes| && Keys(nodes)[i] == k;
    assert nodes[i] in nodes;
  }

  lemma DistinctTail<K(!new)>(nodes: seq<Node<K>>)
    requires nodes != [] && Distinct(Keys(nodes))
    ensures Distinct(Keys(nodes[1..]))
    ensures forall y :: y in nodes[1..] ==> y.key != nodes[0].key
  {
    assert Keys(nodes)[1..] == Keys(nodes[1..]);
    forall y | y in nodes[1..] ensures y.key != nodes[0].key {
      var i :| 0 <= i < |nodes[1..]| && nodes[1..][i] == y;
      assert Keys(nodes)[i + 1] == y.key && Keys(nodes)[0] == nodes[0].key;
    }
  }

  lemma EraseFirst<K(!new)>(nodes: seq<Node<K>>, x: Node<K>)
    requires nodes != []
    ensures Erase(nodes, x) == if nodes[0] == x then nodes[1..] else [nodes[0]] + Erase(nodes[1..], x)
  {
  }

  /** Erasing a node takes its key out of the list of keys. */
  lemma {:induction false} EraseKeys<K(!new)>(nodes: seq<Node<K>>, x: Node<K>)
    requires x in nodes && Distinct(Keys(nodes))
    ensures Keys(Erase(nodes, x)) == Without(Keys(nodes), x.key)
  {
    hide Without, Erase, Keys, Distinct;
    var rest := nodes[1..];
    assert nodes == [nodes[0]] + rest;
    KeysCons(nodes[0], rest);
    DistinctTail(nodes);
    WithoutFirst(nodes[0].key, Keys(rest), x.key);
    EraseFirst(nodes, x);
    if nodes[0] == x {
      if x.key in Keys(rest) { KeysMember(rest, x.key); }
      WithoutKeeps(Keys(rest), x.key);
    } else {
      EraseKeys(rest, x);
      KeysCons(nodes[0], Erase(rest, x));
    }
  }

  lemma {:induction false} EraseMembers<K(!new)>(nodes: seq<Node<K>>, x: Node<K>)
    requires x in nodes && Distinct(Keys(nodes))
    ensures forall y :: y in Erase(nodes, x) ==> y in nodes && y.key != x.key
    ensures forall y :: y in nodes && y != x ==> y in Erase(nodes, x)
  {
    hide Keys;
    assert nodes == [nodes[0]] + nodes[1..];
    DistinctTail(nodes);
    if nodes[0] != x {
      EraseMembers(nodes[1..], x);
    }
  }

  /** Each stored iterator denotes the one list node holding its key. */
  ghost predicate Linked<K, V>(nodes: seq<Node<K>>, cache: map<K, Record<K, V>>) {
    && (forall k :: k in cache ==> cache[k].place in nodes && cache[k].place.key == k)
    && forall x :: x in nodes ==> x.key in cache && cache[x.key].place == x
  }

  lemma Denotes<K(!new), V>(nodes: seq<Node<K>>, cache: map<K, Record<K, V>>, k: K)
    requires Linked(nodes, cache) && k in cache
    ensures cache[k].place in nodes && cache[k].place.key == k
  {
  }

  lemma RefreshKeys<K(!new)>(nodes: seq<Node<K>>, place: Node<K>, x: Node<K>)
    requires Distinct(Keys(nodes)) && place in nodes && x !in nodes && place.key == x.key
    ensures Keys(Erase([x] + nodes, place)) == [x.key] + Without(Keys(nodes), x.key)
  {
    hide Without, Keys, Distinct;
    EraseKeys(nodes, place);
    assert ([x] + nodes)[1..] == nodes;
    KeysCons(x, Erase(nodes, place));
  }

  lemma RefreshMembers<K(!new)>(nodes: seq<Node<K>>, place: Node<K>, x: Node<K>)
    requires Distinct(Keys(nodes)) && place in nodes && x !in nodes
    ensures var nodes' := Erase([x] + nodes, place);
      && x in nodes'
      && (forall y :: y in nodes' && y != x ==> y in nodes && y.key != place.key)
      && forall y :: y in nodes && y != place ==> y in nodes'
  {
    hide Keys, Distinct;
    EraseMembers(nodes, place);
    assert ([x] + nodes)[1..] == nodes;
    assert forall y :: y in [x] + Erase(nodes, place) ==> y == x || y in Erase(nodes, place);
  }

  lemma RefreshLinks<K(!new), V>(nodes: seq<Node<K>>, cache: map<K, Record<K, V>>, x: Node<K>, data: V)
    requires Linked(nodes, cache) && Distinct(Keys(nodes)) && x.key in cache && x !in nodes
    ensures Linked(Erase([x] + nodes, cache[x.key].place), cache[x.key := Record(data, x)])
  {
    hide Distinct, Keys, Erase;
    RefreshMembers(nodes, cache[x.key].place, x);
  }

  lemma DataUpdate<K(!new), V>(cache: map<K, Record<K, V>>, k: K, r: Record<K, V>)
    ensures Data(cache[k := r]) == Data(cache)[k := r.data]
    ensures Data(cache).Keys == cache.Keys && |Data(cache)| == |cache|
  {
    assert Data(cache).Keys == cache.Keys;
  }

  lemma EnterLinks<K(!new), V>(nodes: seq<Node<K>>, cache: map<K, Record<K, V>>, x: Node<K>, data: V)
    requires Linked(nodes, cache) && x.key !in cache
    ensures Linked([x] + nodes, cache[x.key := Record(data, x)])
  {
    assert forall y :: y in [x] + nodes ==> y == x || y in nodes;
  }

  lemma EvictLinks<K(!new), V>(nodes: seq<Node<K>>, cache: map<K, Record<K, V>>)
    requires Linked(nodes, cache) && nodes != [] && Distinct(Keys(nodes))
    ensures var last := |nodes| - 1;
      var older := nodes[last].key;
      && Linked(nodes[..last], cache - {older})
      && Keys(nodes[..last]) == Keys(nodes)[..last] && older == Keys(nodes)[last]
      && Data(cache - {older}) == Data(cache) - {older}
  {
    hide Linked, Data, Distinct;
    EvictKeepsLinks(nodes, cache);
    var older := nodes[|nodes| - 1].key;
    assert Data(cache - {older}) == Data(cache) - {older} by { DataWithout(cache, older); }
  }

  lemma DataWithout<K(!new), V>(cache: map<K, Record<K, V>>, k: K)
    ensures Data(cache - {k}) == Data(cache) - {k}
  {
  }

  lemma EvictKeepsLinks<K(!new), V>(nodes: seq<Node<K>>, cache: map<K, Record<K, V>>)
    requires Linked(nodes, cache) && nodes != [] && Distinct(Keys(nodes))
    ensures var last := |nodes| - 1; Linked(nodes[..last], cache - {nodes[last].key})
  {
    var last := |nodes| - 1;
    assert nodes == nodes[..last] + [nodes[last]];
    forall y | y in nodes[..last] ensures y.key != nodes[last].key {
      var i :| 0 <= i < last && nodes[i] == y;
      assert Keys(nodes)[i] != Keys(nodes)[last];
    }
  }

  lemma FormIsDistinct<K(!new), V>(n: nat, s: State<K, V>)
    requires WellFormed(n, s)
    ensures Distinct(s.list)
  {
  }

  class LruCache<K(==,!new), V> {
    var lru: seq<Node<K>>
    var cache: map<K, Record<K, V>>
    const maxSize: nat

    ghost function Abs(): State<K, V>
      reads this
    {
      State(Keys(lru), Data(cache))
    }

    ghost predicate Valid()
      reads this
    {
      WellFormed(maxSize, Abs()) && Linked(lru, cache)
    }

    constructor (n: nat)
      ensures Valid() && maxSize == n && Abs() == State([], map[])
    {
      maxSize := n;
      lru, cache := [], map[];
    }

    function Find(key: K): (r: Option<V>)
      requires Valid()
      reads this
      ensures r.Some? <==> key in Abs().list
      ensures r.Some? ==> r.value == Abs().data[key]
    {
      assert key in Data(cache) <==> key in cache;
      if key !in cache then None else Some(cache[key].data)
    }

    function Size(): (n: nat)
      requires Valid()
      reads this
      ensures n == |Abs().list| <= maxSize
    {
      assert Data(cache).Keys == cache.Keys;
      |cache|
    }

    method Insert(key: K, data: V)
      requires Valid()
      modifies this
      ensures Valid() && Abs() == InsertKey(maxSize, old(Abs()), key, data)
    {
      if maxSize != 0 {
        var node := new Node(key);
        if key !in cache {
          Enter(node, data);
        } else {
          Refresh(node, data);
        }
      }
    }

    /** The key is new: the back of the list leaves if there is no room. */
    method Enter(node: Node<K>, data: V)
      requires Valid() && node.key !in cache && maxSize > 0
      modifies this
      ensures Valid() && Abs() == InsertKey(maxSize, old(Abs()), node.key, data)
    {
      hide Without, Keys, Data, Linked, WellFormed;
      ghost var before := Abs();
      var record := Record(data, node);
      InsertKeepsForm(maxSize, before, node.key, data);
      DataUpdate(cache, node.key, record);
      DataUpdate(cache[node.key := record], node.key, record);
      EnterLinks(lru, cache, node, data);
      KeysCons(node, lru);
      GrowKeepsForm(maxSize, before, node.key, data);
      lru := [node] + lru;
      cache := cache[node.key := record];
      assert Abs() == State([node.key] + before.list, before.data[node.key := data]);
      if |cache| > maxSize {
        EvictLinks(lru, cache) by { FormIsDistinct(maxSize + 1, Abs()); }
        var older := lru[|lru| - 1].key;
        lru := lru[..|lru| - 1];
        cache := cache - {older};
      }
    }

    /** The key is resident: its old node leaves the list. */
    method Refresh(node: Node<K>, data: V)
      requires Valid() && node.key in cache && node !in lru && maxSize > 0
      modifies this
      ensures Valid() && Abs() == InsertKey(maxSize, old(Abs()), node.key, data)
    {
      hide Without, Keys, Data, Linked, WellFormed, Erase, Distinct;
      ghost var before := Abs();
      var key, record := node.key, Record(data, node);
      InsertKeepsForm(maxSize, before, key, data);
      DataUpdate(cache, key, record);
      FormIsDistinct(maxSize, before);
      RefreshLinks(lru, cache, node, data);
      Denotes(lru, cache, key);
      RefreshKeys(lru, cache[key].place, node);
      lru := [node] + lru;
      lru := Erase(lru, cache[key].place);
      cache := cache[key := record];
    }

    method Clear()
      requires Valid()
      modifies this
      ensures Valid() && Abs() == State([], map[])
    {
      cache := map[];
      lru := [];
    }
  }
}
