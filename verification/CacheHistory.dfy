/** What both caches are used for: runs of insertions and clearings, and what such
    a run says about recency without any cache in sight. */
module CacheHistory {
  import opened Sequences

  datatype Op<K, V> = Insert(key: K, data: V) | Clear

  function Without<K(==)>(s: seq<K>, k: K): seq<K> {
    if s == [] then []
    else if s[0] == k then Without(s[1..], k)
    else [s[0]] + Without(s[1..], k)
  }

  function Take<K>(s: seq<K>, n: nat): seq<K> {
    if n < |s| then s[..n] else s
  }

  /** The place of the last insertion of `k` since the last clearing, or -1. */
  ghost function LastInsertion<K, V>(ops: seq<Op<K, V>>, k: K): (i: int)
    ensures -1 <= i < |ops|
    ensures i >= 0 ==> ops[i].Insert? && ops[i].key == k
  {
    if ops == [] then -1
    else
      var m := |ops| - 1;
      if ops[m].Clear? then -1
      else if ops[m].key == k then m
      else LastInsertion(ops[..m], k)
  }

  /** The keys inserted since the last clearing, most recently inserted first. */
  ghost function ByRecency<K, V>(ops: seq<Op<K, V>>): seq<K> {
    if ops == [] then []
    else
      var m := |ops| - 1;
      match ops[m]
      case Clear => []
      case Insert(k, _) => [k] + Without(ByRecency(ops[..m]), k)
  }

  lemma {:induction false} WithoutKeeps<K(!new)>(s: seq<K>, k: K)
    ensures forall x :: x in Without(s, k) <==> x in s && x != k
    ensures k !in s ==> Without(s, k) == s
    ensures |Without(s, k)| <= |s|
  {
    if s != [] {
      WithoutKeeps(s[1..], k);
      assert s == [s[0]] + s[1..];
    }
  }

  /** Where the i-th element of Without(s, k) stands in `s`. */
  ghost function Place<K>(s: seq<K>, k: K, i: nat): (p: nat)
    requires i < |Without(s, k)|
    ensures p < |s| && s[p] == Without(s, k)[i]
  {
    if s[0] == k then 1 + Place(s[1..], k, i)
    else if i == 0 then 0 else 1 + Place(s[1..], k, i - 1)
  }

  lemma WithoutAt<K(!new)>(s: seq<K>, k: K, i: nat)
    requires i < |Without(s, k)|
    ensures Without(s, k)[i] != k
  {
    WithoutKeeps(s, k);
    assert Without(s, k)[i] in Without(s, k);
  }

  lemma {:induction false} PlacesAscend<K(!new)>(s: seq<K>, k: K, i: nat, j: nat)
    requires i < j < |Without(s, k)|
    ensures Place(s, k, i) < Place(s, k, j)
  {
    if s[0] == k {
      PlacesAscend(s[1..], k, i, j);
    } else if i > 0 {
      PlacesAscend(s[1..], k, i - 1, j - 1);
    }
  }

  lemma WithoutDistinct<K(!new)>(s: seq<K>, k: K)
    requires Distinct(s)
    ensures Distinct(Without(s, k))
  {
    var t := Without(s, k);
    forall i, j | 0 <= i < j < |t| ensures t[i] != t[j] { PlacesAscend(s, k, i, j); }
  }

  lemma {:induction false} WithoutLength<K(!new)>(s: seq<K>, k: K)
    requires Distinct(s) && k in s
    ensures |Without(s, k)| == |s| - 1
  {
    assert s == [s[0]] + s[1..];
    if s[0] == k {
      WithoutKeeps(s[1..], k);
      assert k !in s[1..];
    } else {
      WithoutLength(s[1..], k);
    }
  }

  lemma WithoutLast<K(!new)>(s: seq<K>)
    requires Distinct(s) && s != []
    ensures var last := |s| - 1; forall x :: x in s[..last] <==> x in s && x != s[last]
  {
    var last := |s| - 1;
    assert s == s[..last] + [s[last]];
  }

  /** Each key inserted since the last clearing once, in the order of the last
      insertions. */
  ghost predicate OrderedByRecency<K(!new), V>(ops: seq<Op<K, V>>, s: seq<K>) {
    && Distinct(s)
    && (forall k :: k in s <==> LastInsertion(ops, k) >= 0)
    && forall i, j :: 0 <= i < j < |s| ==> LastInsertion(ops, s[i]) > LastInsertion(ops, s[j])
  }

  /** ByRecency is what its name says. */
  lemma {:induction false} RecencyOrder<K(!new), V>(ops: seq<Op<K, V>>)
    ensures OrderedByRecency(ops, ByRecency(ops))
  {
    if ops != [] && ops[|ops| - 1].Insert? {
      RecencyOrder(ops[..|ops| - 1]);
      RecencyStep(ops, ByRecency(ops[..|ops| - 1]));
    }
  }

  lemma RecencyStep<K(!new), V>(ops: seq<Op<K, V>>, prior: seq<K>)
    requires ops != [] && ops[|ops| - 1].Insert?
    requires OrderedByRecency(ops[..|ops| - 1], prior)
    ensures OrderedByRecency(ops, [ops[|ops| - 1].key] + Without(prior, ops[|ops| - 1].key))
  {
    hide Without;
    var k := ops[|ops| - 1].key;
    var t := Without(prior, k);
    var s := [k] + t;
    WithoutKeeps(prior, k);
    forall x ensures x in s <==> LastInsertion(ops, x) >= 0 {
      assert x in s <==> x == k || x in t;
    }
    forall i, j | 0 <= i < j < |s|
      ensures LastInsertion(ops, s[i]) > LastInsertion(ops, s[j])
    {
      RecencyPair(ops, prior, i, j);
    }
    forall i, j | 0 <= i < j < |s| ensures s[i] != s[j] {
      assert LastInsertion(ops, s[i]) > LastInsertion(ops, s[j]);
    }
  }

  lemma LastStep<K(!new), V>(ops: seq<Op<K, V>>, x: K)
    requires ops != [] && ops[|ops| - 1].Insert?
    ensures var m := |ops| - 1;
      LastInsertion(ops, x) == if x == ops[m].key then m else LastInsertion(ops[..m], x)
  {
  }

  lemma RecencyPair<K(!new), V>(ops: seq<Op<K, V>>, prior: seq<K>, i: nat, j: nat)
    requires ops != [] && ops[|ops| - 1].Insert?
    requires OrderedByRecency(ops[..|ops| - 1], prior)
    requires i < j < |[ops[|ops| - 1].key] + Without(prior, ops[|ops| - 1].key)|
    ensures var s := [ops[|ops| - 1].key] + Without(prior, ops[|ops| - 1].key);
      LastInsertion(ops, s[i]) > LastInsertion(ops, s[j])
  {
    hide Without, LastInsertion;
    var k := ops[|ops| - 1].key;
    var t := Without(prior, k);
    var s := [k] + t;
    WithoutKeeps(prior, k);
    LastStep(ops, s[i]);
    LastStep(ops, s[j]);
    var q := Place(prior, k, j - 1);
    assert s[j] == t[j - 1] == prior[q];
    assert t[j - 1] in t;
    if i > 0 {
      var p := Place(prior, k, i - 1);
      assert s[i] == t[i - 1] == prior[p];
      assert t[i - 1] in t;
      PlacesAscend(prior, k, i - 1, j - 1);
    }
  }

  // ---------- Cutting the list off ----------

  lemma TakeAfter<K(!new)>(k: K, s: seq<K>, n: nat)
    requires n > 0
    ensures Take([k] + s, n) == [k] + Take(s, n - 1)
  {
  }

  /** The first n keys evolve on their own: they do not notice what was cut off. */
  lemma TakeWithout<K(!new)>(s: seq<K>, n: nat, k: K)
    requires Distinct(s) && n > 0
    ensures k in Take(s, n) ==> Take([k] + Without(s, k), n) == [k] + Without(Take(s, n), k)
    ensures k !in Take(s, n) ==> Take([k] + Without(s, k), n) == Take([k] + Take(s, n), n)
  {
    hide Without;
    TakeAfterRemoval(s, n, k);
    TakeAfter(k, Without(s, k), n);
    TakeAfter(k, Take(s, n), n);
    assert Take(Take(s, n), n - 1) == Take(s, n - 1);
  }

  lemma {:induction false} TakeAfterRemoval<K(!new)>(s: seq<K>, n: nat, k: K)
    requires Distinct(s) && n > 0
    ensures k in Take(s, n) ==> Take(Without(s, k), n - 1) == Without(Take(s, n), k)
    ensures k !in Take(s, n) ==> Take(Without(s, k), n - 1) == Take(s, n - 1)
  {
    hide Take, Without;
    if s == [] {
      TakeNone<K>(n, k);
    } else {
      var x, rest := s[0], s[1..];
      assert s == [x] + rest;
      var front := Take(rest, n - 1);
      TakeAfter(x, rest, n);
      WithoutFirst(x, rest, k);
      WithoutFirst(x, front, k);
      TakeMembers(rest, n - 1);
      WithoutKeeps(rest, k);
      WithoutKeeps(front, k);
      if x != k {
        if n > 1 {
          TakeAfterRemoval(rest, n - 1, k);
          TakeAfter(x, rest, n - 1);
          TakeAfter(x, Without(rest, k), n - 1);
        } else {
          TakeZero(s);
          TakeZero(rest);
          TakeZero(Without(s, k));
        }
      }
    }
  }

  lemma TakeNone<K(!new)>(n: nat, k: K)
    requires n > 0
    ensures Without([], k) == [] && Take<K>([], n) == [] && Take<K>([], n - 1) == []
  {
  }

  lemma TakeZero<K(!new)>(s: seq<K>)
    ensures Take(s, 0) == []
  {
  }

  lemma TakeMembers<K(!new)>(s: seq<K>, n: nat)
    ensures forall x :: x in Take(s, n) ==> x in s
  {
  }

  lemma WithoutFirst<K(!new)>(first: K, rest: seq<K>, k: K)
    ensures Without([first] + rest, k) == if first == k then Without(rest, k) else [first] + Without(rest, k)
  {
    assert ([first] + rest)[1..] == rest;
  }
}
