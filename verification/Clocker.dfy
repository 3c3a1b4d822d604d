/** The listener that turns the events of a run back into a forest of timed records
    (ClockerModel, ClockerListener). */
module Clocker {
  import opened Options
  import opened TestRuns

  // ---------- The executed forest ----------

  /** What was executed: a repeated test leaves one node for each time. */
  datatype Node = CaseNode(id: nat, reports: nat) | SuiteNode(id: nat, kids: seq<Node>)

  function Executed(t: Test, stop: StopFlag, n: nat): (seq<Node>, nat)
    decreases t, 0
  {
    match t
    case Case(id, reports) => ([CaseNode(id, reports)], n)
    case Suite(id, children) =>
      var (kids, m) := ExecutedAll(children, stop, n);
      ([SuiteNode(id, kids)], m)
    case Repeated(test, times) => ExecutedTimes(test, times, stop, n)
  }

  function ExecutedAll(ts: seq<Test>, stop: StopFlag, n: nat): (seq<Node>, nat)
    decreases ts, |ts|
  {
    if ts == [] then ([], n)
    else if stop(n) then ([], n + 1)
    else
      var (first, m) := Executed(ts[0], stop, n + 1);
      var (rest, k) := ExecutedAll(ts[1..], stop, m);
      (first + rest, k)
  }

  function ExecutedTimes(t: Test, times: int, stop: StopFlag, n: nat): (seq<Node>, nat)
    decreases t, 1, times
  {
    if times <= 0 then ([], n)
    else if stop(n) then ([], n + 1)
    else
      var (first, m) := Executed(t, stop, n + 1);
      var (rest, k) := ExecutedTimes(t, times - 1, stop, m);
      (first + rest, k)
  }

  function TraceOf(node: Node): (t: seq<Event>)
    ensures |t| >= 2
    decreases node, 0
  {
    match node
    case CaseNode(id, reports) => [StartTest(id)] + Failures(id, reports) + [EndTest(id)]
    case SuiteNode(id, kids) => [StartSuite(id)] + TraceAll(kids) + [EndSuite(id)]
  }

  function TraceAll(nodes: seq<Node>): seq<Event>
    decreases nodes, |nodes|
  {
    if nodes == [] then [] else TraceOf(nodes[0]) + TraceAll(nodes[1..])
  }

  lemma {:induction false} TraceConcat(a: seq<Node>, b: seq<Node>)
    ensures TraceAll(a + b) == TraceAll(a) + TraceAll(b)
  {
    if a == [] {
      assert a + b == b;
    } else {
      assert (a + b)[1..] == a[1..] + b;
      TraceConcat(a[1..], b);
    }
  }

  /** The events of a run are those of the forest it executes. */
  lemma {:induction false} RunTrace(t: Test, stop: StopFlag, n: nat)
    ensures Run(t, stop, n) == (TraceAll(Executed(t, stop, n).0), Executed(t, stop, n).1)
    decreases t, 0
  {
    match t
    case Case(id, reports) => TraceOne(CaseNode(id, reports));
    case Suite(id, children) =>
      RunAllTrace(children, stop, n);
      TraceOne(SuiteNode(id, ExecutedAll(children, stop, n).0));
    case Repeated(test, times) => RunTimesTrace(test, times, stop, n);
  }

  lemma TraceOne(node: Node)
    ensures TraceAll([node]) == TraceOf(node)
  {
    assert [node][1..] == [];
  }

  lemma {:induction false} RunAllTrace(ts: seq<Test>, stop: StopFlag, n: nat)
    ensures RunAll(ts, stop, n) == (TraceAll(ExecutedAll(ts, stop, n).0), ExecutedAll(ts, stop, n).1)
    decreases ts, |ts|
  {
    if ts != [] && !stop(n) {
      var (first, m) := Executed(ts[0], stop, n + 1);
      RunTrace(ts[0], stop, n + 1);
      RunAllTrace(ts[1..], stop, m);
      TraceConcat(first, ExecutedAll(ts[1..], stop, m).0);
    }
  }

  lemma {:induction false} RunTimesTrace(t: Test, times: int, stop: StopFlag, n: nat)
    ensures RunTimes(t, times, stop, n)
         == (TraceAll(ExecutedTimes(t, times, stop, n).0), ExecutedTimes(t, times, stop, n).1)
    decreases t, 1, times
  {
    if times > 0 && !stop(n) {
      var (first, m) := Executed(t, stop, n + 1);
      RunTrace(t, stop, n + 1);
      RunTimesTrace(t, times - 1, stop, m);
      TraceConcat(first, ExecutedTimes(t, times - 1, stop, m).0);
    }
  }

  // ---------- The machine ----------

  /** The record of one test; its timer starts when the test is entered. */
  datatype Info = Info(path: seq<nat>, begin: real, elapsed: real, isSuite: bool, kids: seq<nat>)

  /** The top of the stack is its last element. */
  datatype Model = Model(path: seq<nat>, stack: seq<nat>, tests: seq<Info>, cases: nat, total: real)

  const EMPTY := Model([], [], [], 0, 0.0)

  ghost predicate WellFormed(m: Model) {
    |m.path| == |m.stack| && forall i :: 0 <= i < |m.stack| ==> m.stack[i] < |m.tests|
  }

  function Adopt(info: Info, kids: seq<nat>): Info {
    info.(kids := info.kids + kids)
  }

  /** The records after the open one has been given these children. */
  function Linked(m: Model, kids: seq<nat>): (r: seq<Info>)
    requires WellFormed(m)
    ensures |r| == |m.tests|
  {
    if m.stack == [] then m.tests
    else
      var top := m.stack[|m.stack| - 1];
      m.tests[top := Adopt(m.tests[top], kids)]
  }

  function Enter(m: Model, id: nat, isSuite: bool, now: real): Model
    requires WellFormed(m)
  {
    var path, i := m.path + [id], |m.tests|;
    Model(path, m.stack + [i], Linked(m, [i]) + [Info(path, now, 0.0, isSuite, [])],
          m.cases + (if isSuite then 0 else 1), m.total)
  }

  /** Adds the time of the record entered last, not of the one on the stack. */
  function Exit(m: Model, isSuite: bool, now: real): Model
    requires WellFormed(m) && m.stack != []
  {
    var last := |m.stack| - 1;
    var top := m.stack[last];
    var tests := m.tests[top := m.tests[top].(elapsed := now - m.tests[top].begin)];
    Model(m.path[..last], m.stack[..last], tests, m.cases,
          if isSuite then m.total else m.total + tests[|tests| - 1].elapsed)
  }

  /** One event at one time.  None is an exit with nothing open. */
  function Step(m: Model, e: Event, now: real): (r: Option<Model>)
    requires WellFormed(m)
    ensures r.Some? ==> WellFormed(r.value)
  {
    match e
    case StartSuite(id) => Some(Enter(m, id, true, now))
    case StartTest(id) => Some(Enter(m, id, false, now))
    case EndSuite(_) => if m.stack == [] then None else Some(Exit(m, true, now))
    case EndTest(_) => if m.stack == [] then None else Some(Exit(m, false, now))
    case Failed(_) => Some(m)
  }

  type Clock = nat -> real

  /** Feeds events; the one after k others happens at time clock(k). */
  function Feed(m: Model, trace: seq<Event>, clock: Clock, k: nat): (r: Option<Model>)
    requires WellFormed(m)
    ensures r.Some? ==> WellFormed(r.value)
    decreases |trace|
  {
    if trace == [] then Some(m)
    else
      match Step(m, trace[0], clock(k))
      case None => None
      case Some(next) => Feed(next, trace[1..], clock, k + 1)
  }

  // ---------- What the records should be ----------

  function Size(node: Node): nat
    decreases node, 0
  {
    match node
    case CaseNode(_, _) => 1
    case SuiteNode(_, kids) => 1 + SizeAll(kids)
  }

  function SizeAll(nodes: seq<Node>): nat
    decreases nodes, |nodes|
  {
    if nodes == [] then 0 else Size(nodes[0]) + SizeAll(nodes[1..])
  }

  /** The numbers of the trees of a forest numbered in preorder from `base`. */
  function Roots(nodes: seq<Node>, base: nat): seq<nat> {
    if nodes == [] then [] else [base] + Roots(nodes[1..], base + Size(nodes[0]))
  }

  /** The records of a tree in preorder: the path of each is its chain of ancestors, the
      time runs from its first event to its last. */
  function Records(node: Node, path: seq<nat>, base: nat, clock: Clock, k: nat): (r: seq<Info>)
    ensures |r| == Size(node)
    decreases node, 0
  {
    var here := path + [node.id];
    var begin, end := clock(k), clock(k + |TraceOf(node)| - 1);
    match node
    case CaseNode(_, _) => [Info(here, begin, end - begin, false, [])]
    case SuiteNode(_, kids) =>
      [Info(here, begin, end - begin, true, Roots(kids, base + 1))] + RecordsAll(kids, here, base + 1, clock, k + 1)
  }

  function RecordsAll(nodes: seq<Node>, path: seq<nat>, base: nat, clock: Clock, k: nat): (r: seq<Info>)
    ensures |r| == SizeAll(nodes)
    decreases nodes, |nodes|
  {
    if nodes == [] then []
    else Records(nodes[0], path, base, clock, k)
         + RecordsAll(nodes[1..], path, base + Size(nodes[0]), clock, k + |TraceOf(nodes[0])|)
  }

  function CasesIn(node: Node): nat
    decreases node, 0
  {
    match node
    case CaseNode(_, _) => 1
    case SuiteNode(_, kids) => CasesInAll(kids)
  }

  function CasesInAll(nodes: seq<Node>): nat
    decreases nodes, |nodes|
  {
    if nodes == [] then 0 else CasesIn(nodes[0]) + CasesInAll(nodes[1..])
  }

  /** The times of the cases, added up. */
  function TimeIn(node: Node, clock: Clock, k: nat): real
    decreases node, 0
  {
    match node
    case CaseNode(_, _) => clock(k + |TraceOf(node)| - 1) - clock(k)
    case SuiteNode(_, kids) => TimeInAll(kids, clock, k + 1)
  }

  function TimeInAll(nodes: seq<Node>, clock: Clock, k: nat): real
    decreases nodes, |nodes|
  {
    if nodes == [] then 0.0
    else TimeIn(nodes[0], clock, k) + TimeInAll(nodes[1..], clock, k + |TraceOf(nodes[0])|)
  }

  /** The model after a forest has been fed to it. */
  function After(m: Model, nodes: seq<Node>, clock: Clock, k: nat): (r: Model)
    requires WellFormed(m)
    ensures WellFormed(r)
  {
    var base := |m.tests|;
    m.(tests := Linked(m, Roots(nodes, base)) + RecordsAll(nodes, m.path, base, clock, k),
       cases := m.cases + CasesInAll(nodes),
       total := m.total + TimeInAll(nodes, clock, k))
  }

  // ---------- The machine rebuilds the forest ----------

  lemma LinkedNone(m: Model)
    requires WellFormed(m)
    ensures Linked(m, []) == m.tests
  {
    if m.stack != [] {
      var top := m.stack[|m.stack| - 1];
      assert Adopt(m.tests[top], []) == m.tests[top];
    }
  }

  lemma LinkedMore(m: Model, a: seq<nat>, more: seq<Info>, m': Model, b: seq<nat>)
    requires WellFormed(m) && WellFormed(m') && m'.stack == m.stack && m'.tests == Linked(m, a) + more
    ensures Linked(m', b) == Linked(m, a + b) + more
  {
    if m.stack != [] {
      var top := m.stack[|m.stack| - 1];
      assert Adopt(Adopt(m.tests[top], a), b) == Adopt(m.tests[top], a + b);
    }
  }

  lemma AfterNone(m: Model, clock: Clock, k: nat)
    requires WellFormed(m)
    ensures After(m, [], clock, k) == m
  {
    LinkedNone(m);
    assert m.tests + [] == m.tests;
  }

  lemma AfterMore(m: Model, nodes: seq<Node>, clock: Clock, k: nat)
    requires WellFormed(m) && nodes != []
    ensures After(After(m, nodes[..1], clock, k), nodes[1..], clock, k + |TraceOf(nodes[0])|)
         == After(m, nodes, clock, k)
  {
    hide Records, TraceOf, TimeIn, CasesIn, Size, Linked;
    var node, rest, base := nodes[0], nodes[1..], |m.tests|;
    var k' := k + |TraceOf(node)|;
    OneNode(node, m.path, base, clock, k);
    assert nodes[..1] == [node];
    var m1 := After(m, [node], clock, k);
    var one := Records(node, m.path, base, clock, k);
    assert m1.tests == Linked(m, [base]) + one;
    assert |m1.tests| == base + Size(node);
    LinkedMore(m, [base], one, m1, Roots(rest, base + Size(node)));
    assert Linked(m, [base] + Roots(rest, base + Size(node))) + one + RecordsAll(rest, m.path, base + Size(node), clock, k')
        == Linked(m, [base] + Roots(rest, base + Size(node))) + (one + RecordsAll(rest, m.path, base + Size(node), clock, k'));
  }

  lemma OneNode(node: Node, path: seq<nat>, base: nat, clock: Clock, k: nat)
    ensures RecordsAll([node], path, base, clock, k) == Records(node, path, base, clock, k)
    ensures Roots([node], base) == [base] && SizeAll([node]) == Size(node)
    ensures CasesInAll([node]) == CasesIn(node) && TimeInAll([node], clock, k) == TimeIn(node, clock, k)
  {
    hide Records, TraceOf, TimeIn, CasesIn, Size;
    assert [node][1..] == [];
  }

  lemma {:induction false} FeedConcat(m: Model, a: seq<Event>, b: seq<Event>, clock: Clock, k: nat)
    requires WellFormed(m)
    ensures Feed(m, a + b, clock, k) ==
      match Feed(m, a, clock, k)
      case None => None
      case Some(next) => Feed(next, b, clock, k + |a|)
    decreases |a|
  {
    hide Step;
    if a == [] {
      assert a + b == b;
    } else {
      assert (a + b)[1..] == a[1..] + b;
      var next := Step(m, a[0], clock(k));
      if next.Some? { FeedConcat(next.value, a[1..], b, clock, k + 1); }
    }
  }

  lemma {:induction false} FeedFailures(m: Model, id: nat, n: nat, clock: Clock, k: nat)
    requires WellFormed(m)
    ensures Feed(m, Failures(id, n), clock, k) == Some(m)
    decreases n
  {
    if n > 0 {
      assert Failures(id, n)[1..] == Failures(id, n - 1);
      FeedFailures(m, id, n - 1, clock, k + 1);
    }
  }

  /** Something fed between an enter and the exit that belongs to it. */
  lemma FeedPair(m: Model, start: Event, inner: seq<Event>, end: Event, clock: Clock, k: nat, m2: Model)
    requires WellFormed(m)
    requires || (start.StartSuite? && end == EndSuite(start.id))
             || (start.StartTest? && end == EndTest(start.id))
    requires WellFormed(m2) && m2.stack != []
    requires Feed(Enter(m, start.id, start.StartSuite?, clock(k)), inner, clock, k + 1) == Some(m2)
    ensures Feed(m, [start] + inner + [end], clock, k)
         == Some(Exit(m2, start.StartSuite?, clock(k + 1 + |inner|)))
  {
    hide Enter, Exit;
    var m1 := Enter(m, start.id, start.StartSuite?, clock(k));
    assert Step(m, start, clock(k)) == Some(m1);
    var all := [start] + inner + [end];
    assert all[1..] == inner + [end];
    FeedConcat(m1, inner, [end], clock, k + 1);
    assert [end][1..] == [];
  }

  /** Leaving the test that was entered at number `base`, whose records follow. */
  lemma ExitAt(m: Model, path: seq<nat>, id: nat, stack: seq<nat>, before: seq<Info>, info: Info,
               inner: seq<Info>, isSuite: bool, now: real)
    requires WellFormed(m) && m.path == path + [id] && m.stack == stack + [|before|]
    requires m.tests == before + [info] + inner
    ensures var done := info.(elapsed := now - info.begin);
      var r := Exit(m, isSuite, now);
      && r.path == path && r.stack == stack && r.cases == m.cases
      && r.tests == before + ([done] + inner)
      && r.total == m.total + (if isSuite then 0.0 else (before + ([done] + inner))[|before| + |inner|].elapsed)
  {
    var done := info.(elapsed := now - info.begin);
    assert m.tests[|before|] == info;
    assert m.tests[|before| := done] == before + ([done] + inner);
    assert (path + [id])[..|path|] == path;
    assert (stack + [|before|])[..|stack|] == stack;
  }

  lemma EnterAt(m: Model, id: nat, isSuite: bool, now: real)
    requires WellFormed(m)
    ensures var r := Enter(m, id, isSuite, now);
      && WellFormed(r) && r.path == m.path + [id] && r.stack == m.stack + [|m.tests|]
      && r.tests == Linked(m, [|m.tests|]) + [Info(m.path + [id], now, 0.0, isSuite, [])]
      && r.cases == m.cases + (if isSuite then 0 else 1) && r.total == m.total
  {
  }

  /** The record entered last is the one on the stack when a case is left. */
  lemma CaseExit(m: Model, node: Node, clock: Clock, k: nat)
    requires WellFormed(m) && node.CaseNode?
    ensures var m1 := Enter(m, node.id, false, clock(k));
      && WellFormed(m1) && m1.stack != [] && m1.stack[|m1.stack| - 1] == |m1.tests| - 1
      && Exit(m1, false, clock(k + |TraceOf(node)| - 1)) == After(m, [node], clock, k)
  {
    hide TraceOf, Linked, Enter, Exit;
    OneNode(node, m.path, |m.tests|, clock, k);
    var now := clock(k + |TraceOf(node)| - 1);
    var m1 := Enter(m, node.id, false, clock(k));
    EnterAt(m, node.id, false, clock(k));
    var linked, here := Linked(m, [|m.tests|]), m.path + [node.id];
    var info := Info(here, clock(k), 0.0, false, []);
    var done := info.(elapsed := now - clock(k));
    assert linked + [info] + [] == linked + [info];
    assert [done] + [] == [done];
    ExitAt(m1, m.path, node.id, m.stack, linked, info, [], false, now);
  }

  lemma SuiteExit(m: Model, node: Node, clock: Clock, k: nat)
    requires WellFormed(m) && node.SuiteNode?
    ensures var m1 := Enter(m, node.id, true, clock(k));
      && WellFormed(m1)
      && var m2 := After(m1, node.kids, clock, k + 1);
         Exit(m2, true, clock(k + |TraceOf(node)| - 1)) == After(m, [node], clock, k)
  {
    hide TraceOf, RecordsAll, CasesInAll, TimeInAll, Linked, Enter, Exit, Roots;
    var base := |m.tests|;
    OneNode(node, m.path, base, clock, k);
    var now := clock(k + |TraceOf(node)| - 1);
    var m1 := Enter(m, node.id, true, clock(k));
    EnterAt(m, node.id, true, clock(k));
    var m2 := After(m1, node.kids, clock, k + 1);
    var here, linked := m.path + [node.id], Linked(m, [base]);
    var info := Info(here, clock(k), 0.0, true, []);
    var roots, inner := Roots(node.kids, base + 1), RecordsAll(node.kids, here, base + 1, clock, k + 1);
    SuiteLinks(m1, linked, info, roots, base);
    var adopted := Adopt(info, roots);
    assert adopted == info.(kids := roots) by { assert [] + roots == roots; }
    ExitAt(m2, m.path, node.id, m.stack, linked, adopted, inner, true, now);
  }

  lemma SuiteLinks(m1: Model, linked: seq<Info>, info: Info, roots: seq<nat>, base: nat)
    requires WellFormed(m1) && m1.stack != [] && m1.stack[|m1.stack| - 1] == base == |linked|
    requires m1.tests == linked + [info]
    ensures Linked(m1, roots) == linked + [Adopt(info, roots)]
  {
  }

  lemma {:induction false} FeedNode(m: Model, node: Node, clock: Clock, k: nat)
    requires WellFormed(m)
    ensures Feed(m, TraceOf(node), clock, k) == Some(After(m, [node], clock, k))
    decreases node, 0
  {
    hide Feed, Enter, Exit, After;
    match node
    case CaseNode(id, reports) =>
      var m1 := Enter(m, id, false, clock(k));
      CaseExit(m, node, clock, k);
      FeedFailures(m1, id, reports, clock, k + 1);
      NonEmpty(m, id, false, clock(k));
      FeedPair(m, StartTest(id), Failures(id, reports), EndTest(id), clock, k, m1);
    case SuiteNode(id, kids) =>
      var m1 := Enter(m, id, true, clock(k));
      SuiteExit(m, node, clock, k);
      FeedAll(m1, kids, clock, k + 1);
      var m2 := After(m1, kids, clock, k + 1);
      NonEmpty(m, id, true, clock(k));
      AfterStack(m1, kids, clock, k + 1);
      FeedPair(m, StartSuite(id), TraceAll(kids), EndSuite(id), clock, k, m2);
  }

  lemma NonEmpty(m: Model, id: nat, isSuite: bool, now: real)
    requires WellFormed(m)
    ensures Enter(m, id, isSuite, now).stack != []
  {
  }

  lemma AfterStack(m: Model, nodes: seq<Node>, clock: Clock, k: nat)
    requires WellFormed(m)
    ensures After(m, nodes, clock, k).stack == m.stack && After(m, nodes, clock, k).path == m.path
  {
  }

  lemma FeedNone(m: Model, clock: Clock, k: nat)
    requires WellFormed(m)
    ensures Feed(m, [], clock, k) == Some(m)
  {
  }

  lemma {:induction false} FeedAll(m: Model, nodes: seq<Node>, clock: Clock, k: nat)
    requires WellFormed(m)
    ensures Feed(m, TraceAll(nodes), clock, k) == Some(After(m, nodes, clock, k))
    decreases nodes, |nodes|
  {
    hide After, Feed, TraceOf;
    if nodes == [] {
      AfterNone(m, clock, k);
      FeedNone(m, clock, k);
    } else {
      var m1 := After(m, [nodes[0]], clock, k);
      FeedNode(m, nodes[0], clock, k);
      FeedAll(m1, nodes[1..], clock, k + |TraceOf(nodes[0])|);
      FeedConcat(m, TraceOf(nodes[0]), TraceAll(nodes[1..]), clock, k);
      assert nodes[..1] == [nodes[0]];
      AfterMore(m, nodes, clock, k);
    }
  }

  /** Forest reconstruction: fed the events of any run, with any clock, the machine ends
      with nothing open and with exactly the preorder records of the executed forest;
      the case total is the sum of the case times. */
  lemma Reconstruction(t: Test, stop: StopFlag, n: nat, clock: Clock)
    ensures var forest := Executed(t, stop, n).0;
      Feed(EMPTY, Run(t, stop, n).0, clock, 0)
        == Some(Model([], [], RecordsAll(forest, [], 0, clock, 0), CasesInAll(forest), TimeInAll(forest, clock, 0)))
  {
    hide Feed, Run, Executed;
    var forest := Executed(t, stop, n).0;
    RunTrace(t, stop, n);
    FeedAll(EMPTY, forest, clock, 0);
    assert [] + RecordsAll(forest, [], 0, clock, 0) == RecordsAll(forest, [], 0, clock, 0);
  }

  // ---------- The records number the forest ----------

  /** How many times `c` is listed as a child. */
  function Parents(infos: seq<Info>, c: nat): nat {
    if infos == [] then 0 else Count(infos[0].kids, c) + Parents(infos[1..], c)
  }

  function Count(s: seq<nat>, c: nat): nat {
    if s == [] then 0 else Count(s[1..], c) + if s[0] == c then 1 else 0
  }

  lemma {:induction false} ParentsConcat(a: seq<Info>, b: seq<Info>, c: nat)
    ensures Parents(a + b, c) == Parents(a, c) + Parents(b, c)
  {
    if a == [] {
      assert a + b == b;
    } else {
      assert (a + b)[1..] == a[1..] + b;
      ParentsConcat(a[1..], b, c);
    }
  }

  lemma {:induction false} OneParent(node: Node, path: seq<nat>, base: nat, clock: Clock, k: nat, c: nat)
    ensures Parents(Records(node, path, base, clock, k), c)
         == if base < c < base + Size(node) then 1 else 0
    decreases node, 0
  {
    hide TraceOf;
    var r := Records(node, path, base, clock, k);
    match node
    case CaseNode(_, _) => assert r[1..] == [];
    case SuiteNode(_, kids) =>
      var here := path + [node.id];
      OneParentAll(kids, here, base + 1, clock, k + 1, c);
      assert r[1..] == RecordsAll(kids, here, base + 1, clock, k + 1);
  }

  lemma {:induction false} OneParentAll(nodes: seq<Node>, path: seq<nat>, base: nat, clock: Clock, k: nat, c: nat)
    ensures Parents(RecordsAll(nodes, path, base, clock, k), c) + Count(Roots(nodes, base), c)
         == if base <= c < base + SizeAll(nodes) then 1 else 0
    decreases nodes, |nodes|
  {
    hide TraceOf, Records, Size, Parents, Count;
    if nodes == [] {
      NoParents(c);
    } else {
      var base', k' := base + Size(nodes[0]), k + |TraceOf(nodes[0])|;
      SizePositive(nodes[0]);
      CountFirst(base, Roots(nodes[1..], base'), c);
      OneParent(nodes[0], path, base, clock, k, c);
      OneParentAll(nodes[1..], path, base', clock, k', c);
      ParentsConcat(Records(nodes[0], path, base, clock, k), RecordsAll(nodes[1..], path, base', clock, k'), c);
    }
  }

  lemma SizePositive(node: Node)
    ensures Size(node) > 0
  {
  }

  lemma NoParents(c: nat)
    ensures Parents([], c) == 0 && Count([], c) == 0
  {
  }

  lemma CountFirst(x: nat, s: seq<nat>, c: nat)
    ensures Count([x] + s, c) == Count(s, c) + if c == x then 1 else 0
  {
    assert ([x] + s)[1..] == s;
  }

  /** Every child has a higher number than its parent, and its path is the parent's path
      and one more test. */
  ghost predicate Descends(infos: seq<Info>, base: nat) {
    forall i, j :: 0 <= i < |infos| && 0 <= j < |infos[i].kids| ==>
      var c := infos[i].kids[j];
      && base + i < c < base + |infos|
      && ChildPath(infos[c - base].path, infos[i].path)
  }

  ghost predicate ChildPath(path: seq<nat>, parent: seq<nat>) {
    |path| == |parent| + 1 && path[..|parent|] == parent
  }

  lemma DescendsConcat(a: seq<Info>, b: seq<Info>, base: nat)
    requires Descends(a, base) && Descends(b, base + |a|)
    ensures Descends(a + b, base)
  {
    var r := a + b;
    forall i, j | 0 <= i < |r| && 0 <= j < |r[i].kids|
      ensures var c := r[i].kids[j];
        base + i < c < base + |r| && ChildPath(r[c - base].path, r[i].path)
    {
      if i < |a| {
        assert r[i] == a[i];
      } else {
        assert r[i] == b[i - |a|];
      }
    }
  }

  lemma FirstPath(node: Node, path: seq<nat>, base: nat, clock: Clock, k: nat)
    ensures Size(node) > 0 && ChildPath(Records(node, path, base, clock, k)[0].path, path)
  {
  }

  lemma {:induction false} RootPaths(nodes: seq<Node>, path: seq<nat>, base: nat, clock: Clock, k: nat, j: nat)
    requires j < |Roots(nodes, base)|
    ensures var c := Roots(nodes, base)[j];
      && base <= c < base + SizeAll(nodes)
      && ChildPath(RecordsAll(nodes, path, base, clock, k)[c - base].path, path)
    decreases nodes, |nodes|
  {
    hide TraceOf, Records, Size;
    var one := Records(nodes[0], path, base, clock, k);
    var base', k' := base + Size(nodes[0]), k + |TraceOf(nodes[0])|;
    FirstPath(nodes[0], path, base, clock, k);
    if j == 0 {
      assert RecordsAll(nodes, path, base, clock, k)[0] == one[0];
    } else {
      RootPaths(nodes[1..], path, base', clock, k', j - 1);
      assert Roots(nodes, base)[j] == Roots(nodes[1..], base')[j - 1];
    }
  }

  lemma {:induction false} RecordsDescend(node: Node, path: seq<nat>, base: nat, clock: Clock, k: nat)
    ensures Descends(Records(node, path, base, clock, k), base)
    decreases node, 0
  {
    hide TraceOf;
    if node.SuiteNode? {
      var here, r := path + [node.id], Records(node, path, base, clock, k);
      var inner := RecordsAll(node.kids, here, base + 1, clock, k + 1);
      assert r == [r[0]] + inner;
      RecordsAllDescend(node.kids, here, base + 1, clock, k + 1);
      forall j | 0 <= j < |r[0].kids|
        ensures var c := r[0].kids[j]; base < c < base + |r| && ChildPath(r[c - base].path, r[0].path)
      {
        RootPaths(node.kids, here, base + 1, clock, k + 1, j);
        var c := r[0].kids[j];
        assert r[c - base] == inner[c - base - 1];
      }
      HeadDescends(r, inner, base);
    }
  }

  lemma HeadDescends(r: seq<Info>, inner: seq<Info>, base: nat)
    requires r != [] && r == [r[0]] + inner && Descends(inner, base + 1)
    requires forall j :: 0 <= j < |r[0].kids| ==>
      var c := r[0].kids[j]; base < c < base + |r| && ChildPath(r[c - base].path, r[0].path)
    ensures Descends(r, base)
  {
    forall i, j | 0 <= i < |r| && 0 <= j < |r[i].kids|
      ensures var c := r[i].kids[j];
        base + i < c < base + |r| && ChildPath(r[c - base].path, r[i].path)
    {
      if i > 0 {
        assert r[i] == inner[i - 1];
        var c := r[i].kids[j];
        assert r[c - base] == inner[c - (base + 1)];
      }
    }
  }

  lemma {:induction false} RecordsAllDescend(nodes: seq<Node>, path: seq<nat>, base: nat, clock: Clock, k: nat)
    ensures Descends(RecordsAll(nodes, path, base, clock, k), base)
    decreases nodes, |nodes|
  {
    hide TraceOf, Records, Descends;
    if nodes == [] {
      NoneDescend(base);
    } else {
      var base', k' := base + Size(nodes[0]), k + |TraceOf(nodes[0])|;
      RecordsDescend(nodes[0], path, base, clock, k);
      RecordsAllDescend(nodes[1..], path, base', clock, k');
      DescendsConcat(Records(nodes[0], path, base, clock, k), RecordsAll(nodes[1..], path, base', clock, k'), base);
    }
  }

  lemma NoneDescend(base: nat)
    ensures Descends([], base)
  {
  }

  /** The records left by any run are a preorder numbering: children have higher numbers
      and paths one longer, and every record is a root or has exactly one parent. */
  lemma PreorderNumbering(t: Test, stop: StopFlag, n: nat, clock: Clock, c: nat)
    ensures var forest := Executed(t, stop, n).0;
      var tests := RecordsAll(forest, [], 0, clock, 0);
      && Descends(tests, 0)
      && (c < |tests| ==> Parents(tests, c) + Count(Roots(forest, 0), c) == 1)
      && (c >= |tests| ==> Parents(tests, c) == 0)
  {
    var forest := Executed(t, stop, n).0;
    RecordsAllDescend(forest, [], 0, clock, 0);
    OneParentAll(forest, [], 0, clock, 0, c);
  }

  // ---------- Reading the forest back ----------

  function IdOf(info: Info): nat {
    if info.path == [] then 0 else info.path[|info.path| - 1]
  }

  /** The tree below a record, found by following the child numbers, as the listener does
      to print it. */
  function ReadBack(tests: seq<Info>, i: nat): Node
    requires i < |tests|
    decreases |tests| - i, 0
  {
    if tests[i].isSuite then SuiteNode(IdOf(tests[i]), ReadKids(tests, tests[i].kids, i))
    else CaseNode(IdOf(tests[i]), 0)
  }

  /** Numbers that do not lead onwards are left out. */
  function ReadKids(tests: seq<Info>, kids: seq<nat>, i: nat): seq<Node>
    requires i < |tests|
    decreases |tests| - i - 1, |kids| + 1
  {
    if kids == [] then []
    else (if i < kids[0] < |tests| then [ReadBack(tests, kids[0])] else []) + ReadKids(tests, kids[1..], i)
  }

  /** A tree without its failure reports, which are not recorded. */
  function Shape(node: Node): Node
    decreases node, 0
  {
    match node
    case CaseNode(id, _) => CaseNode(id, 0)
    case SuiteNode(id, kids) => SuiteNode(id, ShapeAll(kids))
  }

  function ShapeAll(nodes: seq<Node>): seq<Node>
    decreases nodes, |nodes|
  {
    if nodes == [] then [] else [Shape(nodes[0])] + ShapeAll(nodes[1..])
  }

  /** `part` is what `whole` holds from `base` on. */
  ghost predicate Holds(whole: seq<Info>, base: nat, part: seq<Info>) {
    base + |part| <= |whole| && whole[base..base + |part|] == part
  }

  lemma HoldsParts(whole: seq<Info>, base: nat, a: seq<Info>, b: seq<Info>)
    requires Holds(whole, base, a + b)
    ensures Holds(whole, base, a) && Holds(whole, base + |a|, b)
  {
    var w := whole[base..base + |a + b|];
    assert w[..|a|] == a && w[|a|..] == b;
    assert whole[base..base + |a|] == w[..|a|];
    assert whole[base + |a|..base + |a| + |b|] == w[|a|..];
  }

  lemma {:induction false} ReadBackRecords(whole: seq<Info>, node: Node, path: seq<nat>, base: nat, clock: Clock, k: nat)
    requires Holds(whole, base, Records(node, path, base, clock, k))
    ensures base < |whole| && ReadBack(whole, base) == Shape(node)
    decreases node, 0
  {
    hide TraceOf;
    var r := Records(node, path, base, clock, k);
    assert whole[base] == r[0] by { assert whole[base..base + |r|][0] == r[0]; }
    if node.SuiteNode? {
      var here := path + [node.id];
      var inner := RecordsAll(node.kids, here, base + 1, clock, k + 1);
      assert r == [r[0]] + inner;
      HoldsParts(whole, base, [r[0]], inner);
      ReadBackAll(whole, node.kids, here, base + 1, clock, k + 1, base);
    }
  }

  lemma {:induction false} ReadBackAll(whole: seq<Info>, nodes: seq<Node>, path: seq<nat>, base: nat,
                                       clock: Clock, k: nat, i: nat)
    requires i < base && i < |whole| && Holds(whole, base, RecordsAll(nodes, path, base, clock, k))
    ensures ReadKids(whole, Roots(nodes, base), i) == ShapeAll(nodes)
    decreases nodes, |nodes|
  {
    hide TraceOf, Records, ReadBack, Shape;
    if nodes != [] {
      var base', k' := base + Size(nodes[0]), k + |TraceOf(nodes[0])|;
      HoldsParts(whole, base, Records(nodes[0], path, base, clock, k), RecordsAll(nodes[1..], path, base', clock, k'));
      ReadBackRecords(whole, nodes[0], path, base, clock, k);
      ReadBackAll(whole, nodes[1..], path, base', clock, k', i);
      assert Roots(nodes, base)[0] == base && Roots(nodes, base)[1..] == Roots(nodes[1..], base');
    }
  }

  lemma {:induction false} ReadBackRoot(whole: seq<Info>, nodes: seq<Node>, path: seq<nat>, base: nat,
                                        clock: Clock, k: nat, j: nat)
    requires j < |nodes| == |Roots(nodes, base)| && Holds(whole, base, RecordsAll(nodes, path, base, clock, k))
    ensures var c := Roots(nodes, base)[j]; c < |whole| && ReadBack(whole, c) == Shape(nodes[j])
    decreases nodes, |nodes|
  {
    hide TraceOf, Records, ReadBack, Shape;
    var base', k' := base + Size(nodes[0]), k + |TraceOf(nodes[0])|;
    HoldsParts(whole, base, Records(nodes[0], path, base, clock, k), RecordsAll(nodes[1..], path, base', clock, k'));
    if j == 0 {
      ReadBackRecords(whole, nodes[0], path, base, clock, k);
    } else {
      assert Roots(nodes, base)[1..] == Roots(nodes[1..], base');
      ReadBackRoot(whole, nodes[1..], path, base', clock, k', j - 1);
    }
  }

  lemma {:induction false} RootsLength(nodes: seq<Node>, base: nat)
    ensures |Roots(nodes, base)| == |nodes|
  {
    if nodes != [] { RootsLength(nodes[1..], base + Size(nodes[0])); }
  }

  /** Round trip: following the child numbers from each root of a run gives back the
      trees that were executed. */
  lemma ReadBackRun(t: Test, stop: StopFlag, n: nat, clock: Clock, j: nat)
    requires j < |Executed(t, stop, n).0|
    ensures var forest := Executed(t, stop, n).0;
      var m := Feed(EMPTY, Run(t, stop, n).0, clock, 0);
      && m.Some? && |Roots(forest, 0)| == |forest|
      && var c := Roots(forest, 0)[j];
         c < |m.value.tests| && ReadBack(m.value.tests, c) == Shape(forest[j])
  {
    hide Feed, Run, Executed, ReadBack, Shape, RecordsAll;
    var forest := Executed(t, stop, n).0;
    Reconstruction(t, stop, n, clock);
    var tests := RecordsAll(forest, [], 0, clock, 0);
    assert tests[0..0 + |tests|] == tests;
    RootsLength(forest, 0);
    ReadBackRoot(tests, forest, [], 0, clock, 0, j);
  }

  // ---------- The program ----------

  /** The index of a test is that of its first record. */
  ghost predicate Indexed(tests: seq<Info>, indexes: map<nat, nat>) {
    && (forall i :: 0 <= i < |tests| ==> IdOf(tests[i]) in indexes)
    && forall id :: id in indexes ==>
         && indexes[id] < |tests| && IdOf(tests[indexes[id]]) == id
         && forall j :: 0 <= j < indexes[id] ==> IdOf(tests[j]) != id
  }

  lemma IndexedMore(a: seq<Info>, b: seq<Info>, indexes: map<nat, nat>, id: nat)
    requires Indexed(a, indexes) && |b| == |a| + 1 && IdOf(b[|a|]) == id
    requires forall i :: 0 <= i < |a| ==> IdOf(b[i]) == IdOf(a[i])
    ensures Indexed(b, if id in indexes then indexes else indexes[id := |a|])
  {
    hide IdOf;
  }

  lemma SameIds(m: Model, kids: seq<nat>, info: Info, id: nat)
    requires WellFormed(m) && info.path == m.path + [id]
    ensures var r := Linked(m, kids) + [info];
      IdOf(r[|m.tests|]) == id && forall i :: 0 <= i < |m.tests| ==> IdOf(r[i]) == IdOf(m.tests[i])
  {
  }

  lemma IndexedSame(a: seq<Info>, b: seq<Info>, indexes: map<nat, nat>)
    requires Indexed(a, indexes) && |b| == |a|
    requires forall i :: 0 <= i < |a| ==> IdOf(b[i]) == IdOf(a[i])
    ensures Indexed(b, indexes)
  {
    hide IdOf;
  }

  class ClockerModel {
    var currentPath: seq<nat>
    var testIndexes: seq<nat>
    var tests: seq<Info>
    var testToIndexes: map<nat, nat>
    var testCaseCount: nat
    var totalTestCaseTime: real

    ghost function Abs(): Model
      reads this
    {
      Model(currentPath, testIndexes, tests, testCaseCount, totalTestCaseTime)
    }

    ghost predicate Valid()
      reads this
    {
      WellFormed(Abs()) && Indexed(tests, testToIndexes)
    }

    constructor ()
      ensures Valid() && Abs() == EMPTY
    {
      currentPath, testIndexes, tests, testToIndexes := [], [], [], map[];
      testCaseCount, totalTestCaseTime := 0, 0.0;
    }

    method EnterTest(id: nat, isSuite: bool, now: real)
      requires Valid()
      modifies this
      ensures Valid() && Abs() == Enter(old(Abs()), id, isSuite, now)
    {
      hide Indexed, IdOf;
      ghost var before := Abs();
      currentPath := currentPath + [id];
      var testIndex := |tests|;
      if testIndexes != [] {
        var top := testIndexes[|testIndexes| - 1];
        tests := tests[top := tests[top].(kids := tests[top].kids + [testIndex])];
      }
      testIndexes := testIndexes + [testIndex];
      if id !in testToIndexes {
        testToIndexes := testToIndexes[id := testIndex];
      }
      tests := tests + [Info(currentPath, now, 0.0, isSuite, [])];
      if !isSuite {
        testCaseCount := testCaseCount + 1;
      }
      assert tests == Linked(before, [testIndex]) + [Info(currentPath, now, 0.0, isSuite, [])];
      SameIds(before, [testIndex], Info(currentPath, now, 0.0, isSuite, []), id);
      IndexedMore(old(tests), tests, old(testToIndexes), id);
    }

    /** The source takes the top of the stack without a test. */
    method ExitTest(isSuite: bool, now: real)
      requires Valid() && testIndexes != []
      modifies this
      ensures Valid() && Abs() == Exit(old(Abs()), isSuite, now)
    {
      hide Indexed;
      var top := testIndexes[|testIndexes| - 1];
      tests := tests[top := tests[top].(elapsed := now - tests[top].begin)];
      if !isSuite {
        totalTestCaseTime := totalTestCaseTime + tests[|tests| - 1].elapsed;
      }
      currentPath := currentPath[..|currentPath| - 1];
      testIndexes := testIndexes[..|testIndexes| - 1];
      IndexedSame(old(tests), tests, testToIndexes);
    }

    function IndexOf(id: nat): (i: int)
      requires Valid()
      reads this
      ensures i == -1 ==> forall j :: 0 <= j < |tests| ==> IdOf(tests[j]) != id
      ensures i != -1 ==> 0 <= i < |tests| && IdOf(tests[i]) == id
      ensures i != -1 ==> forall j :: 0 <= j < i ==> IdOf(tests[j]) != id
    {
      if id in testToIndexes then testToIndexes[id] else -1
    }
  }
}
