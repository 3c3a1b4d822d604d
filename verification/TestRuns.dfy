/** Running a tree of tests under a stop flag (TestComposite, TestCase, RepeatedTest),
    seen from the events the listeners get. */
module TestRuns {
  import opened Options

  /** `id` stands for the address of the object; `reports` for the failures that a
      case's run reports between its start and its end. */
  datatype Test =
    | Case(id: nat, reports: nat)
    | Suite(id: nat, children: seq<Test>)
    | Repeated(test: Test, times: int)

  datatype Event = StartSuite(id: nat) | EndSuite(id: nat) | StartTest(id: nat) | EndTest(id: nat) | Failed(id: nat)

  /** The answer to the n-th question whether to stop.  The flag can be set at any time
      and reset again, so any function will do. */
  type StopFlag = nat -> bool

  // ---------- Counting ----------

  function CountTestCases(t: Test): int
    decreases t, 0
  {
    match t
    case Case(_, _) => 1
    case Suite(_, children) => CountAll(children)
    case Repeated(test, times) => CountTestCases(test) * times
  }

  function CountAll(ts: seq<Test>): int
    decreases ts, |ts|
  {
    if ts == [] then 0 else CountTestCases(ts[0]) + CountAll(ts[1..])
  }

  ghost predicate NonNegative(t: Test) {
    match t
    case Case(_, _) => true
    case Suite(_, children) => forall i :: 0 <= i < |children| ==> NonNegative(children[i])
    case Repeated(test, times) => times >= 0 && NonNegative(test)
  }

  // ---------- The run ----------

  function Failures(id: nat, n: nat): seq<Event> {
    seq(n, _ => Failed(id))
  }

  /** The events of a run that starts after n questions, and the questions after it. */
  function Run(t: Test, stop: StopFlag, n: nat): (seq<Event>, nat)
    decreases t, 0
  {
    match t
    case Case(id, reports) => ([StartTest(id)] + Failures(id, reports) + [EndTest(id)], n)
    case Suite(id, children) =>
      var (trace, m) := RunAll(children, stop, n);
      ([StartSuite(id)] + trace + [EndSuite(id)], m)
    case Repeated(test, times) => RunTimes(test, times, stop, n)
  }

  function RunAll(ts: seq<Test>, stop: StopFlag, n: nat): (seq<Event>, nat)
    decreases ts, |ts|
  {
    if ts == [] then ([], n)
    else if stop(n) then ([], n + 1)
    else
      var (first, m) := Run(ts[0], stop, n + 1);
      var (rest, k) := RunAll(ts[1..], stop, m);
      (first + rest, k)
  }

  function RunTimes(t: Test, times: int, stop: StopFlag, n: nat): (seq<Event>, nat)
    decreases t, 1, times
  {
    if times <= 0 then ([], n)
    else if stop(n) then ([], n + 1)
    else
      var (first, m) := Run(t, stop, n + 1);
      var (rest, k) := RunTimes(t, times - 1, stop, m);
      (first + rest, k)
  }

  // ---------- Bracketing ----------

  /** Reads events against the stack of tests that are open.  Failures may only come
      from the case that is open innermost. */
  function Check(trace: seq<Event>, open: seq<Event>): Option<seq<Event>> {
    if trace == [] then Some(open)
    else
      var e, top := trace[0], |open| - 1;
      match e
      case StartSuite(_) => Check(trace[1..], open + [e])
      case StartTest(_) => Check(trace[1..], open + [e])
      case Failed(id) =>
        if top >= 0 && open[top] == StartTest(id) then Check(trace[1..], open) else None
      case EndTest(id) =>
        if top >= 0 && open[top] == StartTest(id) then Check(trace[1..], open[..top]) else None
      case EndSuite(id) =>
        if top >= 0 && open[top] == StartSuite(id) then Check(trace[1..], open[..top]) else None
  }

  ghost predicate WellBracketed(trace: seq<Event>) {
    Check(trace, []) == Some([])
  }

  lemma {:induction false} CheckFailures(id: nat, n: nat, rest: seq<Event>, open: seq<Event>)
    requires open != [] && open[|open| - 1] == StartTest(id)
    ensures Check(Failures(id, n) + rest, open) == Check(rest, open)
    decreases n
  {
    var fs := Failures(id, n);
    if n == 0 {
      assert fs + rest == rest;
    } else {
      assert fs[1..] == Failures(id, n - 1);
      assert (fs + rest)[1..] == fs[1..] + rest;
      CheckFailures(id, n - 1, rest, open);
    }
  }

  lemma CheckPair(start: Event, inner: seq<Event>, end: Event, rest: seq<Event>, open: seq<Event>)
    requires || (start.StartSuite? && end == EndSuite(start.id))
             || (start.StartTest? && end == EndTest(start.id))
    requires Check(inner + ([end] + rest), open + [start]) == Check([end] + rest, open + [start])
    ensures Check([start] + inner + [end] + rest, open) == Check(rest, open)
  {
    var all := [start] + inner + [end] + rest;
    assert all[1..] == inner + ([end] + rest);
    assert ([end] + rest)[1..] == rest;
    assert (open + [start])[..|open|] == open;
  }

  lemma {:induction false} RunCheck(t: Test, stop: StopFlag, n: nat, rest: seq<Event>, open: seq<Event>)
    ensures Check(Run(t, stop, n).0 + rest, open) == Check(rest, open)
    decreases t, 0
  {
    match t
    case Case(id, reports) =>
      CheckFailures(id, reports, [EndTest(id)] + rest, open + [StartTest(id)]);
      CheckPair(StartTest(id), Failures(id, reports), EndTest(id), rest, open);
    case Suite(id, children) =>
      var trace := RunAll(children, stop, n).0;
      RunAllCheck(children, stop, n, [EndSuite(id)] + rest, open + [StartSuite(id)]);
      CheckPair(StartSuite(id), trace, EndSuite(id), rest, open);
    case Repeated(test, times) =>
      RunTimesCheck(test, times, stop, n, rest, open);
  }

  lemma {:induction false} RunAllCheck(ts: seq<Test>, stop: StopFlag, n: nat, rest: seq<Event>, open: seq<Event>)
    ensures Check(RunAll(ts, stop, n).0 + rest, open) == Check(rest, open)
    decreases ts, |ts|
  {
    if ts == [] || stop(n) {
      assert [] + rest == rest;
    } else {
      var (first, m) := Run(ts[0], stop, n + 1);
      var more := RunAll(ts[1..], stop, m).0;
      assert first + more + rest == first + (more + rest);
      RunCheck(ts[0], stop, n + 1, more + rest, open);
      RunAllCheck(ts[1..], stop, m, rest, open);
    }
  }

  lemma {:induction false} RunTimesCheck(t: Test, times: int, stop: StopFlag, n: nat, rest: seq<Event>, open: seq<Event>)
    ensures Check(RunTimes(t, times, stop, n).0 + rest, open) == Check(rest, open)
    decreases t, 1, times
  {
    if times <= 0 || stop(n) {
      assert [] + rest == rest;
    } else {
      var (first, m) := Run(t, stop, n + 1);
      var more := RunTimes(t, times - 1, stop, m).0;
      assert first + more + rest == first + (more + rest);
      RunCheck(t, stop, n + 1, more + rest, open);
      RunTimesCheck(t, times - 1, stop, m, rest, open);
    }
  }

  /** Every run of every tree is well bracketed, however the stop flag behaves. */
  lemma RunIsWellBracketed(t: Test, stop: StopFlag, n: nat)
    ensures WellBracketed(Run(t, stop, n).0)
  {
    RunCheck(t, stop, n, [], []);
    assert Run(t, stop, n).0 + [] == Run(t, stop, n).0;
  }

  // ---------- The first stop ends a loop ----------

  function Concat(traces: seq<seq<Event>>): seq<Event> {
    if traces == [] then [] else traces[0] + Concat(traces[1..])
  }

  /** The questions a loop over `ts` asks and the traces between them: each test is run
      after a question answered with no, and the next question is the first one after that
      run.  A yes is the last answer, so no later test of the loop is run, whether or not
      the flag is reset. */
  ghost predicate StopsAtYes(ts: seq<Test>, stop: StopFlag, n: nat, qs: seq<nat>, traces: seq<seq<Event>>) {
    && |qs| == |traces| + 1 <= |ts| + 1 && qs[0] == n
    && (forall j :: 0 <= j < |traces| ==>
          !stop(qs[j]) && (traces[j], qs[j + 1]) == Run(ts[j], stop, qs[j] + 1))
    && (|traces| < |ts| ==> stop(qs[|traces|]))
  }

  lemma StopsAtYesMore(ts: seq<Test>, stop: StopFlag, n: nat, qs: seq<nat>, traces: seq<seq<Event>>)
    requires ts != [] && !stop(n)
    requires StopsAtYes(ts[1..], stop, Run(ts[0], stop, n + 1).1, qs, traces)
    ensures StopsAtYes(ts, stop, n, [n] + qs, [Run(ts[0], stop, n + 1).0] + traces)
  {
    hide Run;
    var qs', traces' := [n] + qs, [Run(ts[0], stop, n + 1).0] + traces;
    forall j | 0 <= j < |traces'|
      ensures !stop(qs'[j]) && (traces'[j], qs'[j + 1]) == Run(ts[j], stop, qs'[j] + 1)
    {
      if j > 0 {
        assert ts[j] == ts[1..][j - 1];
        assert (traces[j - 1], qs[j]) == Run(ts[1..][j - 1], stop, qs[j - 1] + 1);
      }
    }
  }

  lemma {:induction false} RunAllStops(ts: seq<Test>, stop: StopFlag, n: nat)
    returns (qs: seq<nat>, traces: seq<seq<Event>>)
    ensures StopsAtYes(ts, stop, n, qs, traces)
    ensures RunAll(ts, stop, n) == (Concat(traces), qs[|traces|] + if |traces| < |ts| then 1 else 0)
    decreases |ts|
  {
    hide Run;
    if ts == [] || stop(n) {
      qs, traces := [n], [];
    } else {
      var (first, m) := Run(ts[0], stop, n + 1);
      var qs', traces' := RunAllStops(ts[1..], stop, m);
      qs, traces := [n] + qs', [first] + traces';
      StopsAtYesMore(ts, stop, n, qs', traces');
    }
  }

  /** A repeated test is a loop over that many copies of it. */
  lemma {:induction false} RunTimesIsRunAll(t: Test, times: nat, stop: StopFlag, n: nat)
    ensures RunTimes(t, times, stop, n) == RunAll(seq(times, _ => t), stop, n)
    decreases times
  {
    hide Run;
    var ts := seq(times, _ => t);
    if times > 0 {
      assert ts[1..] == seq(times - 1, _ => t);
      if !stop(n) { RunTimesIsRunAll(t, times - 1, stop, Run(t, stop, n + 1).1); }
    }
  }

  // ---------- The tests that are started ----------

  /** The cases started, in order. */
  function Started(trace: seq<Event>): seq<nat> {
    if trace == [] then [] else StartOf(trace[0]) + Started(trace[1..])
  }

  function StartOf(e: Event): seq<nat> {
    if e.StartTest? then [e.id] else []
  }

  lemma {:induction false} StartedConcat(a: seq<Event>, b: seq<Event>)
    ensures Started(a + b) == Started(a) + Started(b)
  {
    hide StartOf;
    if a == [] {
      assert a + b == b;
    } else {
      assert (a + b)[1..] == a[1..] + b;
      StartedConcat(a[1..], b);
      assert StartOf(a[0]) + (Started(a[1..]) + Started(b)) == StartOf(a[0]) + Started(a[1..]) + Started(b);
    }
  }

  lemma {:induction false} StartedFailures(id: nat, n: nat)
    ensures Started(Failures(id, n)) == []
    decreases n
  {
    if n > 0 {
      assert Failures(id, n)[1..] == Failures(id, n - 1);
      StartedFailures(id, n - 1);
    }
  }

  /** All the cases of a tree, as an undisturbed run starts them. */
  function Cases(t: Test): seq<nat>
    decreases t, 0
  {
    match t
    case Case(id, _) => [id]
    case Suite(_, children) => CasesAll(children)
    case Repeated(test, times) => CasesTimes(test, times)
  }

  function CasesAll(ts: seq<Test>): seq<nat>
    decreases ts, |ts|
  {
    if ts == [] then [] else Cases(ts[0]) + CasesAll(ts[1..])
  }

  function CasesTimes(t: Test, times: int): seq<nat>
    decreases t, 1, times
  {
    if times <= 0 then [] else Cases(t) + CasesTimes(t, times - 1)
  }

  /** The tests started by a run: all of `full`, or a part of it cut off by a stop
      request that is still standing at the next question. */
  ghost predicate Truncates(started: seq<nat>, full: seq<nat>, stop: StopFlag, n: nat) {
    started == full || (started <= full && stop(n))
  }

  /** Once set, the flag stays set. */
  ghost predicate Sticky(stop: StopFlag) {
    forall i: nat, j: nat :: i <= j && stop(i) ==> stop(j)
  }

  lemma StartedOne(start: Event, inner: seq<Event>, end: Event)
    requires !end.StartTest?
    ensures Started([start] + inner + [end])
         == StartOf(start) + Started(inner)
  {
    StartedConcat([start] + inner, [end]);
    StartedConcat([start], inner);
    assert [start][1..] == [] && [end][1..] == [];
  }

  lemma CaseStarts(id: nat, reports: nat)
    ensures Started([StartTest(id)] + Failures(id, reports) + [EndTest(id)]) == [id]
  {
    StartedOne(StartTest(id), Failures(id, reports), EndTest(id));
    StartedFailures(id, reports);
  }

  lemma TruncateStep(a: seq<nat>, fullA: seq<nat>, m: nat, b: seq<nat>, fullB: seq<nat>, stop: StopFlag, k: nat)
    requires Truncates(a, fullA, stop, m) && Truncates(b, fullB, stop, k) && Sticky(stop) && m <= k
    requires stop(m) ==> b == []
    ensures Truncates(a + b, fullA + fullB, stop, k)
  {
    if stop(m) {
      assert stop(k);
      assert a + b == a;
      assert a <= fullA + fullB;
    } else if b != fullB {
      assert a + b <= fullA + fullB;
    }
  }

  /** A stop request that stands truncates the run: what has been started is a prefix of
      what would have been, and all of it if no request is standing at the end. */
  lemma {:induction false} RunTruncates(t: Test, stop: StopFlag, n: nat)
    requires Sticky(stop)
    ensures var (trace, m) := Run(t, stop, n); m >= n && Truncates(Started(trace), Cases(t), stop, m)
    decreases t, 0
  {
    match t
    case Case(id, reports) => CaseStarts(id, reports);
    case Suite(id, children) =>
      RunAllTruncates(children, stop, n);
      StartedOne(StartSuite(id), RunAll(children, stop, n).0, EndSuite(id));
    case Repeated(test, times) => RunTimesTruncates(test, times, stop, n);
  }

  lemma {:induction false} RunAllTruncates(ts: seq<Test>, stop: StopFlag, n: nat)
    requires Sticky(stop)
    ensures var (trace, m) := RunAll(ts, stop, n);
      m >= n && Truncates(Started(trace), CasesAll(ts), stop, m)
    ensures stop(n) ==> Started(RunAll(ts, stop, n).0) == []
    decreases ts, |ts|
  {
    if ts != [] && !stop(n) {
      var (first, m) := Run(ts[0], stop, n + 1);
      var (rest, k) := RunAll(ts[1..], stop, m);
      RunTruncates(ts[0], stop, n + 1);
      RunAllTruncates(ts[1..], stop, m);
      StartedConcat(first, rest);
      TruncateStep(Started(first), Cases(ts[0]), m, Started(rest), CasesAll(ts[1..]), stop, k);
    }
  }

  lemma {:induction false} RunTimesTruncates(t: Test, times: int, stop: StopFlag, n: nat)
    requires Sticky(stop)
    ensures var (trace, m) := RunTimes(t, times, stop, n);
      m >= n && Truncates(Started(trace), CasesTimes(t, times), stop, m)
    ensures stop(n) ==> Started(RunTimes(t, times, stop, n).0) == []
    decreases t, 1, times
  {
    if times > 0 && !stop(n) {
      var (first, m) := Run(t, stop, n + 1);
      var (rest, k) := RunTimes(t, times - 1, stop, m);
      RunTruncates(t, stop, n + 1);
      RunTimesTruncates(t, times - 1, stop, m);
      StartedConcat(first, rest);
      TruncateStep(Started(first), Cases(t), m, Started(rest), CasesTimes(t, times - 1), stop, k);
    }
  }

  // ---------- ... and how many ----------

  lemma {:induction false} CasesCounted(t: Test)
    requires NonNegative(t)
    ensures |Cases(t)| == CountTestCases(t)
    decreases t, 0
  {
    match t
    case Case(_, _) =>
    case Suite(_, children) => CasesAllCounted(children);
    case Repeated(test, times) => CasesTimesCounted(test, times);
  }

  lemma {:induction false} CasesAllCounted(ts: seq<Test>)
    requires forall i :: 0 <= i < |ts| ==> NonNegative(ts[i])
    ensures |CasesAll(ts)| == CountAll(ts)
    decreases ts, |ts|
  {
    if ts != [] {
      CasesCounted(ts[0]);
      CasesAllCounted(ts[1..]);
    }
  }

  lemma {:induction false} CasesTimesCounted(t: Test, times: int)
    requires NonNegative(t) && times >= 0
    ensures |CasesTimes(t, times)| == CountTestCases(t) * times
    decreases t, 1, times
  {
    if times > 0 {
      CasesCounted(t);
      CasesTimesCounted(t, times - 1);
      assert CountTestCases(t) * times == CountTestCases(t) * (times - 1) + CountTestCases(t);
    }
  }

  /** However the flag behaves, even set and reset, no run starts more cases than a tree
      has; one that is never asked to stop starts each of them, in order. */
  lemma {:induction false} RunStartsAtMost(t: Test, stop: StopFlag, n: nat)
    ensures |Started(Run(t, stop, n).0)| <= |Cases(t)|
    ensures (forall i: nat :: !stop(i)) ==> Started(Run(t, stop, n).0) == Cases(t)
    decreases t, 0
  {
    match t
    case Case(id, reports) => CaseStarts(id, reports);
    case Suite(id, children) =>
      RunAllStartsAtMost(children, stop, n);
      StartedOne(StartSuite(id), RunAll(children, stop, n).0, EndSuite(id));
    case Repeated(test, times) => RunTimesStartsAtMost(test, times, stop, n);
  }

  lemma {:induction false} RunAllStartsAtMost(ts: seq<Test>, stop: StopFlag, n: nat)
    ensures |Started(RunAll(ts, stop, n).0)| <= |CasesAll(ts)|
    ensures (forall i: nat :: !stop(i)) ==> Started(RunAll(ts, stop, n).0) == CasesAll(ts)
    decreases ts, |ts|
  {
    if ts != [] && !stop(n) {
      var (first, m) := Run(ts[0], stop, n + 1);
      RunStartsAtMost(ts[0], stop, n + 1);
      RunAllStartsAtMost(ts[1..], stop, m);
      StartedConcat(first, RunAll(ts[1..], stop, m).0);
    }
  }

  lemma {:induction false} RunTimesStartsAtMost(t: Test, times: int, stop: StopFlag, n: nat)
    ensures |Started(RunTimes(t, times, stop, n).0)| <= |CasesTimes(t, times)|
    ensures (forall i: nat :: !stop(i)) ==> Started(RunTimes(t, times, stop, n).0) == CasesTimes(t, times)
    decreases t, 1, times
  {
    if times > 0 && !stop(n) {
      var (first, m) := Run(t, stop, n + 1);
      RunStartsAtMost(t, stop, n + 1);
      RunTimesStartsAtMost(t, times - 1, stop, m);
      StartedConcat(first, RunTimes(t, times - 1, stop, m).0);
    }
  }

  /** With non-negative repeats, countTestCases is what an undisturbed run starts and a
      bound for every other run. */
  lemma RunStartsCounted(t: Test, stop: StopFlag, n: nat)
    requires NonNegative(t)
    ensures |Started(Run(t, stop, n).0)| <= CountTestCases(t)
    ensures (forall i: nat :: !stop(i)) ==> |Started(Run(t, stop, n).0)| == CountTestCases(t)
  {
    CasesCounted(t);
    RunStartsAtMost(t, stop, n);
  }

  /** Repeating a test that has cases keeps the count right exactly when the repeat is
      not negative. */
  lemma RepeatCountsIff(t: Test, times: int)
    requires NonNegative(t)
    ensures |Cases(Repeated(t, times))| == CountTestCases(Repeated(t, times))
       <==> times >= 0 || CountTestCases(t) == 0
  {
    CasesCounted(t);
    if times >= 0 {
      CasesTimesCounted(t, times);
    } else if CountTestCases(t) > 0 {
      NegativeProduct(CountTestCases(t), times);
    }
  }

  lemma NegativeProduct(a: int, b: int)
    requires a > 0 && b < 0
    ensures a * b < 0
  {
  }

  /** No negative repeat inside a negative repeat. */
  ghost predicate Single(t: Test) {
    match t
    case Case(_, _) => true
    case Suite(_, children) => forall i :: 0 <= i < |children| ==> Single(children[i])
    case Repeated(test, times) => if times < 0 then NonNegative(test) else Single(test)
  }

  /** Every negative repeat has nothing to repeat, or stands in something that is repeated
      no times. */
  ghost predicate Harmless(t: Test) {
    match t
    case Case(_, _) => true
    case Suite(_, children) => forall i :: 0 <= i < |children| ==> Harmless(children[i])
    case Repeated(test, times) => if times < 0 then Cases(test) == [] else times == 0 || Harmless(test)
  }

  lemma {:induction false} CasesTimesLength(t: Test, times: nat)
    ensures |CasesTimes(t, times)| == |Cases(t)| * times
    decreases times
  {
    if times > 0 {
      CasesTimesLength(t, times - 1);
      assert |Cases(t)| * times == |Cases(t)| * (times - 1) + |Cases(t)|;
    }
  }

  lemma Scaled(a: int, b: int, c: nat)
    requires a <= b
    ensures a * c <= b * c && (a * c == b * c <==> c == 0 || a == b)
  {
    if c > 0 && a < b { NegativeProduct(c, a - b); }
  }

  /** The count is never too high, and it is right exactly when the negative repeats are
      harmless. */
  lemma {:induction false} SingleCounts(t: Test)
    requires Single(t)
    ensures CountTestCases(t) <= |Cases(t)|
    ensures CountTestCases(t) == |Cases(t)| <==> Harmless(t)
    decreases t, 0
  {
    match t
    case Case(_, _) =>
    case Suite(_, children) => SingleCountsAll(children);
    case Repeated(test, times) =>
      if times < 0 {
        CasesCounted(test);
        if Cases(test) != [] { NegativeProduct(CountTestCases(test), times); }
      } else {
        SingleCounts(test);
        CasesTimesLength(test, times);
        Scaled(CountTestCases(test), |Cases(test)|, times);
      }
  }

  lemma {:induction false} SingleCountsAll(ts: seq<Test>)
    requires forall i :: 0 <= i < |ts| ==> Single(ts[i])
    ensures CountAll(ts) <= |CasesAll(ts)|
    ensures CountAll(ts) == |CasesAll(ts)| <==> forall i :: 0 <= i < |ts| ==> Harmless(ts[i])
    decreases ts, |ts|
  {
    if ts != [] {
      SingleCounts(ts[0]);
      SingleCountsAll(ts[1..]);
      assert forall i :: 1 <= i < |ts| ==> ts[i] == ts[1..][i - 1];
    }
  }

  /** So an undisturbed run starts the cases that were counted if and only if every
      negative repeat is harmless. */
  lemma CountIsRightIff(t: Test, stop: StopFlag, n: nat)
    requires Single(t) && forall i: nat :: !stop(i)
    ensures |Started(Run(t, stop, n).0)| >= CountTestCases(t)
    ensures |Started(Run(t, stop, n).0)| == CountTestCases(t) <==> Harmless(t)
  {
    RunStartsAtMost(t, stop, n);
    SingleCounts(t);
  }

  /** With one negative repeat inside another the signs cancel, and the count is too high. */
  lemma DoubleNegativeMiscounts()
    ensures var t := Repeated(Repeated(Case(0, 0), -1), -1);
      Cases(t) == [] && CountTestCases(t) == 1
  {
    var inner := Repeated(Case(0, 0), -1);
    assert CountTestCases(inner) == CountTestCases(Case(0, 0)) * -1;
    assert CountTestCases(Repeated(inner, -1)) == CountTestCases(inner) * -1;
  }

  /** With a negative repeat the count is no bound. */
  lemma NegativeRepeatMiscounts()
    ensures var t := Repeated(Case(0, 0), -1);
      forall stop: StopFlag :: |Started(Run(t, stop, 0).0)| > CountTestCases(t)
  {
    var t := Repeated(Case(0, 0), -1);
    assert CountTestCases(t) == CountTestCases(Case(0, 0)) * -1 == -1;
  }

  // ---------- The program ----------

  /** The part of TestResult that a run touches. */
  class TestResult {
    const stop: StopFlag
    var questions: nat
    var log: seq<Event>

    constructor (flag: StopFlag)
      ensures stop == flag && questions == 0 && log == []
    {
      stop := flag;
      questions, log := 0, [];
    }

    method ShouldStop() returns (b: bool)
      modifies this
      ensures b == stop(old(questions)) && questions == old(questions) + 1 && log == old(log)
    {
      b := stop(questions);
      questions := questions + 1;
    }

    method Emit(e: Event)
      modifies this
      ensures log == old(log) + [e] && questions == old(questions)
    {
      log := log + [e];
    }
  }

  method RunTest(t: Test, result: TestResult)
    modifies result
    ensures var (trace, n) := Run(t, result.stop, old(result.questions));
      result.log == old(result.log) + trace && result.questions == n
    decreases t, 0
  {
    match t
    case Case(id, reports) =>
      result.Emit(StartTest(id));
      var i := 0;
      while i < reports
        invariant 0 <= i <= reports && result.questions == old(result.questions)
        invariant result.log == old(result.log) + ([StartTest(id)] + Failures(id, i))
      {
        assert Failures(id, i + 1) == Failures(id, i) + [Failed(id)];
        result.Emit(Failed(id));
        i := i + 1;
      }
      result.Emit(EndTest(id));
    case Suite(id, children) =>
      result.Emit(StartSuite(id));
      RunChildTests(children, result);
      result.Emit(EndSuite(id));
    case Repeated(test, times) =>
      RunRepeatedly(test, times, result);
  }

  /** doRunChildTests. */
  method RunChildTests(children: seq<Test>, result: TestResult)
    modifies result
    ensures var (trace, n) := RunAll(children, result.stop, old(result.questions));
      result.log == old(result.log) + trace && result.questions == n
    decreases children, |children| + 1
  {
    hide Run;
    ghost var (full, end) := RunAll(children, result.stop, result.questions);
    ghost var start, done := result.log, [];
    var index := 0;
    assert children[0..] == children;
    while index < |children|
      invariant 0 <= index <= |children| && result.log == start + done
      invariant var (more, k) := RunAll(children[index..], result.stop, result.questions);
        full == done + more && end == k
    {
      var stopping := result.ShouldStop();
      if stopping {
        break;
      }
      assert children[index..][1..] == children[index + 1..];
      ghost var (first, m) := Run(children[index], result.stop, result.questions);
      ghost var more := RunAll(children[index + 1..], result.stop, m).0;
      assert done + (first + more) == done + first + more;
      RunTest(children[index], result);
      done := done + first;
      index := index + 1;
    }
  }

  method RunRepeatedly(test: Test, times: int, result: TestResult)
    modifies result
    ensures var (trace, n) := RunTimes(test, times, result.stop, old(result.questions));
      result.log == old(result.log) + trace && result.questions == n
    decreases test, 1
  {
    hide Run;
    ghost var (full, end) := RunTimes(test, times, result.stop, result.questions);
    ghost var start, done := result.log, [];
    var n := 0;
    while n < times
      invariant 0 <= n && (n <= times || n == 0) && result.log == start + done
      invariant var (more, k) := RunTimes(test, times - n, result.stop, result.questions);
        full == done + more && end == k
    {
      var stopping := result.ShouldStop();
      if stopping {
        break;
      }
      ghost var (first, m) := Run(test, result.stop, result.questions);
      ghost var more := RunTimes(test, times - n - 1, result.stop, m).0;
      assert done + (first + more) == done + first + more;
      RunTest(test, result);
      done := done + first;
      n := n + 1;
    }
  }
}
