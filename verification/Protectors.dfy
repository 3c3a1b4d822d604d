/** Running a test method under a chain of protectors (ProtectorChain,
    DefaultProtector, TestCase). */
module Protectors {

  /** The three kinds of exception the default protector tells apart. */
  datatype Thrown = AssertionFailed | StandardException | UnknownException

  /** What calling a functor comes to. */
  datatype Outcome = Returned(success: bool) | Threw(exception: Thrown)

  datatype Phase = SetUp | RunTest | TearDown

  /** What a listener is told about a test: a failure, or an error of one of two kinds,
      with the short description of the phase it came from. */
  datatype Report = Report(phase: Phase, exception: Thrown, isError: bool)

  /** What the listeners are told while a test runs. */
  datatype Notice = Started | Reported(report: Report) | Finished

  /** Everything a test method or a protector can see or change; `memory` stands for
      all of it that is not what the listeners have been told. */
  datatype World = World(memory: nat, told: seq<Notice>)

  function Tell(w: World, notice: Notice): World {
    w.(told := w.told + [notice])
  }

  type Functor = World -> (Outcome, World)

  /** A protector decides what to do with a functor: call it once, never or often, and
      let exceptions through or not. */
  type Protector = (Functor, Phase, World) -> (Outcome, World)

  // ---------- The chain ----------

  /** ProtectFunctor: the functor that hands another functor to a protector. */
  function Guard(p: Protector, f: Functor, phase: Phase): Functor {
    w => p(f, phase, w)
  }

  /** The first protector pushed is the outermost. */
  function Nested(ps: seq<Protector>, f: Functor, phase: Phase): Functor {
    if ps == [] then f else Guard(ps[0], Nested(ps[1..], f, phase), phase)
  }

  function Caught(phase: Phase, e: Thrown): Report {
    Report(phase, e, e != AssertionFailed)
  }

  /** DefaultProtector: calls the functor and turns any exception into a report. */
  function Default(f: Functor, phase: Phase, w: World): (Outcome, World) {
    var (outcome, after) := f(w);
    match outcome
    case Returned(_) => (outcome, after)
    case Threw(e) => (Returned(false), Tell(after, Reported(Caught(phase, e))))
  }

  /** What the default protector makes of a call: an outcome that is returned goes through;
      an exception becomes one report, a failure if it is an assertion's and an error
      otherwise, and the answer false. */
  lemma DefaultReportsOnce(f: Functor, phase: Phase, w: World)
    ensures f(w).0.Returned? ==> Default(f, phase, w) == f(w)
    ensures f(w).0.Threw? ==>
      var e, after := f(w).0.exception, f(w).1;
      var isError := e.StandardException? || e.UnknownException?;
      Default(f, phase, w) == (Returned(false), World(after.memory, after.told + [Reported(Report(phase, e, isError))]))
  {
  }

  /** With the default protector at the bottom of the stack, nothing any test method or
      any other protector throws gets out. */
  lemma NothingEscapes(ps: seq<Protector>, f: Functor, phase: Phase, w: World)
    requires ps != [] && ps[0] == Default
    ensures Nested(ps, f, phase)(w).0.Returned?
    ensures Nested(ps, f, phase)(w) == Default(Nested(ps[1..], f, phase), phase, w)
  {
    OutermostFirst(ps, f, phase, w);
  }

  /** The first protector is called first, with the functor in which the others wait. */
  lemma OutermostFirst(ps: seq<Protector>, f: Functor, phase: Phase, w: World)
    ensures ps == [] ==> Nested(ps, f, phase)(w) == f(w)
    ensures ps != [] ==> Nested(ps, f, phase)(w) == ps[0](Nested(ps[1..], f, phase), phase, w)
  {
  }

  /** Pushing a protector puts it next to the functor, inside all the others. */
  lemma {:induction false} PushedIsInnermost(ps: seq<Protector>, p: Protector, f: Functor, phase: Phase)
    ensures Nested(ps + [p], f, phase) == Nested(ps, Guard(p, f, phase), phase)
    ensures forall w :: Guard(p, f, phase)(w) == p(f, phase, w)
  {
    if ps == [] {
      assert ps + [p] == [p];
      assert [p][1..] == [];
    } else {
      assert (ps + [p])[1..] == ps[1..] + [p];
      PushedIsInnermost(ps[1..], p, f, phase);
    }
  }

  class ProtectorChain {
    var protectors: seq<Protector>

    constructor ()
      ensures protectors == []
    {
      protectors := [];
    }

    method Push(p: Protector)
      modifies this
      ensures protectors == old(protectors) + [p]
    {
      protectors := protectors + [p];
    }

    /** The source does not test for an empty chain here. */
    method Pop()
      requires protectors != []
      modifies this
      ensures protectors == old(protectors)[..|old(protectors)| - 1]
    {
      protectors := protectors[..|protectors| - 1];
    }

    /** Builds the functors from the innermost out and calls the outermost. */
    method Protect(f: Functor, phase: Phase, w: World) returns (outcome: Outcome, after: World)
      ensures (outcome, after) == Nested(protectors, f, phase)(w)
    {
      if protectors == [] {
        var r := f(w);
        return r.0, r.1;
      }
      var functors: seq<Functor> := [];
      var index := |protectors| - 1;
      assert protectors[|protectors|..] == [];
      while index >= 0
        invariant -1 <= index < |protectors|
        invariant functors == [] ==> index == |protectors| - 1
        invariant functors != [] ==> functors[|functors| - 1] == Nested(protectors[index + 1..], f, phase)
        invariant functors == [] <==> index == |protectors| - 1
      {
        var protectedFunctor := if functors == [] then f else functors[|functors| - 1];
        assert protectors[index..][1..] == protectors[index + 1..];
        functors := functors + [Guard(protectors[index], protectedFunctor, phase)];
        index := index - 1;
      }
      assert protectors[0..] == protectors;
      var r := functors[|functors| - 1](w);
      return r.0, r.1;
    }
  }

  // ---------- A test case ----------

  /** The three methods of a test case: each ends, or throws. */
  datatype Body = Body(setUp: Method, runTest: Method, tearDown: Method)

  type Method = World -> (MethodEnd, World)

  datatype MethodEnd = Ended | Raised(exception: Thrown)

  /** TestCaseMethodFunctor: a method that ends counts as a success. */
  function CallOf(m: Method): Functor {
    w => (OutcomeOf(m(w).0), m(w).1)
  }

  function OutcomeOf(end: MethodEnd): Outcome {
    match end
    case Ended => Returned(true)
    case Raised(e) => Threw(e)
  }

  /** What the framework itself does, in order. */
  datatype Step = StartTest | Attempt(phase: Phase) | EndTest

  /** How a run of a case ends: an exception that escapes the chain ends it early. */
  datatype CaseRun = CaseRun(steps: seq<Step>, escaped: bool, world: World)

  function Protected(ps: seq<Protector>, m: Method, phase: Phase, w: World): (Outcome, World) {
    Nested(ps, CallOf(m), phase)(w)
  }

  /** TestCase::run. */
  function RunCase(ps: seq<Protector>, b: Body, w: World): CaseRun {
    var (o1, w1) := Protected(ps, b.setUp, SetUp, Tell(w, Started));
    var begun := [StartTest, Attempt(SetUp)];
    if o1.Threw? then CaseRun(begun, true, w1)
    else
      var (o2, w2) := if o1.success then Protected(ps, b.runTest, RunTest, w1) else (Returned(false), w1);
      var tried := if o1.success then begun + [Attempt(RunTest)] else begun;
      if o2.Threw? then CaseRun(tried, true, w2)
      else
        var (o3, w3) := Protected(ps, b.tearDown, TearDown, w2);
        if o3.Threw? then CaseRun(tried + [Attempt(TearDown)], true, w3)
        else CaseRun(tried + [Attempt(TearDown), EndTest], false, Tell(w3, Finished))
  }

  /** The program: an exception that escapes leaves the method where it stands. */
  method RunTestCase(chain: ProtectorChain, b: Body, w: World) returns (r: CaseRun)
    ensures r == RunCase(chain.protectors, b, w)
  {
    hide Nested, CallOf;
    var steps := [StartTest];
    steps := steps + [Attempt(SetUp)];
    assert steps == [StartTest, Attempt(SetUp)];
    var outcome, world := chain.Protect(CallOf(b.setUp), SetUp, Tell(w, Started));
    if outcome.Threw? {
      return CaseRun(steps, true, world);
    }
    if outcome.success {
      steps := steps + [Attempt(RunTest)];
      outcome, world := chain.Protect(CallOf(b.runTest), RunTest, world);
      if outcome.Threw? {
        return CaseRun(steps, true, world);
      }
    }
    steps := steps + [Attempt(TearDown)];
    outcome, world := chain.Protect(CallOf(b.tearDown), TearDown, world);
    if outcome.Threw? {
      return CaseRun(steps, true, world);
    }
    ghost var tried := steps[..|steps| - 1];
    assert tried + [Attempt(TearDown)] == steps;
    steps := steps + [EndTest];
    assert steps == tried + [Attempt(TearDown), EndTest];
    return CaseRun(steps, false, Tell(world, Finished));
  }

  /** The steps of a case run that is not cut short. */
  function WholeRun(ran: bool): seq<Step> {
    if ran then [StartTest, Attempt(SetUp), Attempt(RunTest), Attempt(TearDown), EndTest]
    else [StartTest, Attempt(SetUp), Attempt(TearDown), EndTest]
  }

  lemma ProtectedReturns(ps: seq<Protector>, m: Method, phase: Phase, w: World)
    requires ps != [] && ps[0] == Default
    ensures Protected(ps, m, phase, w).0.Returned?
  {
    NothingEscapes(ps, CallOf(m), phase, w);
  }

  lemma WholeRunCounts(ran: bool)
    ensures multiset(WholeRun(ran))[Attempt(TearDown)] == multiset(WholeRun(ran))[EndTest] == 1
  {
  }

  lemma WholeRunSteps(ran: bool)
    ensures WholeRun(ran) == (if ran then [StartTest, Attempt(SetUp)] + [Attempt(RunTest)]
                              else [StartTest, Attempt(SetUp)]) + [Attempt(TearDown), EndTest]
  {
  }

  /** What the chain makes of a test method, by the outcome the method has. */
  lemma CallIsMethod(m: Method, w: World)
    ensures CallOf(m)(w).1 == m(w).1
    ensures CallOf(m)(w).0 == (match m(w).0 case Ended => Returned(true) case Raised(e) => Threw(e))
  {
  }

  /** Whatever the methods and the other protectors do, a case run under the default
      protector is never cut short: it calls setUp once, runTest exactly when setUp
      reported success, tearDown exactly once, each on what the one before left behind,
      and ends with endTest. */
  lemma CaseRunIsContained(ps: seq<Protector>, b: Body, w: World)
    requires ps != [] && ps[0] == Default
    ensures var r := RunCase(ps, b, w);
      var (o1, w1) := Nested(ps, CallOf(b.setUp), SetUp)(World(w.memory, w.told + [Started]));
      var w2 := if o1 == Returned(true) then Nested(ps, CallOf(b.runTest), RunTest)(w1).1 else w1;
      var w3 := Nested(ps, CallOf(b.tearDown), TearDown)(w2).1;
      && !r.escaped && r.world == World(w3.memory, w3.told + [Finished])
      && r.steps == WholeRun(o1 == Returned(true))
      && multiset(r.steps)[Attempt(TearDown)] == multiset(r.steps)[EndTest] == 1
  {
    hide Nested, Default, WholeRun, CallOf;
    var (o1, w1) := Protected(ps, b.setUp, SetUp, Tell(w, Started));
    ProtectedReturns(ps, b.setUp, SetUp, Tell(w, Started));
    ProtectedReturns(ps, b.runTest, RunTest, w1);
    var (o2, w2) := if o1.success then Protected(ps, b.runTest, RunTest, w1) else (Returned(false), w1);
    ProtectedReturns(ps, b.tearDown, TearDown, w2);
    WholeRunSteps(o1.success);
    WholeRunCounts(o1.success);
  }

  /** Without it, an exception that escapes ends the run where it stands: what comes later,
      tearDown and endTest included, is not reached. */
  lemma EscapeCutsShort(ps: seq<Protector>, b: Body, w: World)
    ensures var (o1, w1) := Nested(ps, CallOf(b.setUp), SetUp)(World(w.memory, w.told + [Started]));
      var (o2, w2) := if o1 == Returned(true) then Nested(ps, CallOf(b.runTest), RunTest)(w1) else (Returned(false), w1);
      var (o3, w3) := Nested(ps, CallOf(b.tearDown), TearDown)(w2);
      var r := RunCase(ps, b, w);
      && (o1.Threw? ==> r == CaseRun([StartTest, Attempt(SetUp)], true, w1))
      && (!o1.Threw? && o2.Threw? ==> r == CaseRun([StartTest, Attempt(SetUp), Attempt(RunTest)], true, w2))
      && (!o1.Threw? && !o2.Threw? ==> r.escaped == o3.Threw? && (o3.Threw? ==> r.world == w3))
      && (r.escaped ==> EndTest !in r.steps)
  {
    hide Nested, CallOf;
  }

  /** After a method has ended, or its exception has been reported: a failure if an
      assertion failed, an error otherwise. */
  ghost function Noted(end: MethodEnd, phase: Phase, after: World): World {
    match end
    case Ended => after
    case Raised(AssertionFailed) => World(after.memory, after.told + [Reported(Report(phase, AssertionFailed, false))])
    case Raised(e) => World(after.memory, after.told + [Reported(Report(phase, e, true))])
  }

  lemma DefaultCall(m: Method, phase: Phase, w: World)
    ensures Protected([Default], m, phase, w) == (Returned(m(w).0 == Ended), Noted(m(w).0, phase, m(w).1))
  {
    NothingEscapes([Default], CallOf(m), phase, w);
    assert [Default][1..] == [];
  }

  /** Under the default protector alone: setUp, then runTest if setUp ended, then tearDown,
      and each method that throws adds one report, in the order of the calls. */
  lemma DefaultCaseRun(b: Body, w: World)
    ensures var (e1, a1) := b.setUp(World(w.memory, w.told + [Started]));
      var w1 := Noted(e1, SetUp, a1);
      var (e2, a2) := b.runTest(w1);
      var w2 := if e1 == Ended then Noted(e2, RunTest, a2) else w1;
      var (e3, a3) := b.tearDown(w2);
      var w3 := Noted(e3, TearDown, a3);
      RunCase([Default], b, w).world == World(w3.memory, w3.told + [Finished])
  {
    hide Nested, Noted, Protected;
    var (e1, a1) := b.setUp(World(w.memory, w.told + [Started]));
    var w1 := Noted(e1, SetUp, a1);
    var (e2, a2) := b.runTest(w1);
    var w2 := if e1 == Ended then Noted(e2, RunTest, a2) else w1;
    DefaultCall(b.setUp, SetUp, Tell(w, Started));
    DefaultCall(b.runTest, RunTest, w1);
    DefaultCall(b.tearDown, TearDown, w2);
  }

  // ---------- What the listeners get to see of a case ----------

  /** Between two states the listeners were told of failures and errors only. */
  ghost predicate OnlyReports(w: World, w': World) {
    && |w.told| <= |w'.told| && w'.told[..|w.told|] == w.told
    && forall i :: |w.told| <= i < |w'.told| ==> w'.told[i].Reported?
  }

  ghost predicate FunctorReports(f: Functor) {
    forall w :: OnlyReports(w, f(w).1)
  }

  /** A protector that tells the listeners nothing but reports, if its functor does not. */
  ghost predicate ProtectorReports(p: Protector) {
    forall f, phase, w :: FunctorReports(f) ==> OnlyReports(w, p(f, phase, w).1)
  }

  ghost predicate BodyReports(b: Body) {
    && FunctorReports(CallOf(b.setUp))
    && FunctorReports(CallOf(b.runTest))
    && FunctorReports(CallOf(b.tearDown))
  }

  lemma ReportsInTurn(w: World, w1: World, w2: World)
    requires OnlyReports(w, w1) && OnlyReports(w1, w2)
    ensures OnlyReports(w, w2)
  {
    forall i | |w.told| <= i < |w2.told| ensures w2.told[i].Reported? {
      if i < |w1.told| { assert w2.told[i] == w2.told[..|w1.told|][i] == w1.told[i]; }
    }
    assert w2.told[..|w.told|] == w2.told[..|w1.told|][..|w.told|];
  }

  lemma DefaultReports()
    ensures ProtectorReports(Default)
  {
    forall f: Functor, phase: Phase, w: World | FunctorReports(f)
      ensures OnlyReports(w, Default(f, phase, w).1)
    {
      assert OnlyReports(w, f(w).1);
    }
  }

  lemma {:induction false} NestedReports(ps: seq<Protector>, f: Functor, phase: Phase)
    requires FunctorReports(f) && forall i :: 0 <= i < |ps| ==> ProtectorReports(ps[i])
    ensures FunctorReports(Nested(ps, f, phase))
  {
    if ps != [] {
      var inner := Nested(ps[1..], f, phase);
      NestedReports(ps[1..], f, phase);
      assert ProtectorReports(ps[0]);
      forall w ensures OnlyReports(w, Nested(ps, f, phase)(w).1) {
        assert Nested(ps, f, phase)(w) == ps[0](inner, phase, w);
      }
    }
  }

  lemma ChainReports(ps: seq<Protector>, m: Method, phase: Phase, w: World)
    requires FunctorReports(CallOf(m)) && forall i :: 0 <= i < |ps| ==> ProtectorReports(ps[i])
    ensures OnlyReports(w, Nested(ps, CallOf(m), phase)(w).1)
  {
    hide OnlyReports;
    NestedReports(ps, CallOf(m), phase);
  }

  /** What has been told since: a start, reports, a finish. */
  ghost predicate Bracketed(before: seq<Notice>, told: seq<Notice>) {
    var n := |before|;
    && |told| >= n + 2 && told[..n] == before
    && told[n] == Started && told[|told| - 1] == Finished
    && forall i :: n < i < |told| - 1 ==> told[i].Reported?
  }

  /** Under the default protector, the listeners of a case are told that it started, then
      of its failures and errors, then that it finished, whatever is thrown. */
  lemma CaseIsBracketed(ps: seq<Protector>, b: Body, w: World)
    requires ps != [] && ps[0] == Default && BodyReports(b)
    requires forall i :: 0 < i < |ps| ==> ProtectorReports(ps[i])
    ensures Bracketed(w.told, RunCase(ps, b, w).world.told)
  {
    hide Nested, RunCase, CallOf, FunctorReports, ProtectorReports, OnlyReports;
    DefaultReports();
    CaseRunIsContained(ps, b, w);
    var start := World(w.memory, w.told + [Started]);
    var (o1, w1) := Nested(ps, CallOf(b.setUp), SetUp)(start);
    ChainReports(ps, b.setUp, SetUp, start);
    ChainReports(ps, b.runTest, RunTest, w1);
    var w2 := if o1 == Returned(true) then Nested(ps, CallOf(b.runTest), RunTest)(w1).1 else w1;
    var w3 := Nested(ps, CallOf(b.tearDown), TearDown)(w2).1;
    ChainReports(ps, b.tearDown, TearDown, w2);
    if o1 == Returned(true) { ReportsInTurn(start, w1, w2); }
    ReportsInTurn(start, w2, w3);
    FinishAfterReports(w, w3);
  }

  lemma FinishAfterReports(w: World, w3: World)
    requires OnlyReports(Tell(w, Started), w3)
    ensures Bracketed(w.told, Tell(w3, Finished).told)
  {
    var n := |w.told|;
    assert w3.told[n] == w3.told[..n + 1][n];
    assert w3.told[..n] == w3.told[..n + 1][..n];
  }
}
