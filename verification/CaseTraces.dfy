/** A single case as the tree of tests sees it: what TestCase::run tells the listeners
    under the default protector is the trace of a case. */
module CaseTraces {
  import Protectors
  import TestRuns

  function EventOf(id: nat, notice: Protectors.Notice): TestRuns.Event {
    match notice
    case Started => TestRuns.StartTest(id)
    case Reported(_) => TestRuns.Failed(id)
    case Finished => TestRuns.EndTest(id)
  }

  /** What the listeners of the case `id` get to see. */
  function Events(id: nat, told: seq<Protectors.Notice>): seq<TestRuns.Event> {
    seq(|told|, i requires 0 <= i < |told| => EventOf(id, told[i]))
  }

  /** A case run whose chain starts with the default protector is, for the listeners, a
      case with as many failures as were reported. */
  lemma CaseRunIsCase(id: nat, ps: seq<Protectors.Protector>, b: Protectors.Body, w: Protectors.World,
                      stop: TestRuns.StopFlag, asked: nat)
    requires ps != [] && ps[0] == Protectors.Default && Protectors.BodyReports(b)
    requires forall i :: 0 < i < |ps| ==> Protectors.ProtectorReports(ps[i])
    ensures var told, n := Protectors.RunCase(ps, b, w).world.told, |w.told|;
      && |told| >= n + 2 && told[..n] == w.told
      && Events(id, told[n..]) == TestRuns.Run(TestRuns.Case(id, |told| - n - 2), stop, asked).0
  {
    hide Protectors.RunCase, Protectors.BodyReports, Protectors.ProtectorReports;
    Protectors.CaseIsBracketed(ps, b, w);
    var told, n := Protectors.RunCase(ps, b, w).world.told, |w.told|;
    var news := told[n..];
    var m := |news| - 2;
    forall i | 0 <= i < |news|
      ensures EventOf(id, news[i])
           == ([TestRuns.StartTest(id)] + TestRuns.Failures(id, m) + [TestRuns.EndTest(id)])[i]
    {
      assert news[i] == told[n + i];
    }
  }
}
