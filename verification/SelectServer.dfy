/** The single-threaded select server (SelectEngine::manageConnections), one round of
    its endless loop at a time, against a kernel that answers as it likes. */
module SelectServer {
  import opened Sequences

  // ---------- The kernel ----------

  /** The places of an fd_set. */
  const FD_SETSIZE := 1024

  datatype Reading = Failed | Closed | Data

  datatype Selected = Broken | Idle | Ready(fds: set<int>)

  /** The answers the kernel gives in one round. */
  datatype Kernel = Kernel(selected: Selected, accepted: int, reading: int -> Reading)

  /** What the server asks of the kernel about descriptors. */
  datatype Call =
    | Select(fds: set<int>, nfds: int)
    | Accept(sd: int)
    | Read(sd: int)
    | Write(sd: int)
    | Close(sd: int)

  /** The descriptors open after some calls, or nothing if a call used one that was not
      open, select was handed one that has no place in an fd_set or that it does not look
      at, or accept returned one that was open.  A failed accept returns a negative number and opens nothing. */
  datatype Replay = Illegal | Legal(open: set<int>)

  function After(open: set<int>, calls: seq<Call>): Replay
    decreases |calls|
  {
    if calls == [] then Legal(open)
    else
      match calls[0]
      case Select(fds, nfds) =>
        if nfds <= FD_SETSIZE && forall sd :: sd in fds ==> sd in open && 0 <= sd < nfds
        then After(open, calls[1..]) else Illegal
      case Accept(sd) =>
        if sd < 0 then After(open, calls[1..])
        else if sd in open then Illegal
        else After(open + {sd}, calls[1..])
      case Read(sd) => if sd in open then After(open, calls[1..]) else Illegal
      case Write(sd) => if sd in open then After(open, calls[1..]) else Illegal
      case Close(sd) => if sd in open then After(open - {sd}, calls[1..]) else Illegal
  }

  lemma {:induction false} AfterConcat(open: set<int>, a: seq<Call>, b: seq<Call>)
    ensures After(open, a + b) ==
      match After(open, a)
      case Illegal => Illegal
      case Legal(next) => After(next, b)
    decreases |a|
  {
    if a == [] {
      assert a + b == b;
    } else {
      assert (a + b)[1..] == a[1..] + b;
      match a[0]
      case Select(_, _) => AfterConcat(open, a[1..], b);
      case Accept(sd) => AfterConcat(if sd < 0 then open else open + {sd}, a[1..], b);
      case Read(sd) => AfterConcat(open, a[1..], b);
      case Write(sd) => AfterConcat(open, a[1..], b);
      case Close(sd) => AfterConcat(open - {sd}, a[1..], b);
    }
  }

  // ---------- One round ----------

  /** Slot 0 is the listener, no descriptor is stored twice, and the stored descriptors
      are the open ones and fit an fd_set. */
  ghost predicate Sound(listener: int, clients: seq<int>, open: set<int>) {
    && clients != [] && clients[0] == listener
    && Distinct(clients)
    && forall sd :: (sd in clients <==> sd in open) && (sd in open ==> 0 <= sd < FD_SETSIZE)
  }

  predicate IsReady(k: Kernel, sd: int) {
    k.selected.Ready? && sd in k.selected.fds
  }

  predicate Drops(k: Kernel, sd: int) {
    IsReady(k, sd) && k.reading(sd) != Data
  }

  /** The calls of the scan for one client. */
  function ScanCalls(k: Kernel, sd: int): seq<Call> {
    if !IsReady(k, sd) then []
    else if k.reading(sd) == Data then [Read(sd), Write(sd)]
    else [Read(sd)]
  }

  function ScanAll(k: Kernel, clients: seq<int>): seq<Call> {
    if clients == [] then [] else ScanCalls(k, clients[0]) + ScanAll(k, clients[1..])
  }

  function Dropped(k: Kernel, clients: seq<int>): seq<int> {
    if clients == [] then []
    else (if Drops(k, clients[0]) then [clients[0]] else []) + Dropped(k, clients[1..])
  }

  function Kept(k: Kernel, clients: seq<int>): seq<int> {
    if clients == [] then []
    else (if Drops(k, clients[0]) then [] else [clients[0]]) + Kept(k, clients[1..])
  }

  function Closes(sds: seq<int>): seq<Call> {
    if sds == [] then [] else [Close(sds[0])] + Closes(sds[1..])
  }

  /** The clients after a round: a new one if the listener is ready; otherwise those
      whose reading, if any, brought data. */
  function NextClients(listener: int, clients: seq<int>, k: Kernel): seq<int>
    requires clients != []
  {
    if !k.selected.Ready? then clients
    else if IsReady(k, listener) then clients + [k.accepted]
    else [clients[0]] + Kept(k, clients[1..])
  }

  function Members(s: seq<int>): set<int> {
    set x | x in s
  }

  /** The highest descriptor of `s`, or `sd`. */
  function Highest(sd: int, s: seq<int>): (m: int)
    ensures m >= sd && (forall x :: x in s ==> x <= m) && (m == sd || m in s)
  {
    if s == [] then sd
    else
      var last := |s| - 1;
      var m := Highest(sd, s[..last]);
      assert s == s[..last] + [s[last]];
      if s[last] > m then s[last] else m
  }

  /** The calls after select has answered. */
  function AnswerCalls(listener: int, clients: seq<int>, k: Kernel): seq<Call>
    requires clients != []
  {
    if !k.selected.Ready? then []
    else if IsReady(k, listener) then [Accept(k.accepted)]
    else ScanAll(k, clients[1..]) + Closes(Dropped(k, clients[1..]))
  }

  function RoundCalls(listener: int, clients: seq<int>, k: Kernel): seq<Call>
    requires clients != []
  {
    [Select({listener} + Members(clients), Highest(listener, clients) + 1)] + AnswerCalls(listener, clients, k)
  }

  // ---------- One round is safe ----------

  lemma {:induction false} ScanIsLegal(k: Kernel, clients: seq<int>, open: set<int>)
    requires forall sd :: sd in clients ==> sd in open
    ensures After(open, ScanAll(k, clients)) == Legal(open)
  {
    if clients != [] {
      var sd, first := clients[0], ScanCalls(k, clients[0]);
      ScanIsLegal(k, clients[1..], open);
      AfterConcat(open, first, ScanAll(k, clients[1..]));
      assert |first| > 0 ==> first[1..] == if |first| == 2 then [Write(sd)] else [];
      assert [Write(sd)][1..] == [];
    }
  }

  lemma {:induction false} DroppedAndKept(k: Kernel, clients: seq<int>)
    requires Distinct(clients)
    ensures forall sd :: sd in Dropped(k, clients) <==> sd in clients && Drops(k, sd)
    ensures forall sd :: sd in Kept(k, clients) <==> sd in clients && !Drops(k, sd)
    ensures Distinct(Dropped(k, clients)) && Distinct(Kept(k, clients))
  {
    if clients != [] {
      var sd, rest := clients[0], clients[1..];
      DroppedAndKept(k, rest);
      assert clients == [sd] + rest;
      assert sd !in rest;
      FirstDistinct(sd, Dropped(k, rest));
      FirstDistinct(sd, Kept(k, rest));
      assert [] + Dropped(k, rest) == Dropped(k, rest) && [] + Kept(k, rest) == Kept(k, rest);
    }
  }

  lemma FirstDistinct(x: int, s: seq<int>)
    requires Distinct(s)
    ensures x !in s ==> Distinct([x] + s)
  {
  }

  lemma {:induction false} ClosesAreLegal(sds: seq<int>, open: set<int>)
    requires Distinct(sds) && forall sd :: sd in sds ==> sd in open
    ensures After(open, Closes(sds)) == Legal(set sd | sd in open && sd !in sds)
    decreases |sds|
  {
    if sds != [] {
      var sd, rest := sds[0], sds[1..];
      assert sds == [sd] + rest;
      assert sd !in rest;
      ClosesAreLegal(rest, open - {sd});
      assert Closes(sds)[1..] == Closes(rest);
      assert (set x | x in open - {sd} && x !in rest) == (set x | x in open && x !in sds);
    } else {
      assert (set x | x in open && x !in sds) == open;
    }
  }

  /** A client that connects gets a descriptor that is valid, fits the set and is not in
      use. */
  ghost predicate AcceptsFresh(listener: int, open: set<int>, k: Kernel) {
    IsReady(k, listener) ==> 0 <= k.accepted < FD_SETSIZE && k.accepted !in open
  }

  /** Select is handed the open descriptors, and looks at all of them. */
  lemma SelectIsLegal(listener: int, clients: seq<int>, open: set<int>, k: Kernel)
    requires Sound(listener, clients, open)
    ensures After(open, RoundCalls(listener, clients, k)) == After(open, AnswerCalls(listener, clients, k))
  {
    hide AnswerCalls, Distinct;
    var calls, rest := RoundCalls(listener, clients, k), AnswerCalls(listener, clients, k);
    assert calls[1..] == rest;
    assert clients[0] in clients;
  }

  /** From a sound state a round makes only legal calls and ends in a sound state exactly
      when accept, if it is called, succeeds with a fresh descriptor that fits: then
      nothing is read, written or closed that is not open, and nothing is closed twice. */
  lemma RoundIsSafe(listener: int, clients: seq<int>, open: set<int>, k: Kernel)
    requires Sound(listener, clients, open)
    ensures var r := After(open, RoundCalls(listener, clients, k));
      (r.Legal? && Sound(listener, NextClients(listener, clients, k), r.open)) <==> AcceptsFresh(listener, open, k)
  {
    SelectIsLegal(listener, clients, open, k);
    if k.selected.Ready? && !IsReady(k, listener) {
      ReadingRoundIsSafe(listener, clients, open, k);
    } else if IsReady(k, listener) {
      var clients' := clients + [k.accepted];
      assert [Accept(k.accepted)][1..] == [];
      assert clients'[|clients|] == k.accepted && k.accepted in clients';
    }
  }

  lemma ReadingRoundIsSafe(listener: int, clients: seq<int>, open: set<int>, k: Kernel)
    requires Sound(listener, clients, open) && k.selected.Ready? && !IsReady(k, listener)
    ensures var r := After(open, AnswerCalls(listener, clients, k));
      r.Legal? && Sound(listener, NextClients(listener, clients, k), r.open)
  {
    var rest := clients[1..];
    assert clients == [listener] + rest;
    assert listener !in rest;
    DroppedAndKept(k, rest);
    ScanIsLegal(k, rest, open);
    ClosesAreLegal(Dropped(k, rest), open);
    AfterConcat(open, ScanAll(k, rest), Closes(Dropped(k, rest)));
    FirstDistinct(listener, Kept(k, rest));
    var open' := set sd | sd in open && sd !in Dropped(k, rest);
    var clients' := [listener] + Kept(k, rest);
    forall sd ensures sd in clients' <==> sd in open' {
      assert sd in clients <==> sd == listener || sd in rest;
      assert sd in clients' <==> sd == listener || sd in Kept(k, rest);
    }
  }

  // ---------- What a round does to each client ----------

  /** `s` keeps the order of `clients`. */
  ghost predicate KeepsOrder(s: seq<int>, clients: seq<int>) {
    && (forall i :: 0 <= i < |s| ==> s[i] in clients)
    && forall i, j :: 0 <= i < j < |s| ==> IndexOf(clients, s[i]) < IndexOf(clients, s[j])
  }

  lemma {:induction false} KeptInOrder(k: Kernel, clients: seq<int>)
    requires Distinct(clients)
    ensures KeepsOrder(Kept(k, clients), clients)
  {
    hide Drops, IndexOf;
    if clients != [] {
      var sd, rest := clients[0], clients[1..];
      KeptInOrder(k, rest);
      assert clients == [sd] + rest;
      assert sd !in rest;
      LaterInOrder(sd, rest, Kept(k, rest));
      assert [] + Kept(k, rest) == Kept(k, rest);
    }
  }

  lemma LaterInOrder(sd: int, rest: seq<int>, s: seq<int>)
    requires sd !in rest && KeepsOrder(s, rest)
    ensures KeepsOrder(s, [sd] + rest) && KeepsOrder([sd] + s, [sd] + rest)
  {
    hide IndexOf;
    var clients := [sd] + rest;
    IndexAtOnce(clients, sd);
    forall x | x in rest ensures x in clients && IndexOf(clients, x) == 1 + IndexOf(rest, x) {
      assert clients[1..] == rest;
      IndexNext(clients, x);
    }
  }

  lemma {:induction false} ScanCounts(k: Kernel, clients: seq<int>, sd: int)
    requires Distinct(clients)
    ensures var ready := sd in clients && k.selected.Ready? && sd in k.selected.fds;
      && multiset(ScanAll(k, clients))[Read(sd)] == (if ready then 1 else 0)
      && multiset(ScanAll(k, clients))[Write(sd)] == (if ready && k.reading(sd) == Data then 1 else 0)
      && multiset(ScanAll(k, clients))[Close(sd)] == 0
    ensures forall i :: 0 <= i < |ScanAll(k, clients)| ==> !ScanAll(k, clients)[i].Close?
  {
    hide Distinct, ScanCalls;
    if clients != [] {
      var x, rest := clients[0], clients[1..];
      TailDistinct(clients);
      ScanCounts(k, rest, sd);
      assert clients == [x] + rest;
      OneScan(k, x, sd);
      CountsAdd(ScanCalls(k, x), ScanAll(k, rest), sd);
    }
  }

  /** Every answer follows the reading it answers. */
  ghost predicate Answers(calls: seq<Call>) {
    forall i :: 0 <= i < |calls| && calls[i].Write? ==> i > 0 && calls[i - 1] == Read(calls[i].sd)
  }

  lemma AnswersAppend(a: seq<Call>, b: seq<Call>)
    requires Answers(a) && Answers(b)
    ensures Answers(a + b)
  {
    var c := a + b;
    forall i | 0 <= i < |c| && c[i].Write? ensures i > 0 && c[i - 1] == Read(c[i].sd) {
      if i >= |a| { assert c[i] == b[i - |a|]; }
    }
  }

  lemma NoAnswers(calls: seq<Call>)
    requires forall i :: 0 <= i < |calls| ==> !calls[i].Write?
    ensures Answers(calls)
  {
  }

  lemma {:induction false} ScanAnswers(k: Kernel, clients: seq<int>)
    ensures Answers(ScanAll(k, clients))
  {
    if clients != [] {
      ScanAnswers(k, clients[1..]);
      AnswersAppend(ScanCalls(k, clients[0]), ScanAll(k, clients[1..]));
    }
  }

  lemma OneScan(k: Kernel, x: int, sd: int)
    ensures var ready := x == sd && k.selected.Ready? && sd in k.selected.fds;
      && multiset(ScanCalls(k, x))[Read(sd)] == (if ready then 1 else 0)
      && multiset(ScanCalls(k, x))[Write(sd)] == (if ready && k.reading(sd) == Data then 1 else 0)
      && multiset(ScanCalls(k, x))[Close(sd)] == 0
    ensures forall i :: 0 <= i < |ScanCalls(k, x)| ==> !ScanCalls(k, x)[i].Close?
  {
  }

  lemma CountsAdd(a: seq<Call>, b: seq<Call>, sd: int)
    ensures multiset(a + b)[Read(sd)] == multiset(a)[Read(sd)] + multiset(b)[Read(sd)]
    ensures multiset(a + b)[Write(sd)] == multiset(a)[Write(sd)] + multiset(b)[Write(sd)]
    ensures multiset(a + b)[Close(sd)] == multiset(a)[Close(sd)] + multiset(b)[Close(sd)]
  {
  }

  lemma {:induction false} DroppedCounts(k: Kernel, clients: seq<int>, sd: int)
    requires Distinct(clients)
    ensures var hungUp := sd in clients && k.selected.Ready? && sd in k.selected.fds
                          && (k.reading(sd) == Failed || k.reading(sd) == Closed);
      multiset(Closes(Dropped(k, clients)))[Close(sd)] == (if hungUp then 1 else 0)
    ensures multiset(Closes(Dropped(k, clients)))[Read(sd)] == 0
    ensures multiset(Closes(Dropped(k, clients)))[Write(sd)] == 0
  {
    NoCloses();
    if clients != [] {
      hide Distinct, Closes, Dropped, ScanAll;
      var x, rest := clients[0], clients[1..];
      TailDistinct(clients);
      DroppedCounts(k, rest, sd);
      assert clients == [x] + rest;
      ScanFirst(k, clients);
      if Drops(k, x) {
        CloseFirst(x, Dropped(k, rest));
        CountsAdd([Close(x)], Closes(Dropped(k, rest)), sd);
        OneClose(x, sd);
      } else {
        assert [] + Dropped(k, rest) == Dropped(k, rest);
      }
    }
  }

  lemma OneClose(x: int, sd: int)
    ensures multiset([Close(x)])[Close(sd)] == if x == sd then 1 else 0
    ensures multiset([Close(x)])[Read(sd)] == 0 && multiset([Close(x)])[Write(sd)] == 0
  {
  }

  lemma CloseFirst(x: int, sds: seq<int>)
    ensures Closes([x] + sds) == [Close(x)] + Closes(sds)
  {
    assert ([x] + sds)[1..] == sds;
  }

  lemma {:induction false} OnlyCloses(sds: seq<int>)
    ensures forall i :: 0 <= i < |Closes(sds)| ==> Closes(sds)[i].Close?
  {
    if sds != [] { OnlyCloses(sds[1..]); }
  }

  /** The clients after a reading round: the listener, then, in the order they had, those
      that were not ready or sent data.  A client that hung up or failed is gone. */
  lemma ReadingRoundClients(listener: int, clients: seq<int>, k: Kernel)
    requires clients != [] && clients[0] == listener && Distinct(clients)
    requires k.selected.Ready? && listener !in k.selected.fds
    ensures var next := NextClients(listener, clients, k);
      && next != [] && next[0] == listener && KeepsOrder(next, clients)
      && forall sd :: sd in clients && sd != listener ==>
           (sd in next <==> sd !in k.selected.fds || k.reading(sd) == Data)
  {
    hide Distinct;
    var rest := clients[1..];
    assert clients == [listener] + rest;
    assert Distinct(rest) && listener !in rest by { TailDistinct(clients); }
    DroppedAndKept(k, rest);
    KeptInOrder(k, rest);
    LaterInOrder(listener, rest, Kept(k, rest));
  }

  lemma TailDistinct(s: seq<int>)
    requires s != [] && Distinct(s)
    ensures Distinct(s[1..]) && s[0] !in s[1..]
  {
  }

  /** The calls of a reading round, for each client: read once exactly if it was ready, a
      write, right after the reading, exactly if data came, a close exactly once if the reading failed or found the
      connection closed.  The closes come last, and a descriptor that is no client is left
      alone. */
  lemma ReadingRoundCalls(listener: int, clients: seq<int>, k: Kernel, sd: int)
    requires clients != [] && clients[0] == listener && Distinct(clients)
    requires k.selected.Ready? && listener !in k.selected.fds
    ensures var calls := RoundCalls(listener, clients, k);
      var ready := sd in clients && sd in k.selected.fds;
      && multiset(calls)[Read(sd)] == (if ready then 1 else 0)
      && multiset(calls)[Write(sd)] == (if ready && k.reading(sd) == Data then 1 else 0)
      && multiset(calls)[Close(sd)] == (if ready && (k.reading(sd) == Failed || k.reading(sd) == Closed) then 1 else 0)
      && Answers(calls)
      && forall i, j :: 0 <= i < j < |calls| && calls[i].Close? ==> calls[j].Close?
  {
    hide Distinct, ScanAll, Closes, Dropped, Members, Highest, Answers;
    var rest := clients[1..];
    assert clients == [listener] + rest;
    TailDistinct(clients);
    ScanCounts(k, rest, sd);
    DroppedCounts(k, rest, sd);
    OnlyCloses(Dropped(k, rest));
    ScanAnswers(k, rest);
    var select := [Select({listener} + Members(clients), Highest(listener, clients) + 1)];
    var scan, closes := ScanAll(k, rest), Closes(Dropped(k, rest));
    assert RoundCalls(listener, clients, k) == select + (scan + closes);
    assert multiset(select + (scan + closes)) == multiset(select) + (multiset(scan) + multiset(closes));
    NoAnswers(select);
    NoAnswers(closes);
    AnswersAppend(scan, closes);
    AnswersAppend(select, scan + closes);
  }

  /** The other rounds: a new client at the end, or nothing. */
  lemma OtherRounds(listener: int, clients: seq<int>, k: Kernel)
    requires clients != []
    ensures var calls, next := RoundCalls(listener, clients, k), NextClients(listener, clients, k);
      && (k.selected.Ready? && listener in k.selected.fds ==>
            next == clients + [k.accepted] && |calls| == 2 && calls[1] == Accept(k.accepted))
      && (!k.selected.Ready? ==> next == clients && |calls| == 1)
      && calls[0].Select? && calls[0].fds == {listener} + set sd | sd in clients
      && (forall sd :: sd in calls[0].fds ==> sd < calls[0].nfds) && calls[0].nfds - 1 in calls[0].fds
  {
    hide ScanAll, Closes, Dropped;
  }

  /** Once select has failed the server asks nothing more. */
  lemma {:induction false} BrokenIsLast(listener: int, clients: seq<int>, ks: seq<Kernel>, i: nat)
    requires clients != [] && i < |ks| && ks[i].selected.Broken?
    ensures RunCalls(listener, clients, ks) == RunCalls(listener, clients, ks[..i + 1])
    ensures RunClients(listener, clients, ks) == RunClients(listener, clients, ks[..i])
    decreases i
  {
    hide RoundCalls;
    if !ks[0].selected.Broken? {
      assert ks[..i + 1][1..] == ks[1..][..i];
      assert ks[..i][1..] == ks[1..][..i - 1];
      BrokenIsLast(listener, NextClients(listener, clients, ks[0]), ks[1..], i - 1);
    }
  }

  // ---------- Every run is safe ----------

  /** The clients and the calls of the rounds up to one in which select breaks. */
  function RunClients(listener: int, clients: seq<int>, ks: seq<Kernel>): (r: seq<int>)
    requires clients != []
    ensures r != []
    decreases |ks|
  {
    if ks == [] || ks[0].selected.Broken? then clients
    else RunClients(listener, NextClients(listener, clients, ks[0]), ks[1..])
  }

  function RunCalls(listener: int, clients: seq<int>, ks: seq<Kernel>): seq<Call>
    requires clients != []
    decreases |ks|
  {
    if ks == [] then []
    else RoundCalls(listener, clients, ks[0])
         + if ks[0].selected.Broken? then []
           else RunCalls(listener, NextClients(listener, clients, ks[0]), ks[1..])
  }

  /** Accept never fails, and never returns a descriptor that is open at the time or does
      not fit the set. */
  ghost predicate Honest(listener: int, clients: seq<int>, open: set<int>, ks: seq<Kernel>)
    requires clients != []
    decreases |ks|
  {
    if ks == [] || ks[0].selected.Broken? then true
    else
      var r := After(open, RoundCalls(listener, clients, ks[0]));
      && AcceptsFresh(listener, open, ks[0])
      && (r.Legal? ==> Honest(listener, NextClients(listener, clients, ks[0]), r.open, ks[1..]))
  }

  lemma SoundIsNonEmpty(listener: int, clients: seq<int>, open: set<int>)
    requires Sound(listener, clients, open)
    ensures clients != []
  {
  }

  /** Every call of a run is legal and the state after it is sound. */
  ghost predicate Safe(listener: int, clients: seq<int>, open: set<int>, ks: seq<Kernel>)
    requires clients != []
  {
    var r := After(open, RunCalls(listener, clients, ks));
    r.Legal? && Sound(listener, RunClients(listener, clients, ks), r.open)
  }

  /** A run is its first round and, unless select broke, the run of the rest. */
  lemma SafeStep(listener: int, clients: seq<int>, open: set<int>, ks: seq<Kernel>)
    requires Sound(listener, clients, open) && ks != [] && AcceptsFresh(listener, open, ks[0])
    ensures var r := After(open, RoundCalls(listener, clients, ks[0]));
      && r.Legal? && Sound(listener, NextClients(listener, clients, ks[0]), r.open)
      && (Safe(listener, clients, open, ks) <==>
          (ks[0].selected.Broken? || Safe(listener, NextClients(listener, clients, ks[0]), r.open, ks[1..])))
  {
    hide Sound, RoundCalls, After;
    SoundIsNonEmpty(listener, clients, open);
    RoundIsSafe(listener, clients, open, ks[0]);
    var calls := RoundCalls(listener, clients, ks[0]);
    var clients' := NextClients(listener, clients, ks[0]);
    var open' := After(open, calls).open;
    SoundIsNonEmpty(listener, clients', open');
    if ks[0].selected.Broken? {
      assert calls + [] == calls;
    } else {
      AfterConcat(open, calls, RunCalls(listener, clients', ks[1..]));
    }
  }

  /** Over every honest run every call is legal and the state stays sound. */
  lemma {:induction false} RunIsSafe(listener: int, clients: seq<int>, open: set<int>, ks: seq<Kernel>)
    requires Sound(listener, clients, open) && Honest(listener, clients, open, ks)
    ensures Safe(listener, clients, open, ks)
    decreases |ks|
  {
    hide Sound, RoundCalls, NextClients;
    SoundIsNonEmpty(listener, clients, open);
    if ks == [] {
    } else if ks[0].selected.Broken? {
      SafeStep(listener, clients, open, ks) by { BrokenAccepts(listener, open, ks[0]); }
    } else {
      SafeStep(listener, clients, open, ks);
      var clients' := NextClients(listener, clients, ks[0]);
      var open' := After(open, RoundCalls(listener, clients, ks[0])).open;
      SoundIsNonEmpty(listener, clients', open');
      RunIsSafe(listener, clients', open', ks[1..]);
    }
  }

  lemma BrokenAccepts(listener: int, open: set<int>, k: Kernel)
    requires k.selected.Broken?
    ensures AcceptsFresh(listener, open, k)
  {
  }

  lemma {:induction false} HonestPrefix(listener: int, clients: seq<int>, open: set<int>, ks: seq<Kernel>, m: nat)
    requires clients != [] && m <= |ks| && Honest(listener, clients, open, ks)
    ensures Honest(listener, clients, open, ks[..m])
    decreases |ks|
  {
    hide RoundCalls, AcceptsFresh, After;
    if m > 0 && !ks[0].selected.Broken? {
      var r := After(open, RoundCalls(listener, clients, ks[0]));
      assert ks[..m][1..] == ks[1..][..m - 1];
      if r.Legal? { HonestPrefix(listener, NextClients(listener, clients, ks[0]), r.open, ks[1..], m - 1); }
    }
  }

  /** ... and only over those: if the run is safe however soon it is cut off, accept has
      always succeeded with a fresh descriptor. */
  lemma {:induction false} SafeIsHonest(listener: int, clients: seq<int>, open: set<int>, ks: seq<Kernel>)
    requires Sound(listener, clients, open)
    requires forall m :: 0 <= m <= |ks| ==> Safe(listener, clients, open, ks[..m])
    ensures Honest(listener, clients, open, ks)
    decreases |ks|
  {
    hide Sound, RoundCalls, NextClients, Safe;
    SoundIsNonEmpty(listener, clients, open);
    if ks != [] && !ks[0].selected.Broken? {
      FirstRoundSafe(listener, clients, open, ks[0]) by { assert ks[..1] == [ks[0]]; }
      RoundIsSafe(listener, clients, open, ks[0]);
      var clients' := NextClients(listener, clients, ks[0]);
      var open' := After(open, RoundCalls(listener, clients, ks[0])).open;
      SoundIsNonEmpty(listener, clients', open');
      forall m | 0 <= m <= |ks| - 1 ensures Safe(listener, clients', open', ks[1..][..m]) {
        SafeStep(listener, clients, open, ks[..m + 1]);
        assert ks[..m + 1][1..] == ks[1..][..m];
      }
      SafeIsHonest(listener, clients', open', ks[1..]);
    }
  }

  lemma FirstRoundSafe(listener: int, clients: seq<int>, open: set<int>, k: Kernel)
    requires Sound(listener, clients, open) && !k.selected.Broken? && Safe(listener, clients, open, [k])
    ensures var r := After(open, RoundCalls(listener, clients, k));
      r.Legal? && Sound(listener, NextClients(listener, clients, k), r.open)
  {
    hide Sound, RoundCalls, NextClients, After;
    SoundIsNonEmpty(listener, clients, open);
    assert [k][1..] == [];
    assert RunCalls(listener, clients, [k]) == RoundCalls(listener, clients, k);
    assert RunClients(listener, clients, [k]) == NextClients(listener, clients, k);
  }

  /** From the state in which the loop is entered, all calls are legal and every round ends
      in a sound state if and only if the listener fits an fd_set and accept, whenever it
      is called, succeeds with a descriptor that fits too and is not open. */
  lemma ServerIsSafe(listener: int, ks: seq<Kernel>)
    ensures (forall m :: 0 <= m <= |ks| ==> Safe(listener, [listener], {listener}, ks[..m]))
       <==> 0 <= listener < FD_SETSIZE && Honest(listener, [listener], {listener}, ks)
  {
    if 0 <= listener < FD_SETSIZE {
      RunIsSafeIff(listener, [listener], {listener}, ks);
    } else {
      assert !Safe(listener, [listener], {listener}, ks[..0]);
    }
  }

  lemma RunIsSafeIff(listener: int, clients: seq<int>, open: set<int>, ks: seq<Kernel>)
    requires Sound(listener, clients, open)
    ensures (forall m :: 0 <= m <= |ks| ==> Safe(listener, clients, open, ks[..m]))
       <==> Honest(listener, clients, open, ks)
  {
    hide Safe, Honest;
    if Honest(listener, clients, open, ks) {
      forall m | 0 <= m <= |ks| ensures Safe(listener, clients, open, ks[..m]) {
        HonestPrefix(listener, clients, open, ks, m);
        RunIsSafe(listener, clients, open, ks[..m]);
      }
    } else if forall m :: 0 <= m <= |ks| ==> Safe(listener, clients, open, ks[..m]) {
      SafeIsHonest(listener, clients, open, ks);
    }
  }

  /** A descriptor that is valid and not in use but does not fit: it is stored, and the
      next round, whatever the kernel answers in it, hands select a set it cannot hold. */
  lemma OversizedIsIllegal(listener: int, clients: seq<int>, open: set<int>, k: Kernel, next: Kernel)
    requires Sound(listener, clients, open) && IsReady(k, listener)
    requires k.accepted >= FD_SETSIZE
    ensures After(open, RunCalls(listener, clients, [k])) == Legal(open + {k.accepted})
    ensures After(open, RunCalls(listener, clients, [k, next])) == Illegal
  {
    hide Sound, AnswerCalls, Highest;
    SoundIsNonEmpty(listener, clients, open);
    var calls, clients' := RoundCalls(listener, clients, k), NextClients(listener, clients, k);
    var more := RoundCalls(listener, clients', next);
    AcceptingRound(listener, clients, open, k);
    assert [k][1..] == [] && [k, next][1..] == [next] && [next][1..] == [];
    assert RunCalls(listener, clients, [k]) == calls;
    assert RunCalls(listener, clients', [next]) == more;
    AfterConcat(open, calls, more);
    assert clients'[|clients|] == k.accepted;
    assert k.accepted in Members(clients');
  }

  lemma AcceptingRound(listener: int, clients: seq<int>, open: set<int>, k: Kernel)
    requires Sound(listener, clients, open) && IsReady(k, listener) && k.accepted >= FD_SETSIZE
    ensures After(open, RoundCalls(listener, clients, k)) == Legal(open + {k.accepted})
  {
    hide RoundCalls;
    SelectIsLegal(listener, clients, open, k);
    assert [Accept(k.accepted)][1..] == [];
  }

  /** For one: descriptor 1024 for the first client of a server that listens on 3. */
  lemma OversizedInput(reading: int -> Reading)
    ensures var ks := [Kernel(Ready({3}), 1024, reading), Kernel(Ready({1024}), 0, reading)];
      After({3}, RunCalls(3, [3], ks)) == Illegal && !Honest(3, [3], {3}, ks)
  {
    OversizedIsIllegal(3, [3], {3}, Kernel(Ready({3}), 1024, reading), Kernel(Ready({1024}), 0, reading));
  }

  // ---------- The program ----------

  lemma IndexAtOnce(s: seq<int>, sd: int)
    requires s != [] && s[0] == sd
    ensures IndexOf(s, sd) == 0
  {
  }

  lemma IndexNext(s: seq<int>, sd: int)
    requires s != [] && s[0] != sd
    ensures IndexOf(s, sd) == 1 + IndexOf(s[1..], sd)
  {
  }

  function Minus(s: seq<int>, gone: set<int>): seq<int> {
    if s == [] then []
    else if s[0] in gone then Minus(s[1..], gone)
    else [s[0]] + Minus(s[1..], gone)
  }

  lemma {:induction false} MinusNone(s: seq<int>)
    ensures Minus(s, {}) == s
  {
    if s != [] { MinusNone(s[1..]); }
  }

  lemma {:induction false} MinusSame(s: seq<int>, a: set<int>, b: set<int>)
    requires forall i :: 0 <= i < |s| ==> (s[i] in a <==> s[i] in b)
    ensures Minus(s, a) == Minus(s, b)
  {
    if s != [] { MinusSame(s[1..], a, b); }
  }

  /** Erasing the first occurrence of one more descriptor. */
  lemma {:induction false} MinusOneMore(s: seq<int>, gone: set<int>, sd: int)
    requires Distinct(s) && sd in s && sd !in gone
    ensures var t := Minus(s, gone);
      var n := IndexOf(t, sd);
      n < |t| && t[..n] + t[n + 1..] == Minus(s, gone + {sd})
  {
    hide IndexOf, Minus;
    var rest := s[1..];
    MinusFirst(s, gone);
    MinusFirst(s, gone + {sd});
    if s[0] == sd {
      var t := Minus(s, gone);
      IndexAtOnce(t, sd);
      assert t[..0] + t[1..] == Minus(rest, gone);
      NotAfterFirst(s);
      MinusSame(rest, gone, gone + {sd});
    } else {
      assert sd in rest by { assert s == [s[0]] + rest; }
      MinusOneMore(rest, gone, sd);
      if s[0] !in gone {
        AfterFirst(s[0], Minus(rest, gone), sd);
      }
    }
  }

  lemma MinusFirst(s: seq<int>, gone: set<int>)
    requires s != []
    ensures Minus(s, gone) == if s[0] in gone then Minus(s[1..], gone) else [s[0]] + Minus(s[1..], gone)
  {
  }

  lemma NotAfterFirst(s: seq<int>)
    requires Distinct(s) && s != []
    ensures forall i :: 0 <= i < |s[1..]| ==> s[1..][i] != s[0]
  {
  }

  lemma {:induction false} MinusDropped(k: Kernel, s: seq<int>)
    requires Distinct(s)
    ensures Minus(s, Members(Dropped(k, s))) == Kept(k, s)
  {
    if s != [] {
      var rest := s[1..];
      var a, b := Members(Dropped(k, s)), Members(Dropped(k, rest));
      MinusDropped(k, rest);
      DroppedAndKept(k, s);
      DroppedAndKept(k, rest);
      assert s[0] in s;
      forall i | 0 <= i < |rest| ensures rest[i] in a <==> rest[i] in b {
        assert rest[i] in rest && rest[i] == s[i + 1];
        assert s[i + 1] in s;
      }
      MinusSame(rest, a, b);
      assert [] + Kept(k, rest) == Kept(k, rest);
    }
  }

  class SelectEngine {
    const listener: int
    var clients: seq<int>
    ghost var calls: seq<Call>

    constructor (sd: int)
      ensures listener == sd && clients == [sd] && calls == []
    {
      listener := sd;
      clients := [sd];
      calls := [];
    }

    /** One turn of the loop; true if the server goes on. */
    method Round(k: Kernel) returns (going: bool)
      requires clients != [] && clients[0] == listener && Distinct(clients)
      modifies this
      ensures going == !k.selected.Broken?
      ensures clients == NextClients(listener, old(clients), k)
      ensures calls == old(calls) + RoundCalls(listener, old(clients), k)
    {
      hide Kept, Dropped, ScanAll, Closes, Distinct, Members, Highest;
      var fds, nfds := Watched();
      calls := calls + [Select(fds, nfds)];
      ghost var asked := calls;
      if k.selected.Broken? {
        return false;
      }
      if k.selected.Idle? {
        return true;
      }
      var disconnected := Scan(k);
      RemoveDisconnected(k, disconnected);
      NoCloses();
      NothingDropped(k, old(clients));
      ghost var scanned := ScanAll(k, old(clients)[1..]);
      assert asked + scanned + Closes(disconnected) == asked + (scanned + Closes(disconnected));
      assert calls == asked + AnswerCalls(listener, old(clients), k);
      return true;
    }

    /** The set handed to select, and the bound on the descriptors it looks at. */
    method Watched() returns (fds: set<int>, nfds: int)
      ensures fds == {listener} + Members(clients) && nfds == Highest(listener, clients) + 1
      ensures nfds <= FD_SETSIZE <==> forall sd :: sd in fds ==> sd < FD_SETSIZE
    {
      var fdmax := listener;
      fds := {listener};
      var i := 0;
      while i < |clients|
        invariant 0 <= i <= |clients|
        invariant fds == {listener} + Members(clients[..i]) && fdmax == Highest(listener, clients[..i])
      {
        var sd := clients[i];
        assert clients[..i + 1] == clients[..i] + [sd];
        assert clients[..i + 1][..i] == clients[..i];
        if sd > fdmax {
          fdmax := sd;
        }
        fds := fds + {sd};
        i := i + 1;
      }
      assert clients[..i] == clients;
      assert fdmax in fds && forall sd :: sd in fds ==> sd <= fdmax;
      nfds := fdmax + 1;
    }

    /** The scan over the clients.  It ends at once when the listener, in slot 0, is
        ready and a new client has been stored. */
    method Scan(k: Kernel) returns (disconnected: seq<int>)
      requires clients != [] && clients[0] == listener && Distinct(clients) && k.selected.Ready?
      modifies this
      ensures IsReady(k, listener) ==>
        && clients == old(clients) + [k.accepted] && disconnected == []
        && calls == old(calls) + [Accept(k.accepted)]
      ensures !IsReady(k, listener) ==>
        && clients == old(clients) && disconnected == Dropped(k, clients[1..])
        && calls == old(calls) + ScanAll(k, clients[1..])
    {
      hide Distinct;
      disconnected := [];
      ghost var all := clients[1..];
      assert all[0..] == all;
      var i := 0;
      while i < |clients|
        invariant 0 <= i <= |clients| && clients == old(clients)
        invariant i > 0 ==> !IsReady(k, listener)
        invariant i == 0 ==> calls == old(calls) && disconnected == []
        invariant i > 0 ==> calls + ScanAll(k, all[i - 1..]) == old(calls) + ScanAll(k, all)
        invariant i > 0 ==> disconnected + Dropped(k, all[i - 1..]) == Dropped(k, all)
      {
        var sd := clients[i];
        if i > 0 {
          OtherSlot(clients, i);
          ScanStep(k, all, i - 1, calls, disconnected);
        }
        if IsReady(k, sd) {
          if sd == listener {
            calls := calls + [Accept(k.accepted)];
            clients := clients + [k.accepted];
            return;
          }
          calls := calls + [Read(sd)];
          if k.reading(sd) == Data {
            calls := calls + [Write(sd)];
          } else {
            disconnected := disconnected + [sd];
          }
        }
        i := i + 1;
      }
      assert all[|all|..] == [];
    }

    /** The assertion of the source, that the client is found, is the assertion here. */
    method RemoveDisconnected(k: Kernel, disconnected: seq<int>)
      requires clients != []
      requires disconnected == [] || (Distinct(clients) && disconnected == Dropped(k, clients[1..]))
      modifies this
      ensures disconnected == [] ==> clients == old(clients)
      ensures disconnected != [] ==> clients == [old(clients)[0]] + Kept(k, old(clients)[1..])
      ensures calls == old(calls) + Closes(disconnected)
    {
      hide IndexOf, Minus, Closes, Members, Kept, Dropped;
      ghost var first, rest := clients[0], clients[1..];
      assert clients == [first] + rest;
      assert Members([]) == {} by { NoMembers(); }
      MinusNone(rest);
      if disconnected != [] { DroppedAndKept(k, rest); }
      var i := 0;
      assert disconnected[0..] == disconnected && disconnected[..0] == [];
      while i < |disconnected|
        invariant 0 <= i <= |disconnected|
        invariant clients == [first] + Minus(rest, Members(disconnected[..i]))
        invariant calls + Closes(disconnected[i..]) == old(calls) + Closes(disconnected)
      {
        var sd := disconnected[i];
        assert sd in disconnected;
        ghost var gone := Members(disconnected[..i]);
        OneMoreMember(disconnected, i);
        RemovalStep(first, rest, gone, sd);
        var position := IndexOf(clients, sd);
        assert position != |clients|;
        CloseStep(disconnected, i, calls);
        calls := calls + [Close(sd)];
        clients := clients[..position] + clients[position + 1..];
        i := i + 1;
      }
      assert disconnected[..i] == disconnected && disconnected[i..] == [];
      NoCloses();
      if disconnected != [] { MinusDropped(k, rest); }
    }
  }

  /** Finding and erasing one more client. */
  lemma RemovalStep(first: int, rest: seq<int>, gone: set<int>, sd: int)
    requires Distinct([first] + rest) && sd in rest && sd !in gone
    ensures var s := [first] + Minus(rest, gone);
      var n := IndexOf(s, sd);
      n < |s| && s[..n] + s[n + 1..] == [first] + Minus(rest, gone + {sd})
  {
    hide IndexOf, Minus;
    RestDistinct(first, rest, sd);
    MinusOneMore(rest, gone, sd);
    AfterFirst(first, Minus(rest, gone), sd);
  }

  lemma RestDistinct(first: int, rest: seq<int>, sd: int)
    requires Distinct([first] + rest) && sd in rest
    ensures Distinct(rest) && first != sd
  {
    assert rest == ([first] + rest)[1..];
    var i :| 0 <= i < |rest| && rest[i] == sd;
    assert ([first] + rest)[0] == first && ([first] + rest)[i + 1] == sd;
  }

  lemma NothingDropped(k: Kernel, clients: seq<int>)
    requires clients != []
    ensures Dropped(k, clients[1..]) == [] ==> [clients[0]] + Kept(k, clients[1..]) == clients
  {
    if Dropped(k, clients[1..]) == [] { AllKept(k, clients[1..]); }
  }

  lemma {:induction false} AllKept(k: Kernel, clients: seq<int>)
    requires Dropped(k, clients) == []
    ensures Kept(k, clients) == clients
  {
    if clients != [] { AllKept(k, clients[1..]); }
  }

  lemma NoMembers()
    ensures Members([]) == {}
  {
  }

  lemma NoCloses()
    ensures Closes([]) == []
  {
  }

  lemma CloseStep(sds: seq<int>, i: nat, calls: seq<Call>)
    requires i < |sds|
    ensures calls + Closes(sds[i..]) == calls + [Close(sds[i])] + Closes(sds[i + 1..])
  {
    assert sds[i..][1..] == sds[i + 1..];
  }

  lemma OtherSlot(clients: seq<int>, i: nat)
    requires Distinct(clients) && 0 < i < |clients|
    ensures clients[i] != clients[0]
  {
  }

  /** What the scan of one more client adds. */
  lemma ScanStep(k: Kernel, all: seq<int>, i: nat, calls: seq<Call>, dropped: seq<int>)
    requires i < |all|
    ensures calls + ScanAll(k, all[i..]) == calls + ScanCalls(k, all[i]) + ScanAll(k, all[i + 1..])
    ensures dropped + Dropped(k, all[i..])
         == (if Drops(k, all[i]) then dropped + [all[i]] else dropped) + Dropped(k, all[i + 1..])
    ensures IsReady(k, all[i]) ==>
      calls + ScanCalls(k, all[i]) == calls + [Read(all[i])] + if k.reading(all[i]) == Data then [Write(all[i])] else []
    ensures !IsReady(k, all[i]) ==> calls + ScanCalls(k, all[i]) == calls
  {
    hide ScanAll, Dropped;
    assert all[i..][1..] == all[i + 1..];
    ScanFirst(k, all[i..]);
    ScanAfter(calls, ScanCalls(k, all[i]), ScanAll(k, all[i + 1..]));
    DropFirst(k, all[i], dropped, Dropped(k, all[i + 1..]));
  }

  lemma ScanFirst(k: Kernel, s: seq<int>)
    requires s != []
    ensures ScanAll(k, s) == ScanCalls(k, s[0]) + ScanAll(k, s[1..])
    ensures Dropped(k, s) == (if Drops(k, s[0]) then [s[0]] else []) + Dropped(k, s[1..])
  {
    hide ScanCalls;
  }

  lemma ScanAfter(a: seq<Call>, b: seq<Call>, c: seq<Call>)
    ensures a + (b + c) == a + b + c
  {
  }

  lemma DropFirst(k: Kernel, sd: int, dropped: seq<int>, more: seq<int>)
    ensures dropped + ((if Drops(k, sd) then [sd] else []) + more)
         == (if Drops(k, sd) then dropped + [sd] else dropped) + more
  {
  }

  lemma OneMoreMember(s: seq<int>, i: nat)
    requires Distinct(s) && i < |s|
    ensures s[i] !in Members(s[..i]) && Members(s[..i + 1]) == Members(s[..i]) + {s[i]}
  {
    assert s[..i + 1] == s[..i] + [s[i]];
  }

  lemma AfterFirst(first: int, left: seq<int>, sd: int)
    requires first != sd && IndexOf(left, sd) < |left|
    ensures var s := [first] + left;
      var n := IndexOf(left, sd);
      && IndexOf(s, sd) == n + 1 < |s|
      && s[..n + 1] + s[n + 2..] == [first] + (left[..n] + left[n + 1..])
  {
    hide IndexOf;
    var s, n := [first] + left, IndexOf(left, sd);
    assert s[1..] == left;
    IndexNext(s, sd);
    assert s[..n + 1] == [first] + left[..n] && s[n + 2..] == left[n + 1..];
  }
}
