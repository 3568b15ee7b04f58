/** GracefulShutDown (sunny_graceterm.go) when goroutines of the program call Close as well.  The loop
    calls w.Done() for a Close that returns false (line 33), although it has stored the callback, which
    calls w.Done() again if it ever runs. */
module OtherClosers {
  import opened AppProtocol
  import opened StoredCallback
  import opened GracefulShutdown
  import opened Text

  ghost predicate CloserArrives(g: Group, g': Group) {
    exists i, t, cb :: 0 <= i < |g.apps| && t != SELF && t !in g.apps[i].threads &&
      g' == g.(apps := g.apps[i := At(g.apps[i], t, Calling(cb))])
  }

  /** No app has been removed before the snapshot is taken. */
  ghost predicate OpenStep(g: Group, g': Group) {
    || (GroupStep(g, g') && (SignalStep(g, g') ==> forall i :: 0 <= i < |g.apps| ==> g.apps[i].present))
    || (!g.phase.Exited? && CloserArrives(g, g'))
  }

  ghost predicate OpenRun(b: seq<Group>) {
    && |b| > 0
    && b[0] == Group([], 0, 0, Armed)
    && forall i :: 0 <= i < |b| - 1 ==> OpenStep(b[i], b[i + 1])
  }

  // ---------------------------------------------------------------- the counter

  /** The goroutine's Close has returned false. */
  predicate Lost(s: App) {
    SELF in s.threads && s.threads[SELF] == Returned(false)
  }

  /** How often w.Done() is called for an app. */
  function Share(s: App): nat {
    s.runs[SELF] + (if Lost(s) then 1 else 0)
  }

  function Shares(apps: seq<App>): nat {
    if apps == [] then 0 else Shares(apps[..|apps| - 1]) + Share(apps[|apps| - 1])
  }

  /** How many apps it is called n times for. */
  function Having(apps: seq<App>, n: nat): nat {
    if apps == [] then 0 else Having(apps[..|apps| - 1], n) + (if Share(apps[|apps| - 1]) == n then 1 else 0)
  }

  /** The Close has returned false, and the loop has not yet called w.Done() for it. */
  function Due(g: Group): nat {
    if g.phase.Closing? && g.phase.k < |g.apps| && Lost(g.apps[g.phase.k]) then 1 else 0
  }

  /** Its Close only fails on a closed app, and passes its callback. */
  ghost predicate SelfFine(s: App) {
    && (Lost(s) ==> s.closed)
    && (SELF in s.threads ==> if BeforeStore(s.threads[SELF]) then s.threads[SELF].cb else SELF in s.stored)
  }

  ghost predicate Fine(s: App, called: bool, back: bool) {
    && Inv(s) && (SELF in s.threads <==> called) && (back ==> called && s.threads[SELF].Returned?)
    && SelfFine(s)
  }

  ghost predicate FineAt(g: Group, i: nat)
    requires i < |g.apps|
  {
    Fine(g.apps[i], Called(g.phase, g.n, i), ReturnedFrom(g.phase, g.n, i)) && g.apps[i].id == i
  }

  ghost predicate OpenInv(g: Group) {
    && g.n <= |g.apps|
    && (g.phase.Closing? ==> g.phase.k < g.n)
    && (forall i :: 0 <= i < |g.apps| ==> FineAt(g, i))
    && (!g.phase.Armed? ==> g.wg == g.n - Shares(g.apps[..g.n]) + Due(g))
    && (g.phase.Exited? ==> g.wg == 0)
  }

  lemma {:induction false} SharesUpdate(apps: seq<App>, i: nat, s: App)
    requires i < |apps|
    ensures Shares(apps[i := s]) == Shares(apps) - Share(apps[i]) + Share(s)
  {
    var last := |apps| - 1;
    if i == last {
      assert apps[i := s][..last] == apps[..last];
    } else {
      SharesUpdate(apps[..last], i, s);
      assert apps[i := s][..last] == apps[..last][i := s];
    }
  }

  lemma {:induction false} SharesZero(apps: seq<App>)
    requires forall i :: 0 <= i < |apps| ==> Share(apps[i]) == 0
    ensures Shares(apps) == 0
  {
    if apps != [] { SharesZero(apps[..|apps| - 1]); }
  }

  lemma {:induction false} SharesCount(apps: seq<App>)
    requires forall i :: 0 <= i < |apps| ==> Share(apps[i]) <= 2
    ensures |apps| - Shares(apps) == Having(apps, 0) - Having(apps, 2)
  {
    if apps != [] { SharesCount(apps[..|apps| - 1]); }
  }

  lemma {:induction false} HavingNone(apps: seq<App>, n: nat)
    ensures Having(apps, n) <= |apps|
    ensures Having(apps, n) == 0 <==> forall i :: 0 <= i < |apps| ==> Share(apps[i]) != n
  {
    if apps != [] { HavingNone(apps[..|apps| - 1], n); }
  }

  lemma Bounded(s: App)
    requires Inv(s)
    ensures s.runs[SELF] <= 1 && Share(s) <= 2
    ensures SELF !in s.threads ==> Share(s) == 0
  {
  }

  /** A step of goroutine t in one app. */
  lemma FineDo(s: App, t: Tid, called: bool, back: bool)
    requires Fine(s, called, back) && Enabled(s, t) && (t == SELF ==> !back)
    ensures Fine(Do(s, t), called, back) && Do(s, t).id == s.id
    ensures Share(Do(s, t)) == Share(s) + Dones(s, t) + (if Lost(Do(s, t)) && !Lost(s) then 1 else 0)
    ensures t != SELF ==> (Lost(Do(s, t)) <==> Lost(s))
    ensures Lost(s) ==> t != SELF
  {
    hide Inv, SelfFine;
    DonesAreRuns(s, t);
    SelfDo(s, t);
    assert Step(s, Do(s, t));
    StepKeeps(s, Do(s, t));
  }

  lemma SelfDo(s: App, t: Tid)
    requires SelfFine(s) && Enabled(s, t)
    ensures SelfFine(Do(s, t))
  {
  }

  lemma FineStart(s: App, t: Tid, pc: PC, called: bool, back: bool)
    requires Fine(s, called, back) && t !in s.threads && Start(pc) && (t == SELF ==> pc == Calling(true))
    ensures Fine(At(s, t, pc), called || t == SELF, back)
    ensures Share(At(s, t, pc)) == Share(s) && (Lost(At(s, t, pc)) <==> Lost(s))
  {
    hide Inv;
    assert Step(s, At(s, t, pc));
    StepKeeps(s, At(s, t, pc));
  }

  /** App i changes, and the counter by what that adds to its share and is not still due. */
  lemma PutKeeps(g: Group, i: nat, s: App, wg: int)
    requires OpenInv(g) && i < |g.apps| && !g.phase.Exited?
    requires FineAt(g.(apps := g.apps[i := s]), i)
    requires wg == g.wg - Share(s) + Share(g.apps[i]) + (if Lost(s) && !Lost(g.apps[i]) then 1 else 0)
    requires Lost(s) <==> Lost(g.apps[i]) || (Lost(s) && g.phase == Closing(i))
    ensures OpenInv(g.(apps := g.apps[i := s], wg := wg))
  {
    hide Fine, Lost, Share, Shares;
    var g' := g.(apps := g.apps[i := s], wg := wg);
    forall j | 0 <= j < |g.apps| ensures FineAt(g', j) {
      if j != i { assert FineAt(g, j); }
    }
    assert FineAt(g, i);
    if i < g.n {
      assert g'.apps[..g.n] == g.apps[..g.n][i := s];
      SharesUpdate(g.apps[..g.n], i, s);
    } else {
      NotCalled(g.apps[i]);
      NotCalled(s);
      assert g'.apps[..g.n] == g.apps[..g.n];
    }
  }

  lemma OpenDo(g: Group, i: nat, t: Tid)
    requires OpenInv(g) && i < |g.apps| && Enabled(g.apps[i], t) && !g.phase.Exited?
    requires t == SELF ==> g.phase == Closing(i)
    ensures OpenInv(g.(apps := g.apps[i := Do(g.apps[i], t)], wg := g.wg - Dones(g.apps[i], t)))
  {
    hide Fine, Do, Share, Lost;
    assert FineAt(g, i);
    FineDo(g.apps[i], t, Called(g.phase, g.n, i), ReturnedFrom(g.phase, g.n, i));
    PutKeeps(g, i, Do(g.apps[i], t), g.wg - Dones(g.apps[i], t));
  }

  lemma OpenStart(g: Group, i: nat, t: Tid, pc: PC)
    requires OpenInv(g) && i < |g.apps| && t != SELF && t !in g.apps[i].threads && Start(pc) && !g.phase.Exited?
    ensures OpenInv(g.(apps := g.apps[i := At(g.apps[i], t, pc)]))
  {
    hide Fine, Share, Lost;
    assert FineAt(g, i);
    FineStart(g.apps[i], t, pc, Called(g.phase, g.n, i), ReturnedFrom(g.phase, g.n, i));
    PutKeeps(g, i, At(g.apps[i], t, pc), g.wg);
  }

  lemma OpenReach(g: Group, k: nat)
    requires g.n <= |g.apps| && k <= g.n && g.wg == g.n - Shares(g.apps[..g.n])
    requires forall i :: 0 <= i < |g.apps| ==> Fine(g.apps[i], i < k, i < k) && g.apps[i].id == i
    ensures OpenInv(Reach(g, k))
  {
    hide Fine, Share, Lost, Shares;
    var g' := Reach(g, k);
    if k < g.n {
      var s := At(g.apps[k], SELF, Calling(true));
      NotCalled(g.apps[k]);
      FineStart(g.apps[k], SELF, Calling(true), false, false);
      forall i | 0 <= i < |g'.apps| ensures FineAt(g', i) { assert g'.apps[i] == if i == k then s else g.apps[i]; }
      assert g'.apps[..g.n] == g.apps[..g.n][k := s];
      SharesUpdate(g.apps[..g.n], k, s);
    } else {
      forall i | 0 <= i < |g'.apps| ensures FineAt(g', i) { assert g'.apps[i] == g.apps[i]; }
    }
  }

  lemma NotCalled(s: App)
    requires Fine(s, false, false)
    ensures SELF !in s.threads && !Lost(s) && Share(s) == 0
  {
    Bounded(s);
    hide Inv;
  }

  lemma OpenSignal(g: Group, g': Group)
    requires OpenInv(g) && SignalStep(g, g')
    ensures OpenInv(g')
  {
    hide Reach, Inv;
    var g0 := g.(n := |g.apps|, wg := |g.apps|);
    forall i | 0 <= i < |g.apps| ensures Fine(g.apps[i], false, false) && g.apps[i].id == i && Share(g.apps[i]) == 0 {
      assert FineAt(g, i);
      Bounded(g.apps[i]);
    }
    assert g0.apps[..g0.n] == g.apps;
    SharesZero(g.apps);
    OpenReach(g0, 0);
  }

  lemma OpenReturn(g: Group, g': Group)
    requires OpenInv(g) && ReturnStep(g, g')
    ensures OpenInv(g')
  {
    hide Reach, Inv, Share;
    var g0 := g.(wg := if g.apps[g.phase.k].threads[SELF].ok then g.wg else g.wg - 1);
    forall i | 0 <= i < |g.apps| ensures Fine(g.apps[i], i < g.phase.k + 1, i < g.phase.k + 1) && g.apps[i].id == i {
      assert FineAt(g, i);
    }
    OpenReach(g0, g.phase.k + 1);
  }

  lemma OpenNewApp(g: Group, g': Group)
    requires OpenInv(g) && NewAppStep(g, g') && !g.phase.Exited?
    ensures OpenInv(g')
  {
    NewAppSolo(|g.apps|);
    forall i | 0 <= i < |g'.apps| ensures FineAt(g', i) {
      if i < |g.apps| { assert FineAt(g, i); }
    }
    assert g'.apps[..g.n] == g.apps[..g.n];
  }

  lemma OpenStepKeeps(g: Group, g': Group)
    requires OpenInv(g) && OpenStep(g, g')
    ensures OpenInv(g')
  {
    hide Fine, Do, Shares, Reach, OpenInv;
    if SignalStep(g, g') {
      OpenSignal(g, g');
    } else if i, t :| 0 <= i < |g.apps| && t != SELF && Enabled(g.apps[i], t) &&
                      g' == g.(apps := g.apps[i := Do(g.apps[i], t)], wg := g.wg - Dones(g.apps[i], t)) {
      OpenDo(g, i, t);
    } else if i, t, valid :| 0 <= i < |g.apps| && t != SELF && t !in g.apps[i].threads &&
                             g' == g.(apps := g.apps[i := At(g.apps[i], t, Arriving(valid))]) {
      OpenStart(g, i, t, Arriving(valid));
    } else if i, t, cb :| 0 <= i < |g.apps| && t != SELF && t !in g.apps[i].threads &&
                          g' == g.(apps := g.apps[i := At(g.apps[i], t, Calling(cb))]) {
      OpenStart(g, i, t, Calling(cb));
    } else if CloserStep(g, g') {
      OpenDo(g, g.phase.k, SELF);
    } else if ReturnStep(g, g') {
      OpenReturn(g, g');
    } else if NewAppStep(g, g') {
      OpenNewApp(g, g');
    } else {
      assert ExitStep(g, g');
      OpenExit(g, g');
    }
  }

  lemma OpenExit(g: Group, g': Group)
    requires OpenInv(g) && ExitStep(g, g')
    ensures OpenInv(g')
  {
    forall i | 0 <= i < |g'.apps| ensures FineAt(g', i) { assert FineAt(g, i); }
  }

  lemma {:induction false} OpenRunInv(b: seq<Group>, i: nat)
    requires OpenRun(b) && i < |b|
    ensures OpenInv(b[i])
  {
    hide OpenInv, OpenStep;
    if i > 0 {
      OpenRunInv(b, i - 1);
      OpenStepKeeps(b[i - 1], b[i]);
    } else {
      OpenNothing();
    }
  }

  lemma OpenNothing()
    ensures OpenInv(Group([], 0, 0, Armed))
  {
  }

  // ---------------------------------------------------------------- results

  /** The counter is the number of apps nothing has been counted for, less the number of those counted
      twice: it falls below 0 exactly when there are more of these. */
  lemma CounterIs(b: seq<Group>, i: nat)
    requires OpenRun(b) && i < |b| && !b[i].phase.Armed?
    ensures b[i].n <= |b[i].apps|
    ensures var snapshot := b[i].apps[..b[i].n];
      b[i].wg == Having(snapshot, 0) - Having(snapshot, 2) + Due(b[i])
  {
    var g := b[i];
    OpenRunInv(b, i);
    forall j | 0 <= j < g.n ensures Share(g.apps[..g.n][j]) <= 2 {
      assert FineAt(g, j);
      Bounded(g.apps[j]);
    }
    SharesCount(g.apps[..g.n]);
  }

  /** Twice means that the Close returned false and its callback has run all the same. */
  lemma TwiceIf(b: seq<Group>, i: nat, j: nat)
    requires OpenRun(b) && i < |b| && j < |b[i].apps|
    ensures Share(b[i].apps[j]) == 2 <==> Lost(b[i].apps[j]) && SELF in b[i].apps[j].runs
    ensures Share(b[i].apps[j]) <= 2
  {
    OpenRunInv(b, i);
    assert FineAt(b[i], j);
    Bounded(b[i].apps[j]);
  }

  /** As long as no app is counted twice the counter is not below 0, and the process exits only when each app
      of the snapshot has drained, its callback having run, or somebody else has closed it. */
  lemma UnlessTwice(b: seq<Group>, i: nat)
    requires OpenRun(b) && i < |b| && !b[i].phase.Armed?
    requires forall j :: 0 <= j < b[i].n && j < |b[i].apps| ==> !(Lost(b[i].apps[j]) && SELF in b[i].apps[j].runs)
    ensures b[i].wg >= 0
    ensures b[i].phase.Exited? ==> forall j :: 0 <= j < b[i].n ==>
      j < |b[i].apps| && if Lost(b[i].apps[j]) then b[i].apps[j].closed else Drained(b[i].apps[j])
  {
    var g := b[i];
    CounterIs(b, i);
    OpenRunInv(b, i);
    var snapshot := g.apps[..g.n];
    forall j | 0 <= j < |snapshot| ensures Share(snapshot[j]) != 2 { TwiceIf(b, i, j); }
    HavingNone(snapshot, 2);
    HavingNone(snapshot, 0);
    if g.phase.Exited? {
      forall j | 0 <= j < g.n ensures if Lost(g.apps[j]) then g.apps[j].closed else Drained(g.apps[j]) {
        assert snapshot[j] == g.apps[j] && FineAt(g, j);
        RanDrained(g.apps[j]);
      }
    }
  }

  lemma RanDrained(s: App)
    requires Inv(s)
    ensures SELF in s.runs ==> Drained(s)
  {
    assert SELF in s.runs ==> s.runs != multiset{};
  }

  // ---------------------------------------------------------------- when an app is counted twice

  /** What app j goes through in the first i steps. */
  ghost function OwnRun(b: seq<Group>, i: nat, j: nat): seq<App>
    requires i < |b|
  {
    var before := if i == 0 then [] else OwnRun(b, i - 1, j);
    if j >= |b[i].apps| || (before != [] && before[|before| - 1] == b[i].apps[j]) then before
    else before + [b[i].apps[j]]
  }

  lemma {:induction false} OwnRunIs(b: seq<Group>, i: nat, j: nat)
    requires OpenRun(b) && i < |b|
    ensures j >= |b[i].apps| ==> OwnRun(b, i, j) == []
    ensures j < |b[i].apps| ==> var a := OwnRun(b, i, j); Run(a) && a[|a| - 1] == b[i].apps[j]
  {
    hide OpenStep, OpenInv, Step, NewApp, Run;
    if i > 0 {
      OwnRunIs(b, i - 1, j);
      OpenRunInv(b, i - 1);
      AppSteps(b[i - 1], b[i], j);
      var a := OwnRun(b, i - 1, j);
      if j < |b[i - 1].apps| {
        SomeRun(a);
        if b[i].apps[j] != b[i - 1].apps[j] { RunLonger(a, b[i].apps[j]); }
      } else if j < |b[i].apps| {
        FreshRun(j);
        assert a + [NewApp(j)] == [NewApp(j)];
      }
    }
  }

  lemma SomeRun(a: seq<App>)
    requires Run(a)
    ensures a != []
  {
  }

  lemma RunLonger(a: seq<App>, s: App)
    requires Run(a) && Step(a[|a| - 1], s)
    ensures Run(a + [s])
  {
    hide Step;
  }

  lemma FreshRun(j: nat)
    ensures Run([NewApp(j)])
  {
  }

  /** What a step of the group is for app j. */
  lemma AppSteps(g: Group, g': Group, j: nat)
    requires OpenInv(g) && OpenStep(g, g')
    ensures |g.apps| <= |g'.apps|
    ensures j < |g.apps| ==> g'.apps[j] == g.apps[j] || Step(g.apps[j], g'.apps[j])
    ensures |g.apps| <= j < |g'.apps| ==> g'.apps[j] == NewApp(j)
  {
    hide Do, Enabled, NewApp, OpenInv, Fine, Step, At;
    if SignalStep(g, g') {
      ReachSteps(g, 0);
    } else if ReturnStep(g, g') {
      ReachSteps(g, g.phase.k + 1);
    } else if i, t :| 0 <= i < |g.apps| && t != SELF && Enabled(g.apps[i], t) &&
                      g' == g.(apps := g.apps[i := Do(g.apps[i], t)], wg := g.wg - Dones(g.apps[i], t)) {
      DoIsStep(g.apps[i], t);
    } else if i, t, valid :| 0 <= i < |g.apps| && t != SELF && t !in g.apps[i].threads &&
                             g' == g.(apps := g.apps[i := At(g.apps[i], t, Arriving(valid))]) {
      StartIsStep(g.apps[i], t, Arriving(valid));
    } else if i, t, cb :| 0 <= i < |g.apps| && t != SELF && t !in g.apps[i].threads &&
                          g' == g.(apps := g.apps[i := At(g.apps[i], t, Calling(cb))]) {
      StartIsStep(g.apps[i], t, Calling(cb));
    } else if CloserStep(g, g') {
      DoIsStep(g.apps[g.phase.k], SELF);
    }
  }

  lemma DoIsStep(s: App, t: Tid)
    requires Enabled(s, t)
    ensures Step(s, Do(s, t))
  {
  }

  lemma StartIsStep(s: App, t: Tid, pc: PC)
    requires t !in s.threads && Start(pc)
    ensures Step(s, At(s, t, pc))
  {
  }

  /** The loop calls the next Close. */
  lemma ReachSteps(g: Group, k: nat)
    requires OpenInv(g) && (g.phase.Armed? || (g.phase.Closing? && k == g.phase.k + 1))
    ensures k < |g.apps| ==> Step(g.apps[k], At(g.apps[k], SELF, Calling(true)))
  {
    hide Step, At, Inv;
    if k < |g.apps| {
      assert FineAt(g, k);
      StartIsStep(g.apps[k], SELF, Calling(true));
    }
  }

  /** A stored callback has been stored at some step. */
  lemma {:induction false} WasStored(a: seq<App>, t: Tid) returns (s: nat)
    requires Run(a) && t in a[|a| - 1].stored
    ensures JustStored(a, s, t)
  {
    var n := |a| - 1;
    if n > 0 {
      hide JustStored, Step;
      var before := a[..n];
      if t in a[n - 1].stored {
        assert forall k :: 0 <= k < n ==> before[k] == a[k];
        s := WasStored(before, t);
        StoredBefore(before, a, s, t);
      } else {
        s := n;
        StoredLast(a, t);
      }
    }
  }

  lemma StoredLast(a: seq<App>, t: Tid)
    requires |a| > 1 && Step(a[|a| - 2], a[|a| - 1]) && t !in a[|a| - 2].stored && t in a[|a| - 1].stored
    ensures JustStored(a, |a| - 1, t)
  {
  }

  /** An app that has come to rest after a Close that returned false: unless another callback has been stored
      since, w.Done() has been called for it twice exactly if, when the callback was stored, a goroutine that
      had brought runners to 0 was on its way to it, or runners has reached 0 since. */
  lemma TwiceExactlyIf(b: seq<Group>, i: nat, j: nat) returns (s: nat)
    requires OpenRun(b) && i < |b| && j < |b[i].apps| && Lost(b[i].apps[j]) && Quiescent(b[i].apps[j])
    ensures var a := OwnRun(b, i, j);
      && Run(a) && JustStored(a, s, SELF)
      && (NoStore(a, s, |a| - 1) ==>
            (Share(b[i].apps[j]) == 2 <==> Somewhere(a[s], WillReset) || ZeroBetween(a, s, |a| - 1)))
  {
    hide OpenRun, JustStored, NoStore, Somewhere, ZeroBetween, Inv, Run;
    var a := OwnRun(b, i, j);
    OwnRunIs(b, i, j);
    OpenRunInv(b, i);
    assert FineAt(b[i], j);
    SomeRun(a);
    s := WasStored(a, SELF);
    TwiceIf(b, i, j);
    StoredWithin(a, s, SELF);
    if NoStore(a, s, |a| - 1) { RunsExactlyIf(a, s, |a| - 1, SELF); }
  }

  lemma StoredWithin(a: seq<App>, s: nat, t: Tid)
    requires JustStored(a, s, t)
    ensures s < |a|
  {
  }

  // ---------------------------------------------------------------- below 0

  /** Goroutine t runs its next step in app i. */
  function After(g: Group, i: nat, t: Tid): Group
    requires i < |g.apps| && Enabled(g.apps[i], t)
  {
    g.(apps := g.apps[i := Do(g.apps[i], t)], wg := g.wg - Dones(g.apps[i], t))
  }

  lemma Going(b: seq<Group>, i: nat, t: Tid)
    requires OpenRun(b) && !b[|b| - 1].phase.Exited? && i < |b[|b| - 1].apps| && Enabled(b[|b| - 1].apps[i], t)
    requires t == SELF ==> b[|b| - 1].phase == Closing(i)
    ensures OpenRun(b + [After(b[|b| - 1], i, t)])
  {
    hide Do, Enabled, Dones;
    var g := b[|b| - 1];
    if t == SELF {
      assert CloserStep(g, After(g, i, t));
    } else {
      assert RequestStep(g, After(g, i, t));
    }
    NotSignal(g, After(g, i, t));
    LastStep(b, After(g, i, t));
  }

  lemma NotSignal(g: Group, g': Group)
    requires g'.phase == g.phase
    ensures !SignalStep(g, g')
  {
  }

  lemma LastStep(b: seq<Group>, g': Group)
    requires OpenRun(b) && OpenStep(b[|b| - 1], g')
    ensures OpenRun(b + [g'])
  {
    hide OpenStep;
  }

  /** A request or another Close comes to app i. */
  lemma Entering(b: seq<Group>, i: nat, t: Tid, pc: PC)
    requires OpenRun(b) && !b[|b| - 1].phase.Exited? && i < |b[|b| - 1].apps|
    requires t != SELF && t !in b[|b| - 1].apps[i].threads && Start(pc)
    ensures var g := b[|b| - 1]; OpenRun(b + [g.(apps := g.apps[i := At(g.apps[i], t, pc)])])
  {
    hide At;
    var g := b[|b| - 1];
    var g' := g.(apps := g.apps[i := At(g.apps[i], t, pc)]);
    if pc.Calling? {
      assert CloserArrives(g, g.(apps := g.apps[i := At(g.apps[i], t, Calling(pc.cb))]));
    } else {
      assert ArrivalStep(g, g.(apps := g.apps[i := At(g.apps[i], t, Arriving(pc.valid))]));
    }
    NotSignal(g, g');
    LastStep(b, g');
  }

  /** n steps into app 0's only Close so far, which passes no callback. */
  predicate QuietClose(s: App, n: nat)
    requires n <= 8
  {
    && s.id == 0 && s.present && s.slot.None? && s.clears == 0 && s.runs == multiset{} && s.stored == {}
    && s.threads == map[1 := [Calling(false), Storing(false), Unlocking, Swapping, Dropping, Removing(Closer),
         Acquiring(Closer), Checking(Closer), Releasing(Closer)][n]]
    && (s.closed <==> n >= 4) && s.runners == (if n >= 5 then 0 else 1)
    && s.lock == (if n == 1 || n == 2 || n >= 7 then Some(1) else None)
  }

  lemma QuietStep(s: App, n: nat)
    requires n < 8 && QuietClose(s, n)
    ensures Enabled(s, 1) && QuietClose(Do(s, 1), n + 1) && Dones(s, 1) == 0
  {
  }

  /** Every goroutine other than the one that shuts down has returned from the closed app. */
  predicate Settled(s: App) {
    s.closed && s.lock.None? && forall t :: t in s.threads && t != SELF ==> Terminal(s.threads[t])
  }

  lemma QuietEnd(s: App)
    requires QuietClose(s, 8)
    ensures Enabled(s, 1) && Dones(s, 1) == 0
    ensures var s' := Do(s, 1);
      Settled(s') && s'.present && s'.threads == map[1 := Returned(true)] && s'.runs == multiset{}
  {
  }

  /** App 0 has been closed by somebody else, and is at rest when the signal comes. */
  lemma ClosedBefore() returns (b: seq<Group>)
    ensures OpenRun(b)
    ensures var g := b[|b| - 1];
      && g.phase == Closing(0) && g.n == |g.apps| == 1 && g.wg == 1
      && Settled(g.apps[0]) && g.apps[0].threads == map[1 := Returned(true), SELF := Calling(true)]
      && g.apps[0].runs == multiset{}
  {
    hide OpenStep, Do, Dones, QuietClose, Enabled, Settled;
    b := OneApp();
    Entering(b, 0, 1, Calling(false));
    var s := At(NewApp(0), 1, Calling(false));
    assert Alone(NewApp(0)).apps[0 := s] == [s];
    b := b + [Alone(s)];
    QuietStart();
    for n := 0 to 8
      invariant OpenRun(b) && |b[|b| - 1].apps| == 1 && b[|b| - 1] == Alone(b[|b| - 1].apps[0])
      invariant QuietClose(b[|b| - 1].apps[0], n)
    {
      s := b[|b| - 1].apps[0];
      QuietStep(s, n);
      Going(b, 0, 1);
      b := b + [After(Alone(s), 0, 1)];
    }
    s := b[|b| - 1].apps[0];
    QuietEnd(s);
    Going(b, 0, 1);
    assert [s][0 := Do(s, 1)] == [Do(s, 1)];
    s := Do(s, 1);
    b := b + [Alone(s)];
    Signalled(b, s);
    SelfCalls(s);
    b := b + [Group([At(s, SELF, Calling(true))], 1, 1, Closing(0))];
  }

  lemma SelfCalls(s: App)
    requires Settled(s)
    ensures Settled(At(s, SELF, Calling(true))) && At(s, SELF, Calling(true)).runs == s.runs
    ensures At(s, SELF, Calling(true)).threads == s.threads[SELF := Calling(true)]
  {
  }

  lemma Signalled(b: seq<Group>, s: App)
    requires OpenRun(b) && b[|b| - 1] == Alone(s) && s.present
    ensures OpenRun(b + [Group([At(s, SELF, Calling(true))], 1, 1, Closing(0))])
  {
    hide OpenRun, At;
    var g := Group([At(s, SELF, Calling(true))], 1, 1, Closing(0));
    assert [s][0 := At(s, SELF, Calling(true))] == [At(s, SELF, Calling(true))];
    assert SignalStep(Alone(s), g);
    LastStep(b, g);
  }

  lemma QuietStart()
    ensures QuietClose(At(NewApp(0), 1, Calling(false)), 0)
  {
  }

  function Alone(s: App): Group {
    Group([s], 0, 0, Armed)
  }

  lemma OneApp() returns (b: seq<Group>)
    ensures OpenRun(b) && b[|b| - 1] == Alone(NewApp(0))
  {
    var g := Group([], 0, 0, Armed);
    b := [g];
    assert OpenRun(b);
    assert NewAppStep(g, Alone(NewApp(0)));
    NotSignal(g, Alone(NewApp(0)));
    LastStep(b, Alone(NewApp(0)));
    b := b + [Alone(NewApp(0))];
  }

  /** `g'` is g but for app k and the counter. */
  predicate OnlyApp(g: Group, g': Group, k: nat) {
    && k < |g.apps| && |g'.apps| == |g.apps| && g' == g.(apps := g.apps[k := g'.apps[k]], wg := g'.wg)
  }

  lemma OnlyAppSame(g: Group, k: nat)
    requires k < |g.apps|
    ensures OnlyApp(g, g, k)
  {
  }

  lemma OnlyAppPut(g: Group, h: Group, k: nat, s: App, wg: int)
    requires OnlyApp(g, h, k)
    ensures OnlyApp(g, h.(apps := h.apps[k := s], wg := wg), k)
  {
  }

  lemma OnlyAppIs(g: Group, h: Group, k: nat)
    requires OnlyApp(g, h, k)
    ensures k < |h.apps| && h.phase == g.phase && h.n == g.n
  {
  }

  lemma FineHere(b: seq<Group>, i: nat, k: nat)
    requires OpenRun(b) && i < |b| && k < |b[i].apps|
    ensures Fine(b[i].apps[k], Called(b[i].phase, b[i].n, k), ReturnedFrom(b[i].phase, b[i].n, k)) && Inv(b[i].apps[k])
  {
    hide Inv;
    OpenRunInv(b, i);
    assert FineAt(b[i], k);
  }

  /** Close on a closed, settled app: it returns false with the callback stored. */
  lemma LosesHere(b: seq<Group>) returns (b': seq<Group>)
    requires OpenRun(b) && b[|b| - 1].phase.Closing?
    requires var g := b[|b| - 1]; var k := g.phase.k;
      k < |g.apps| && Settled(g.apps[k]) && SELF in g.apps[k].threads && g.apps[k].threads[SELF] == Calling(true)
    ensures OpenRun(b') && b <= b'
    ensures var g, g' := b[|b| - 1], b'[|b'| - 1]; var k := g.phase.k;
      && OnlyApp(g, g', k) && g'.wg == g.wg && k < |g'.apps|
      && g'.apps[k].slot == Some(SELF) && g'.apps[k].closed
      && g'.apps[k].threads == g.apps[k].threads[SELF := Returned(false)]
  {
    hide OpenStep, Do, Enabled, SecondClose, Dones, OnlyApp, Fine, Settled;
    var g := b[|b| - 1];
    var k := g.phase.k;
    var s0 := g.apps[k].(threads := g.apps[k].threads - {SELF});
    FineHere(b, |b| - 1, k);
    CallStarts(s0, g.apps[k]);
    OnlyAppSame(g, k);
    b' := b;
    for n := 0 to 4
      invariant OpenRun(b') && b <= b' && OnlyApp(g, b'[|b'| - 1], k) && b'[|b'| - 1].wg == g.wg
      invariant k < |b'[|b'| - 1].apps| && SecondClose(s0, b'[|b'| - 1].apps[k], SELF, n)
    {
      var h := b'[|b'| - 1];
      OnlyAppIs(g, h, k);
      SecondCloseStep(s0, h.apps[k], SELF, n);
      NoDoneYet(s0, h.apps[k], n);
      Going(b', k, SELF);
      OnlyAppPut(g, h, k, Do(h.apps[k], SELF), h.wg - Dones(h.apps[k], SELF));
      b' := b' + [After(h, k, SELF)];
    }
    CallEnds(s0, g.apps[k], b'[|b'| - 1].apps[k]);
  }

  lemma CallEnds(s0: App, s: App, s': App)
    requires s0 == s.(threads := s.threads - {SELF}) && SecondClose(s0, s', SELF, 4)
    ensures s'.slot == Some(SELF) && s'.closed && s'.threads == s.threads[SELF := Returned(false)]
  {
  }

  lemma CallStarts(s0: App, s: App)
    requires Fine(s, true, false) && Settled(s) && s.threads[SELF] == Calling(true)
    requires s0 == s.(threads := s.threads - {SELF})
    ensures SecondClose(s0, s, SELF, 0)
  {
    assert s.threads == s0.threads[SELF := Calling(true)];
  }

  lemma NoDoneYet(s0: App, s: App, n: nat)
    requires n < 4 && SecondClose(s0, s, SELF, n) && Enabled(s, SELF)
    ensures Dones(s, SELF) == 0
  {
  }

  /** A request to a closed app at rest whose callback is still waiting: w.Done() is called. */
  lemma LateDone(b: seq<Group>, k: nat, u: Tid) returns (b': seq<Group>)
    requires OpenRun(b) && !b[|b| - 1].phase.Exited?
    requires var g := b[|b| - 1];
      && k < |g.apps| && Quiescent(g.apps[k]) && g.apps[k].closed && g.apps[k].slot == Some(SELF)
      && u != SELF && u !in g.apps[k].threads
    ensures OpenRun(b') && b <= b' && OnlyApp(b[|b| - 1], b'[|b'| - 1], k) && b'[|b'| - 1].wg == b[|b| - 1].wg - 1
  {
    hide OpenStep, Do, Enabled, TurnedAway, Dones, OnlyApp, Inv, Fine, Quiescent;
    var g := b[|b| - 1];
    var s0 := g.apps[k];
    FineHere(b, |b| - 1, k);
    Entering(b, k, u, Arriving(true));
    b' := b + [g.(apps := g.apps[k := At(s0, u, Arriving(true))])];
    TurnsUp(s0, u);
    OnlyAppSame(g, k);
    OnlyAppPut(g, g, k, At(s0, u, Arriving(true)), g.wg);
    for n := 0 to 9
      invariant OpenRun(b') && b <= b' && OnlyApp(g, b'[|b'| - 1], k)
      invariant b'[|b'| - 1].wg == g.wg - (if n >= 7 then 1 else 0)
      invariant k < |b'[|b'| - 1].apps| && TurnedAway(s0, b'[|b'| - 1].apps[k], u, n)
    {
      var h := b'[|b'| - 1];
      OnlyAppIs(g, h, k);
      TurnedAwayStep(s0, h.apps[k], u, n);
      OneDone(s0, h.apps[k], u, n);
      Going(b', k, u);
      OnlyAppPut(g, h, k, Do(h.apps[k], u), h.wg - Dones(h.apps[k], u));
      b' := b' + [After(h, k, u)];
    }
  }

  lemma TurnsUp(s: App, u: Tid)
    requires Inv(s) && Quiescent(s) && s.closed && u !in s.threads
    ensures TurnedAway(s, At(s, u, Arriving(true)), u, 0)
  {
    QuiescentZero(s);
    hide Inv, Quiescent;
  }

  lemma OneDone(s0: App, s: App, u: Tid, n: nat)
    requires n < 9 && s0.slot == Some(SELF) && TurnedAway(s0, s, u, n) && Enabled(s, u)
    ensures Dones(s, u) == if n == 6 then 1 else 0
  {
  }

  /** Whenever the loop comes to an app that somebody else has closed and that is at rest, the counter can go
      down by two for it. */
  lemma CanGoTwice(b: seq<Group>, u: Tid) returns (b': seq<Group>)
    requires OpenRun(b) && b[|b| - 1].phase.Closing? && u != SELF
    requires var g := b[|b| - 1]; var k := g.phase.k;
      k < |g.apps| && Settled(g.apps[k]) && SELF in g.apps[k].threads && g.apps[k].threads[SELF] == Calling(true) &&
      u !in g.apps[k].threads
    ensures OpenRun(b') && b <= b' && b'[|b'| - 1].wg == b[|b| - 1].wg - 2
  {
    hide OpenStep, Settled, OnlyApp;
    var k := b[|b| - 1].phase.k;
    var b1 := LosesHere(b);
    var g1 := b1[|b1| - 1];
    AllReturned(b[|b| - 1].apps[k], g1.apps[k]);
    OnlyAppIs(b[|b| - 1], g1, k);
    var g2 := Back(b1);
    b' := LateDone(b1 + [g2], k, u);
  }

  /** The loop calls w.Done() for a Close that has returned false, and goes on. */
  lemma Back(b: seq<Group>) returns (g': Group)
    requires OpenRun(b) && b[|b| - 1].phase.Closing? && b[|b| - 1].phase.k < |b[|b| - 1].apps|
    requires Lost(b[|b| - 1].apps[b[|b| - 1].phase.k])
    ensures var g := b[|b| - 1];
      && OpenRun(b + [g']) && g'.wg == g.wg - 1 && !g'.phase.Exited? && |g'.apps| == |g.apps|
      && g'.apps[g.phase.k] == g.apps[g.phase.k]
  {
    hide Fine;
    var g := b[|b| - 1];
    OpenRunInv(b, |b| - 1);
    g' := Reach(g.(wg := g.wg - 1), g.phase.k + 1);
    assert ReturnStep(g, g');
    LastStep(b, g');
  }

  lemma AllReturned(s: App, s': App)
    requires Settled(s) && s'.threads == s.threads[SELF := Returned(false)]
    ensures Quiescent(s')
  {
  }

  /** So the WaitGroup can go below 0, which panics. */
  lemma BelowZero() returns (b: seq<Group>)
    ensures OpenRun(b) && b[|b| - 1].wg == -1
  {
    b := ClosedBefore();
    b := CanGoTwice(b, 2);
  }
}
