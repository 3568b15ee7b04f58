/** GracefulShutDown (sunny_graceterm.go): one goroutine closes every app of a snapshot, each with
    a callback that calls w.Done(), and waits for the WaitGroup before it exits the process.
    It is the only caller of Close here; requests to every app go on arriving throughout. */
module GracefulShutdown {
  import opened AppProtocol
  import opened Text

  /** The goroutine's name in each app it closes. */
  const SELF: Tid := 0

  datatype Phase = Armed | Closing(k: nat) | Waiting | Exited

  /** `n` is serverslen, `wg` the WaitGroup's counter. */
  datatype Group = Group(apps: seq<App>, n: nat, wg: int, phase: Phase)

  /** Program points of ServeRequestedEndPoint. */
  predicate RequestSide(pc: PC) {
    || pc.Arriving? || pc.Entered? || pc.Serving? || pc.Leaving? || pc.SawZero? || pc.Gone?
    || ((pc.Removing? || PastRemoval(pc)) && pc.role.Request?)
  }

  /** The goroutine's callback calls w.Done() once a run. */
  function Dones(s: App, t: Tid): nat
    requires Enabled(s, t)
  {
    if s.threads[t].Checking? && s.slot == Some(SELF) then 1 else 0
  }

  /** The loop body reaches server k of the snapshot, or the loop is over. */
  function Reach(g: Group, k: nat): Group
    requires k < g.n ==> k < |g.apps|
  {
    if k < g.n then
      g.(phase := Closing(k), apps := g.apps[k := At(g.apps[k], SELF, Calling(true))])
    else
      g.(phase := Waiting)
  }

  predicate SignalStep(g: Group, g': Group) {
    g.phase.Armed? && g' == Reach(g.(n := |g.apps|, wg := |g.apps|), 0)
  }

  ghost predicate RequestStep(g: Group, g': Group) {
    exists i, t :: 0 <= i < |g.apps| && t != SELF && Enabled(g.apps[i], t) &&
      g' == g.(apps := g.apps[i := Do(g.apps[i], t)], wg := g.wg - Dones(g.apps[i], t))
  }

  ghost predicate ArrivalStep(g: Group, g': Group) {
    exists i, t, valid :: 0 <= i < |g.apps| && t != SELF && t !in g.apps[i].threads &&
      g' == g.(apps := g.apps[i := At(g.apps[i], t, Arriving(valid))])
  }

  predicate CloserStep(g: Group, g': Group) {
    && g.phase.Closing? && g.phase.k < |g.apps| && Enabled(g.apps[g.phase.k], SELF)
    && g' == g.(apps := g.apps[g.phase.k := Do(g.apps[g.phase.k], SELF)],
                wg := g.wg - Dones(g.apps[g.phase.k], SELF))
  }

  predicate ReturnStep(g: Group, g': Group) {
    && g.phase.Closing? && g.phase.k < g.n <= |g.apps| && SELF in g.apps[g.phase.k].threads
    && var pc := g.apps[g.phase.k].threads[SELF];
    && pc.Returned?
    && g' == Reach(g.(wg := if pc.ok then g.wg else g.wg - 1), g.phase.k + 1)
  }

  predicate ExitStep(g: Group, g': Group) {
    g.phase.Waiting? && g.wg == 0 && g' == g.(phase := Exited)
  }

  predicate NewAppStep(g: Group, g': Group) {
    g' == g.(apps := g.apps + [NewApp(|g.apps|)])
  }

  ghost predicate GroupStep(g: Group, g': Group) {
    && !g.phase.Exited?
    && (SignalStep(g, g') || RequestStep(g, g') || ArrivalStep(g, g') || CloserStep(g, g')
        || ReturnStep(g, g') || ExitStep(g, g') || NewAppStep(g, g'))
  }

  ghost predicate GroupRun(b: seq<Group>) {
    && |b| > 0
    && b[0] == Group([], 0, 0, Armed)
    && forall i :: 0 <= i < |b| - 1 ==> GroupStep(b[i], b[i + 1])
  }

  // ---------------------------------------------------------------- the invariant

  /** How many of the apps have run the shutdown callback. */
  function Ran(apps: seq<App>): nat {
    if apps == [] then 0 else Ran(apps[..|apps| - 1]) + apps[|apps| - 1].runs[SELF]
  }

  /** What Close leaves in one app, given that the shutdown goroutine is its only caller. */
  ghost predicate OnlyCloser(s: App) {
    && (forall t :: t in s.threads && t != SELF ==> RequestSide(s.threads[t]))
    && (SELF in s.threads ==> !RequestSide(s.threads[SELF]))
    && (SELF in s.threads && BeforeStore(s.threads[SELF]) ==> s.threads[SELF].cb)
    && s.stored == (if SELF in s.threads && !BeforeStore(s.threads[SELF]) then {SELF} else {})
    && (SELF in s.threads ==> s.threads[SELF] != Returned(false))
  }

  ghost predicate Solo(s: App) {
    Inv(s) && OnlyCloser(s)
  }

  /** Has the goroutine called Close on server i, and has that call returned? */
  predicate Called(phase: Phase, n: nat, i: nat) {
    match phase
    case Armed => false
    case Closing(k) => i <= k
    case _ => i < n
  }

  predicate ReturnedFrom(phase: Phase, n: nat, i: nat) {
    match phase
    case Armed => false
    case Closing(k) => i < k
    case _ => i < n
  }

  ghost predicate AppAt(g: Group, i: nat)
    requires i < |g.apps|
  {
    && Solo(g.apps[i]) && g.apps[i].id == i
    && (SELF in g.apps[i].threads <==> Called(g.phase, g.n, i))
    && (ReturnedFrom(g.phase, g.n, i) ==> g.apps[i].threads[SELF] == Returned(true))
  }

  ghost predicate GroupInv(g: Group) {
    && g.n <= |g.apps|
    && (g.phase.Closing? ==> g.phase.k < g.n)
    && (forall i :: 0 <= i < |g.apps| ==> AppAt(g, i))
    && (!g.phase.Armed? ==> g.wg == g.n - Ran(g.apps[..g.n]))
    && (g.phase.Exited? ==> g.wg == 0)
  }

  // ---------------------------------------------------------------- every step keeps it

  lemma {:induction false} RanUpdate(apps: seq<App>, i: nat, s: App)
    requires i < |apps|
    ensures Ran(apps[i := s]) == Ran(apps) - apps[i].runs[SELF] + s.runs[SELF]
  {
    var last := |apps| - 1;
    if i == last {
      assert apps[i := s][..last] == apps[..last];
    } else {
      RanUpdate(apps[..last], i, s);
      assert apps[i := s][..last] == apps[..last][i := s];
    }
  }

  lemma {:induction false} RanZero(apps: seq<App>)
    requires forall i :: 0 <= i < |apps| ==> apps[i].runs[SELF] == 0
    ensures Ran(apps) == 0
  {
    if apps != [] { RanZero(apps[..|apps| - 1]); }
  }

  lemma {:induction false} RanBound(apps: seq<App>)
    requires forall i :: 0 <= i < |apps| ==> apps[i].runs[SELF] <= 1
    ensures Ran(apps) <= |apps|
    ensures Ran(apps) == |apps| <==> forall i :: 0 <= i < |apps| ==> apps[i].runs[SELF] == 1
  {
    if apps != [] { RanBound(apps[..|apps| - 1]); }
  }

  lemma OnlyCloserDo(s: App, t: Tid)
    requires CloseInv(s) && OnlyCloser(s) && Enabled(s, t)
    ensures OnlyCloser(Do(s, t))
  {
    hide Next, RequestSide, BeforeStore, CloseInv;
    NextSide(s, s.threads[t]);
    if s.threads[t].Swapping? { SwapFindsOpen(s, t); }
  }

  /** A goroutine stays on its side, and stores once. */
  lemma NextSide(s: App, pc: PC)
    requires !Terminal(pc)
    ensures RequestSide(pc) <==> RequestSide(Next(s, pc))
    ensures BeforeStore(Next(s, pc)) ==> BeforeStore(pc) && Next(s, pc).cb == pc.cb
    ensures pc.Storing? <==> BeforeStore(pc) && !BeforeStore(Next(s, pc))
    ensures pc.Storing? ==> !RequestSide(pc)
    ensures pc.Swapping? ==> !RequestSide(pc)
    ensures Next(s, pc) == Returned(false) ==> pc.Swapping? && s.closed
  {
  }

  /** The only closer is the first. */
  lemma SwapFindsOpen(s: App, t: Tid)
    requires CloseInv(s) && OnlyCloser(s) && t in s.threads && s.threads[t].Swapping?
    ensures !s.closed
  {
    assert s.winner.Some? ==> Won(s.threads[s.winner.value]);
  }

  lemma DonesAreRuns(s: App, t: Tid)
    requires Enabled(s, t)
    ensures Do(s, t).runs[SELF] == s.runs[SELF] + Dones(s, t)
  {
  }

  lemma SoloDo(s: App, t: Tid)
    requires Solo(s) && Enabled(s, t)
    ensures Solo(Do(s, t)) && Do(s, t).id == s.id
    ensures t in Do(s, t).threads && Do(s, t).threads == s.threads[t := Do(s, t).threads[t]]
    ensures Do(s, t).runs[SELF] == s.runs[SELF] + Dones(s, t)
  {
    OnlyCloserDo(s, t);
    DonesAreRuns(s, t);
    hide Inv;
    assert Step(s, Do(s, t));
    StepKeeps(s, Do(s, t));
  }

  lemma SoloStart(s: App, t: Tid, pc: PC)
    requires Solo(s) && t !in s.threads
    requires if t == SELF then pc == Calling(true) else pc.Arriving?
    ensures Solo(At(s, t, pc))
  {
    assert Step(s, At(s, t, pc));
    StepKeeps(s, At(s, t, pc));
  }

  lemma NewAppSolo(id: nat)
    ensures Solo(NewApp(id)) && NewApp(id).runs[SELF] == 0
  {
    assert InFlight(NewApp(id).threads) == {};
  }

  lemma UncalledHasNotRun(s: App)
    requires Solo(s) && SELF !in s.threads
    ensures s.runs[SELF] == 0
  {
  }

  /** Replacing app i, counting what it newly ran, and moving to `phase` keeps the invariant. */
  lemma UpdateKeeps(g: Group, i: nat, s: App, phase: Phase)
    requires GroupInv(g) && i < |g.apps| && !phase.Exited? && !g.phase.Exited?
    requires phase.Armed? <==> g.phase.Armed?
    requires phase.Closing? ==> phase.k < g.n
    requires AppAt(g.(apps := g.apps[i := s], phase := phase), i)
    requires forall j :: 0 <= j < |g.apps| && j != i ==> AppAt(g.(phase := phase), j)
    requires i < g.n || s.runs[SELF] == 0
    ensures GroupInv(g.(apps := g.apps[i := s], wg := g.wg + g.apps[i].runs[SELF] - s.runs[SELF], phase := phase))
  {
    var g' := g.(apps := g.apps[i := s], wg := g.wg + g.apps[i].runs[SELF] - s.runs[SELF], phase := phase);
    forall j | 0 <= j < |g.apps| ensures AppAt(g', j) {
      if j != i { assert AppAt(g.(phase := phase), j); }
    }
    assert AppAt(g, i);
    if i < g.n {
      assert g'.apps[..g.n] == g.apps[..g.n][i := s];
      RanUpdate(g.apps[..g.n], i, s);
    } else {
      assert g'.apps[..g.n] == g.apps[..g.n];
      assert !Called(g.phase, g.n, i);
      UncalledHasNotRun(g.apps[i]);
    }
  }

  /** Moving on to server k, every earlier one having returned. */
  lemma ReachKeeps(g: Group, k: nat)
    requires g.n <= |g.apps| && k <= g.n && g.wg == g.n - Ran(g.apps[..g.n])
    requires forall i :: 0 <= i < |g.apps| ==>
      Solo(g.apps[i]) && g.apps[i].id == i && (SELF in g.apps[i].threads <==> i < k) &&
      (i < k ==> g.apps[i].threads[SELF] == Returned(true))
    ensures GroupInv(Reach(g, k))
  {
    hide Solo, Ran;
    var g' := Reach(g, k);
    if k < g.n {
      var s := At(g.apps[k], SELF, Calling(true));
      SoloStart(g.apps[k], SELF, Calling(true));
      forall i | 0 <= i < |g'.apps| ensures AppAt(g', i) { assert g'.apps[i] == if i == k then s else g.apps[i]; }
      assert g'.apps[..g.n] == g.apps[..g.n][k := s];
      RanUpdate(g.apps[..g.n], k, s);
    } else {
      forall i | 0 <= i < |g'.apps| ensures AppAt(g', i) { assert g'.apps[i] == g.apps[i]; }
    }
  }

  lemma SignalKeeps(g: Group, g': Group)
    requires GroupInv(g) && SignalStep(g, g')
    ensures GroupInv(g')
  {
    var g0 := g.(n := |g.apps|, wg := |g.apps|);
    forall i | 0 <= i < |g.apps|
      ensures Solo(g.apps[i]) && g.apps[i].id == i && SELF !in g.apps[i].threads && g.apps[i].runs[SELF] == 0
    {
      assert AppAt(g, i);
      UncalledHasNotRun(g.apps[i]);
    }
    assert g0.apps[..g0.n] == g.apps;
    RanZero(g.apps);
    ReachKeeps(g0, 0);
  }

  lemma DoKeeps(g: Group, i: nat, t: Tid)
    requires GroupInv(g) && i < |g.apps| && Enabled(g.apps[i], t) && !g.phase.Exited?
    requires t == SELF ==> g.phase == Closing(i)
    ensures GroupInv(g.(apps := g.apps[i := Do(g.apps[i], t)], wg := g.wg - Dones(g.apps[i], t)))
  {
    hide Solo, Do;
    var s := Do(g.apps[i], t);
    assert AppAt(g, i);
    SoloDo(g.apps[i], t);
    if i >= g.n { UncalledHasNotRun(s); }
    forall j | 0 <= j < |g.apps| && j != i ensures AppAt(g.(phase := g.phase), j) { assert AppAt(g, j); }
    UpdateKeeps(g, i, s, g.phase);
  }

  lemma ReturnKeeps(g: Group, g': Group)
    requires GroupInv(g) && ReturnStep(g, g')
    ensures GroupInv(g')
  {
    forall i | 0 <= i < |g.apps|
      ensures Solo(g.apps[i]) && g.apps[i].id == i && (SELF in g.apps[i].threads <==> i < g.phase.k + 1)
      ensures i < g.phase.k + 1 ==> g.apps[i].threads[SELF] == Returned(true)
    {
      assert AppAt(g, i);
    }
    ReachKeeps(g, g.phase.k + 1);
  }

  lemma ArrivalKeeps(g: Group, i: nat, t: Tid, valid: bool)
    requires GroupInv(g) && !g.phase.Exited?
    requires i < |g.apps| && t != SELF && t !in g.apps[i].threads
    ensures GroupInv(g.(apps := g.apps[i := At(g.apps[i], t, Arriving(valid))]))
  {
    var s := At(g.apps[i], t, Arriving(valid));
    assert AppAt(g, i);
    SoloStart(g.apps[i], t, Arriving(valid));
    if i >= g.n { UncalledHasNotRun(s); }
    forall j | 0 <= j < |g.apps| && j != i ensures AppAt(g.(phase := g.phase), j) { assert AppAt(g, j); }
    UpdateKeeps(g, i, s, g.phase);
  }

  lemma NewAppKeeps(g: Group, g': Group)
    requires GroupInv(g) && NewAppStep(g, g')
    ensures GroupInv(g')
  {
    NewAppSolo(|g.apps|);
    forall i | 0 <= i < |g'.apps| ensures AppAt(g', i) {
      if i < |g.apps| { assert AppAt(g, i); }
    }
    assert g'.apps[..g.n] == g.apps[..g.n];
  }

  lemma GroupStepKeeps(g: Group, g': Group)
    requires GroupInv(g) && GroupStep(g, g')
    ensures GroupInv(g')
  {
    hide Solo, Do;
    if SignalStep(g, g') {
      SignalKeeps(g, g');
    } else if i, t :| 0 <= i < |g.apps| && t != SELF && Enabled(g.apps[i], t) &&
                      g' == g.(apps := g.apps[i := Do(g.apps[i], t)], wg := g.wg - Dones(g.apps[i], t)) {
      DoKeeps(g, i, t);
    } else if i, t, valid :| 0 <= i < |g.apps| && t != SELF && t !in g.apps[i].threads &&
                             g' == g.(apps := g.apps[i := At(g.apps[i], t, Arriving(valid))]) {
      ArrivalKeeps(g, i, t, valid);
    } else if CloserStep(g, g') {
      DoKeeps(g, g.phase.k, SELF);
    } else if ReturnStep(g, g') {
      ReturnKeeps(g, g');
    } else if NewAppStep(g, g') {
      NewAppKeeps(g, g');
    } else {
      assert ExitStep(g, g');
      forall i | 0 <= i < |g'.apps| ensures AppAt(g', i) { assert AppAt(g, i); }
    }
  }

  lemma {:induction false} GroupRunInv(b: seq<Group>, i: nat)
    requires GroupRun(b) && i < |b|
    ensures GroupInv(b[i])
  {
    if i > 0 {
      GroupRunInv(b, i - 1);
      assert GroupStep(b[i - 1], b[i]);
      GroupStepKeeps(b[i - 1], b[i]);
    }
  }

  // ---------------------------------------------------------------- results

  /** WaitGroup.Done never drives the counter below 0 (which would panic). */
  lemma WaitGroupNeverNegative(b: seq<Group>, i: nat)
    requires GroupRun(b) && i < |b| && !b[i].phase.Armed?
    ensures 0 <= b[i].wg <= b[i].n
  {
    var g := b[i];
    GroupRunInv(b, i);
    forall j | 0 <= j < g.n ensures g.apps[..g.n][j].runs[SELF] <= 1 { assert AppAt(g, j); }
    RanBound(g.apps[..g.n]);
  }

  /** The process exits only after every app of the snapshot has drained: closed, nobody being
      served, its callback run exactly once and, except for the app with id 0, cleared. */
  lemma ExitOnlyWhenDrained(b: seq<Group>, i: nat, j: nat)
    requires GroupRun(b) && i < |b| && b[i].phase.Exited? && j < b[i].n
    ensures j < |b[i].apps| && Drained(b[i].apps[j])
    ensures b[i].apps[j].runs == multiset{SELF}
    ensures b[i].apps[j].clears == (if j > 0 then 1 else 0)
  {
    var g := b[i];
    GroupRunInv(b, i);
    forall k | 0 <= k < g.n ensures g.apps[..g.n][k].runs[SELF] <= 1 { assert AppAt(g, k); }
    RanBound(g.apps[..g.n]);
    assert AppAt(g, j) && g.apps[..g.n][j].runs[SELF] == 1;
  }

  /** Once all goroutines of every app have come to rest, every callback has run. */
  lemma RestMeansRan(g: Group)
    requires GroupInv(g) && g.phase.Waiting?
    ensures (forall j :: 0 <= j < g.n ==> Quiescent(g.apps[j])) ==> g.wg == 0
  {
    if forall j :: 0 <= j < g.n ==> Quiescent(g.apps[j]) {
      forall j | 0 <= j < g.n ensures g.apps[..g.n][j].runs[SELF] == 1 {
        assert AppAt(g, j);
        QuiescentZero(g.apps[j]);
      }
      RanBound(g.apps[..g.n]);
    }
  }

  /** Conversely the wait cannot hang: at rest the counter is 0. */
  lemma WaitEnds(b: seq<Group>, i: nat)
    requires GroupRun(b) && i < |b| && b[i].phase.Waiting?
    requires forall j :: 0 <= j < b[i].n && j < |b[i].apps| ==> Quiescent(b[i].apps[j])
    ensures b[i].wg == 0
  {
    GroupRunInv(b, i);
    RestMeansRan(b[i]);
  }
}
