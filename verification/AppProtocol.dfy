/** The request/close protocol of one SunnyApp (sunny.go).

    Any number of request goroutines run ServeRequestedEndPoint and any number of goroutines
    call Close.  Every atomic operation, every lock operation and every statement that touches
    the callback is one step; `threads` holds the program counter of each goroutine.  */
module AppProtocol {
  import opened Text

  type Tid = nat

  /** Which of the two entry points a goroutine that saw `runners` reach 0 came from. */
  datatype Role = Request | Closer

  datatype PC =
    // ServeRequestedEndPoint and decrunners
    | Arriving(valid: bool)   // about to add 1 to runners; `valid` is w != nil && r != nil
    | Entered(valid: bool)    // counted, about to load closed
    | Serving                 // passed the closed check
    | Leaving                 // about to subtract 1 from runners
    | SawZero                 // the subtraction returned 0, about to load closed
    | Gone                    // returned
    // Close
    | Calling(cb: bool)       // about to take sk.mutex; `cb` is callback != nil
    | Storing(cb: bool)       // holds sk.mutex
    | Unlocking               // holds sk.mutex, callback stored if there is one
    | Swapping                // about to compare-and-swap closed
    | Dropping                // swapped 0 for 1, about to subtract 1 from runners
    | Returned(ok: bool)
    // removeSunnyApp and callback, reached from either side
    | Removing(role: Role)    // about to run removeSunnyApp under the global mutex
    | Acquiring(role: Role)   // in callback, about to take sk.mutex
    | Checking(role: Role)    // holds sk.mutex, about to test and run _callback
    | Resetting(role: Role)   // holds sk.mutex, _callback has run, about to set it to nil
    | Releasing(role: Role)   // about to release sk.mutex and return

  /** A callback is named by the Close call that passed it.  `present` is servers[id] != nil.
      `clears` counts executions of clear(), `runs` executions of each callback.  The last three
      fields are history: no step reads them. */
  datatype App = App(
    id: nat,
    runners: int,
    closed: bool,
    slot: Option<Tid>,
    lock: Option<Tid>,
    present: bool,
    threads: map<Tid, PC>,
    clears: nat,
    runs: multiset<Tid>,
    winner: Option<Tid>,
    dropped: bool,
    stored: set<Tid>)

  /** NewSunnyApp: runners starts at 1. */
  function NewApp(id: nat): App {
    App(id, 1, false, None, None, true, map[], 0, multiset{}, None, false, {})
  }

  predicate NeedsLock(pc: PC) {
    pc.Calling? || pc.Acquiring?
  }

  predicate Terminal(pc: PC) {
    pc.Gone? || pc.Returned?
  }

  predicate Enabled(s: App, t: Tid) {
    t in s.threads && !Terminal(s.threads[t]) && (NeedsLock(s.threads[t]) ==> s.lock.None?)
  }

  function Exit(role: Role): PC {
    if role.Request? then Gone else Returned(true)
  }

  /** Where goroutine t goes next. */
  function Next(s: App, pc: PC): PC
    requires !Terminal(pc)
  {
    var zero := s.runners - 1 == 0;
    match pc
    case Arriving(valid) => Entered(valid)
    case Entered(valid) => if s.closed || !valid then Leaving else Serving
    case Serving => Leaving
    case Leaving => if zero then SawZero else Gone
    case SawZero => if s.closed then Removing(Request) else Gone
    case Calling(cb) => Storing(cb)
    case Storing(_) => Unlocking
    case Unlocking => Swapping
    case Swapping => if s.closed then Returned(false) else Dropping
    case Dropping => if zero then Removing(Closer) else Returned(true)
    case Removing(role) => Acquiring(role)
    case Acquiring(role) => Checking(role)
    case Checking(role) => if s.slot.Some? then Resetting(role) else Releasing(role)
    case Resetting(role) => Releasing(role)
    case Releasing(role) => Exit(role)
  }

  /** The next step of goroutine t: what it does to each field. */
  function Do(s: App, t: Tid): App
    requires Enabled(s, t)
  {
    var pc := s.threads[t];
    var stores := pc.Storing? && pc.cb;
    var wins := pc.Swapping? && !s.closed;
    var removes := pc.Removing? && s.id > 0 && s.present;
    var fires := pc.Checking? && s.slot.Some?;
    s.(runners := s.runners + (if pc.Arriving? then 1 else if pc.Leaving? || pc.Dropping? then -1 else 0),
       closed := s.closed || wins,
       slot := if stores then Some(t) else if pc.Resetting? then None else s.slot,
       lock := if NeedsLock(pc) then Some(t) else if pc.Unlocking? || pc.Releasing? then None else s.lock,
       present := s.present && !removes,
       threads := s.threads[t := Next(s, pc)],
       clears := s.clears + (if removes then 1 else 0),
       runs := if fires then s.runs + multiset{s.slot.value} else s.runs,
       winner := if wins then Some(t) else s.winner,
       dropped := s.dropped || pc.Dropping?,
       stored := if stores then s.stored + {t} else s.stored)
  }

  function At(s: App, t: Tid, pc: PC): App {
    s.(threads := s.threads[t := pc])
  }

  /** A new goroutine enters ServeRequestedEndPoint or Close. */
  predicate Start(pc: PC) {
    pc.Arriving? || pc.Calling?
  }

  ghost predicate Step(s: App, s': App) {
    || (exists t :: Enabled(s, t) && s' == Do(s, t))
    || (exists t, pc :: t !in s.threads && Start(pc) && s' == At(s, t, pc))
  }

  /** A run: any interleaving from a freshly made app. */
  ghost predicate Run(b: seq<App>) {
    && |b| > 0
    && b[0] == NewApp(b[0].id)
    && forall i :: 0 <= i < |b| - 1 ==> Step(b[i], b[i + 1])
  }

  // ---------------------------------------------------------------- the invariant

  predicate Counted(pc: PC) {
    pc.Entered? || pc.Serving? || pc.Leaving?
  }

  predicate Holding(pc: PC) {
    pc.Storing? || pc.Unlocking? || pc.Checking? || pc.Resetting? || pc.Releasing?
  }

  /** Program points only a Close that won the swap reaches. */
  predicate Won(pc: PC) {
    || pc.Dropping? || pc == Returned(true)
    || ((pc.Removing? || pc.Acquiring? || pc.Checking? || pc.Resetting? || pc.Releasing?) && pc.role.Closer?)
  }

  /** Past a subtraction that returned 0. */
  predicate PastZero(pc: PC) {
    pc.SawZero? || pc.Removing? || PastRemoval(pc)
  }

  predicate PastRemoval(pc: PC) {
    pc.Acquiring? || pc.Checking? || pc.Resetting? || pc.Releasing?
  }

  /** Will still run removeSunnyApp once `closed` is set. */
  predicate WillRemove(pc: PC) {
    pc.SawZero? || pc.Removing?
  }

  /** Will still empty the callback slot once `closed` is set. */
  predicate WillReset(pc: PC) {
    WillRemove(pc) || pc.Acquiring? || pc.Checking? || pc.Resetting?
  }

  /** Has not yet reached the store in Close. */
  predicate BeforeStore(pc: PC) {
    pc.Calling? || pc.Storing?
  }

  function InFlight(threads: map<Tid, PC>): set<Tid> {
    set t | t in threads && Counted(threads[t])
  }

  ghost predicate Somewhere(s: App, p: PC -> bool) {
    exists t :: t in s.threads && p(s.threads[t])
  }

  ghost predicate CountInv(s: App) {
    s.runners == |InFlight(s.threads)| + (if s.dropped then 0 else 1)
  }

  ghost predicate CloseInv(s: App) {
    && (s.closed <==> s.winner.Some?)
    && (s.dropped ==> s.closed)
    && (forall t :: t in s.threads && Won(s.threads[t]) ==> s.winner == Some(t))
    && (s.winner.Some? ==> s.winner.value in s.threads && Won(s.threads[s.winner.value])
                           && (s.dropped <==> !s.threads[s.winner.value].Dropping?))
  }

  /** Nobody is being served and nobody ever will be. */
  predicate Drained(s: App) {
    s.closed && forall t :: t in s.threads ==> !s.threads[t].Serving?
  }

  ghost predicate DrainInv(s: App) {
    && (forall t :: t in s.threads && PastZero(s.threads[t]) ==> s.dropped && Drained(s))
    && (forall t :: t in s.threads && PastRemoval(s.threads[t]) ==> s.id == 0 || !s.present)
    && (s.runs != multiset{} ==> s.dropped && Drained(s) && (s.id == 0 || !s.present))
    && (!s.present ==> s.dropped && Drained(s))
    && (s.id == 0 ==> s.present)
    && s.clears == (if s.present then 0 else 1)
  }

  ghost predicate LockInv(s: App) {
    && (forall t :: t in s.threads && Holding(s.threads[t]) ==> s.lock == Some(t))
    && (s.lock.Some? ==> s.lock.value in s.threads && Holding(s.threads[s.lock.value]))
  }

  predicate BusyResetting(s: App) {
    s.lock.Some? && s.lock.value in s.threads && s.threads[s.lock.value].Resetting?
  }

  /** Every callback was stored by its Close, and each has run at most once. */
  ghost predicate StoreInv(s: App) {
    && (forall c :: c in s.stored ==> c in s.threads && !BeforeStore(s.threads[c]))
    && (forall c :: c in s.runs ==> c in s.stored)
    && (s.slot.Some? ==> s.slot.value in s.stored)
  }

  /** The callback in the slot has not run, except between its run and the reset. */
  ghost predicate SlotInv(s: App) {
    && (forall c :: s.runs[c] <= 1)
    && (BusyResetting(s) ==> s.slot.Some? && s.slot.value in s.runs)
    && (s.slot.Some? && !BusyResetting(s) ==> s.slot.value !in s.runs)
    && (forall c :: c in s.stored ==> s.slot == Some(c) || c in s.runs || s.stored != {c})
  }

  ghost predicate SomeInv(s: App) {
    s.stored != {} ==> s.slot.Some? || s.runs != multiset{}
  }

  /** Work that is still owed is still pending somewhere: the removal, and the winner's callback or, if
      another has replaced it, that one. */
  ghost predicate OwedInv(s: App) {
    OwedRemoval(s) && OwedCallback(s) && OwedFirst(s)
  }

  ghost predicate OwedRemoval(s: App) {
    s.dropped && s.id > 0 && s.present ==> s.runners > 0 || Somewhere(s, WillRemove)
  }

  ghost predicate OwedCallback(s: App) {
    s.dropped && s.slot.Some? && s.slot == s.winner ==> s.runners > 0 || Somewhere(s, WillReset)
  }

  ghost predicate OwedFirst(s: App) {
    s.dropped && s.slot.Some? && s.runs == multiset{} && s.winner.Some? && s.winner.value in s.stored ==>
      s.runners > 0 || Somewhere(s, WillReset)
  }

  ghost predicate Inv(s: App) {
    CountInv(s) && CloseInv(s) && DrainInv(s) && LockInv(s) && StoreInv(s) && SlotInv(s) && SomeInv(s) && OwedInv(s)
  }

  // ---------------------------------------------------------------- every step keeps it

  lemma InFlightUpdate(threads: map<Tid, PC>, t: Tid, pc: PC)
    ensures |InFlight(threads[t := pc])| ==
            |InFlight(threads)| - (if t in InFlight(threads) then 1 else 0) + (if Counted(pc) then 1 else 0)
  {
    var rest := InFlight(threads) - {t};
    assert InFlight(threads[t := pc]) == if Counted(pc) then rest + {t} else rest;
  }

  lemma CountStep(s: App, t: Tid)
    requires Enabled(s, t) && CountInv(s) && CloseInv(s)
    ensures CountInv(Do(s, t))
  {
    var s' := Do(s, t);
    InFlightUpdate(s.threads, t, s'.threads[t]);
    assert s'.threads == s.threads[t := s'.threads[t]];
  }

  lemma CloseStep(s: App, t: Tid)
    requires Enabled(s, t) && CloseInv(s)
    ensures CloseInv(Do(s, t))
  {
  }

  /** The subtraction returns 0 only when the app's own unit is gone and nobody is counted. */
  lemma ZeroMeansDrained(s: App, t: Tid)
    requires Enabled(s, t) && CountInv(s) && CloseInv(s)
    requires s.runners == 1 && Do(s, t).runners == 0
    ensures Do(s, t).dropped && Drained(Do(s, t))
  {
    var s' := Do(s, t);
    CountStep(s, t);
    CloseStep(s, t);
    assert InFlight(s'.threads) == {};
    assert forall u :: u in s'.threads && s'.threads[u].Serving? ==> u in InFlight(s'.threads);
  }

  lemma DrainStep(s: App, t: Tid)
    requires Enabled(s, t) && CountInv(s) && CloseInv(s) && DrainInv(s)
    ensures DrainInv(Do(s, t))
  {
    if s.runners == 1 && Do(s, t).runners == 0 { ZeroMeansDrained(s, t); }
  }

  lemma LockStep(s: App, t: Tid)
    requires Enabled(s, t) && LockInv(s)
    ensures LockInv(Do(s, t))
  {
  }

  lemma StoreStep(s: App, t: Tid)
    requires Enabled(s, t) && StoreInv(s)
    ensures StoreInv(Do(s, t))
  {
  }

  lemma SlotStep(s: App, t: Tid)
    requires Enabled(s, t) && LockInv(s) && StoreInv(s) && SlotInv(s)
    ensures SlotInv(Do(s, t))
  {
    LockStep(s, t);
  }

  lemma SomeStep(s: App, t: Tid)
    requires Enabled(s, t) && LockInv(s) && StoreInv(s) && SlotInv(s) && SomeInv(s)
    ensures SomeInv(Do(s, t))
  {
    if s.threads[t].Resetting? { assert s.slot.value in Do(s, t).runs; }
  }

  lemma SomewhereStep(s: App, s': App, t: Tid, p: PC -> bool)
    requires t in s'.threads && s'.threads == s.threads[t := s'.threads[t]]
    requires Somewhere(s, p)
    ensures p(s'.threads[t]) || Somewhere(s', p) || (t in s.threads && p(s.threads[t]))
  {
    var u :| u in s.threads && p(s.threads[u]);
    if u != t { assert p(s'.threads[u]); }
  }

  lemma OwedStep(s: App, t: Tid)
    requires Enabled(s, t) && CountInv(s) && CloseInv(s) && DrainInv(s)
    requires StoreInv(s) && SomeInv(s) && OwedInv(s)
    ensures OwedInv(Do(s, t))
  {
    hide OwedRemoval, OwedCallback, OwedFirst, DrainInv, CloseInv, Do, CountInv, StoreInv, SomeInv;
    OwedRemovalStep(s, t);
    OwedCallbackStep(s, t);
    OwedFirstStep(s, t);
  }

  lemma OwedRemovalStep(s: App, t: Tid)
    requires Enabled(s, t) && CountInv(s) && CloseInv(s) && DrainInv(s) && OwedRemoval(s)
    ensures OwedRemoval(Do(s, t))
  {
    hide InFlight;
    var s' := Do(s, t);
    CountStep(s, t);
    if Somewhere(s, WillRemove) { SomewhereStep(s, s', t, WillRemove); }
    assert WillRemove(s'.threads[t]) ==> Somewhere(s', WillRemove);
  }

  lemma OwedCallbackStep(s: App, t: Tid)
    requires Enabled(s, t) && CountInv(s) && CloseInv(s) && DrainInv(s) && OwedCallback(s)
    ensures OwedCallback(Do(s, t))
  {
    hide InFlight;
    var s' := Do(s, t);
    CountStep(s, t);
    if Somewhere(s, WillReset) { SomewhereStep(s, s', t, WillReset); }
    assert WillReset(s'.threads[t]) ==> Somewhere(s', WillReset);
  }

  lemma OwedFirstStep(s: App, t: Tid)
    requires Enabled(s, t) && CountInv(s) && CloseInv(s) && DrainInv(s) && StoreInv(s) && SomeInv(s) && OwedFirst(s)
    ensures OwedFirst(Do(s, t))
  {
    hide InFlight;
    var s' := Do(s, t);
    CountStep(s, t);
    if Somewhere(s, WillReset) { SomewhereStep(s, s', t, WillReset); }
    assert WillReset(s'.threads[t]) ==> Somewhere(s', WillReset);
  }

  lemma StartOwed(s: App, t: Tid, pc: PC)
    requires OwedInv(s) && t !in s.threads && Start(pc)
    ensures OwedInv(At(s, t, pc))
  {
    var s' := At(s, t, pc);
    if Somewhere(s, WillRemove) { SomewhereStep(s, s', t, WillRemove); }
    if Somewhere(s, WillReset) { SomewhereStep(s, s', t, WillReset); }
  }

  lemma StartKeeps(s: App, t: Tid, pc: PC)
    requires Inv(s) && t !in s.threads && Start(pc)
    ensures Inv(At(s, t, pc))
  {
    InFlightUpdate(s.threads, t, pc);
    StartOwed(s, t, pc);
    assert LockInv(At(s, t, pc));
    assert StoreInv(At(s, t, pc)) && SlotInv(At(s, t, pc));
  }

  lemma StepKeeps(s: App, s': App)
    requires Inv(s) && Step(s, s')
    ensures Inv(s')
  {
    if t :| Enabled(s, t) && s' == Do(s, t) {
      CountStep(s, t); CloseStep(s, t); DrainStep(s, t); LockStep(s, t); StoreStep(s, t); SlotStep(s, t);
      SomeStep(s, t); OwedStep(s, t);
    } else {
      var t, pc :| t !in s.threads && Start(pc) && s' == At(s, t, pc);
      StartKeeps(s, t, pc);
    }
  }

  lemma {:induction false} RunInv(b: seq<App>, i: nat)
    requires Run(b) && i < |b|
    ensures Inv(b[i])
  {
    if i > 0 {
      RunInv(b, i - 1);
      StepKeeps(b[i - 1], b[i]);
    }
  }

  // ---------------------------------------------------------------- safety

  lemma DrainedStable(s: App, s': App)
    requires Drained(s) && Step(s, s')
    ensures Drained(s')
  {
  }

  lemma {:induction false} DrainedForever(b: seq<App>, i: nat, j: nat)
    requires Run(b) && i <= j < |b| && Drained(b[i])
    ensures Drained(b[j])
  {
    hide Step, Drained;
    if i < j {
      DrainedForever(b, i, j - 1);
      DrainedStable(b[j - 1], b[j]);
    }
  }

  /** Once some goroutine's subtraction has returned 0, nobody is past the closed check and
      nobody will ever pass it: whatever runs later, clear() included, runs alone. */
  lemma NoServingAfterZero(b: seq<App>, i: nat, j: nat)
    requires Run(b) && i + 1 <= j < |b|
    requires b[i].runners > 0 && b[i + 1].runners == 0
    ensures b[j].closed
    ensures forall t :: t in b[j].threads ==> !b[j].threads[t].Serving?
  {
    RunInv(b, i);
    assert Step(b[i], b[i + 1]);
    var t :| Enabled(b[i], t) && b[i + 1] == Do(b[i], t);
    ZeroMeansDrained(b[i], t);
    DrainedForever(b, i + 1, j);
  }

  /** At the point where clear() can run, and ever after, nobody is being served. */
  lemma ClearRunsAlone(b: seq<App>, i: nat, j: nat)
    requires Run(b) && i <= j < |b|
    requires b[i].clears > 0 || Somewhere(b[i], (pc: PC) => pc.Removing?)
    ensures Drained(b[j])
  {
    RunInv(b, i);
    DrainedForever(b, i, j);
  }

  /** The test of `closed` in decrunners never fails after a zero: a request that was turned
      away can drive runners to 0 again, but not before Close has finished its own subtraction. */
  lemma ZeroImpliesClosed(b: seq<App>, i: nat, t: Tid)
    requires Run(b) && i < |b| && t in b[i].threads && b[i].threads[t].SawZero?
    ensures b[i].closed && Do(b[i], t).threads[t] == Removing(Request)
  {
    RunInv(b, i);
  }

  // ---------------------------------------------------------------- exactly once

  predicate Quiescent(s: App) {
    forall t :: t in s.threads ==> Terminal(s.threads[t])
  }

  /** No callback ever runs twice, and clear() runs at most once. */
  lemma AtMostOnce(b: seq<App>, i: nat, c: Tid)
    requires Run(b) && i < |b|
    ensures b[i].runs[c] <= 1 && b[i].clears <= 1
  {
    RunInv(b, i);
  }

  /** At most one Close returns true. */
  lemma OneWinner(b: seq<App>, i: nat, t: Tid, u: Tid)
    requires Run(b) && i < |b| && t in b[i].threads && u in b[i].threads
    requires b[i].threads[t] == Returned(true) && b[i].threads[u] == Returned(true)
    ensures t == u
  {
    RunInv(b, i);
  }

  lemma {:induction false} IdFixed(b: seq<App>, i: nat)
    requires Run(b) && i < |b|
    ensures b[i].id == b[0].id
  {
    if i > 0 {
      IdFixed(b, i - 1);
      assert Step(b[i - 1], b[i]);
    }
  }

  lemma QuiescentZero(s: App)
    requires Inv(s) && Quiescent(s) && s.closed
    ensures s.dropped && s.runners == 0 && !Somewhere(s, WillRemove) && !Somewhere(s, WillReset)
    ensures s.lock.None?
  {
    assert InFlight(s.threads) == {};
  }

  /** When everything has come to rest after a Close returned true: the winner's callback is no
      longer waiting, some callback ran if the winner passed one, an app with id > 0 has been
      cleared exactly once, and the first app (id 0) never. */
  lemma AtRestAfterClose(b: seq<App>, i: nat, w: Tid)
    requires Run(b) && i < |b| && Quiescent(b[i])
    requires w in b[i].threads && b[i].threads[w] == Returned(true)
    ensures b[i].slot != Some(w)
    ensures w in b[i].stored ==> b[i].runs != multiset{}
    ensures b[i].stored == {w} ==> b[i].slot.None? && b[i].runs == multiset{w}
    ensures b[i].clears == (if b[0].id > 0 then 1 else 0)
    ensures Drained(b[i])
  {
    var s := b[i];
    RunInv(b, i);
    IdFixed(b, i);
    QuiescentZero(s);
    if s.stored == {w} {
      assert s.runs == multiset{w};
    }
  }

  // ---------------------------------------------------------------- longer runs

  /** Goroutine t runs its next step. */
  lemma Extend(b: seq<App>, t: Tid)
    requires Run(b) && Enabled(b[|b| - 1], t)
    ensures Run(b + [Do(b[|b| - 1], t)])
  {
    var last := b[|b| - 1];
    var b' := b + [Do(last, t)];
    assert Step(last, Do(last, t));
    forall i | 0 <= i < |b'| - 1 ensures Step(b'[i], b'[i + 1]) {
      if i < |b| - 1 { assert Step(b[i], b[i + 1]); }
    }
  }

  lemma ExtendStart(b: seq<App>, t: Tid, pc: PC)
    requires Run(b) && t !in b[|b| - 1].threads && Start(pc)
    ensures Run(b + [At(b[|b| - 1], t, pc)])
  {
    var last := b[|b| - 1];
    var b' := b + [At(last, t, pc)];
    assert Step(last, At(last, t, pc));
    forall i | 0 <= i < |b'| - 1 ensures Step(b'[i], b'[i + 1]) {
      if i < |b| - 1 { assert Step(b[i], b[i + 1]); }
    }
  }
}
