/** What becomes of a callback once a Close has stored it. */
module StoredCallback {
  import opened AppProtocol
  import opened Text

  /** b[s] is the state in which goroutine t has just stored its callback. */
  ghost predicate JustStored(b: seq<App>, s: nat, t: Tid) {
    && 0 < s < |b|
    && Enabled(b[s - 1], t) && b[s - 1].threads[t] == Storing(true) && b[s] == Do(b[s - 1], t)
  }

  /** No callback is stored between s and j. */
  ghost predicate NoStore(b: seq<App>, s: nat, j: nat)
    requires s <= j < |b|
  {
    forall k :: s <= k <= j ==> b[k].stored == b[s].stored
  }

  /** A subtraction brings runners to 0. */
  predicate ReachesZero(s: App, s': App) {
    s.runners == 1 && s'.runners == 0
  }

  ghost predicate ZeroBetween(b: seq<App>, s: nat, j: nat)
    requires s <= j < |b|
  {
    exists k :: s <= k < j && ReachesZero(b[k], b[k + 1])
  }

  /** t's callback is in the slot or has run, and if it has not, somebody is on the way to it. */
  ghost predicate Coming(s: App, t: Tid) {
    t in s.runs || (s.slot == Some(t) && Somewhere(s, WillReset))
  }

  /** t's callback is in the slot, and nobody is on the way to it. */
  ghost predicate Waiting(s: App, t: Tid) {
    t !in s.runs && s.slot == Some(t) && !Somewhere(s, WillReset)
  }

  lemma StoringPuts(s: App, t: Tid)
    requires StoreInv(s) && Enabled(s, t) && s.threads[t] == Storing(true)
    ensures Do(s, t).slot == Some(t) && t !in Do(s, t).runs && t in Do(s, t).stored
  {
  }

  lemma Stored(b: seq<App>, s: nat, t: Tid)
    requires Run(b) && JustStored(b, s, t)
    ensures b[s].slot == Some(t) && t !in b[s].runs && t in b[s].stored
  {
    hide Do, Enabled, Step;
    RunInv(b, s - 1);
    StoringPuts(b[s - 1], t);
  }

  /** Only a subtraction to 0 puts a goroutine on the way to the slot. */
  lemma OnTheWay(s: App, pc: PC)
    requires !Terminal(pc)
    ensures WillReset(Next(s, pc)) && !WillReset(pc) ==> s.runners == 1 && (pc.Leaving? || pc.Dropping?)
    ensures WillReset(pc) && !WillReset(Next(s, pc)) ==>
      (pc.SawZero? && !s.closed) || pc.Resetting? || (pc.Checking? && s.slot.None?)
  {
  }

  /** The slot and the runs after a step that stores nothing. */
  lemma SlotAfter(s: App, u: Tid)
    requires StoreInv(s) && Enabled(s, u) && Do(s, u).stored == s.stored
    ensures Do(s, u).slot == if s.threads[u].Resetting? then None else s.slot
    ensures Do(s, u).runs == if s.threads[u].Checking? && s.slot.Some? then s.runs + multiset{s.slot.value} else s.runs
    ensures Do(s, u).threads == s.threads[u := Next(s, s.threads[u])]
    ensures s.runners == 1 && (s.threads[u].Leaving? || s.threads[u].Dropping?) ==> Do(s, u).runners == 0
  {
    assert BeforeStore(s.threads[u]) ==> u !in s.stored;
  }

  lemma ComingStep(s: App, s': App, t: Tid)
    requires Inv(s) && Step(s, s') && Coming(s, t) && s'.stored == s.stored
    ensures Coming(s', t)
  {
    hide Do, Next, WillReset, Enabled;
    if u :| Enabled(s, u) && s' == Do(s, u) {
      ComingDo(s, u, t);
    } else {
      var u, pc :| u !in s.threads && Start(pc) && s' == At(s, u, pc);
      if t !in s.runs { SomewhereStep(s, s', u, WillReset); }
    }
  }

  lemma ComingDo(s: App, u: Tid, t: Tid)
    requires Inv(s) && Enabled(s, u) && Coming(s, t) && Do(s, u).stored == s.stored
    ensures Coming(Do(s, u), t)
  {
    hide Do, Next, CountInv, CloseInv, OwedInv, SomeInv;
    var s' := Do(s, u);
    SlotAfter(s, u);
    OnTheWay(s, s.threads[u]);
    if t !in s'.runs { SomewhereStep(s, s', u, WillReset); }
  }

  lemma WaitingStep(s: App, s': App, t: Tid)
    requires StoreInv(s) && Step(s, s') && Waiting(s, t) && s'.stored == s.stored && !ReachesZero(s, s')
    ensures Waiting(s', t)
  {
    hide Do, Next, WillReset, StoreInv;
    if u :| Enabled(s, u) && s' == Do(s, u) {
      SlotAfter(s, u);
      OnTheWay(s, s.threads[u]);
      assert !WillReset(s.threads[u]);
      NotOnTheWay(s.threads[u]);
    } else {
      var u, pc :| u !in s.threads && Start(pc) && s' == At(s, u, pc);
      NotOnTheWay(pc);
    }
  }

  lemma NotOnTheWay(pc: PC)
    ensures !WillReset(pc) ==> !pc.Resetting? && !pc.Checking?
    ensures Start(pc) ==> !WillReset(pc)
  {
  }

  lemma {:induction false} ComingStays(b: seq<App>, s: nat, k: nat, j: nat, t: Tid)
    requires Run(b) && s <= k <= j < |b| && NoStore(b, s, j) && Coming(b[k], t)
    ensures Coming(b[j], t)
    decreases j
  {
    hide Inv, Step, Coming;
    if k < j {
      assert NoStore(b, s, j - 1);
      ComingStays(b, s, k, j - 1, t);
      RunInv(b, j - 1);
      assert Step(b[j - 1], b[j]) && b[j].stored == b[j - 1].stored;
      ComingStep(b[j - 1], b[j], t);
    }
  }

  lemma ZeroBrings(s: App, s': App, t: Tid)
    requires StoreInv(s) && Step(s, s') && Waiting(s, t) && s'.stored == s.stored && ReachesZero(s, s')
    ensures Coming(s', t)
  {
    hide Do, Next, WillReset, StoreInv;
    var u :| Enabled(s, u) && s' == Do(s, u);
    SlotAfter(s, u);
    OnTheWay(s, s.threads[u]);
    NotOnTheWay(s.threads[u]);
    ZeroIsSeen(s, u);
    assert WillReset(s'.threads[u]);
  }

  lemma ZeroIsSeen(s: App, u: Tid)
    requires Enabled(s, u) && s.runners == 1 && Do(s, u).runners == 0
    ensures WillReset(Next(s, s.threads[u]))
  {
  }

  /** Until runners reaches 0 nobody comes, and then somebody does. */
  lemma {:induction false} WaitsForZero(b: seq<App>, s: nat, j: nat, t: Tid)
    requires Run(b) && s <= j < |b| && NoStore(b, s, j) && Waiting(b[s], t)
    ensures if ZeroBetween(b, s, j) then Coming(b[j], t) else Waiting(b[j], t)
    decreases j
  {
    hide Inv, Step, Waiting, Coming, ReachesZero;
    if s < j {
      assert NoStore(b, s, j - 1);
      WaitsForZero(b, s, j - 1, t);
      RunInv(b, j - 1);
      Stores(b[j - 1]);
      assert Step(b[j - 1], b[j]) && b[j].stored == b[j - 1].stored;
      ZeroSplit(b, s, j);
      if ZeroBetween(b, s, j - 1) {
        ComingStep(b[j - 1], b[j], t);
      } else if ReachesZero(b[j - 1], b[j]) {
        ZeroBrings(b[j - 1], b[j], t);
      } else {
        WaitingStep(b[j - 1], b[j], t);
      }
    }
  }

  lemma ZeroSplit(b: seq<App>, s: nat, j: nat)
    requires s < j < |b|
    ensures ZeroBetween(b, s, j) <==> ZeroBetween(b, s, j - 1) || ReachesZero(b[j - 1], b[j])
  {
    if ReachesZero(b[j - 1], b[j]) {
      var k := j - 1;
      assert ReachesZero(b[k], b[k + 1]);
    }
  }

  lemma Stores(s: App)
    requires Inv(s)
    ensures StoreInv(s)
  {
  }

  /** At any later rest, unless another callback has been stored since, the callback has run if and
      only if some goroutine that had subtracted runners to 0 was on its way to the slot when it was
      stored, or runners has reached 0 since. */
  lemma RunsExactlyIf(b: seq<App>, s: nat, j: nat, t: Tid)
    requires Run(b) && JustStored(b, s, t) && s <= j < |b| && NoStore(b, s, j) && Quiescent(b[j])
    ensures t in b[j].runs <==> Somewhere(b[s], WillReset) || ZeroBetween(b, s, j)
  {
    hide Step, JustStored, Run, NoStore, ZeroBetween, Somewhere;
    Stored(b, s, t);
    AtRest(b[j]);
    if Somewhere(b[s], WillReset) {
      ComingStays(b, s, s, j, t);
    } else {
      WaitsForZero(b, s, j, t);
    }
  }

  lemma AtRest(s: App)
    requires Quiescent(s)
    ensures !Somewhere(s, WillReset)
  {
  }

  // ---------------------------------------------------------------- what brings it

  lemma NobodyStep(s: App, s': App)
    requires Step(s, s') && !Somewhere(s, WillReset) && !ReachesZero(s, s')
    ensures !Somewhere(s', WillReset)
  {
    hide Next, WillReset;
    if u :| Enabled(s, u) && s' == Do(s, u) {
      OnTheWay(s, s.threads[u]);
      assert !WillReset(s.threads[u]);
      assert s'.threads == s.threads[u := Next(s, s.threads[u])];
    } else {
      var u, pc :| u !in s.threads && Start(pc) && s' == At(s, u, pc);
      NotOnTheWay(pc);
    }
  }

  lemma {:induction false} NobodyUntilZero(b: seq<App>, i: nat, j: nat)
    requires Run(b) && i <= j < |b| && !Somewhere(b[i], WillReset)
    ensures Somewhere(b[j], WillReset) ==> ZeroBetween(b, i, j)
    decreases j
  {
    hide Step, WillReset, Somewhere, ReachesZero;
    if i < j {
      NobodyUntilZero(b, i, j - 1);
      ZeroSplit(b, i, j);
      assert Step(b[j - 1], b[j]);
      if !Somewhere(b[j - 1], WillReset) && !ReachesZero(b[j - 1], b[j]) { NobodyStep(b[j - 1], b[j]); }
    }
  }

  /** For a callback that comes to an app at rest: without a subtraction to 0 since then it does not run,
      and one since the store makes it run. */
  lemma ZeroSinceRest(b: seq<App>, i: nat, s: nat, j: nat, t: Tid)
    requires Run(b) && i < s <= j < |b| && Quiescent(b[i]) && JustStored(b, s, t) && NoStore(b, s, j) && Quiescent(b[j])
    ensures t in b[j].runs ==> ZeroBetween(b, i, j)
    ensures ZeroBetween(b, s, j) ==> t in b[j].runs
  {
    hide Step, JustStored, Run, NoStore, Somewhere, ReachesZero;
    RunsExactlyIf(b, s, j, t);
    AtRest(b[i]);
    NobodyUntilZero(b, i, s);
  }

  /** A callback that has been replaced before it ran never runs. */
  lemma {:induction false} ReplacedNeverRuns(b: seq<App>, k: nat, j: nat, t: Tid)
    requires Run(b) && k <= j < |b| && t in b[k].stored && b[k].slot != Some(t) && t !in b[k].runs
    ensures t in b[j].stored && b[j].slot != Some(t) && t !in b[j].runs
    decreases j
  {
    hide Step, Inv;
    if k < j {
      ReplacedNeverRuns(b, k, j - 1, t);
      RunInv(b, j - 1);
      Stores(b[j - 1]);
      assert Step(b[j - 1], b[j]);
      ReplacedStep(b[j - 1], b[j], t);
    }
  }

  lemma ReplacedStep(s: App, s': App, t: Tid)
    requires StoreInv(s) && Step(s, s') && t in s.stored && s.slot != Some(t) && t !in s.runs
    ensures t in s'.stored && s'.slot != Some(t) && t !in s'.runs
  {
    if u :| Enabled(s, u) && s' == Do(s, u) {
      assert BeforeStore(s.threads[u]) ==> u != t;
    }
  }

  // ---------------------------------------------------------------- it waits, or it runs

  /** n steps into a Close by t that started when the app stood, closed and unlocked, at s0. */
  predicate SecondClose(s0: App, s: App, t: Tid, n: nat)
    requires n <= 4
  {
    && t !in s0.threads && t !in s0.runs
    && s.threads == s0.threads[t := [Calling(true), Storing(true), Unlocking, Swapping, Returned(false)][n]]
    && s.closed && s.runs == s0.runs && s.runners == s0.runners
    && s.lock == (if n == 1 || n == 2 then Some(t) else None)
    && (n >= 2 ==> s.slot == Some(t))
    && s.stored == (if n >= 2 then s0.stored + {t} else s0.stored)
  }

  lemma SecondCloseStep(s0: App, s: App, t: Tid, n: nat)
    requires n < 4 && SecondClose(s0, s, t, n)
    ensures Enabled(s, t) && SecondClose(s0, Do(s, t), t, n + 1)
  {
  }

  /** Such a Close runs from start to end. */
  lemma PlayClose(b: seq<App>, t: Tid) returns (b': seq<App>)
    requires Run(b) && b[|b| - 1].closed && b[|b| - 1].lock.None? && t !in b[|b| - 1].threads
    ensures Run(b') && b <= b' && |b'| == |b| + 5 && SecondClose(b[|b| - 1], b'[|b'| - 1], t, 4)
    ensures JustStored(b', |b| + 2, t)
    ensures forall k :: |b| + 2 <= k < |b'| ==>
      b'[k].stored == b[|b| - 1].stored + {t} && b'[k].runners == b[|b| - 1].runners
  {
    hide Inv, Step, Do, Enabled, JustStored;
    var s0 := b[|b| - 1];
    RunInv(b, |b| - 1);
    NewHasNotRun(s0, t);
    ExtendStart(b, t, Calling(true));
    b' := b + [At(s0, t, Calling(true))];
    for n := 0 to 4
      invariant Run(b') && |b'| == |b| + 1 + n && b <= b' && SecondClose(s0, b'[|b'| - 1], t, n)
      invariant n >= 2 ==> JustStored(b', |b| + 2, t)
      invariant forall k :: |b| + 2 <= k < |b'| ==> b'[k].stored == s0.stored + {t} && b'[k].runners == s0.runners
    {
      hide Run;
      var was := b';
      SecondCloseStep(s0, b'[|b'| - 1], t, n);
      Extend(b', t);
      b' := b' + [Do(b'[|b'| - 1], t)];
      if n == 1 { StoreNow(was, t); }
      if n > 1 { StoredBefore(was, b', |b| + 2, t); }
    }
  }

  lemma StoreNow(b: seq<App>, t: Tid)
    requires |b| > 0 && Enabled(b[|b| - 1], t) && b[|b| - 1].threads[t] == Storing(true)
    ensures JustStored(b + [Do(b[|b| - 1], t)], |b|, t)
  {
  }

  lemma NewHasNotRun(s: App, t: Tid)
    requires Inv(s) && t !in s.threads
    ensures t !in s.runs && t !in s.stored
  {
  }

  /** n steps into a request by u that a closed app turns away. */
  predicate TurnedAway(s0: App, s: App, u: Tid, n: nat)
    requires n <= 9
  {
    && (n >= 6 ==> s0.slot.Some?)
    && s.threads == s0.threads[u := [Arriving(true), Entered(true), Leaving, SawZero, Removing(Request),
         Acquiring(Request), Checking(Request), Resetting(Request), Releasing(Request), Gone][n]]
    && s.closed && s.runners == (if n == 1 || n == 2 then 1 else 0)
    && s.lock == (if 6 <= n <= 8 then Some(u) else None)
    && s.slot == (if n <= 7 then s0.slot else None)
    && s.runs == (if n <= 6 then s0.runs else s0.runs + multiset{s0.slot.value})
    && s.stored == s0.stored
  }

  lemma TurnedAwayStep(s0: App, s: App, u: Tid, n: nat)
    requires n < 9 && TurnedAway(s0, s, u, n) && (n >= 5 ==> s0.slot.Some?)
    ensures Enabled(s, u) && TurnedAway(s0, Do(s, u), u, n + 1)
  {
    hide TurnedAway, Enabled, Do;
    if n < 3 {
      TurnedAwayFirst(s0, s, u, n);
    } else if n < 6 {
      TurnedAwayThen(s0, s, u, n);
    } else {
      TurnedAwayLast(s0, s, u, n);
    }
  }

  lemma TurnedAwayFirst(s0: App, s: App, u: Tid, n: nat)
    requires n < 3 && TurnedAway(s0, s, u, n)
    ensures Enabled(s, u) && TurnedAway(s0, Do(s, u), u, n + 1)
  {
  }

  lemma TurnedAwayThen(s0: App, s: App, u: Tid, n: nat)
    requires 3 <= n < 6 && TurnedAway(s0, s, u, n) && (n == 5 ==> s0.slot.Some?)
    ensures Enabled(s, u) && TurnedAway(s0, Do(s, u), u, n + 1)
  {
  }

  lemma TurnedAwayLast(s0: App, s: App, u: Tid, n: nat)
    requires 6 <= n < 9 && TurnedAway(s0, s, u, n)
    ensures Enabled(s, u) && TurnedAway(s0, Do(s, u), u, n + 1)
  {
  }

  /** The request runs from its step `first` to its step `last`. */
  lemma PlayRequest(b: seq<App>, s0: App, u: Tid, first: nat, last: nat) returns (b': seq<App>)
    requires Run(b) && first <= last <= 9 && TurnedAway(s0, b[|b| - 1], u, first) && (last >= 6 ==> s0.slot.Some?)
    ensures Run(b') && b <= b' && |b'| == |b| + (last - first)
    ensures TurnedAway(s0, b'[|b'| - 1], u, last)
    ensures forall k :: |b| - 1 <= k < |b'| ==> b'[k].stored == s0.stored && (first >= 3 ==> b'[k].runners == 0)
  {
    b' := b;
    for i := first to last
      invariant Run(b') && |b'| == |b| + (i - first) && b <= b' && TurnedAway(s0, b'[|b'| - 1], u, i)
      invariant forall k :: |b| - 1 <= k < |b'| ==> b'[k].stored == s0.stored && (first >= 3 ==> b'[k].runners == 0)
    {
      hide Do, Run, Enabled;
      TurnedAwayStep(s0, b'[|b'| - 1], u, i);
      Extend(b', u);
      b' := b' + [Do(b'[|b'| - 1], u)];
    }
  }

  /** A Close that comes after the app has closed and come to rest: with nobody else running it returns
      false and leaves its callback in the slot, not run. */
  lemma SecondCallbackWaits(b: seq<App>, t: Tid) returns (b': seq<App>)
    requires Run(b) && Quiescent(b[|b| - 1]) && b[|b| - 1].closed
    requires t !in b[|b| - 1].threads
    ensures Run(b') && b <= b' && Quiescent(b'[|b'| - 1])
    ensures t in b'[|b'| - 1].threads && b'[|b'| - 1].threads[t] == Returned(false)
    ensures b'[|b'| - 1].slot == Some(t) && t !in b'[|b'| - 1].runs
  {
    hide Inv, Step, Do, Enabled, JustStored, SecondClose, Quiescent;
    RunInv(b, |b| - 1);
    QuiescentZero(b[|b| - 1]);
    b' := PlayClose(b, t);
    CloseDone(b[|b| - 1], b'[|b'| - 1], t);
  }

  lemma CloseDone(s0: App, s: App, t: Tid)
    requires Quiescent(s0) && SecondClose(s0, s, t, 4)
    ensures Quiescent(s) && t in s.threads && s.threads[t] == Returned(false) && s.slot == Some(t) && t !in s.runs
  {
  }

  /** A request that comes to an app at rest with a callback waiting is turned away and runs it. */
  lemma WaitingCallbackRuns(b: seq<App>, u: Tid, c: Tid) returns (b': seq<App>)
    requires Run(b) && Quiescent(b[|b| - 1]) && b[|b| - 1].closed && b[|b| - 1].slot == Some(c)
    requires u !in b[|b| - 1].threads
    ensures Run(b') && b <= b' && Quiescent(b'[|b'| - 1])
    ensures b'[|b'| - 1].slot == None && c in b'[|b'| - 1].runs && b'[|b'| - 1].stored == b[|b| - 1].stored
  {
    var s0 := b[|b| - 1];
    RunInv(b, |b| - 1);
    QuiescentZero(s0);
    ExtendStart(b, u, Arriving(true));
    b' := PlayRequest(b + [At(s0, u, Arriving(true))], s0, u, 0, 9);
  }

  /** The subtraction may also come before the store: a request that has brought runners to 0 but has
      not reached the slot yet runs a callback that is stored in between, with no further subtraction. */
  lemma EarlierZeroRunsIt(b: seq<App>, u: Tid, t: Tid) returns (b': seq<App>, s: nat)
    requires Run(b) && Quiescent(b[|b| - 1]) && b[|b| - 1].closed
    requires u != t && u !in b[|b| - 1].threads && t !in b[|b| - 1].threads
    ensures Run(b') && b <= b' && Quiescent(b'[|b'| - 1]) && JustStored(b', s, t) && NoStore(b', s, |b'| - 1)
    ensures !ZeroBetween(b', s, |b'| - 1) && t in b'[|b'| - 1].runs
  {
    hide Inv, Do, Step;
    var s0 := b[|b| - 1];
    RunInv(b, |b| - 1);
    QuiescentZero(s0);
    ExtendStart(b, u, Arriving(true));
    var b1 := PlayRequest(b + [At(s0, u, Arriving(true))], s0, u, 0, 3);
    var b2 := PlayClose(b1, t);
    var s2 := b2[|b2| - 1];
    BothAt(s0, b1[|b1| - 1], s2, u, t);
    s := |b1| + 2;
    b' := PlayRequest(b2, s2, u, 3, 9);
    StoredBefore(b2, b', s, t);
    BothDone(s0, b1[|b1| - 1], s2, b'[|b'| - 1], u, t);
    assert forall k :: s <= k < |b'| ==> b'[k].stored == s2.stored && b'[k].runners == 0;
  }

  lemma BothAt(s0: App, s1: App, s2: App, u: Tid, t: Tid)
    requires TurnedAway(s0, s1, u, 3) && SecondClose(s1, s2, t, 4) && u != t
    ensures TurnedAway(s2, s2, u, 3) && s2.slot == Some(t)
  {
    assert s2.threads[u := SawZero] == s2.threads;
  }

  lemma BothDone(s0: App, s1: App, s2: App, s3: App, u: Tid, t: Tid)
    requires Quiescent(s0) && u != t && TurnedAway(s0, s1, u, 3) && SecondClose(s1, s2, t, 4)
    requires TurnedAway(s2, s3, u, 9)
    ensures Quiescent(s3) && t in s3.runs
  {
  }

  lemma StoredBefore(b: seq<App>, b': seq<App>, s: nat, t: Tid)
    requires JustStored(b, s, t) && b <= b'
    ensures JustStored(b', s, t)
  {
    assert b'[s] == b[s] && b'[s - 1] == b[s - 1];
  }
}
