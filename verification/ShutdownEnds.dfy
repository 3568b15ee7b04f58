/** GracefulShutDown comes to its end: once no requests and no apps arrive any more, the process exits. */
module ShutdownEnds {
  import opened AppProtocol
  import opened AppRest
  import opened GracefulShutdown

  /** The steps that neither bring anything new nor need the signal. */
  ghost predicate BusyStep(g: Group, g': Group) {
    !g.phase.Exited? && (RequestStep(g, g') || CloserStep(g, g') || ReturnStep(g, g') || ExitStep(g, g'))
  }

  ghost function TotalWork(apps: seq<App>): nat {
    if apps == [] then 0 else TotalWork(apps[..|apps| - 1]) + Work(apps[|apps| - 1].threads)
  }

  lemma {:induction false} TotalUpdate(apps: seq<App>, i: nat, s: App)
    requires i < |apps|
    ensures TotalWork(apps[i := s]) == TotalWork(apps) - Work(apps[i].threads) + Work(s.threads)
  {
    var last := |apps| - 1;
    if i == last {
      assert apps[i := s][..last] == apps[..last];
    } else {
      TotalUpdate(apps[..last], i, s);
      assert apps[i := s][..last] == apps[..last][i := s];
    }
  }

  /** What the shutdown goroutine has before it outside Close: eleven for each server still to be closed,
      ten of them for the call. */
  function Ahead(g: Group): nat
    requires g.phase.Closing? ==> g.phase.k < g.n
  {
    match g.phase
    case Armed => 0
    case Closing(k) => 11 * (g.n - 1 - k) + 2
    case Waiting => 1
    case Exited => 0
  }

  ghost function GroupWork(g: Group): nat
    requires g.phase.Closing? ==> g.phase.k < g.n
  {
    TotalWork(g.apps) + Ahead(g)
  }

  lemma DoLess(g: Group, i: nat, t: Tid)
    requires i < |g.apps| && Enabled(g.apps[i], t)
    ensures TotalWork(g.apps[i := Do(g.apps[i], t)]) < TotalWork(g.apps)
  {
    StepLeavesLess(g.apps[i], t);
    TotalUpdate(g.apps, i, Do(g.apps[i], t));
  }

  lemma ReturnLess(g: Group, g': Group)
    requires GroupInv(g) && ReturnStep(g, g')
    ensures (g'.phase.Closing? ==> g'.phase.k < g'.n) && GroupWork(g') < GroupWork(g)
  {
    hide Solo, Do, Enabled, TotalWork, Work;
    var k := g.phase.k + 1;
    if k < g.n {
      assert AppAt(g, k);
      WorkUpdate(g.apps[k].threads, SELF, Calling(true));
      TotalUpdate(g.apps, k, At(g.apps[k], SELF, Calling(true)));
    }
  }

  /** Each of these steps leaves less to do. */
  lemma BusyLess(g: Group, g': Group)
    requires GroupInv(g) && BusyStep(g, g')
    ensures (g'.phase.Closing? ==> g'.phase.k < g'.n) && GroupWork(g') < GroupWork(g)
  {
    hide Do, Enabled, Solo, TotalWork;
    if i, t :| 0 <= i < |g.apps| && t != SELF && Enabled(g.apps[i], t) &&
               g' == g.(apps := g.apps[i := Do(g.apps[i], t)], wg := g.wg - Dones(g.apps[i], t)) {
      DoLess(g, i, t);
    } else if CloserStep(g, g') {
      DoLess(g, g.phase.k, SELF);
    } else if ReturnStep(g, g') {
      ReturnLess(g, g');
    }
  }

  lemma RestOrMore(g: Group, i: nat) returns (t: Tid)
    requires GroupInv(g) && i < |g.apps| && !Quiescent(g.apps[i])
    ensures Enabled(g.apps[i], t)
  {
    assert AppAt(g, i);
    t := Progress(g.apps[i]);
  }

  /** After the signal and before the exit one of them is always possible. */
  lemma BusyPossible(g: Group) returns (g': Group)
    requires GroupInv(g) && !g.phase.Armed? && !g.phase.Exited?
    ensures BusyStep(g, g')
  {
    hide Do, Enabled, Solo;
    if g.phase.Closing? {
      var k := g.phase.k;
      assert AppAt(g, k);
      if g.apps[k].threads[SELF].Returned? {
        g' := Reach(g.(wg := if g.apps[k].threads[SELF].ok then g.wg else g.wg - 1), k + 1);
        assert ReturnStep(g, g');
      } else {
        assert !Quiescent(g.apps[k]) by { SelfGoesOn(g, k); }
        var t := RestOrMore(g, k);
        g' := Turn(g, k, t);
      }
    } else if g.wg == 0 {
      g' := g.(phase := Exited);
      assert ExitStep(g, g');
    } else {
      var j := SomeApp(g);
      var t := RestOrMore(g, j);
      SelfIsDone(g, j, t);
      g' := Turn(g, j, t);
    }
  }

  /** Goroutine t of app i runs its next step. */
  lemma Turn(g: Group, i: nat, t: Tid) returns (g': Group)
    requires i < |g.apps| && Enabled(g.apps[i], t) && (t == SELF ==> g.phase == Closing(i)) && !g.phase.Exited?
    ensures BusyStep(g, g')
  {
    g' := g.(apps := g.apps[i := Do(g.apps[i], t)], wg := g.wg - Dones(g.apps[i], t));
    if t == SELF { assert CloserStep(g, g'); } else { assert RequestStep(g, g'); }
  }

  lemma SelfGoesOn(g: Group, k: nat)
    requires GroupInv(g) && k < |g.apps| && SELF in g.apps[k].threads && !g.apps[k].threads[SELF].Returned?
    ensures !Quiescent(g.apps[k])
  {
    assert AppAt(g, k);
    assert !RequestSide(g.apps[k].threads[SELF]);
  }

  /** While the wait is not over, some app of the snapshot is not at rest. */
  lemma SomeApp(g: Group) returns (j: nat)
    requires GroupInv(g) && g.phase.Waiting? && g.wg != 0
    ensures j < g.n && !Quiescent(g.apps[j])
  {
    RestMeansRan(g);
    j :| 0 <= j < g.n && !Quiescent(g.apps[j]);
  }

  lemma SelfIsDone(g: Group, j: nat, t: Tid)
    requires GroupInv(g) && g.phase.Waiting? && j < g.n && Enabled(g.apps[j], t)
    ensures t != SELF
  {
    assert AppAt(g, j);
  }

  /** A stretch of a run without arrivals. */
  ghost predicate Busy(b: seq<Group>, i: nat, j: nat)
    requires i <= j < |b|
  {
    forall k :: i <= k < j ==> BusyStep(b[k], b[k + 1])
  }

  /** Once nothing arrives any more, the exit is no further away than what is left to do then, and where
      the run cannot go on the process has exited. */
  lemma {:induction false} ExitIsNear(b: seq<Group>, i: nat, j: nat)
    requires GroupRun(b) && i <= j < |b| && !b[i].phase.Armed? && Busy(b, i, j)
    ensures (b[i].phase.Closing? ==> b[i].phase.k < b[i].n) && (b[j].phase.Closing? ==> b[j].phase.k < b[j].n)
    ensures j - i + GroupWork(b[j]) <= GroupWork(b[i]) && !b[j].phase.Armed?
    ensures (forall g :: !BusyStep(b[j], g)) ==> b[j].phase.Exited?
    decreases j
  {
    hide BusyStep, GroupStep, GroupWork;
    GroupRunInv(b, i);
    GroupRunInv(b, j);
    if i < j {
      ExitIsNear(b, i, j - 1);
      GroupRunInv(b, j - 1);
      assert BusyStep(b[j - 1], b[j]);
      BusyLess(b[j - 1], b[j]);
      NotArmed(b[j - 1], b[j]);
    }
    if !b[j].phase.Exited? { var g := BusyPossible(b[j]); }
  }

  lemma NotArmed(g: Group, g': Group)
    requires BusyStep(g, g') && !g.phase.Armed?
    ensures !g'.phase.Armed?
  {
    hide Do, Enabled;
  }

  /** From the signal on every run can be continued, without arrivals, to the exit. */
  lemma {:induction false} ExitIsReached(b: seq<Group>) returns (b': seq<Group>)
    requires GroupRun(b) && !b[|b| - 1].phase.Armed?
    requires b[|b| - 1].phase.Closing? ==> b[|b| - 1].phase.k < b[|b| - 1].n
    ensures GroupRun(b') && b <= b' && b'[|b'| - 1].phase.Exited? && Busy(b', |b| - 1, |b'| - 1)
    decreases GroupWork(b[|b| - 1])
  {
    hide BusyStep, GroupStep, GroupWork;
    var g := b[|b| - 1];
    if g.phase.Exited? {
      b' := b;
    } else {
      GroupRunInv(b, |b| - 1);
      var g' := BusyPossible(g);
      BusyLess(g, g');
      NotArmed(g, g');
      BusyIsStep(g, g');
      GroupExtend(b, g');
      b' := ExitIsReached(b + [g']);
      assert b'[|b| - 1] == g && b'[|b|] == g';
    }
  }

  lemma GroupExtend(b: seq<Group>, g': Group)
    requires GroupRun(b) && GroupStep(b[|b| - 1], g')
    ensures GroupRun(b + [g'])
  {
    hide GroupStep;
    var b' := b + [g'];
    forall i | 0 <= i < |b'| - 1 ensures GroupStep(b'[i], b'[i + 1]) {
      if i < |b| - 1 { assert GroupStep(b[i], b[i + 1]); }
    }
  }

  lemma BusyIsStep(g: Group, g': Group)
    requires BusyStep(g, g')
    ensures GroupStep(g, g')
  {
  }
}
