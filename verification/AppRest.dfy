/** A SunnyApp comes to rest: goroutines that have started finish, if the others let them. */
module AppRest {
  import opened AppProtocol
  import opened Text

  /** The most steps a goroutine has before it. */
  function Left(pc: PC): nat {
    match pc
    case Gone => 0
    case Returned(_) => 0
    case Releasing(_) => 1
    case Resetting(_) => 2
    case Checking(_) => 3
    case Acquiring(_) => 4
    case Removing(_) => 5
    case SawZero => 6
    case Leaving => 7
    case Serving => 8
    case Entered(_) => 9
    case Arriving(_) => 10
    case Dropping => 6
    case Swapping => 7
    case Unlocking => 8
    case Storing(_) => 9
    case Calling(_) => 10
  }

  /** The most steps all of them have. */
  ghost function Work(threads: map<Tid, PC>): nat {
    if threads == map[] then 0
    else
      var t :| t in threads;
      Left(threads[t]) + Work(threads - {t})
  }

  lemma {:induction false} WorkPick(threads: map<Tid, PC>, t: Tid)
    requires t in threads
    ensures Work(threads) == Left(threads[t]) + Work(threads - {t})
    decreases |threads|
  {
    var u :| u in threads && Work(threads) == Left(threads[u]) + Work(threads - {u});
    if u != t {
      assert t in threads - {u} && u in threads - {t};
      WorkPick(threads - {u}, t);
      WorkPick(threads - {t}, u);
      assert threads - {u} - {t} == threads - {t} - {u};
    }
  }

  lemma WorkUpdate(threads: map<Tid, PC>, t: Tid, pc: PC)
    ensures Work(threads[t := pc]) == Work(threads - {t}) + Left(pc)
    ensures Work(threads) == Work(threads - {t}) + (if t in threads then Left(threads[t]) else 0)
  {
    WorkPick(threads[t := pc], t);
    assert threads[t := pc] - {t} == threads - {t};
    if t in threads { WorkPick(threads, t); } else { assert threads - {t} == threads; }
  }

  /** Every step of a goroutine leaves less to do. */
  lemma StepLeavesLess(s: App, t: Tid)
    requires Enabled(s, t)
    ensures Work(Do(s, t).threads) < Work(s.threads)
  {
    var pc := s.threads[t];
    WorkUpdate(s.threads, t, Next(s, pc));
    assert Left(Next(s, pc)) < Left(pc);
  }

  /** As long as some goroutine has not finished, some goroutine can go on: whoever holds the lock. */
  lemma Progress(s: App) returns (t: Tid)
    requires LockInv(s) && !Quiescent(s)
    ensures Enabled(s, t)
  {
    if s.lock.Some? {
      t := s.lock.value;
    } else {
      t :| t in s.threads && !Terminal(s.threads[t]);
    }
  }

  lemma Onward(s: App) returns (t: Tid)
    requires Inv(s) && !Quiescent(s)
    ensures Enabled(s, t) && Do(s, t).threads.Keys == s.threads.Keys
  {
    t := Progress(s);
  }

  /** A stretch of a run in which no goroutine starts. */
  ghost predicate NobodyStarts(b: seq<App>, i: nat, j: nat)
    requires i <= j < |b|
  {
    forall k :: i <= k < j ==> b[k + 1].threads.Keys == b[k].threads.Keys
  }

  /** Once nobody starts any more, rest is no further away than what is left to do at that point, and
      wherever a run cannot be continued without a start it has come to rest. */
  lemma {:induction false} RestIsNear(b: seq<App>, i: nat, j: nat)
    requires Run(b) && i <= j < |b| && NobodyStarts(b, i, j)
    ensures j - i + Work(b[j].threads) <= Work(b[i].threads)
    ensures (forall t :: !Enabled(b[j], t)) ==> Quiescent(b[j])
    decreases j
  {
    hide Step, Work, Inv, Enabled, Quiescent;
    if i < j {
      RestIsNear(b, i, j - 1);
      assert Step(b[j - 1], b[j]) && b[j].threads.Keys == b[j - 1].threads.Keys;
      NoStart(b[j - 1], b[j]);
    }
    RunInv(b, j);
    Stuck(b[j]);
  }

  lemma NoStart(s: App, s': App)
    requires Step(s, s') && s'.threads.Keys == s.threads.Keys
    ensures Work(s'.threads) < Work(s.threads)
  {
    hide Do, Work, Enabled;
    assert forall t, pc :: t in At(s, t, pc).threads.Keys;
    var t :| Enabled(s, t) && s' == Do(s, t);
    StepLeavesLess(s, t);
  }

  lemma Stuck(s: App)
    requires Inv(s)
    ensures (forall t :: !Enabled(s, t)) ==> Quiescent(s)
  {
    if !Quiescent(s) { var _ := Progress(s); }
  }

  /** Every run can be continued, without a start, until it is at rest. */
  lemma {:induction false} RestIsReached(b: seq<App>) returns (b': seq<App>)
    requires Run(b)
    ensures Run(b') && b <= b' && Quiescent(b'[|b'| - 1]) && NobodyStarts(b', |b| - 1, |b'| - 1)
    decreases Work(b[|b| - 1].threads)
  {
    hide Step, Inv, Do, Enabled, Work, Quiescent;
    var s := b[|b| - 1];
    if Quiescent(s) {
      b' := b;
    } else {
      RunInv(b, |b| - 1);
      var t := Onward(s);
      StepLeavesLess(s, t);
      Extend(b, t);
      b' := RestIsReached(b + [Do(s, t)]);
      assert b'[|b| - 1] == s && b'[|b|] == Do(s, t);
    }
  }
}
