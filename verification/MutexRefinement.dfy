/** Every interleaved run of the mutex is a run of the simple reentrant reader/writer lock. */
module MutexRefinement {
  import opened Options
  import opened MapSums
  import opened MutexModel
  import opened MutexInvariant
  import opened ReentrantLockSpec

  /** unlock() gives the write lock up at once, even if it still has to take a shared lock back. */
  predicate HasWriter(s: State) {
    s.writes >= 1 && s.owner.Some? && !MidUnlock(s.PcOf(s.owner.value))
  }

  function Abs(s: State): Spec {
    if HasWriter(s) then Spec(s.readers, s.owner, s.writes, s.nonrec)
    else Spec(s.readers, None, 0, false)
  }

  /** The call that a thread is in. */
  function OpOf(pc: Pc): Option<Op> {
    match pc
    case Idle => None
    case LockWait(_, nonrec) => Some(if nonrec then NonrecLock else Lock)
    case LockGot(_, nonrec) => Some(if nonrec then NonrecLock else Lock)
    case TryWait => Some(TryLock)
    case TryGot => Some(TryLock)
    case UnlockWait => Some(Unlock)
    case UnlockGot => Some(Unlock)
    case SharedWait => Some(LockShared)
    case SharedGot => Some(LockShared)
  }

  /** What the answer to a call tells the caller. */
  function Granted(op: Op, t: Tid, out: Outcome): Event {
    if out.Threw? || out == Returned(false) || out == Pending then Silent
    else
      match op
      case Lock => AcquireWrite(t, false)
      case TryLock => AcquireWrite(t, false)
      case Unlock => ReleaseWrite(t, false)
      case NonrecLock => AcquireWrite(t, true)
      case TryNonrec => AcquireWrite(t, true)
      case NonrecRelease => ReleaseWrite(t, true)
      case LockShared => AcquireRead(t)
      case TryShared => AcquireRead(t)
      case ReleaseShared => ReleaseRead(t)
  }

  /**
   * What a step means, read off the call and its outcome.  Only unlock() takes effect before it returns: its
   * first stretch gives the lock up even if it has to wait afterwards, and the later ones add nothing
   * provided that they do not fail.
   */
  function EventOf(s: State, a: Act): Event
    requires Enabled(s, a)
  {
    var out := Step(s, a).out;
    match a.action
    case BaseReturns => Silent
    case Call(op, _) => if op == Unlock && out == Pending then ReleaseWrite(a.t, false) else Granted(op, a.t, out)
    case Resume =>
      var op := OpOf(s.PcOf(a.t)).value;
      if op == Unlock then (if out.Threw? then AcquireWrite(a.t, false) else Silent) else Granted(op, a.t, out)
  }

  lemma OwnerFacts(s: State, t: Tid)
    requires Inv(s)
    ensures ThreadInv(s, t)
    ensures s.owner.Some? ==> ThreadInv(s, s.owner.value)
  {
  }

  /** A thread that takes the underlying mutex exclusively is the only possible reader. */
  lemma FreeBaseMeansNoReaders(s: State)
    requires Inv(s) && s.BaseFree() && !s.suspended
    ensures s.readers == map[] && s.writes == 0
  {
    assert s.owner.Some? ==> ThreadInv(s, s.owner.value);
    forall u ensures u !in s.readers {
      assert ThreadInv(s, u);
    }
  }

  /** The same for an upgrade: once the caller's own shared lock is given up, nobody else reads. */
  lemma FreeBaseAfterSuspending(s: State, t: Tid)
    requires Inv(s) && s.PcOf(t) == Idle && !s.suspended && t in s.readers && Suspend(s, t).BaseFree()
    ensures s.writes == 0
    ensures forall u :: u in s.readers ==> u == t
  {
    OwnerFacts(s, t);
    forall u | u in s.readers ensures u == t {
      assert ThreadInv(s, u);
      assert Suspend(s, t).shared[u] == 0;
    }
  }

  /** A successful attempt on the underlying mutex finds the write count at zero. */
  lemma TryLockFindsNoWriter(s: State, t: Tid)
    requires Inv(s) && s.PcOf(t) == Idle
    ensures !s.suspended && (if t in s.readers then Suspend(s, t) else s).BaseFree() ==> s.writes == 0
  {
    if !s.suspended && (if t in s.readers then Suspend(s, t) else s).BaseFree() {
      if t in s.readers {
        FreeBaseAfterSuspending(s, t);
      } else {
        FreeBaseMeansNoReaders(s);
      }
    }
  }

  /** The refinement condition for one call. */
  predicate CallRefinesSpec(s: State, t: Tid, op: Op, grant: bool)
    requires s.PcOf(t) == Idle
  {
    var a := Act(t, Call(op, grant));
    SpecStep(Abs(s), EventOf(s, a), Abs(Step(s, a).state))
  }

  lemma TryLockRefines(s: State, t: Tid, grant: bool)
    requires Inv(s) && s.PcOf(t) == Idle
    ensures CallRefinesSpec(s, t, TryLock, grant)
  {
    OwnerFacts(s, t);
    ReadersArePositive(s);
    if !s.suspended && !s.Writing(t) {
      if t in s.readers {
        if Suspend(s, t).BaseFree() {
          FreeBaseAfterSuspending(s, t);
        }
      } else if s.BaseFree() {
        FreeBaseMeansNoReaders(s);
      }
    }
  }

  lemma TryNonrecRefines(s: State, t: Tid, grant: bool)
    requires Inv(s) && s.PcOf(t) == Idle
    ensures CallRefinesSpec(s, t, TryNonrec, grant)
  {
    OwnerFacts(s, t);
    if !s.suspended && s.BaseFree() {
      FreeBaseMeansNoReaders(s);
    }
  }

  lemma ExclusiveCallRefines(s: State, t: Tid, op: Op, grant: bool)
    requires Inv(s) && s.PcOf(t) == Idle
    requires op in {Lock, Unlock, NonrecLock, NonrecRelease}
    ensures CallRefinesSpec(s, t, op, grant)
  {
    OwnerFacts(s, t);
    ReadersArePositive(s);
  }

  lemma SharedCallRefines(s: State, t: Tid, op: Op, grant: bool)
    requires Inv(s) && s.PcOf(t) == Idle
    requires op in {LockShared, TryShared, ReleaseShared}
    ensures CallRefinesSpec(s, t, op, grant)
  {
    OwnerFacts(s, t);
  }

  lemma CallRefines(s: State, t: Tid, op: Op, grant: bool)
    requires Inv(s) && s.PcOf(t) == Idle
    ensures CallRefinesSpec(s, t, op, grant)
  {
    match op
    case TryLock => TryLockRefines(s, t, grant);
    case TryNonrec => TryNonrecRefines(s, t, grant);
    case Lock => ExclusiveCallRefines(s, t, op, grant);
    case Unlock => ExclusiveCallRefines(s, t, op, grant);
    case NonrecLock => ExclusiveCallRefines(s, t, op, grant);
    case NonrecRelease => ExclusiveCallRefines(s, t, op, grant);
    case _ => SharedCallRefines(s, t, op, grant);
  }

  lemma ResumeRefines(s: State, t: Tid)
    requires Inv(s) && Enabled(s, Act(t, Resume))
    ensures var a := Act(t, Resume);
            SpecStep(Abs(s), EventOf(s, a), Abs(Step(s, a).state))
  {
    OwnerFacts(s, t);
    match s.PcOf(t)
    case LockGot(mine, _) =>
      if s.suspended ==> mine {
        AcquirerFindsNoWriter(s, t);
      }
    case _ =>
  }

  lemma StepRefines(s: State, a: Act)
    requires Inv(s) && Enabled(s, a)
    ensures SpecStep(Abs(s), EventOf(s, a), Abs(Step(s, a).state))
  {
    match a.action
    case Call(op, grant) => CallRefines(s, a.t, op, grant);
    case BaseReturns => OwnerFacts(s, a.t);
    case Resume => ResumeRefines(s, a.t);
  }

  lemma {:induction false} RunInv(run: seq<State>, acts: seq<Act>, i: nat)
    requires IsRun(run, acts) && i < |run|
    ensures Inv(run[i])
  {
    if i == 0 {
      InvInit();
    } else {
      RunInv(run, acts, i - 1);
      StepKeepsInv(run[i - 1], acts[i - 1]);
    }
  }

  lemma AbsIsSafe(s: State)
    requires Inv(s)
    ensures SpecSafe(Abs(s))
  {
    if HasWriter(s) {
      forall u | u in s.readers ensures s.owner == Some(u) {
        assert ThreadInv(s, u) && ThreadInv(s, s.owner.value);
      }
    }
    forall u | u in s.readers ensures s.readers[u] >= 1 {
      assert ThreadInv(s, u);
    }
    if s.nonrec {
      assert ThreadInv(s, s.owner.value);
    }
  }

  /** The refinement: any number of threads, any interleaving, any run. */
  lemma RunRefines(run: seq<State>, acts: seq<Act>)
    requires IsRun(run, acts)
    ensures Abs(run[0]) == INIT_SPEC
    ensures forall i :: 0 <= i < |acts| ==>
              SpecStep(Abs(run[i]), EventOf(run[i], acts[i]), Abs(run[i + 1]))
    ensures forall i :: 0 <= i < |run| ==> SpecSafe(Abs(run[i]))
  {
    forall i | 0 <= i < |acts|
      ensures SpecStep(Abs(run[i]), EventOf(run[i], acts[i]), Abs(run[i + 1]))
    {
      RunInv(run, acts, i);
      StepRefines(run[i], acts[i]);
    }
    forall i | 0 <= i < |run| ensures SpecSafe(Abs(run[i])) {
      RunInv(run, acts, i);
      AbsIsSafe(run[i]);
    }
  }

  // ----- the errors mean what they say

  predicate UpgradePending(pc: Pc) {
    (pc.LockWait? && pc.mine) || pc.TryWait? || pc.TryGot? || MidUnlock(pc)
  }

  /**
   * lock() reports a deadlock exactly if the caller holds an exclusive write lock, or reads while another
   * reader's shared lock is suspended inside a call.
   */
  lemma LockThrowsIff(s: State, t: Tid)
    requires Inv(s) && s.PcOf(t) == Idle
    ensures LockEnter(s, t).out == Threw(DeadlockWouldOccur) <==>
            if Abs(s).writer == Some(t) then Abs(s).exclusive
            else t in s.readers && exists u :: u != t && u in s.readers && UpgradePending(s.PcOf(u))
  {
    OwnerFacts(s, t);
    ReadersArePositive(s);
    if !s.Writing(t) && t in s.readers {
      if s.suspended {
        var u := s.owner.value;
        assert ThreadInv(s, u);
        assert u != t && u in s.readers && UpgradePending(s.PcOf(u));
      } else {
        forall u ensures !UpgradePending(s.PcOf(u)) {
          assert ThreadInv(s, u);
        }
      }
    }
  }

  /** The other calls, in terms of the simple lock only; a stale owner id never misleads them. */
  lemma CallErrorsExact(s: State, t: Tid)
    requires Inv(s) && s.PcOf(t) == Idle
    ensures UnlockEnter(s, t).out == Threw(NoLockAvailable) <==> !(Abs(s).writer == Some(t) && !Abs(s).exclusive)
    ensures NonrecUnlock(s, t).out == Threw(NoLockAvailable) <==> !(Abs(s).writer == Some(t) && Abs(s).exclusive)
    ensures NonrecLockEnter(s, t).out == Threw(DeadlockWouldOccur) <==>
            Abs(s).writer == Some(t) || t in Abs(s).readers
    ensures UnlockShared(s, t).out == Threw(UnpairedUnlock) <==> t !in Abs(s).readers
  {
    OwnerFacts(s, t);
    ReadersArePositive(s);
  }

  /** A call that throws, or that fails at once, changes nothing. */
  lemma FailedCallsChangeNothing(s: State, t: Tid, op: Op, grant: bool)
    requires Inv(s) && s.PcOf(t) == Idle
    ensures var r := CallStep(s, t, op, grant);
            r.out.Threw? || r.out == Returned(false) ==> r.state == s
  {
  }

  // ----- upgrades and downgrades are atomic

  /** While a thread reads, no other thread takes the write count from zero. */
  lemma NoOtherWriterStarts(s: State, a: Act, t: Tid)
    requires Inv(s) && Enabled(s, a) && a.t != t
    requires t in s.readers && s.writes == 0
    ensures Step(s, a).state.writes == 0
  {
    OwnerFacts(s, t);
    OwnerFacts(s, a.t);
    match a.action
    case Resume =>
      if s.PcOf(a.t).LockGot? && (s.suspended ==> s.PcOf(a.t).mine) {
        AcquirerFindsNoWriter(s, a.t);
      }
    case Call(op, grant) =>
      if !s.suspended && a.t in s.readers && Suspend(s, a.t).BaseFree() {
        FreeBaseAfterSuspending(s, a.t);
      } else if !s.suspended && s.BaseFree() {
        FreeBaseMeansNoReaders(s);
      }
    case BaseReturns =>
  }

  /**
   * From a thread's first read lock to its last unlock_shared(), whatever it does in between, no other
   * thread is ever the writer and none starts to be.
   */
  lemma UpgradeIsAtomic(run: seq<State>, acts: seq<Act>, t: Tid, i: nat, j: nat)
    requires IsRun(run, acts) && i <= j < |run|
    requires forall k :: i <= k <= j ==> t in run[k].readers
    ensures forall k :: i <= k <= j ==> Abs(run[k]).writer == None || Abs(run[k]).writer == Some(t)
    ensures forall k :: i <= k < j && acts[k].t != t && run[k].writes == 0 ==> run[k + 1].writes == 0
  {
    forall k | i <= k <= j
      ensures Abs(run[k]).writer == None || Abs(run[k]).writer == Some(t)
    {
      RunInv(run, acts, k);
      AbsIsSafe(run[k]);
    }
    forall k | i <= k < j && acts[k].t != t && run[k].writes == 0
      ensures run[k + 1].writes == 0
    {
      RunInv(run, acts, k);
      NoOtherWriterStarts(run[k], acts[k], t);
    }
  }

  /**
   * Data that only writers change is the same when a reader's upgrade completes as when it first read:
   * `data[k]` is the protected value in `run[k]`.
   */
  lemma {:induction false} UpgradeSeesWhatItRead<D>(
    run: seq<State>, acts: seq<Act>, data: seq<D>, t: Tid, i: nat, j: nat)
    requires IsRun(run, acts) && |data| == |run| && i <= j < |run|
    requires forall k :: 0 <= k < |acts| && Abs(run[k]).writer == None ==> data[k + 1] == data[k]
    requires forall k :: i <= k <= j ==> t in run[k].readers
    requires forall k :: i <= k < j ==> Abs(run[k]).writer != Some(t)
    ensures data[j] == data[i]
  {
    if i < j {
      UpgradeSeesWhatItRead(run, acts, data, t, i, j - 1);
      UpgradeIsAtomic(run, acts, t, i, j);
      assert Abs(run[j - 1]).writer == None;
    }
  }

  // ----- the invariant on whole runs

  /** What holds of the mutex's own fields, and of the underlying mutex, in every reachable state. */
  lemma ReachableStates(run: seq<State>, acts: seq<Act>, i: nat)
    requires IsRun(run, acts) && i < |run|
    ensures run[i].total == Sum(run[i].readers) && forall t :: t in run[i].readers ==> run[i].readers[t] >= 1
    ensures run[i].nonrec ==> run[i].writes == 1 && run[i].readers == map[] && !run[i].suspended
    ensures run[i].suspended ==> run[i].owner.Some? && run[i].owner.value in run[i].readers
    ensures forall t :: t in run[i].readers && !run[i].SuspendedFor(t) ==> run[i].shared[t] == 1
    ensures forall w, u :: run[i].Writing(w) && !MidUnlock(run[i].PcOf(w)) && u in run[i].readers ==> u == w
    ensures forall w: Tid :: run[i].Writing(w) && !MidUnlock(run[i].PcOf(w)) ==>
              run[i].excl == Some(w) && run[i].shared == multiset{}
  {
    var s := run[i];
    RunInv(run, acts, i);
    forall t | t in s.readers ensures s.readers[t] >= 1 && (!s.SuspendedFor(t) ==> s.shared[t] == 1) {
      assert ThreadInv(s, t);
    }
    forall w: Tid | s.Writing(w) && !MidUnlock(s.PcOf(w))
      ensures s.excl == Some(w) && s.shared == multiset{} && forall u :: u in s.readers ==> u == w
    {
      WriterExcludes(s, w, w + 1);
      forall u | u in s.readers && u != w ensures false {
        WriterExcludes(s, w, u);
      }
    }
  }

  lemma SuspensionIsPrivate(s: State, a: Act, t: Tid)
    requires Inv(s) && Enabled(s, a) && s.SuspendedFor(t) && a.t != t
    ensures Step(s, a).state.SuspendedFor(t)
  {
    OwnerFacts(s, t);
    OwnerFacts(s, a.t);
  }

  /** Nobody but the thread whose shared lock is suspended changes the recorded id or clears the flag. */
  lemma {:induction false} SuspensionLasts(run: seq<State>, acts: seq<Act>, t: Tid, i: nat, j: nat)
    requires IsRun(run, acts) && i <= j < |run| && run[i].SuspendedFor(t)
    requires forall k :: i <= k < j ==> acts[k].t != t
    ensures run[j].SuspendedFor(t)
  {
    if i < j {
      SuspensionLasts(run, acts, t, i, j - 1);
      RunInv(run, acts, j - 1);
      SuspensionIsPrivate(run[j - 1], acts[j - 1], t);
    }
  }

  // ----- a lock that the simple lock allows is granted when nothing else is going on

  ghost predicate Quiescent(s: State) {
    forall t :: s.PcOf(t) == Idle
  }

  lemma QuiescentBase(s: State, t: Tid)
    requires Inv(s) && Quiescent(s) && Abs(s).writer == None
    ensures s.excl == None && s.writes == 0 && !s.suspended
    ensures (forall u :: u in s.readers ==> u == t) ==>
              s.shared == if t in s.readers then multiset{t} else multiset{}
  {
    assert s.owner.Some? ==> ThreadInv(s, s.owner.value);
    assert s.excl.Some? ==> ThreadInv(s, s.excl.value);
    if forall u :: u in s.readers ==> u == t {
      forall u
        ensures s.shared[u] == (if t in s.readers then multiset{t} else multiset{})[u]
      {
        assert ThreadInv(s, u);
      }
    }
  }

  /** lock(): at once for the writer itself, else in three stretches each of which is enabled, upgrades included. */
  lemma AllowedLockIsGranted(s: State, t: Tid)
    requires Inv(s) && Quiescent(s) && MayWrite(Abs(s), t, false)
    ensures var r := LockEnter(s, t);
            if Abs(s).writer == Some(t) then r.out == Done && SpecStep(Abs(s), AcquireWrite(t, false), Abs(r.state))
            else
              && Enabled(r.state, Act(t, BaseReturns))
              && var s2 := BaseReturn(r.state, t);
              && Enabled(s2, Act(t, Resume))
              && ResumeStep(s2, t).out == Done
              && Abs(ResumeStep(s2, t).state) == Spec(s.readers, Some(t), 1, false)
  {
    OwnerFacts(s, t);
    ReadersArePositive(s);
    if Abs(s).writer == None {
      QuiescentBase(s, t);
      assert !s.nonrec;
    }
  }

  lemma AllowedNonrecLockIsGranted(s: State, t: Tid)
    requires Inv(s) && Quiescent(s) && MayWrite(Abs(s), t, true)
    ensures var s1 := NonrecLockEnter(s, t).state;
            && Enabled(s1, Act(t, BaseReturns))
            && var s2 := BaseReturn(s1, t);
            && Enabled(s2, Act(t, Resume))
            && ResumeStep(s2, t).out == Done
            && Abs(ResumeStep(s2, t).state) == Spec(map[], Some(t), 1, true)
  {
    QuiescentBase(s, t);
    ReadersArePositive(s);
    assert s.readers == map[];
  }

  /** lock_shared(): at once, or in three stretches each of which is enabled. */
  lemma AllowedReadIsGranted(s: State, t: Tid)
    requires Inv(s) && Quiescent(s) && MayRead(Abs(s), t)
    ensures var r := LockSharedEnter(s, t);
            if r.out == Done then SpecStep(Abs(s), AcquireRead(t), Abs(r.state))
            else
              && Enabled(r.state, Act(t, BaseReturns))
              && var s2 := BaseReturn(r.state, t);
              && Enabled(s2, Act(t, Resume))
              && ResumeStep(s2, t).out == Done
              && SpecStep(Abs(s), AcquireRead(t), Abs(ResumeStep(s2, t).state))
  {
    OwnerFacts(s, t);
    if Abs(s).writer == None {
      QuiescentBase(s, t);
    }
  }

  /**
   * The try functions succeed exactly if the simple lock allows it, with one exception: a thread that holds
   * a write and a read lock cannot get another write lock by try_lock(), although lock() would give it one.
   */
  lemma TriesSucceedIff(s: State, t: Tid)
    requires Inv(s) && Quiescent(s)
    ensures TryLockEnter(s, t, true).out == Returned(true) <==>
            MayWrite(Abs(s), t, false) && !(Abs(s).writer == Some(t) && t in s.readers)
    ensures TryNonrecLock(s, t, true).out == Returned(true) <==> MayWrite(Abs(s), t, true)
    ensures TryLockShared(s, t, true).out == Returned(true) <==> MayRead(Abs(s), t)
  {
    OwnerFacts(s, t);
    ReadersArePositive(s);
    if Abs(s).writer == None {
      QuiescentBase(s, t);
      var own := if t in s.readers then Suspend(s, t) else s;
      if u :| u in s.readers && u != t {
        assert ThreadInv(s, u);
        assert own.shared[u] == 1;
      } else {
        assert own.shared == multiset{};
      }
    } else {
      WriterIsOnlyHolder(s, t);
    }
  }

  lemma WriterIsOnlyHolder(s: State, t: Tid)
    requires Inv(s) && HasWriter(s)
    ensures s.excl == s.owner
    ensures s.owner != Some(t) ==> t !in s.readers
    ensures s.suspended <==> s.owner.value in s.readers
  {
    assert ThreadInv(s, s.owner.value);
    if s.owner != Some(t) {
      WriterExcludes(s, s.owner.value, t);
    }
  }

  /** unlock() of the last write lock, downgrades included. */
  lemma LastUnlockIsGranted(s: State, t: Tid)
    requires Inv(s) && Quiescent(s)
    requires Abs(s).writer == Some(t) && Abs(s).depth == 1 && !Abs(s).exclusive
    ensures var r := UnlockEnter(s, t);
            if t !in s.readers then r.out == Done && Abs(r.state) == Spec(s.readers, None, 0, false)
            else
              && Enabled(r.state, Act(t, BaseReturns))
              && var s2 := BaseReturn(r.state, t);
              && Enabled(s2, Act(t, Resume))
              && ResumeStep(s2, t).out == Done
              && Abs(ResumeStep(s2, t).state) == Spec(s.readers, None, 0, false)
              && ResumeStep(s2, t).state.shared[t] == 1
  {
    OwnerFacts(s, t);
  }
}
