/** The inductive invariant of the mutex and what it says about every reachable state. */
module MutexInvariant {
  import opened Options
  import opened MapSums
  import opened MutexModel

  predicate MidUnlock(pc: Pc) {
    pc.UnlockWait? || pc.UnlockGot?
  }

  /** The thread owns the underlying mutex exclusively. */
  predicate HoldsExclusive(s: State, t: Tid) {
    s.PcOf(t).LockGot? || (s.Writing(t) && !MidUnlock(s.PcOf(t)))
  }

  /** The thread owns the underlying mutex in shared mode. */
  predicate HoldsShared(s: State, t: Tid) {
    var pc := s.PcOf(t);
    pc.SharedGot? || pc.TryGot? || pc.UnlockGot? || (t in s.readers && !s.SuspendedFor(t))
  }

  /** What is true of a thread at each point of a call. */
  predicate PcFacts(s: State, t: Tid) {
    match s.PcOf(t)
    case Idle => s.SuspendedFor(t) ==> s.writes >= 1
    case LockWait(mine, nonrec) => LockFacts(s, t, mine, nonrec)
    case LockGot(mine, nonrec) => LockFacts(s, t, mine, nonrec)
    case TryWait => s.SuspendedFor(t) && s.writes == 0
    case TryGot => s.SuspendedFor(t) && s.writes == 0
    case UnlockWait => s.SuspendedFor(t) && s.writes == 1
    case UnlockGot => s.SuspendedFor(t) && s.writes == 1
    case SharedWait => t !in s.readers && (s.Writing(t) ==> s.nonrec)
    case SharedGot => t !in s.readers && !s.Writing(t)
  }

  predicate LockFacts(s: State, t: Tid, mine: bool, nonrec: bool) {
    if mine then s.SuspendedFor(t) && s.writes == 0 && !nonrec
    else t !in s.readers && !s.Writing(t)
  }

  predicate ThreadInv(s: State, t: Tid) {
    && (s.excl == Some(t) <==> HoldsExclusive(s, t))
    && s.shared[t] == (if HoldsShared(s, t) then 1 else 0)
    && (s.excl.Some? ==> s.shared[t] == 0)
    && (t in s.readers ==> s.readers[t] >= 1)
    && PcFacts(s, t)
  }

  ghost predicate Counts(s: State) {
    && s.writes >= 0
    && (s.writes >= 1 ==> s.owner.Some?)
    && (s.suspended ==> s.owner.Some? && s.owner.value in s.readers)
    && (s.nonrec ==> s.writes == 1 && !s.suspended && s.readers == map[])
    && s.total == Sum(s.readers)
  }

  ghost predicate Inv(s: State) {
    Counts(s) && forall t :: ThreadInv(s, t)
  }

  lemma InvInit()
    ensures Inv(INIT_STATE)
  {
  }

  /** The total is positive as soon as one thread is in the read map. */
  lemma ReadersArePositive(s: State)
    requires Inv(s)
    ensures s.readers != map[] <==> s.total >= 1
    ensures s.total >= 0
  {
    forall t | t in s.readers ensures s.readers[t] >= 1 {
      assert ThreadInv(s, t);
    }
    SumIsZeroIffEmpty(s.readers);
  }

  /** The owner of an uncontested write lock excludes every other holder of the underlying mutex. */
  lemma WriterExcludes(s: State, w: Tid, t: Tid)
    requires Inv(s) && s.Writing(w) && !MidUnlock(s.PcOf(w)) && t != w
    ensures s.excl == Some(w) && s.shared == multiset{}
    ensures t !in s.readers && !s.PcOf(t).LockGot?
  {
    assert ThreadInv(s, w) && ThreadInv(s, t);
    forall u ensures s.shared[u] == 0 {
      assert ThreadInv(s, u);
    }
  }

  /** A thread that leaves the yield loop, or wins the underlying mutex outright, finds no writer. */
  lemma AcquirerFindsNoWriter(s: State, t: Tid)
    requires Inv(s) && !s.Writing(t)
    requires s.PcOf(t).LockGot? && (s.suspended ==> s.PcOf(t).mine)
    ensures s.writes == 0 && !s.nonrec
    ensures forall u :: u in s.readers ==> u == t && s.PcOf(t).mine
  {
    assert ThreadInv(s, t);
    assert s.owner.Some? ==> ThreadInv(s, s.owner.value);
    forall u | u in s.readers ensures u == t && s.PcOf(t).mine {
      assert ThreadInv(s, u);
    }
  }

  // ----- every step keeps the invariant

  lemma LockEnterKeepsInv(s: State, t: Tid)
    requires Inv(s) && s.PcOf(t) == Idle
    ensures Inv(LockEnter(s, t).state)
  {
    var s' := LockEnter(s, t).state;
    assert ThreadInv(s, t);
    assert s.owner.Some? ==> ThreadInv(s, s.owner.value);
    ReadersArePositive(s);
    forall u ensures ThreadInv(s', u) {
      assert ThreadInv(s, u);
    }
  }

  lemma NonrecLockEnterKeepsInv(s: State, t: Tid)
    requires Inv(s) && s.PcOf(t) == Idle
    ensures Inv(NonrecLockEnter(s, t).state)
  {
    var s' := NonrecLockEnter(s, t).state;
    assert ThreadInv(s, t);
    ReadersArePositive(s);
    forall u ensures ThreadInv(s', u) {
      assert ThreadInv(s, u);
    }
  }

  lemma LockResumeKeepsInv(s: State, t: Tid)
    requires Inv(s) && s.PcOf(t).LockGot?
    ensures Inv(LockResume(s, t).state)
  {
    var s' := LockResume(s, t).state;
    assert ThreadInv(s, t);
    if s.suspended ==> s.PcOf(t).mine {
      AcquirerFindsNoWriter(s, t);
      if s.PcOf(t).nonrec {
        assert s.readers == map[];
      }
    }
    forall u ensures ThreadInv(s', u) {
      assert ThreadInv(s, u);
    }
  }

  lemma TryLockEnterKeepsInv(s: State, t: Tid, grant: bool)
    requires Inv(s) && s.PcOf(t) == Idle
    ensures Inv(TryLockEnter(s, t, grant).state)
  {
    var s' := TryLockEnter(s, t, grant).state;
    assert ThreadInv(s, t);
    ReadersArePositive(s);
    assert s.owner.Some? ==> ThreadInv(s, s.owner.value);
    forall u ensures ThreadInv(s', u) {
      assert ThreadInv(s, u);
    }
  }

  lemma TryLockResumeKeepsInv(s: State, t: Tid)
    requires Inv(s) && s.PcOf(t) == TryGot
    ensures Inv(TryLockResume(s, t).state)
  {
    var s' := TryLockResume(s, t).state;
    assert ThreadInv(s, t);
    forall u ensures ThreadInv(s', u) {
      assert ThreadInv(s, u);
    }
  }

  lemma TryNonrecLockKeepsInv(s: State, t: Tid, grant: bool)
    requires Inv(s) && s.PcOf(t) == Idle
    ensures Inv(TryNonrecLock(s, t, grant).state)
  {
    var s' := TryNonrecLock(s, t, grant).state;
    assert ThreadInv(s, t);
    assert s.owner.Some? ==> ThreadInv(s, s.owner.value);
    if s'.nonrec && !s.nonrec {
      forall u ensures u !in s.readers {
        assert ThreadInv(s, u);
      }
      assert s.readers == map[];
    }
    forall u ensures ThreadInv(s', u) {
      assert ThreadInv(s, u);
    }
  }

  lemma UnlockEnterKeepsInv(s: State, t: Tid)
    requires Inv(s) && s.PcOf(t) == Idle
    ensures Inv(UnlockEnter(s, t).state)
  {
    var s' := UnlockEnter(s, t).state;
    assert ThreadInv(s, t);
    forall u ensures ThreadInv(s', u) {
      assert ThreadInv(s, u);
    }
  }

  lemma UnlockResumeKeepsInv(s: State, t: Tid)
    requires Inv(s) && s.PcOf(t) == UnlockGot
    ensures Inv(UnlockResume(s, t).state)
  {
    var s' := UnlockResume(s, t).state;
    assert ThreadInv(s, t);
    forall u ensures ThreadInv(s', u) {
      assert ThreadInv(s, u);
    }
  }

  lemma NonrecUnlockKeepsInv(s: State, t: Tid)
    requires Inv(s) && s.PcOf(t) == Idle
    ensures Inv(NonrecUnlock(s, t).state)
  {
    var s' := NonrecUnlock(s, t).state;
    assert ThreadInv(s, t);
    forall u ensures ThreadInv(s', u) {
      assert ThreadInv(s, u);
    }
  }

  lemma LockSharedEnterKeepsInv(s: State, t: Tid)
    requires Inv(s) && s.PcOf(t) == Idle
    ensures Inv(LockSharedEnter(s, t).state)
  {
    var s' := LockSharedEnter(s, t).state;
    assert ThreadInv(s, t);
    if t in s'.readers {
      SumUpdate(s.readers, t, s'.readers[t]);
    }
    assert s.owner.Some? ==> ThreadInv(s, s.owner.value);
    forall u ensures ThreadInv(s', u) {
      assert ThreadInv(s, u);
    }
  }

  lemma LockSharedResumeKeepsInv(s: State, t: Tid)
    requires Inv(s) && s.PcOf(t) == SharedGot
    ensures Inv(LockSharedResume(s, t).state)
  {
    var s' := LockSharedResume(s, t).state;
    assert ThreadInv(s, t);
    SumUpdate(s.readers, t, s'.readers[t]);
    assert s.owner.Some? ==> ThreadInv(s, s.owner.value);
    forall u ensures ThreadInv(s', u) {
      assert ThreadInv(s, u);
    }
  }

  lemma TryLockSharedKeepsInv(s: State, t: Tid, grant: bool)
    requires Inv(s) && s.PcOf(t) == Idle
    ensures Inv(TryLockShared(s, t, grant).state)
  {
    var s' := TryLockShared(s, t, grant).state;
    assert ThreadInv(s, t);
    if t in s'.readers {
      SumUpdate(s.readers, t, s'.readers[t]);
    }
    assert s.owner.Some? ==> ThreadInv(s, s.owner.value);
    forall u ensures ThreadInv(s', u) {
      assert ThreadInv(s, u);
    }
  }

  lemma UnlockSharedKeepsInv(s: State, t: Tid)
    requires Inv(s) && s.PcOf(t) == Idle
    ensures Inv(UnlockShared(s, t).state)
  {
    var s' := UnlockShared(s, t).state;
    assert ThreadInv(s, t);
    if t in s.readers {
      if s.readers[t] >= 2 {
        SumUpdate(s.readers, t, s.readers[t] - 1);
      } else {
        SumWithout(s.readers, t);
      }
    }
    forall u ensures ThreadInv(s', u) {
      assert ThreadInv(s, u);
    }
  }

  lemma BaseReturnKeepsInv(s: State, t: Tid)
    requires Inv(s) && Enabled(s, Act(t, BaseReturns))
    ensures Inv(BaseReturn(s, t))
  {
    var s' := BaseReturn(s, t);
    assert ThreadInv(s, t);
    forall u ensures ThreadInv(s', u) {
      assert ThreadInv(s, u);
    }
  }

  lemma StepKeepsInv(s: State, a: Act)
    requires Inv(s) && Enabled(s, a)
    ensures Inv(Step(s, a).state)
  {
    var t := a.t;
    match a.action
    case BaseReturns => BaseReturnKeepsInv(s, t);
    case Resume =>
      match s.PcOf(t) {
        case LockGot(_, _) => LockResumeKeepsInv(s, t);
        case TryGot => TryLockResumeKeepsInv(s, t);
        case UnlockGot => UnlockResumeKeepsInv(s, t);
        case SharedGot => LockSharedResumeKeepsInv(s, t);
      }
    case Call(op, grant) =>
      match op
      case Lock => LockEnterKeepsInv(s, t);
      case TryLock => TryLockEnterKeepsInv(s, t, grant);
      case Unlock => UnlockEnterKeepsInv(s, t);
      case NonrecLock => NonrecLockEnterKeepsInv(s, t);
      case TryNonrec => TryNonrecLockKeepsInv(s, t, grant);
      case NonrecRelease => NonrecUnlockKeepsInv(s, t);
      case LockShared => LockSharedEnterKeepsInv(s, t);
      case TryShared => TryLockSharedKeepsInv(s, t, grant);
      case ReleaseShared => UnlockSharedKeepsInv(s, t);
  }
}
