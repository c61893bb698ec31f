/** Who can block whom: hold-and-wait, progress, and the one way to deadlock oneself. */
module MutexDeadlock {
  import opened Options
  import opened MutexModel
  import opened MutexInvariant
  import opened MutexRefinement
  import opened ReentrantLockSpec

  predicate HoldsBase(s: State, t: Tid) {
    s.excl == Some(t) || t in s.shared
  }

  /** No blocked thread owns the underlying mutex in any mode. */
  ghost predicate NoHoldAndWait(s: State) {
    forall t :: Blocked(s.PcOf(t)) ==> !HoldsBase(s, t)
  }

  /** lock_shared() called under the caller's own nonrecursive write lock. */
  predicate SharedUnderNonrec(s: State, a: Act) {
    a.action.Call? && a.action.op == LockShared && s.nonrec && s.Writing(a.t)
  }

  /** A thread that waits for a shared lock which its own nonrecursive write lock withholds. */
  predicate SelfDeadlocked(s: State, t: Tid) {
    s.PcOf(t) == SharedWait && s.nonrec && s.Writing(t)
  }

  lemma BlockedHoldsOnlyIfSelfDeadlocked(s: State, t: Tid)
    requires Inv(s) && Blocked(s.PcOf(t))
    ensures HoldsBase(s, t) <==> SelfDeadlocked(s, t)
  {
    assert ThreadInv(s, t);
  }

  lemma NoHoldAndWaitIff(s: State)
    requires Inv(s)
    ensures NoHoldAndWait(s) <==> forall t :: !SelfDeadlocked(s, t)
  {
    forall t | Blocked(s.PcOf(t)) ensures HoldsBase(s, t) <==> SelfDeadlocked(s, t) {
      BlockedHoldsOnlyIfSelfDeadlocked(s, t);
    }
  }

  /** Only the thread that moves can become self-deadlocked, and only by that one call. */
  predicate DeadlocksOnlyItself(s: State, a: Act, t: Tid)
    requires Enabled(s, a)
  {
    SelfDeadlocked(Step(s, a).state, t) <==> (SharedUnderNonrec(s, a) && t == a.t)
  }

  lemma CallDeadlocksOnlyItself(s: State, a: Act, t: Tid)
    requires Inv(s) && Enabled(s, a) && !SelfDeadlocked(s, t) && a.action.Call?
    ensures DeadlocksOnlyItself(s, a, t)
  {
    assert ThreadInv(s, t) && ThreadInv(s, a.t);
  }

  lemma StepDeadlocksOnlyItself(s: State, a: Act, t: Tid)
    requires Inv(s) && Enabled(s, a) && !SelfDeadlocked(s, t)
    ensures DeadlocksOnlyItself(s, a, t)
  {
    if a.action.Call? {
      CallDeadlocksOnlyItself(s, a, t);
    } else {
      OwnerFacts(s, t);
    }
  }

  /** A step introduces hold-and-wait exactly if it is lock_shared() under one's own nonrecursive lock. */
  lemma StepKeepsNoHoldAndWaitIff(s: State, a: Act)
    requires Inv(s) && Enabled(s, a) && NoHoldAndWait(s)
    ensures NoHoldAndWait(Step(s, a).state) <==> !SharedUnderNonrec(s, a)
  {
    StepKeepsInv(s, a);
    NoHoldAndWaitIff(s);
    var s' := Step(s, a).state;
    NoHoldAndWaitIff(s');
    forall t ensures SelfDeadlocked(s', t) <==> (SharedUnderNonrec(s, a) && t == a.t) {
      assert !SelfDeadlocked(s, t);
      StepDeadlocksOnlyItself(s, a, t);
    }
    assert SelfDeadlocked(s', a.t) <==> SharedUnderNonrec(s, a);
  }

  lemma {:induction false} DisciplinedRunsNeverHoldAndWait(run: seq<State>, acts: seq<Act>, i: nat)
    requires IsRun(run, acts) && i < |run|
    requires forall k :: 0 <= k < |acts| ==> !SharedUnderNonrec(run[k], acts[k])
    ensures NoHoldAndWait(run[i])
  {
    if i > 0 {
      DisciplinedRunsNeverHoldAndWait(run, acts, i - 1);
      RunInv(run, acts, i - 1);
      StepKeepsNoHoldAndWaitIff(run[i - 1], acts[i - 1]);
    }
  }

  /** The self-deadlock is for ever, whatever the other threads do. */
  lemma {:induction false} SelfDeadlockIsForever(run: seq<State>, acts: seq<Act>, t: Tid, i: nat)
    requires IsPath(run, acts) && Inv(run[0]) && SelfDeadlocked(run[0], t) && i < |run|
    ensures Inv(run[i]) && SelfDeadlocked(run[i], t)
    ensures !Enabled(run[i], Act(t, BaseReturns))
  {
    if i > 0 {
      SelfDeadlockIsForever(run, acts, t, i - 1);
      StepKeepsInv(run[i - 1], acts[i - 1]);
      OwnerFacts(run[i - 1], t);
      OwnerFacts(run[i - 1], acts[i - 1].t);
    }
    assert ThreadInv(run[i], t);
  }

  /** Nonrecursive lock and lock_shared() by one thread: a run that ends self-deadlocked. */
  lemma SelfDeadlockExample() returns (run: seq<State>, acts: seq<Act>)
    ensures IsRun(run, acts) && SelfDeadlocked(run[|acts|], 1)
  {
    var s0 := INIT_STATE;
    acts := [Act(1, Call(NonrecLock, true)), Act(1, BaseReturns), Act(1, Resume), Act(1, Call(LockShared, true))];
    var s1 := NonrecLockEnter(s0, 1).state;
    var s2 := BaseReturn(s1, 1);
    var s3 := LockResume(s2, 1).state;
    var s4 := LockSharedEnter(s3, 1).state;
    run := [s0, s1, s2, s3, s4];
  }

  /** At most one thread at a time waits inside an upgrade or a downgrade. */
  lemma OneUpgradeAtATime(s: State, t: Tid, u: Tid)
    requires Inv(s) && UpgradePending(s.PcOf(t)) && UpgradePending(s.PcOf(u))
    ensures t == u
  {
    assert ThreadInv(s, t) && ThreadInv(s, u);
  }

  /** Whenever threads are blocked, some unblocked thread is what they wait for, or one of them can go on. */
  lemma BlockedThreadsWaitForSomeone(s: State, t: Tid)
    requires Inv(s) && NoHoldAndWait(s) && Blocked(s.PcOf(t))
    ensures || Enabled(s, Act(t, BaseReturns))
            || exists u :: !Blocked(s.PcOf(u)) && HoldsBase(s, u)
  {
    if !Enabled(s, Act(t, BaseReturns)) {
      if s.excl.Some? {
        assert HoldsBase(s, s.excl.value);
      } else {
        var u :| u in s.shared;
        assert HoldsBase(s, u);
      }
    }
  }

  predicate HoldsLock(s: State, t: Tid) {
    t in Abs(s).readers || Abs(s).writer == Some(t)
  }

  /**
   * No deadlock: as long as no thread sits outside a call with a lock in its hands, some call that is
   * under way can take a step.
   */
  lemma CallsProgress(s: State, t: Tid)
    requires Inv(s) && NoHoldAndWait(s) && s.PcOf(t) != Idle
    requires forall u :: s.PcOf(u) == Idle ==> !HoldsLock(s, u)
    ensures exists u: Tid, action: Action :: !action.Call? && Enabled(s, Act(u, action))
  {
    if u :| s.PcOf(u) != Idle && !Blocked(s.PcOf(u)) {
      assert Enabled(s, Act(u, Resume));
    } else {
      forall u ensures !HoldsBase(s, u) {
        assert ThreadInv(s, u);
        if s.PcOf(u) == Idle {
          assert !HoldsLock(s, u);
        }
      }
      assert s.shared == multiset{} by {
        if s.shared != multiset{} {
          var u :| u in s.shared;
          assert HoldsBase(s, u);
        }
      }
      assert s.excl == None by {
        if s.excl.Some? {
          assert HoldsBase(s, s.excl.value);
        }
      }
      assert Enabled(s, Act(t, BaseReturns));
    }
  }

  // ----- the source's debug assertion in lock()

  /** lock() asserts that the write count is 0 once it has seen a read lock and is not the writer. */
  predicate ReachesReadersAssert(s: State, t: Tid) {
    !s.Writing(t) && s.total >= 1
  }

  /** The assertion fails exactly if another thread holds a write lock and a read lock. */
  lemma ReadersAssertFailsIff(s: State, t: Tid)
    requires Inv(s) && s.PcOf(t) == Idle && ReachesReadersAssert(s, t)
    ensures s.writes != 0 <==> exists u :: u != t && s.Writing(u) && u in s.readers
  {
    ReadersArePositive(s);
    var r :| r in s.readers;
    assert ThreadInv(s, r);
    if s.writes != 0 {
      var u := s.owner.value;
      assert ThreadInv(s, u);
      assert u != t && s.Writing(u) && u in s.readers;
    }
  }

  lemma ReadersAssertFailsExample() returns (run: seq<State>, acts: seq<Act>)
    ensures IsRun(run, acts)
    ensures var s := run[|acts|];
            s.PcOf(2) == Idle && ReachesReadersAssert(s, 2) && s.writes != 0
  {
    run, acts := WriterReads();
  }

  /** A thread locks for writing and then for reading. */
  lemma WriterReads() returns (run: seq<State>, acts: seq<Act>)
    ensures IsRun(run, acts)
    ensures run[|acts|] == State(Some(1), 1, false, map[1 := 1], 1, true, Some(1), multiset{}, map[1 := Idle])
  {
    var s0 := INIT_STATE;
    acts := [Act(1, Call(Lock, true)), Act(1, BaseReturns), Act(1, Resume), Act(1, Call(LockShared, true))];
    var s1 := LockEnter(s0, 1).state;
    var s2 := BaseReturn(s1, 1);
    var s3 := LockResume(s2, 1).state;
    var s4 := LockSharedEnter(s3, 1).state;
    run := [s0, s1, s2, s3, s4];
  }

  /** In a state that is reached, try_lock() refuses a thread what lock() gives it at once. */
  lemma TryLockRefusesWriterExample() returns (run: seq<State>, acts: seq<Act>)
    ensures IsRun(run, acts)
    ensures var s := run[|acts|];
            && MayWrite(Abs(s), 1, false)
            && TryLockEnter(s, 1, true).out == Returned(false)
            && LockEnter(s, 1).out == Done
  {
    run, acts := WriterReads();
  }
}
