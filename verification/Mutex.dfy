/**
 * The mutex as an object whose methods update its fields.  Each method is one stretch of a call under the
 * state mutex; its contract ties the new state to the step function of the state machine and keeps the
 * invariant.  The debug assertions of the original are proved in place.
 */
module Mutex {
  import opened Options
  import opened MutexModel
  import opened MutexInvariant
  import opened MutexRefinement

  /** The underlying mutex; its preconditions are those of [thread.sharedmutex.requirements]. */
  class SharedTimedMutex {
    var excl: Option<Tid>
    var shared: multiset<Tid>

    constructor ()
      ensures excl == None && shared == multiset{}
    {
      excl, shared := None, multiset{};
    }

    predicate Owns(t: Tid)
      reads this
    {
      excl == Some(t) || t in shared
    }

    /** The return of a blocked lock(). */
    method Lock(t: Tid)
      requires !Owns(t) && excl == None && shared == multiset{}
      modifies this
      ensures excl == Some(t) && shared == old(shared)
    {
      excl := Some(t);
    }

    /** May fail spuriously: `grant` says whether an attempt on a free mutex succeeds. */
    method TryLock(t: Tid, grant: bool) returns (ok: bool)
      requires !Owns(t)
      modifies this
      ensures ok == (grant && old(excl) == None && shared == multiset{})
      ensures excl == (if ok then Some(t) else old(excl)) && shared == old(shared)
    {
      ok := grant && excl == None && shared == multiset{};
      if ok {
        excl := Some(t);
      }
    }

    method Unlock(t: Tid)
      requires excl == Some(t)
      modifies this
      ensures excl == None && shared == old(shared)
    {
      excl := None;
    }

    /** The return of a blocked lock_shared(). */
    method LockShared(t: Tid)
      requires !Owns(t) && excl == None
      modifies this
      ensures excl == old(excl) && shared == old(shared) + multiset{t}
    {
      shared := shared + multiset{t};
    }

    method TryLockShared(t: Tid, grant: bool) returns (ok: bool)
      requires t !in shared
      modifies this
      ensures ok == (grant && excl == None)
      ensures excl == old(excl)
      ensures shared == if ok then old(shared) + multiset{t} else old(shared)
    {
      ok := grant && excl == None;
      if ok {
        shared := shared + multiset{t};
      }
    }

    method UnlockShared(t: Tid)
      requires t in shared
      modifies this
      ensures excl == old(excl) && shared == old(shared) - multiset{t}
    {
      shared := shared - multiset{t};
    }
  }

  class RecursiveSharedTimedMutex {
    const base: SharedTimedMutex
    var owner: Option<Tid>
    var writes: int
    var nonrec: bool
    var readers: map<Tid, int>
    var total: int
    var suspended: bool
    var pcs: map<Tid, Pc> // the threads' positions and locals inside their calls

    constructor ()
      ensures Valid() && View() == INIT_STATE && fresh(base)
    {
      base := new SharedTimedMutex();
      owner, writes, nonrec := None, 0, false;
      readers, total, suspended := map[], 0, false;
      pcs := map[];
      new;
      InvInit();
    }

    ghost function View(): State
      reads this, base
    {
      State(owner, writes, nonrec, readers, total, suspended, base.excl, base.shared, pcs)
    }

    ghost predicate Valid()
      reads this, base
    {
      Inv(View())
    }

    ghost predicate Outside(t: Tid)
      reads this, base
    {
      View().PcOf(t) == Idle
    }

    /** Gives the caller's underlying shared lock up, and says so. */
    method SuspendSharedLock(t: Tid)
      requires t in base.shared
      modifies this`owner, this`suspended, base
      ensures View() == old(Suspend(View(), t))
    {
      owner := Some(t);
      suspended := true;
      base.UnlockShared(t);
    }

    // ----- lock()

    method LockBegin(t: Tid) returns (out: Outcome)
      requires Valid() && Outside(t)
      modifies this, base
      ensures Valid() && Result(View(), out) == old(LockEnter(View(), t))
    {
      OwnerFacts(View(), t);
      ReadersArePositive(View());
      LockEnterKeepsInv(View(), t);
      if writes >= 1 && owner == Some(t) {
        if nonrec {
          return Threw(DeadlockWouldOccur);
        }
        writes := writes + 1;
        return Done;
      }
      var mine := false;
      if total >= 1 && t in readers {
        assert readers[t] >= 1;
        if suspended {
          return Threw(DeadlockWouldOccur);
        }
        mine := true;
        SuspendSharedLock(t);
      }
      assert writes == 0 || owner != Some(t);
      assert !base.Owns(t);
      pcs := pcs[t := LockWait(mine, false)];
      return Pending;
    }

    /** The blocked call on the underlying mutex returns; the state mutex is not held. */
    method BaseCallReturns(t: Tid)
      requires Valid() && Enabled(View(), Act(t, BaseReturns))
      modifies this`pcs, base
      ensures Valid() && View() == old(BaseReturn(View(), t))
    {
      OwnerFacts(View(), t);
      BaseReturnKeepsInv(View(), t);
      match pcs[t] {
        case LockWait(mine, nr) =>
          base.Lock(t);
          pcs := pcs[t := LockGot(mine, nr)];
        case TryWait =>
          base.LockShared(t);
          pcs := pcs[t := TryGot];
        case UnlockWait =>
          base.LockShared(t);
          pcs := pcs[t := UnlockGot];
        case SharedWait =>
          base.LockShared(t);
          pcs := pcs[t := SharedGot];
      }
    }

    /** The rest of the loop in lock() and nonrecursive_lock(). */
    method LockContinue(t: Tid) returns (out: Outcome)
      requires Valid() && View().PcOf(t).LockGot?
      modifies this, base
      ensures Valid() && Result(View(), out) == old(LockResume(View(), t))
    {
      OwnerFacts(View(), t);
      LockResumeKeepsInv(View(), t);
      var LockGot(mine, nr) := pcs[t];
      if suspended && !mine {
        base.Unlock(t);
        pcs := pcs[t := LockWait(mine, nr)];
        return Pending;
      }
      AcquirerFindsNoWriter(View(), t);
      owner := Some(t);
      assert writes == 0;
      writes := writes + 1;
      if nr {
        nonrec := true;
      }
      pcs := pcs[t := Idle];
      return Done;
    }

    // ----- try_lock()

    method TryLockBegin(t: Tid, grant: bool) returns (out: Outcome)
      requires Valid() && Outside(t)
      modifies this, base
      ensures Valid() && Result(View(), out) == old(TryLockEnter(View(), t, grant))
    {
      ghost var r := TryLockEnter(View(), t, grant);
      OwnerFacts(View(), t);
      ReadersArePositive(View());
      TryLockEnterKeepsInv(View(), t, grant);
      TryLockFindsNoWriter(View(), t);
      if suspended {
        return Returned(false);
      }
      if writes >= 1 && owner == Some(t) {
        if nonrec {
          return Returned(false);
        }
        writes := writes + 1;
        return Returned(true);
      }
      var mine := false;
      if total >= 1 {
        if writes >= 1 {
          WriterHasNoOtherReaders(View(), owner.value);
        }
        assert writes == 0;
        if t in readers {
          assert readers[t] >= 1;
          mine := true;
          SuspendSharedLock(t);
        }
      }
      assert writes == 0 || owner != Some(t);
      assert !suspended || mine;
      var ok := base.TryLock(t, grant);
      if ok {
        owner := Some(t);
        assert writes == 0;
        writes := writes + 1;
        out := Returned(true);
      } else if mine {
        pcs := pcs[t := TryWait];
        out := Pending;
      } else {
        out := Returned(false);
      }
      assert Result(View(), out) == r;
    }

    method TryLockContinue(t: Tid) returns (out: Outcome)
      requires Valid() && View().PcOf(t) == TryGot
      modifies this
      ensures Valid() && Result(View(), out) == old(TryLockResume(View(), t))
    {
      OwnerFacts(View(), t);
      TryLockResumeKeepsInv(View(), t);
      assert suspended;
      suspended := false;
      pcs := pcs[t := Idle];
      return Returned(false);
    }

    // ----- unlock()

    method UnlockBegin(t: Tid) returns (out: Outcome)
      requires Valid() && Outside(t)
      modifies this, base
      ensures Valid() && Result(View(), out) == old(UnlockEnter(View(), t))
    {
      OwnerFacts(View(), t);
      UnlockEnterKeepsInv(View(), t);
      if owner != Some(t) {
        return Threw(NoLockAvailable);
      }
      if nonrec {
        return Threw(NoLockAvailable);
      }
      if writes < 2 {
        if writes != 1 {
          return Threw(NoLockAvailable);
        }
        base.Unlock(t);
        nonrec := false;
        if suspended {
          assert owner == Some(t);
          assert !base.Owns(t);
          pcs := pcs[t := UnlockWait];
          return Pending;
        }
      }
      writes := writes - 1;
      return Done;
    }

    method UnlockContinue(t: Tid) returns (out: Outcome)
      requires Valid() && View().PcOf(t) == UnlockGot
      modifies this
      ensures Valid() && Result(View(), out) == old(UnlockResume(View(), t))
    {
      UnlockResumeKeepsInv(View(), t);
      suspended := false;
      writes := writes - 1;
      pcs := pcs[t := Idle];
      return Done;
    }

    // ----- nonrecursive_lock(), try_nonrecursive_lock(), nonrecursive_unlock()

    method NonrecursiveLockBegin(t: Tid) returns (out: Outcome)
      requires Valid() && Outside(t)
      modifies this`pcs
      ensures Valid() && Result(View(), out) == old(NonrecLockEnter(View(), t))
    {
      OwnerFacts(View(), t);
      ReadersArePositive(View());
      NonrecLockEnterKeepsInv(View(), t);
      if writes >= 1 && owner == Some(t) {
        return Threw(DeadlockWouldOccur);
      }
      if total >= 1 && t in readers {
        assert readers[t] >= 1;
        return Threw(DeadlockWouldOccur);
      }
      assert owner != Some(t) || writes == 0;
      assert !base.Owns(t);
      pcs := pcs[t := LockWait(false, true)];
      return Pending;
    }

    method TryNonrecursiveLock(t: Tid, grant: bool) returns (out: Outcome)
      requires Valid() && Outside(t)
      modifies this, base
      ensures Valid() && Result(View(), out) == old(TryNonrecLock(View(), t, grant))
    {
      OwnerFacts(View(), t);
      ReadersArePositive(View());
      TryNonrecLockKeepsInv(View(), t, grant);
      if suspended || (writes >= 1 && owner == Some(t)) {
        return Returned(false);
      }
      if total >= 1 && t in readers {
        assert readers[t] >= 1;
        return Returned(false);
      }
      var ok := base.TryLock(t, grant);
      if ok {
        owner := Some(t);
        assert writes == 0;
        writes := writes + 1;
        nonrec := true;
      }
      return Returned(ok);
    }

    method NonrecursiveUnlock(t: Tid) returns (out: Outcome)
      requires Valid() && Outside(t)
      modifies this, base
      ensures Valid() && Result(View(), out) == old(NonrecUnlock(View(), t))
    {
      OwnerFacts(View(), t);
      ReadersArePositive(View());
      NonrecUnlockKeepsInv(View(), t);
      if owner != Some(t) {
        return Threw(NoLockAvailable);
      }
      if !nonrec || writes != 1 {
        return Threw(NoLockAvailable);
      }
      assert total == 0;
      base.Unlock(t);
      nonrec := false;
      writes := writes - 1;
      return Done;
    }

    // ----- lock_shared(), try_lock_shared(), unlock_shared()

    method LockSharedBegin(t: Tid) returns (out: Outcome)
      requires Valid() && Outside(t)
      modifies this
      ensures Valid() && Result(View(), out) == old(LockSharedEnter(View(), t))
    {
      OwnerFacts(View(), t);
      LockSharedEnterKeepsInv(View(), t);
      if t in readers && readers[t] >= 1 {
        readers := readers[t := readers[t] + 1];
      } else if writes >= 1 && owner == Some(t) && !nonrec {
        assert t !in readers && !suspended;
        owner := Some(t);
        suspended := true;
        readers := readers[t := 1];
      } else {
        assert t !in readers;
        pcs := pcs[t := SharedWait];
        return Pending;
      }
      total := total + 1;
      return Done;
    }

    method LockSharedContinue(t: Tid) returns (out: Outcome)
      requires Valid() && View().PcOf(t) == SharedGot
      modifies this
      ensures Valid() && Result(View(), out) == old(LockSharedResume(View(), t))
    {
      OwnerFacts(View(), t);
      LockSharedResumeKeepsInv(View(), t);
      // the original looks the thread up again; it is still absent
      assert t !in readers;
      readers := readers[t := 1];
      total := total + 1;
      pcs := pcs[t := Idle];
      return Done;
    }

    method TryLockSharedBegin(t: Tid, grant: bool) returns (out: Outcome)
      requires Valid() && Outside(t)
      modifies this, base
      ensures Valid() && Result(View(), out) == old(TryLockShared(View(), t, grant))
    {
      OwnerFacts(View(), t);
      TryLockSharedKeepsInv(View(), t, grant);
      if t in readers && readers[t] >= 1 {
        readers := readers[t := readers[t] + 1];
        total := total + 1;
        return Returned(true);
      }
      if writes >= 1 && owner == Some(t) && !nonrec {
        assert t !in readers && !suspended;
        owner := Some(t);
        suspended := true;
        readers := readers[t := 1];
        total := total + 1;
        return Returned(true);
      }
      var ok := base.TryLockShared(t, grant);
      if ok {
        // the original also provides for an entry with count 0, of which there is none
        assert t !in readers;
        readers := readers[t := 1];
        total := total + 1;
      }
      return Returned(ok);
    }

    method UnlockSharedBegin(t: Tid) returns (out: Outcome)
      requires Valid() && Outside(t)
      modifies this, base
      ensures Valid() && Result(View(), out) == old(UnlockShared(View(), t))
    {
      OwnerFacts(View(), t);
      UnlockSharedKeepsInv(View(), t);
      if t !in readers {
        return Threw(UnpairedUnlock);
      }
      if readers[t] >= 2 {
        readers := readers[t := readers[t] - 1];
      } else {
        assert readers[t] == 1;
        readers := readers - {t};
        if suspended && owner == Some(t) {
          suspended := false;
        } else {
          base.UnlockShared(t);
        }
      }
      total := total - 1;
      return Done;
    }
  }

  /** With a writer and no suspended shared lock, nobody reads: the assertion in try_lock(). */
  lemma WriterHasNoOtherReaders(s: State, w: Tid)
    requires Inv(s) && s.Writing(w) && !s.suspended
    ensures s.readers == map[]
  {
    assert ThreadInv(s, w);
    forall u ensures u !in s.readers {
      assert ThreadInv(s, u);
    }
  }
}
