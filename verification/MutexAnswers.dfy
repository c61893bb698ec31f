/** What each call answers, when it answers, and that the answer is true however long the call took. */
module MutexAnswers {
  import opened Options
  import opened MutexModel
  import opened MutexInvariant
  import opened ReentrantLockSpec
  import opened MutexRefinement

  // ----- first stretches, in every state

  /** A reader inside an upgrade or a downgrade. */
  predicate Upgrading(pc: Pc) {
    UpgradePending(pc) || (pc.LockGot? && pc.mine)
  }

  ghost predicate OtherUpgrade(s: State, t: Tid) {
    exists u: Tid :: u != t && Upgrading(s.PcOf(u))
  }

  /** The underlying mutex has been granted to another thread that is still inside its call. */
  ghost predicate OtherHolder(s: State, t: Tid) {
    exists u: Tid :: u != t && HasBase(s.PcOf(u))
  }

  predicate HasBase(pc: Pc) {
    pc.LockGot? || pc.TryGot? || pc.UnlockGot? || pc.SharedGot?
  }

  ghost predicate OtherExclusiveHolder(s: State, t: Tid) {
    exists u: Tid :: u != t && s.PcOf(u).LockGot?
  }

  lemma SuspendedMeans(s: State, t: Tid)
    requires Inv(s) && s.PcOf(t) == Idle
    ensures s.suspended <==>
            OtherUpgrade(s, t) || (Abs(s).writer.Some? && Abs(s).writer.value in s.readers)
  {
    if s.suspended {
      assert ThreadInv(s, s.owner.value);
      assert HasWriter(s) || Upgrading(s.PcOf(s.owner.value));
    } else {
      forall u ensures !Upgrading(s.PcOf(u)) {
        assert ThreadInv(s, u);
      }
      if HasWriter(s) {
        assert ThreadInv(s, s.owner.value);
      }
    }
  }

  /** lock(): at once for the writer; an error where waiting would be a deadlock; else it waits. */
  lemma LockAnswer(s: State, t: Tid)
    requires Inv(s) && s.PcOf(t) == Idle
    ensures LockEnter(s, t).out ==
      if Abs(s).writer == Some(t) then (if Abs(s).exclusive then Threw(DeadlockWouldOccur) else Done)
      else if t in s.readers && OtherUpgrade(s, t) then Threw(DeadlockWouldOccur)
      else Pending
    ensures LockEnter(s, t).out != Done ==> Abs(LockEnter(s, t).state) == Abs(s)
  {
    OwnerFacts(s, t);
    ReadersArePositive(s);
    SuspendedMeans(s, t);
    if Abs(s).writer.Some? && Abs(s).writer != Some(t) {
      WriterExcludes(s, s.owner.value, t);
    }
  }

  lemma NonrecLockAnswer(s: State, t: Tid)
    requires Inv(s) && s.PcOf(t) == Idle
    ensures NonrecLockEnter(s, t).out ==
      if Abs(s).writer == Some(t) || t in s.readers then Threw(DeadlockWouldOccur) else Pending
    ensures Abs(NonrecLockEnter(s, t).state) == Abs(s)
  {
    OwnerFacts(s, t);
    ReadersArePositive(s);
  }

  lemma UnlockAnswer(s: State, t: Tid)
    requires Inv(s) && s.PcOf(t) == Idle
    ensures UnlockEnter(s, t).out ==
      if Abs(s).writer != Some(t) || Abs(s).exclusive then Threw(NoLockAvailable)
      else if Abs(s).depth == 1 && t in s.readers then Pending
      else Done
  {
    OwnerFacts(s, t);
  }

  lemma NonrecUnlockAnswer(s: State, t: Tid)
    requires Inv(s) && s.PcOf(t) == Idle
    ensures NonrecUnlock(s, t).out ==
      if Abs(s).writer == Some(t) && Abs(s).exclusive then Done else Threw(NoLockAvailable)
  {
    OwnerFacts(s, t);
  }

  /** lock_shared() never fails: it is granted at once if the caller holds a lock that allows it, else it waits. */
  lemma LockSharedAnswer(s: State, t: Tid)
    requires Inv(s) && s.PcOf(t) == Idle
    ensures LockSharedEnter(s, t).out ==
      if t in s.readers || (Abs(s).writer == Some(t) && !Abs(s).exclusive) then Done else Pending
    ensures LockSharedEnter(s, t).out == Pending ==> Abs(LockSharedEnter(s, t).state) == Abs(s)
  {
    OwnerFacts(s, t);
  }

  lemma UnlockSharedAnswer(s: State, t: Tid)
    requires Inv(s) && s.PcOf(t) == Idle
    ensures UnlockShared(s, t).out == if t in s.readers then Done else Threw(UnpairedUnlock)
  {
    OwnerFacts(s, t);
  }

  /** The caller can get the underlying mutex exclusively: nobody else reads, writes or is about to. */
  ghost predicate Undisturbed(s: State, t: Tid) {
    && Abs(s).writer == None && (forall u :: u in s.readers ==> u == t)
    && !OtherUpgrade(s, t) && !OtherHolder(s, t)
  }

  lemma UndisturbedMeans(s: State, t: Tid)
    requires Inv(s) && s.PcOf(t) == Idle && !s.suspended && !s.Writing(t)
    ensures Undisturbed(s, t) <==> (if t in s.readers then Suspend(s, t) else s).BaseFree()
  {
    OwnerFacts(s, t);
    SuspendedMeans(s, t);
    var own := if t in s.readers then Suspend(s, t) else s;
    if own.BaseFree() {
      forall u: Tid | u != t ensures !HasBase(s.PcOf(u)) && u !in s.readers {
        assert ThreadInv(s, u);
        assert own.shared[u] == 0;
      }
    } else if own.excl.Some? {
      assert ThreadInv(s, own.excl.value);
    } else {
      var u :| u in own.shared;
      assert ThreadInv(s, u);
    }
  }

  /**
   * try_lock(): succeeds exactly if the caller writes already, without reading, or gets the underlying mutex
   * undisturbed.  A reader whose attempt fails has to wait to get its shared lock back.
   */
  lemma TryLockAnswer(s: State, t: Tid, grant: bool)
    requires Inv(s) && s.PcOf(t) == Idle
    ensures TryLockEnter(s, t, grant).out ==
      if Abs(s).writer == Some(t) then Returned(!Abs(s).exclusive && t !in s.readers)
      else if grant && Undisturbed(s, t) then Returned(true)
      else if t in s.readers && !OtherUpgrade(s, t) then Pending
      else Returned(false)
    ensures TryLockEnter(s, t, grant).out == Pending ==> Abs(TryLockEnter(s, t, grant).state) == Abs(s)
  {
    OwnerFacts(s, t);
    ReadersArePositive(s);
    SuspendedMeans(s, t);
    if Abs(s).writer.Some? && Abs(s).writer != Some(t) {
      WriterExcludes(s, s.owner.value, t);
    }
    if !s.suspended && !s.Writing(t) {
      UndisturbedMeans(s, t);
    }
  }

  lemma TryNonrecAnswer(s: State, t: Tid, grant: bool)
    requires Inv(s) && s.PcOf(t) == Idle
    ensures TryNonrecLock(s, t, grant).out == Returned(grant && t !in s.readers && Undisturbed(s, t))
  {
    OwnerFacts(s, t);
    ReadersArePositive(s);
    SuspendedMeans(s, t);
    if !s.suspended && !s.Writing(t) {
      UndisturbedMeans(s, t);
    }
  }

  lemma TrySharedAnswer(s: State, t: Tid, grant: bool)
    requires Inv(s) && s.PcOf(t) == Idle
    ensures TryLockShared(s, t, grant).out == Returned(
      || t in s.readers
      || (Abs(s).writer == Some(t) && !Abs(s).exclusive)
      || (grant && Abs(s).writer == None && !OtherExclusiveHolder(s, t)))
  {
    OwnerFacts(s, t);
    if s.excl.Some? {
      assert ThreadInv(s, s.excl.value);
    } else {
      forall u: Tid ensures !s.PcOf(u).LockGot? && !(s.Writing(u) && !MidUnlock(s.PcOf(u))) {
        assert ThreadInv(s, u);
      }
    }
  }

  // ----- later stretches

  /** A call that has waited yields exactly to another reader's upgrade, and otherwise gets what it asked for. */
  lemma ResumeAnswer(s: State, t: Tid)
    requires Inv(s) && Enabled(s, Act(t, Resume))
    ensures var r := ResumeStep(s, t);
            match s.PcOf(t)
            case LockGot(mine, nonrec) =>
              && r.out == (if OtherUpgrade(s, t) then Pending else Done)
              && (r.out == Done ==> Abs(r.state) == Spec(s.readers, Some(t), 1, nonrec))
              && (r.out == Pending ==> Abs(r.state) == Abs(s) && r.state.PcOf(t) == LockWait(mine, nonrec))
            case TryGot => r.out == Returned(false) && Abs(r.state) == Abs(s)
            case UnlockGot => r.out == Done && Abs(r.state) == Abs(s)
            case SharedGot => r.out == Done && SpecStep(Abs(s), AcquireRead(t), Abs(r.state))
  {
    OwnerFacts(s, t);
    ResumeRefines(s, t);
    match s.PcOf(t)
    case LockGot(mine, _) =>
      if s.suspended && !mine {
        assert Upgrading(s.PcOf(s.owner.value));
      } else {
        AcquirerFindsNoWriter(s, t);
        forall u: Tid | u != t ensures !Upgrading(s.PcOf(u)) {
          assert ThreadInv(s, u);
        }
      }
    case _ =>
  }

  /** A first stretch moves its own thread only: into the call, or nowhere if there is an answer at once. */
  predicate KeepsPlaces(s: State, t: Tid, op: Op, r: Result) {
    if r.out == Pending then
      t in r.state.pcs && r.state.pcs == s.pcs[t := r.state.pcs[t]] && OpOf(r.state.pcs[t]) == Some(op)
    else r.state.pcs == s.pcs
  }

  lemma LockKeepsPlaces(s: State, t: Tid)
    ensures KeepsPlaces(s, t, Lock, LockEnter(s, t))
  {
    assert Suspend(s, t).pcs == s.pcs;
  }

  lemma NonrecLockKeepsPlaces(s: State, t: Tid)
    ensures KeepsPlaces(s, t, NonrecLock, NonrecLockEnter(s, t))
  {
  }

  lemma UnlockKeepsPlaces(s: State, t: Tid)
    ensures KeepsPlaces(s, t, Unlock, UnlockEnter(s, t))
    ensures KeepsPlaces(s, t, NonrecRelease, NonrecUnlock(s, t))
  {
  }

  lemma TryKeepsPlaces(s: State, t: Tid, grant: bool)
    ensures KeepsPlaces(s, t, TryLock, TryLockEnter(s, t, grant))
  {
    if !s.suspended && !s.Writing(t) {
      var mine := s.total >= 1 && t in s.readers;
      var s1 := if mine then Suspend(s, t) else s;
      assert s1.pcs == s.pcs;
      if !(grant && s1.BaseFree()) && mine {
        assert TryLockEnter(s, t, grant) == Result(Goto(s1, t, TryWait), Pending);
      }
    }
  }

  lemma TryNonrecKeepsPlaces(s: State, t: Tid, grant: bool)
    ensures KeepsPlaces(s, t, TryNonrec, TryNonrecLock(s, t, grant))
  {
  }

  lemma SharedKeepsPlaces(s: State, t: Tid, grant: bool)
    ensures KeepsPlaces(s, t, LockShared, LockSharedEnter(s, t))
    ensures KeepsPlaces(s, t, TryShared, TryLockShared(s, t, grant))
    ensures KeepsPlaces(s, t, ReleaseShared, UnlockShared(s, t))
  {
  }

  lemma CallKeepsPlaces(s: State, t: Tid, op: Op, grant: bool)
    ensures KeepsPlaces(s, t, op, CallStep(s, t, op, grant))
  {
    LockKeepsPlaces(s, t);
    NonrecLockKeepsPlaces(s, t);
    UnlockKeepsPlaces(s, t);
    TryKeepsPlaces(s, t, grant);
    TryNonrecKeepsPlaces(s, t, grant);
    SharedKeepsPlaces(s, t, grant);
  }

  lemma ResumeKeepsPlaces(s: State, t: Tid, u: Tid)
    requires Enabled(s, Act(t, Resume))
    ensures var r := ResumeStep(s, t);
            && (u != t ==> r.state.PcOf(u) == s.PcOf(u))
            && OpOf(r.state.PcOf(t)) == (if r.out == Pending then OpOf(s.PcOf(t)) else None)
  {
  }

  lemma BaseReturnKeepsPlaces(s: State, t: Tid, u: Tid)
    requires Enabled(s, Act(t, BaseReturns))
    ensures OpOf(BaseReturn(s, t).PcOf(u)) == OpOf(s.PcOf(u))
  {
  }

  /** A thread stays in its call until it gets an answer, and other threads do not move it. */
  lemma StepKeepsCall(s: State, a: Act, t: Tid)
    requires Enabled(s, a)
    ensures var r := Step(s, a);
            OpOf(r.state.PcOf(t)) ==
              if a.t != t then OpOf(s.PcOf(t))
              else if r.out != Pending then None
              else if a.action.Call? then Some(a.action.op)
              else OpOf(s.PcOf(t))
  {
    if a.action.Call? {
      CallKeepsPlaces(s, a.t, a.action.op, a.action.grant);
    } else if a.action == Resume {
      ResumeKeepsPlaces(s, a.t, t);
    } else {
      BaseReturnKeepsPlaces(s, a.t, t);
    }
  }

  // ----- whole calls

  /** What a thread holds. */
  datatype Held = Held(readDepth: int, writeDepth: int, exclusive: bool)

  function Holding(a: Spec, t: Tid): Held {
    Held(
      if t in a.readers then a.readers[t] else 0,
      if a.writer == Some(t) then a.depth else 0,
      a.writer == Some(t) && a.exclusive)
  }

  predicate IsAnswer(op: Op, out: Outcome) {
    match op
    case Lock => out == Done || out == Threw(DeadlockWouldOccur)
    case NonrecLock => out == Done || out == Threw(DeadlockWouldOccur)
    case Unlock => out == Done || out == Threw(NoLockAvailable)
    case NonrecRelease => out == Done || out == Threw(NoLockAvailable)
    case LockShared => out == Done
    case ReleaseShared => out == Done || out == Threw(UnpairedUnlock)
    case TryLock => out.Returned?
    case TryNonrec => out.Returned?
    case TryShared => out.Returned?
  }

  /** What a call that gets this answer has done for its caller. */
  predicate HasDone(op: Op, out: Outcome, before: Held, after: Held) {
    if out.Threw? || out == Returned(false) then after == before
    else
      match op
      case Lock => after == before.(writeDepth := before.writeDepth + 1) && !after.exclusive
      case TryLock => after == before.(writeDepth := before.writeDepth + 1) && !after.exclusive
      case Unlock => after == before.(writeDepth := before.writeDepth - 1) && !before.exclusive
      case NonrecLock => before == Held(0, 0, false) && after == Held(0, 1, true)
      case TryNonrec => before == Held(0, 0, false) && after == Held(0, 1, true)
      case NonrecRelease => before == Held(0, 1, true) && after == Held(0, 0, false)
      case LockShared => after == before.(readDepth := before.readDepth + 1) && !after.exclusive
      case TryShared => after == before.(readDepth := before.readDepth + 1) && !after.exclusive
      case ReleaseShared => after == before.(readDepth := before.readDepth - 1)
  }

  lemma OthersKeepHolding(s: State, a: Act, t: Tid)
    requires Inv(s) && Enabled(s, a) && a.t != t
    ensures Holding(Abs(Step(s, a).state), t) == Holding(Abs(s), t)
  {
    StepRefines(s, a);
    StepKeepsInv(s, a);
    AbsIsSafe(s);
  }

  /** What the caller has gained or lost while its call has not returned: only unlock() acts at once. */
  function WhileWaiting(op: Op, before: Held): Held {
    if op == Unlock then before.(writeDepth := before.writeDepth - 1) else before
  }

  /** A first stretch answers truly, or begins a call that has to wait. */
  predicate BeginsWell(s: State, t: Tid, op: Op, grant: bool)
    requires s.PcOf(t) == Idle
  {
    var r := CallStep(s, t, op, grant);
    var before, after := Holding(Abs(s), t), Holding(Abs(r.state), t);
    if r.out == Pending then after == WhileWaiting(op, before) && (op == Unlock ==> !before.exclusive)
    else IsAnswer(op, r.out) && HasDone(op, r.out, before, after)
  }

  lemma LockBegins(s: State, t: Tid, op: Op, grant: bool)
    requires Inv(s) && s.PcOf(t) == Idle && op in {Lock, NonrecLock}
    ensures BeginsWell(s, t, op, grant)
  {
    LockAnswer(s, t);
    NonrecLockAnswer(s, t);
    CallRefines(s, t, op, grant);
  }

  lemma UnlockBegins(s: State, t: Tid, op: Op, grant: bool)
    requires Inv(s) && s.PcOf(t) == Idle && op in {Unlock, NonrecRelease}
    ensures BeginsWell(s, t, op, grant)
  {
    AbsIsSafe(s);
    UnlockAnswer(s, t);
    NonrecUnlockAnswer(s, t);
    CallRefines(s, t, op, grant);
    FailedCallsChangeNothing(s, t, op, grant);
  }

  lemma TryBegins(s: State, t: Tid, op: Op, grant: bool)
    requires Inv(s) && s.PcOf(t) == Idle && op in {TryLock, TryNonrec}
    ensures BeginsWell(s, t, op, grant)
  {
    AbsIsSafe(s);
    TryLockAnswer(s, t, grant);
    TryNonrecAnswer(s, t, grant);
    CallRefines(s, t, op, grant);
    FailedCallsChangeNothing(s, t, op, grant);
  }

  lemma SharedBegins(s: State, t: Tid, op: Op, grant: bool)
    requires Inv(s) && s.PcOf(t) == Idle && op in {LockShared, TryShared, ReleaseShared}
    ensures BeginsWell(s, t, op, grant)
  {
    AbsIsSafe(s);
    LockSharedAnswer(s, t);
    UnlockSharedAnswer(s, t);
    TrySharedAnswer(s, t, grant);
    CallRefines(s, t, op, grant);
    FailedCallsChangeNothing(s, t, op, grant);
  }

  lemma CallBegins(s: State, t: Tid, op: Op, grant: bool)
    requires Inv(s) && s.PcOf(t) == Idle
    ensures BeginsWell(s, t, op, grant)
  {
    match op
    case Lock => LockBegins(s, t, op, grant);
    case NonrecLock => LockBegins(s, t, op, grant);
    case Unlock => UnlockBegins(s, t, op, grant);
    case NonrecRelease => UnlockBegins(s, t, op, grant);
    case TryLock => TryBegins(s, t, op, grant);
    case TryNonrec => TryBegins(s, t, op, grant);
    case _ => SharedBegins(s, t, op, grant);
  }

  /** The thread is in a call that began when it held this. */
  predicate IsIn(s: State, t: Tid, op: Op, before: Held) {
    && OpOf(s.PcOf(t)) == Some(op)
    && Holding(Abs(s), t) == WhileWaiting(op, before)
    && (op == Unlock ==> !before.exclusive)
  }

  lemma CallContinues(s: State, a: Act, op: Op, before: Held)
    requires Inv(s) && Enabled(s, a) && IsIn(s, a.t, op, before)
    ensures var r := Step(s, a);
            if r.out == Pending then IsIn(r.state, a.t, op, before)
            else IsAnswer(op, r.out) && HasDone(op, r.out, before, Holding(Abs(r.state), a.t))
  {
    AbsIsSafe(s);
    OwnerFacts(s, a.t);
    StepKeepsCall(s, a, a.t);
    if a.action == Resume {
      ResumeAnswer(s, a.t);
    } else {
      StepRefines(s, a);
    }
  }

  lemma StaysIn(s: State, a: Act, t: Tid, op: Op, before: Held)
    requires Inv(s) && Enabled(s, a) && IsIn(s, t, op, before)
    requires a.t == t ==> Step(s, a).out == Pending
    ensures IsIn(Step(s, a).state, t, op, before)
  {
    if a.t == t {
      CallContinues(s, a, op, before);
    } else {
      StepKeepsCall(s, a, t);
      OthersKeepHolding(s, a, t);
    }
  }

  /** The call made by step `i` has not been answered before step `j`. */
  ghost predicate Unanswered(run: seq<State>, acts: seq<Act>, i: nat, j: nat)
    requires IsRun(run, acts) && i < j <= |acts|
  {
    acts[i].action.Call? && forall k :: i <= k < j && acts[k].t == acts[i].t ==> Step(run[k], acts[k]).out == Pending
  }

  lemma {:induction false} CallUnderWay(run: seq<State>, acts: seq<Act>, i: nat, j: nat)
    requires IsRun(run, acts) && i < j <= |acts| && Unanswered(run, acts, i, j)
    ensures IsIn(run[j], acts[i].t, acts[i].action.op, Holding(Abs(run[i]), acts[i].t))
  {
    var t, op := acts[i].t, acts[i].action.op;
    RunInv(run, acts, j - 1);
    if i == j - 1 {
      CallBegins(run[i], t, op, acts[i].action.grant);
      StepKeepsCall(run[i], acts[i], t);
    } else {
      CallUnderWay(run, acts, i, j - 1);
      StaysIn(run[j - 1], acts[j - 1], t, op, Holding(Abs(run[i]), t));
    }
  }

  /**
   * The answer is true: between the call by step `i` and its answer by step `j`, with any number of steps of
   * other threads in between, the caller's holding has changed as the call and its answer say, and by
   * nothing else.  No call answers with what it cannot answer; in particular none fails after it has waited,
   * other than try_lock() by its result.
   */
  lemma CallDoesWhatItAnswers(run: seq<State>, acts: seq<Act>, i: nat, j: nat)
    requires IsRun(run, acts) && i <= j < |acts| && acts[i].action.Call? && acts[j].t == acts[i].t
    requires i < j ==> Unanswered(run, acts, i, j)
    requires Step(run[j], acts[j]).out != Pending
    ensures var t, op, out := acts[i].t, acts[i].action.op, Step(run[j], acts[j]).out;
            && IsAnswer(op, out)
            && HasDone(op, out, Holding(Abs(run[i]), t), Holding(Abs(run[j + 1]), t))
            && (i < j ==> out == if op == TryLock then Returned(false) else Done)
  {
    var t, op := acts[i].t, acts[i].action.op;
    RunInv(run, acts, j);
    if i == j {
      CallBegins(run[i], t, op, acts[i].action.grant);
    } else {
      CallUnderWay(run, acts, i, j);
      CallContinues(run[j], acts[j], op, Holding(Abs(run[i]), t));
      OwnerFacts(run[j], t);
      ResumeAnswer(run[j], t);
    }
  }

  /** A lock that was waited for: the caller is the writer with depth 1, exclusively exactly if it asked for that. */
  lemma WaitedLockIsAsAsked(run: seq<State>, acts: seq<Act>, i: nat, j: nat)
    requires IsRun(run, acts) && i < j < |acts| && Unanswered(run, acts, i, j) && acts[j].t == acts[i].t
    requires acts[i].action.op == Lock || acts[i].action.op == NonrecLock
    requires Step(run[j], acts[j]).out != Pending
    ensures Abs(run[j + 1]) == Spec(Abs(run[j]).readers, Some(acts[i].t), 1, acts[i].action.op == NonrecLock)
  {
    RunInv(run, acts, j);
    CallUnderWay(run, acts, i, j);
    ResumeAnswer(run[j], acts[j].t);
  }
}
