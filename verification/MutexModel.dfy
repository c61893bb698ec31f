/**
 * The reentrant reader/writer mutex as a state machine.
 *
 * Every call holds the internal state mutex except inside an "unlock guard", where it waits for the
 * underlying, non-reentrant shared mutex.  One step of the machine is one stretch of a call between two
 * acquisitions of the state mutex.  The return of a blocked call on the underlying mutex is a step of its
 * own, because the thread then holds the underlying mutex but not yet the state mutex.
 */
module MutexModel {
  import opened Options

  type Tid = nat

  /** Where a thread stands inside a call. */
  datatype Pc =
    | Idle
    | LockWait(mine: bool, nonrec: bool) // waits for the underlying exclusive lock
    | LockGot(mine: bool, nonrec: bool)  // holds it, waits for the state mutex
    | TryWait                            // a failed upgrade attempt waits to take its shared lock back
    | TryGot
    | UnlockWait                         // unlock() waits to take the suspended shared lock back
    | UnlockGot
    | SharedWait                         // lock_shared() waits for the underlying shared lock
    | SharedGot

  datatype Error = DeadlockWouldOccur | NoLockAvailable | UnpairedUnlock

  /** What a step tells the caller; `Pending` means that the call has not returned yet. */
  datatype Outcome = Done | Returned(ok: bool) | Threw(error: Error) | Pending

  datatype State = State(
    owner: Option<Tid>,      // thread that holds the write lock, or whose shared lock is suspended
    writes: int,             // write lock depth
    nonrec: bool,            // the write lock was taken by a nonrecursive call
    readers: map<Tid, int>,  // read lock depth by thread
    total: int,              // total read lock count
    suspended: bool,         // the owner's underlying shared lock is given up for an exclusive lock
    excl: Option<Tid>,       // underlying mutex: exclusive holder
    shared: multiset<Tid>,   // underlying mutex: shared holders
    pcs: map<Tid, Pc>)
  {
    function PcOf(t: Tid): Pc {
      if t in pcs then pcs[t] else Idle
    }

    predicate Writing(t: Tid) {
      writes >= 1 && owner == Some(t)
    }

    predicate SuspendedFor(t: Tid) {
      suspended && owner == Some(t)
    }

    predicate BaseFree() {
      excl == None && shared == multiset{}
    }
  }

  const INIT_STATE: State := State(None, 0, false, map[], 0, false, None, multiset{}, map[])

  datatype Result = Result(state: State, out: Outcome)

  function Goto(s: State, t: Tid, pc: Pc): State {
    s.(pcs := s.pcs[t := pc])
  }

  /** Gives up the caller's underlying shared lock and records that it did so. */
  function Suspend(s: State, t: Tid): State {
    s.(owner := Some(t), suspended := true, shared := s.shared - multiset{t})
  }

  function TakeRead(s: State, t: Tid): State {
    s.(readers := s.readers[t := if t in s.readers then s.readers[t] + 1 else 1], total := s.total + 1)
  }

  // ----- exclusive locking

  function LockEnter(s: State, t: Tid): Result {
    if s.Writing(t) then
      if s.nonrec then Result(s, Threw(DeadlockWouldOccur))
      else Result(s.(writes := s.writes + 1), Done)
    else if s.total >= 1 && t in s.readers then
      if s.suspended then Result(s, Threw(DeadlockWouldOccur))
      else Result(Goto(Suspend(s, t), t, LockWait(true, false)), Pending)
    else Result(Goto(s, t, LockWait(false, false)), Pending)
  }

  function NonrecLockEnter(s: State, t: Tid): Result {
    if s.Writing(t) || (s.total >= 1 && t in s.readers) then Result(s, Threw(DeadlockWouldOccur))
    else Result(Goto(s, t, LockWait(false, true)), Pending)
  }

  /** Back under the state mutex: yield to a suspended reader, or complete. */
  function LockResume(s: State, t: Tid): Result
    requires s.PcOf(t).LockGot?
  {
    var LockGot(mine, nonrec) := s.PcOf(t);
    if s.suspended && !mine then
      Result(Goto(s.(excl := None), t, LockWait(mine, nonrec)), Pending)
    else
      Result(Goto(s.(owner := Some(t), writes := s.writes + 1, nonrec := s.nonrec || nonrec), t, Idle), Done)
  }

  /** `grant` is false when the underlying try_lock() fails, which it may do spuriously. */
  function TryLockEnter(s: State, t: Tid, grant: bool): Result {
    if s.suspended then Result(s, Returned(false))
    else if s.Writing(t) then
      if s.nonrec then Result(s, Returned(false))
      else Result(s.(writes := s.writes + 1), Returned(true))
    else
      var mine := s.total >= 1 && t in s.readers;
      var s1 := if mine then Suspend(s, t) else s;
      if grant && s1.BaseFree() then
        Result(s1.(excl := Some(t), owner := Some(t), writes := s1.writes + 1), Returned(true))
      else if mine then Result(Goto(s1, t, TryWait), Pending)
      else Result(s1, Returned(false))
  }

  function TryLockResume(s: State, t: Tid): Result {
    Result(Goto(s.(suspended := false), t, Idle), Returned(false))
  }

  function TryNonrecLock(s: State, t: Tid, grant: bool): Result {
    if s.suspended || s.Writing(t) || (s.total >= 1 && t in s.readers) then Result(s, Returned(false))
    else if grant && s.BaseFree() then
      Result(s.(excl := Some(t), owner := Some(t), writes := s.writes + 1, nonrec := true), Returned(true))
    else Result(s, Returned(false))
  }

  function UnlockEnter(s: State, t: Tid): Result {
    if s.owner != Some(t) || s.nonrec then Result(s, Threw(NoLockAvailable))
    else if s.writes >= 2 then Result(s.(writes := s.writes - 1), Done)
    else if s.writes != 1 then Result(s, Threw(NoLockAvailable))
    else
      var s1 := s.(excl := None, nonrec := false);
      if s1.suspended then Result(Goto(s1, t, UnlockWait), Pending)
      else Result(s1.(writes := s1.writes - 1), Done)
  }

  function UnlockResume(s: State, t: Tid): Result {
    Result(Goto(s.(suspended := false, writes := s.writes - 1), t, Idle), Done)
  }

  function NonrecUnlock(s: State, t: Tid): Result {
    if s.owner != Some(t) || !s.nonrec || s.writes != 1 then Result(s, Threw(NoLockAvailable))
    else Result(s.(excl := None, nonrec := false, writes := s.writes - 1), Done)
  }

  // ----- shared locking

  /** The two cases in which a read lock is granted without touching the underlying mutex. */
  predicate ReadsAlready(s: State, t: Tid) {
    t in s.readers && s.readers[t] >= 1
  }

  function TakeReadUnderWrite(s: State, t: Tid): State {
    s.(owner := Some(t), suspended := true, readers := s.readers[t := 1], total := s.total + 1)
  }

  function LockSharedEnter(s: State, t: Tid): Result {
    if ReadsAlready(s, t) then Result(TakeRead(s, t), Done)
    else if s.Writing(t) && !s.nonrec then Result(TakeReadUnderWrite(s, t), Done)
    else Result(Goto(s, t, SharedWait), Pending)
  }

  function LockSharedResume(s: State, t: Tid): Result {
    Result(Goto(TakeRead(s, t), t, Idle), Done)
  }

  function TryLockShared(s: State, t: Tid, grant: bool): Result {
    if ReadsAlready(s, t) then Result(TakeRead(s, t), Returned(true))
    else if s.Writing(t) && !s.nonrec then Result(TakeReadUnderWrite(s, t), Returned(true))
    else if grant && s.excl == None then
      Result(TakeRead(s.(shared := s.shared + multiset{t}), t), Returned(true))
    else Result(s, Returned(false))
  }

  function UnlockShared(s: State, t: Tid): Result {
    if t !in s.readers then Result(s, Threw(UnpairedUnlock))
    else
      var s1 := s.(total := s.total - 1);
      if s.readers[t] >= 2 then Result(s1.(readers := s.readers[t := s.readers[t] - 1]), Done)
      else
        var s2 := s1.(readers := s.readers - {t});
        if s.SuspendedFor(t) then Result(s2.(suspended := false), Done)
        else Result(s2.(shared := s.shared - multiset{t}), Done)
  }

  // ----- the machine

  datatype Op =
    | Lock | TryLock | Unlock | NonrecLock | TryNonrec | NonrecRelease
    | LockShared | TryShared | ReleaseShared

  datatype Action =
    | Call(op: Op, grant: bool) // the first stretch of a call
    | BaseReturns               // the blocked call on the underlying mutex returns
    | Resume                    // the stretch after the unlock guard

  datatype Act = Act(t: Tid, action: Action)

  predicate Blocked(pc: Pc) {
    pc.LockWait? || pc.TryWait? || pc.UnlockWait? || pc.SharedWait?
  }

  predicate Enabled(s: State, a: Act) {
    var pc := s.PcOf(a.t);
    match a.action
    case Call(_, _) => pc == Idle
    case BaseReturns => Blocked(pc) && (if pc.LockWait? then s.BaseFree() else s.excl == None)
    case Resume => pc != Idle && !Blocked(pc)
  }

  function BaseReturn(s: State, t: Tid): State
    requires Enabled(s, Act(t, BaseReturns))
  {
    match s.PcOf(t)
    case LockWait(mine, nonrec) => Goto(s.(excl := Some(t)), t, LockGot(mine, nonrec))
    case TryWait => Goto(s.(shared := s.shared + multiset{t}), t, TryGot)
    case UnlockWait => Goto(s.(shared := s.shared + multiset{t}), t, UnlockGot)
    case SharedWait => Goto(s.(shared := s.shared + multiset{t}), t, SharedGot)
  }

  function CallStep(s: State, t: Tid, op: Op, grant: bool): Result {
    match op
    case Lock => LockEnter(s, t)
    case TryLock => TryLockEnter(s, t, grant)
    case Unlock => UnlockEnter(s, t)
    case NonrecLock => NonrecLockEnter(s, t)
    case TryNonrec => TryNonrecLock(s, t, grant)
    case NonrecRelease => NonrecUnlock(s, t)
    case LockShared => LockSharedEnter(s, t)
    case TryShared => TryLockShared(s, t, grant)
    case ReleaseShared => UnlockShared(s, t)
  }

  function ResumeStep(s: State, t: Tid): Result
    requires Enabled(s, Act(t, Resume))
  {
    match s.PcOf(t)
    case LockGot(_, _) => LockResume(s, t)
    case TryGot => TryLockResume(s, t)
    case UnlockGot => UnlockResume(s, t)
    case SharedGot => LockSharedResume(s, t)
  }

  function Step(s: State, a: Act): Result
    requires Enabled(s, a)
  {
    match a.action
    case Call(op, grant) => CallStep(s, a.t, op, grant)
    case BaseReturns => Result(BaseReturn(s, a.t), Pending)
    case Resume => ResumeStep(s, a.t)
  }

  /** `run` is the sequence of states passed through from `run[0]` by performing `acts` in order. */
  ghost predicate IsPath(run: seq<State>, acts: seq<Act>) {
    && |run| == |acts| + 1
    && forall i :: 0 <= i < |acts| ==> Enabled(run[i], acts[i]) && run[i + 1] == Step(run[i], acts[i]).state
  }

  ghost predicate IsRun(run: seq<State>, acts: seq<Act>) {
    IsPath(run, acts) && run[0] == INIT_STATE
  }
}
