/** The simple reentrant reader/writer lock that the mutex is meant to be. */
module ReentrantLockSpec {
  import opened Options

  type Tid = nat

  datatype Spec = Spec(readers: map<Tid, int>, writer: Option<Tid>, depth: int, exclusive: bool)

  const INIT_SPEC: Spec := Spec(map[], None, 0, false)

  datatype Event =
    | Silent
    | AcquireWrite(t: Tid, exclusive: bool)
    | ReleaseWrite(t: Tid, exclusive: bool)
    | AcquireRead(t: Tid)
    | ReleaseRead(t: Tid)

  /**
   * A thread may nest write locks and read locks freely, and may hold both at once.  An exclusive write
   * lock goes with no other lock, not even one of its own thread.
   */
  predicate MayWrite(a: Spec, t: Tid, exclusive: bool) {
    if a.writer == Some(t) then !exclusive && !a.exclusive
    else a.writer == None && forall u :: u in a.readers ==> u == t && !exclusive
  }

  predicate MayRead(a: Spec, t: Tid) {
    a.writer == None || (a.writer == Some(t) && !a.exclusive)
  }

  predicate SpecStep(a: Spec, e: Event, b: Spec) {
    match e
    case Silent => b == a
    case AcquireWrite(t, exclusive) =>
      && MayWrite(a, t, exclusive)
      && b == if a.writer == Some(t) then a.(depth := a.depth + 1)
              else a.(writer := Some(t), depth := 1, exclusive := exclusive)
    case ReleaseWrite(t, exclusive) =>
      && a.writer == Some(t) && a.exclusive == exclusive
      && b == if a.depth >= 2 then a.(depth := a.depth - 1)
              else a.(writer := None, depth := 0, exclusive := false)
    case AcquireRead(t) =>
      && MayRead(a, t)
      && b == a.(readers := a.readers[t := if t in a.readers then a.readers[t] + 1 else 1])
    case ReleaseRead(t) =>
      && t in a.readers
      && b == a.(readers := if a.readers[t] >= 2 then a.readers[t := a.readers[t] - 1] else a.readers - {t})
  }

  /** Writers exclude all readers but themselves; an exclusive writer excludes itself as well. */
  predicate SpecSafe(a: Spec) {
    && (a.writer.Some? <==> a.depth >= 1)
    && (forall u :: u in a.readers ==> a.readers[u] >= 1)
    && (a.writer.Some? ==> forall u :: u in a.readers ==> a.writer == Some(u))
    && (a.exclusive ==> a.writer.Some? && a.depth == 1 && a.readers == map[])
  }

  lemma SpecStepKeepsSafe(a: Spec, e: Event, b: Spec)
    requires SpecSafe(a) && SpecStep(a, e, b)
    ensures SpecSafe(b)
  {
  }
}
