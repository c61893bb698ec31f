/** The simple thing that registered pointers are: a table of references that go null with their target. */
module WeakStore {
  import opened Options

  /** The live objects, and for each live pointer the object it targets. */
  datatype Store<!P, !O> = Store(live: set<O>, targets: map<P, Option<O>>)

  datatype Op<P, O> =
    | NewObject(o: O)
    | NewPointer(p: P)
    | PointTo(p: P, o: O)     // a new pointer made from an object's address
    | CopyNew(p: P, q: P)     // a new pointer made from another pointer
    | Assign(p: P, q: P)
    | DropPointer(p: P)
    | DropObject(o: O)

  predicate Allowed<P(==), O(==)>(s: Store<P, O>, op: Op<P, O>) {
    match op
    case NewObject(o) => o !in s.live
    case NewPointer(p) => p !in s.targets
    case PointTo(p, o) => p !in s.targets && o in s.live
    case CopyNew(p, q) => p !in s.targets && q in s.targets
    case Assign(p, q) => p in s.targets && q in s.targets
    case DropPointer(p) => p in s.targets
    case DropObject(o) => o in s.live
  }

  function Apply<P(==), O(==)>(s: Store<P, O>, op: Op<P, O>): Store<P, O>
    requires Allowed(s, op)
  {
    match op
    case NewObject(o) => s.(live := s.live + {o})
    case NewPointer(p) => s.(targets := s.targets[p := None])
    case PointTo(p, o) => s.(targets := s.targets[p := Some(o)])
    case CopyNew(p, q) => s.(targets := s.targets[p := s.targets[q]])
    case Assign(p, q) => s.(targets := s.targets[p := s.targets[q]])
    case DropPointer(p) => s.(targets := s.targets - {p})
    case DropObject(o) =>
      Store(s.live - {o}, map p | p in s.targets :: if s.targets[p] == Some(o) then None else s.targets[p])
  }

  /** No pointer targets an object that is gone. */
  ghost predicate NoDangling<P, O>(s: Store<P, O>) {
    forall p :: p in s.targets && s.targets[p].Some? ==> s.targets[p].value in s.live
  }

  ghost predicate IsRun<P, O>(run: seq<Store<P, O>>, ops: seq<Op<P, O>>) {
    && |run| == |ops| + 1
    && forall i :: 0 <= i < |ops| ==> Allowed(run[i], ops[i]) && run[i + 1] == Apply(run[i], ops[i])
  }

  lemma {:induction false} NeverDangling<P, O>(run: seq<Store<P, O>>, ops: seq<Op<P, O>>, i: nat)
    requires IsRun(run, ops) && NoDangling(run[0]) && i < |run|
    ensures NoDangling(run[i])
  {
    if i > 0 {
      NeverDangling(run, ops, i - 1);
      assert Allowed(run[i - 1], ops[i - 1]);
    }
  }

  /** The operation gives `p` a new target or ends its life. */
  predicate Touches<P(==), O>(op: Op<P, O>, p: P) {
    (op.Assign? && op.p == p) || (op.DropPointer? && op.p == p)
  }

  /**
   * A pointer that is left alone targets the same object for as long as that object has not been
   * destroyed, and nothing from then on.
   */
  lemma {:induction false} TargetOverRun<P, O>(run: seq<Store<P, O>>, ops: seq<Op<P, O>>, p: P, o: O, i: nat)
    requires IsRun(run, ops) && i < |run|
    requires p in run[0].targets && run[0].targets[p] == Some(o)
    requires forall k :: 0 <= k < i ==> !Touches(ops[k], p)
    ensures p in run[i].targets
    ensures run[i].targets[p] == if DropObject(o) in ops[..i] then None else Some(o)
  {
    if i > 0 {
      TargetOverRun(run, ops, p, o, i - 1);
      assert Allowed(run[i - 1], ops[i - 1]) && !Touches(ops[i - 1], p);
      assert ops[..i] == ops[..i - 1] + [ops[i - 1]];
    }
  }

  // ----- what a run from nothing has come to

  predicate Makes<P(==), O>(op: Op<P, O>, p: P) {
    (op.NewPointer? || op.PointTo? || op.CopyNew?) && op.p == p
  }

  /** The last operation that created or destroyed the object created it. */
  ghost predicate ObjectIsThere<P, O>(ops: seq<Op<P, O>>, o: O) {
    if ops == [] then false
    else
      var last := ops[|ops| - 1];
      if last == NewObject(o) then true
      else if last == DropObject(o) then false
      else ObjectIsThere(ops[..|ops| - 1], o)
  }

  ghost predicate PointerIsThere<P, O>(ops: seq<Op<P, O>>, p: P) {
    if ops == [] then false
    else
      var last := ops[|ops| - 1];
      if Makes(last, p) then true
      else if last == DropPointer(p) then false
      else PointerIsThere(ops[..|ops| - 1], p)
  }

  /** The objects and the pointers that there are. */
  lemma {:induction false} StoreIsHistory<P, O>(run: seq<Store<P, O>>, ops: seq<Op<P, O>>, p: P, o: O, i: nat)
    requires IsRun(run, ops) && run[0] == Store({}, map[]) && i < |run|
    ensures o in run[i].live <==> ObjectIsThere(ops[..i], o)
    ensures p in run[i].targets <==> PointerIsThere(ops[..i], p)
  {
    if i > 0 {
      StoreIsHistory(run, ops, p, o, i - 1);
      assert ops[..i][..i - 1] == ops[..i - 1] && Allowed(run[i - 1], ops[i - 1]);
    }
  }

  /** The object whose address a pointer's value goes back to, and how many operations led to that. */
  datatype Origin<O> = Origin(o: O, since: nat)

  /** The last operation that gave the pointer a value, followed back through copies and assignments. */
  ghost function OriginOf<P, O>(ops: seq<Op<P, O>>, p: P): (r: Option<Origin<O>>)
    ensures r.Some? ==> r.value.since <= |ops|
  {
    if ops == [] then None
    else
      var front, last := ops[..|ops| - 1], ops[|ops| - 1];
      if last.PointTo? && last.p == p then Some(Origin(last.o, |ops|))
      else if last.NewPointer? && last.p == p then None
      else if (last.CopyNew? || last.Assign?) && last.p == p then OriginOf(front, last.q)
      else OriginOf(front, p)
  }

  /** A pointer is at the object that its value goes back to, unless that has been destroyed since. */
  lemma {:induction false} TargetIsOrigin<P, O>(run: seq<Store<P, O>>, ops: seq<Op<P, O>>, p: P, i: nat)
    requires IsRun(run, ops) && run[0] == Store({}, map[]) && i < |run| && p in run[i].targets
    ensures var origin := OriginOf(ops[..i], p);
            run[i].targets[p] ==
              if origin.Some? && DropObject(origin.value.o) !in ops[origin.value.since..i] then Some(origin.value.o)
              else None
  {
    var op, front := ops[i - 1], ops[..i - 1];
    assert ops[..i][..i - 1] == front && Allowed(run[i - 1], op);
    if !((op.PointTo? || op.NewPointer?) && op.p == p) {
      var q := if (op.CopyNew? || op.Assign?) && op.p == p then op.q else p;
      TargetIsOrigin(run, ops, q, i - 1);
      var origin := OriginOf(front, q);
      if origin.Some? {
        InOneMore(ops, origin.value.since, i, DropObject(origin.value.o));
      }
    }
  }

  lemma InOneMore<T>(s: seq<T>, from: nat, i: nat, x: T)
    requires from < i <= |s|
    ensures x in s[from..i] <==> x in s[from..i - 1] || x == s[i - 1]
  {
    assert s[from..i] == s[from..i - 1] + [s[i - 1]];
  }
}
