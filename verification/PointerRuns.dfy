/**
 * Whole runs of registered pointers on the heap of fields.  Each operation is the sequence of field updates
 * that it makes; it has no result if it would follow a link to something that is gone.
 */
module PointerRuns {
  import opened Options
  import opened WeakStore
  import opened PointerLists

  // ----- the operations as field updates

  function Created<P(==), O>(h: Heap<P, O>, p: P, t: Option<O>): Heap<P, O> {
    h.(nodes := h.nodes[p := Node(t, None, NoSlot)])
  }

  /** Registers a pointer with its target, if it has one. */
  function Attached<P(==), O(==)>(h: Heap<P, O>, p: P): Option<Heap<P, O>>
    requires p in h.nodes
  {
    match h.nodes[p].target
    case None => Some(h)
    case Some(o) =>
      if o in h.heads && (h.heads[o].Some? ==> h.heads[o].value in h.nodes) then Some(Registered(h, o, p))
      else None
  }

  function Detached<P(==), O(==)>(h: Heap<P, O>, p: P): (r: Option<Heap<P, O>>)
    requires p in h.nodes
    ensures r.Some? ==> r.value.nodes.Keys == h.nodes.Keys
  {
    if h.nodes[p].target == None then Some(h)
    else if CanUnlink(h, p) then Some(Unregistered(h, p))
    else None
  }

  /** The destructor's loop, which must end within the given number of rounds. */
  function ClearedFrom<P(==), O>(h: Heap<P, O>, from: Option<P>, rounds: nat): Option<Heap<P, O>>
    decreases rounds
  {
    match from
    case None => Some(h)
    case Some(p) =>
      if rounds == 0 || p !in h.nodes then None
      else ClearedFrom(h.SetTarget(p, None).SetPrev(p, NoSlot).SetNext(p, None), h.nodes[p].next, rounds - 1)
  }

  function Perform<P(==), O(==)>(h: Heap<P, O>, op: Op<P, O>): Option<Heap<P, O>>
    requires Allowed(StoreOf(h), op)
  {
    match op
    case NewObject(o) => Some(h.SetHead(o, None))
    case NewPointer(p) => Some(Created(h, p, None))
    case PointTo(p, o) => Attached(Created(h, p, Some(o)), p)
    case CopyNew(p, q) => Attached(Created(h, p, h.nodes[q].target), p)
    case Assign(p, q) =>
      (match Detached(h, p)
       case None => None
       case Some(h1) => Attached(h1.SetTarget(p, h1.nodes[q].target), p))
    case DropPointer(p) =>
      (match Detached(h, p)
       case None => None
       case Some(h1) => Some(h1.(nodes := h1.nodes - {p})))
    case DropObject(o) =>
      (match ClearedFrom(h, h.heads[o], |h.nodes|)
       case None => None
       case Some(h1) => Some(h1.(heads := h1.heads - {o})))
  }

  /** The links of the heap are those of some lists. */
  ghost predicate Sound<P(!new), O(!new)>(h: Heap<P, O>) {
    exists lists :: Ok(h, lists)
  }

  // ----- the parts of an operation

  lemma AttachedKeepsLists<P, O>(h: Heap<P, O>, lists: Lists<P, O>, p: P) returns (after: Lists<P, O>)
    requires OkBut(h, lists, p)
    requires h.nodes[p].target.Some? ==> h.nodes[p].target.value in lists
    ensures Attached(h, p).Some? && Ok(Attached(h, p).value, after)
    ensures StoreOf(Attached(h, p).value) == StoreOf(h)
  {
    match h.nodes[p].target
    case None =>
      RetargetKeepsLists(h, lists, p, None);
      assert h.SetTarget(p, None) == h;
      after := lists;
    case Some(o) =>
      assert Chain(h, o, lists[o]);
      HeadIsNode(h, lists, o);
      RegisterKeepsLists(h, lists, o, p);
      after := lists[o := [p] + lists[o]];
  }

  lemma DetachedKeepsLists<P, O>(h: Heap<P, O>, lists: Lists<P, O>, p: P) returns (after: Lists<P, O>)
    requires Ok(h, lists) && p in h.nodes
    ensures Detached(h, p).Some? && OkBut(Detached(h, p).value, after, p) && after.Keys == lists.Keys
    ensures StoreOf(Detached(h, p).value) == StoreOf(h)
  {
    assert Placed(h, lists, p);
    match h.nodes[p].target
    case None =>
      NullIsUnlinked(h, lists, p);
      after := lists;
    case Some(o) =>
      var k :| 0 <= k < |lists[o]| && lists[o][k] == p;
      assert Chain(h, o, lists[o]);
      ListedCanUnlink(h, o, lists[o], k);
      UnregisterKeepsLists(h, lists, o, k);
      after := lists[o := Without(lists[o], k)];
  }

  lemma {:induction false} ClearedFromIs<P, O>(h: Heap<P, O>, o: O, l: seq<P>, i: nat, rounds: nat)
    requires Chain(h, o, l) && i <= |l| <= i + rounds
    ensures ClearedFrom(Cleared(h, l[..i]), At(l, i), rounds) == Some(Cleared(h, l))
    decreases rounds
  {
    if i == |l| {
      assert l[..i] == l;
    } else {
      ClearedNext(h, o, l, i);
      var p, c := l[i], Cleared(h, l[..i]);
      assert c.SetTarget(p, None).SetPrev(p, NoSlot).SetNext(p, None) == Cleared(h, l[..i + 1]);
      ClearedFromIs(h, o, l, i + 1, rounds - 1);
    }
  }

  /** A list without repetitions is no longer than the heap has nodes. */
  lemma {:induction false} ChainFits<P, O>(h: Heap<P, O>, o: O, l: seq<P>, i: nat) returns (s: set<P>)
    requires Chain(h, o, l) && i <= |l|
    ensures |s| == i <= |h.nodes| && s <= h.nodes.Keys && forall p :: p in s ==> p in l[..i]
  {
    if i == 0 {
      s := {};
    } else {
      s := ChainFits(h, o, l, i - 1);
      assert Linked(h, o, l, i - 1);
      forall j | 0 <= j < i - 1 ensures l[j] != l[i - 1] {
        SameIndex(l, j, i - 1);
      }
      s := s + {l[i - 1]};
      assert |s| == i;
      SubsetSize(s, h.nodes.Keys);
    }
  }

  lemma {:induction false} SubsetSize<P>(s: set<P>, t: set<P>)
    requires s <= t
    ensures |s| <= |t|
  {
    if s != {} {
      var x :| x in s;
      SubsetSize(s - {x}, t - {x});
    }
  }

  /** The heap without an object, whose list has been cleared. */
  function Dropped<P(==), O(==)>(h: Heap<P, O>, o: O, l: seq<P>): Heap<P, O> {
    Heap(h.heads - {o}, Cleared(h, l).nodes)
  }

  /** Walking from the head clears the whole list in as many rounds as there are nodes. */
  lemma ClearedFromHead<P, O>(h: Heap<P, O>, o: O, l: seq<P>)
    requires Chain(h, o, l)
    ensures ClearedFrom(h, h.heads[o], |h.nodes|) == Some(Cleared(h, l))
  {
    var s := ChainFits(h, o, l, |l|);
    assert Cleared(h, l[..0]) == h;
    ClearedFromIs(h, o, l, 0, |h.nodes|);
  }

  // ----- one operation

  lemma CreatedThenAttached<P, O>(h: Heap<P, O>, lists: Lists<P, O>, p: P, t: Option<O>) returns (after: Lists<P, O>)
    requires Ok(h, lists) && p !in h.nodes && (t.Some? ==> t.value in lists)
    ensures var r := Attached(Created(h, p, t), p);
            r.Some? && Ok(r.value, after) && StoreOf(r.value) == StoreOf(h).(targets := StoreOf(h).targets[p := t])
  {
    NewPointerKeepsLists(h, lists, p, t);
    after := AttachedKeepsLists(Created(h, p, t), lists, p);
    assert StoreOf(Created(h, p, t)).targets == StoreOf(h).targets[p := t];
  }

  lemma AssignKeepsLists<P, O>(h: Heap<P, O>, lists: Lists<P, O>, p: P, q: P) returns (after: Lists<P, O>)
    requires Ok(h, lists) && p in h.nodes && q in h.nodes
    ensures var r := Perform(h, Op.Assign(p, q));
            r.Some? && Ok(r.value, after) && StoreOf(r.value) == Apply(StoreOf(h), Op.Assign(p, q))
  {
    assert Placed(h, lists, q);
    var middle := DetachedKeepsLists(h, lists, p);
    var h1 := Detached(h, p).value;
    assert StoreOf(h1).targets == StoreOf(h).targets;
    var t := h.nodes[q].target;
    assert StoreOf(h1).targets[q] == t;
    RetargetKeepsLists(h1, middle, p, t);
    after := AttachedKeepsLists(h1.SetTarget(p, t), middle, p);
    assert StoreOf(h1.SetTarget(p, t)).targets == StoreOf(h).targets[p := t];
  }

  lemma DropObjectKeepsLists<P, O>(h: Heap<P, O>, lists: Lists<P, O>, o: O)
    requires Ok(h, lists) && o in h.heads
    ensures var r := Perform(h, DropObject(o));
            && r == Some(Dropped(h, o, lists[o]))
            && Ok(r.value, lists - {o}) && StoreOf(r.value) == Apply(StoreOf(h), DropObject(o))
  {
    var l := lists[o];
    assert Chain(h, o, l);
    ClearedFromHead(h, o, l);
    DestroyKeepsLists(h, lists, o);
  }

  /** Every allowed operation succeeds, keeps the lists exact, and means what it means to the table of targets. */
  lemma PerformKeepsLists<P, O>(h: Heap<P, O>, lists: Lists<P, O>, op: Op<P, O>) returns (after: Lists<P, O>)
    requires Ok(h, lists) && Allowed(StoreOf(h), op)
    ensures var r := Perform(h, op);
            r.Some? && Ok(r.value, after) && StoreOf(r.value) == Apply(StoreOf(h), op)
  {
    match op
    case NewObject(o) =>
      NewObjectKeepsLists(h, lists, o);
      after := lists[o := []];
    case NewPointer(p) =>
      after := CreatedThenAttached(h, lists, p, None);
    case PointTo(p, o) =>
      after := CreatedThenAttached(h, lists, p, Some(o));
    case CopyNew(p, q) =>
      assert Placed(h, lists, q);
      after := CreatedThenAttached(h, lists, p, h.nodes[q].target);
    case Assign(p, q) =>
      after := AssignKeepsLists(h, lists, p, q);
    case DropPointer(p) =>
      after := DetachedKeepsLists(h, lists, p);
      var h1 := Detached(h, p).value;
      DropPointerKeepsLists(h1, after, p);
      assert StoreOf(h1.(nodes := h1.nodes - {p})).targets == StoreOf(h1).targets - {p};
    case DropObject(o) =>
      DropObjectKeepsLists(h, lists, o);
      after := lists - {o};
  }

  // ----- whole runs

  ghost predicate IsHeapRun<P, O>(run: seq<Heap<P, O>>, ops: seq<Op<P, O>>) {
    && |run| == |ops| + 1
    && forall i :: 0 <= i < |ops| ==>
         Allowed(StoreOf(run[i]), ops[i]) && Perform(run[i], ops[i]) == Some(run[i + 1])
  }

  lemma EmptyHeapIsSound<P(!new), O(!new)>()
    ensures var h: Heap<P, O> := Heap(map[], map[]); Sound(h)
  {
    var h: Heap<P, O>, lists: Lists<P, O> := Heap(map[], map[]), map[];
    assert Ok(h, lists);
  }

  /**
   * No dangling over whole runs: in every heap that is reached the lists are exact, no pointer targets an
   * object that is gone, and every operation that may come next goes through without following a dead link.
   */
  lemma {:induction false} HeapRunIsSafe<P(!new), O(!new)>(run: seq<Heap<P, O>>, ops: seq<Op<P, O>>, i: nat)
    requires IsHeapRun(run, ops) && Sound(run[0]) && i < |run|
    ensures Sound(run[i]) && NoDangling(StoreOf(run[i]))
    ensures forall op :: Allowed(StoreOf(run[i]), op) ==> Perform(run[i], op).Some?
  {
    var lists: Lists<P, O>;
    if i == 0 {
      lists :| Ok(run[0], lists);
    } else {
      HeapRunIsSafe(run, ops, i - 1);
      var before :| Ok(run[i - 1], before);
      lists := PerformKeepsLists(run[i - 1], before, ops[i - 1]);
    }
    OkMeansNoDangling(run[i], lists);
    forall op | Allowed(StoreOf(run[i]), op) ensures Perform(run[i], op).Some? {
      var after := PerformKeepsLists(run[i], lists, op);
    }
  }

  function Stores<P, O>(run: seq<Heap<P, O>>): (stores: seq<Store<P, O>>)
    ensures |stores| == |run| && forall i :: 0 <= i < |run| ==> stores[i] == StoreOf(run[i])
  {
    seq(|run|, i requires 0 <= i < |run| => StoreOf(run[i]))
  }

  /** What the heaps of a run mean is a run of the table of targets. */
  lemma HeapRunRefines<P(!new), O(!new)>(run: seq<Heap<P, O>>, ops: seq<Op<P, O>>)
    requires IsHeapRun(run, ops) && Sound(run[0])
    ensures IsRun(Stores(run), ops)
  {
    forall i | 0 <= i < |ops| ensures StoreOf(run[i + 1]) == Apply(StoreOf(run[i]), ops[i]) {
      HeapRunIsSafe(run, ops, i);
      var lists :| Ok(run[i], lists);
      var after := PerformKeepsLists(run[i], lists, ops[i]);
    }
  }

  /**
   * A node that is left alone holds the same target for as long as that object has not been destroyed, and
   * null from then on.
   */
  lemma NodeTargetOverRun<P(!new), O(!new)>(run: seq<Heap<P, O>>, ops: seq<Op<P, O>>, p: P, o: O, i: nat)
    requires IsHeapRun(run, ops) && Sound(run[0]) && i < |run|
    requires p in run[0].nodes && run[0].nodes[p].target == Some(o)
    requires forall k :: 0 <= k < i ==> !Touches(ops[k], p)
    ensures p in run[i].nodes
    ensures run[i].nodes[p].target == if DropObject(o) in ops[..i] then None else Some(o)
  {
    HeapRunRefines(run, ops);
    TargetOverRun(Stores(run), ops, p, o, i);
  }

  /**
   * What a run from the empty heap has come to: the heads and nodes are those of the objects and pointers that
   * were made and not ended since, and each node holds the object that its value goes back to through copies and
   * assignments, unless that has been destroyed since.
   */
  lemma HeapIsHistory<P(!new), O(!new)>(run: seq<Heap<P, O>>, ops: seq<Op<P, O>>, p: P, o: O, i: nat)
    requires IsHeapRun(run, ops) && run[0] == Heap(map[], map[]) && i < |run|
    ensures o in run[i].heads <==> ObjectIsThere(ops[..i], o)
    ensures p in run[i].nodes <==> PointerIsThere(ops[..i], p)
    ensures p in run[i].nodes ==>
              var origin := OriginOf(ops[..i], p);
              run[i].nodes[p].target ==
                if origin.Some? && DropObject(origin.value.o) !in ops[origin.value.since..i] then Some(origin.value.o)
                else None
  {
    EmptyHeapIsSound<P, O>();
    HeapRunRefines(run, ops);
    var stores := Stores(run);
    assert stores[0] == Store({}, map[]);
    StoreIsHistory(stores, ops, p, o, i);
    if p in stores[i].targets {
      TargetIsOrigin(stores, ops, p, i);
    }
  }
}
