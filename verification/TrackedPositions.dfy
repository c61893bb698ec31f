/**
 * What the structural operations of the tracked vector do to its elements and to its iterators.
 *
 * An iterator is an index and a flag that says whether it points to an item.  The vector rewrites the
 * iterators in two passes, a reset of those in the removed range and a shift of those behind it; both
 * passes look at the index only, and the reset already uses the new size.
 */
module TrackedPositions {
  import opened Options

  type Key = nat

  datatype Pos = Pos(index: nat, onItem: bool)

  datatype Tracked<T> = Tracked(items: seq<T>, its: map<Key, Pos>)

  // ----- single iterators

  function EndMarker(size: nat): Pos {
    Pos(size, false)
  }

  predicate InRange(p: Pos, first: int, last: int) {
    first <= p.index <= last
  }

  function Invalidated(p: Pos, first: int, last: int, size: nat): Pos {
    if InRange(p, first, last) then EndMarker(size) else p
  }

  /** The shift of an iterator in range is refused if it would leave the vector. */
  predicate ShiftFits(p: Pos, first: int, last: int, shift: int, size: nat) {
    InRange(p, first, last) ==> 0 <= p.index + shift <= size
  }

  function Shifted(p: Pos, first: int, last: int, shift: int, size: nat): Pos
    requires ShiftFits(p, first, last, shift, size)
  {
    if InRange(p, first, last) then p.(index := p.index + shift) else p
  }

  /** An iterator is consistent if its flag says whether its index is that of an item. */
  predicate Consistent(p: Pos, size: nat) {
    p.index <= size && (p.onItem <==> p.index < size)
  }

  // ----- structural operations; n is the old size

  function InsertedPos(p: Pos, d: nat, count: nat, n: nat): Pos
    requires d <= n && p.index <= n
  {
    Shifted(p, d, n, count, n + count)
  }

  function ErasedPos(p: Pos, d: nat, e: nat, n: nat): Pos
    requires d <= e <= n && p.index <= n
  {
    var size := n - (e - d);
    Shifted(Invalidated(p, d, e - 1, size), e, n, d - e, size)
  }

  /** Kept unconditionally: no index leaves the vector and no flag claims an item that is not there. */
  ghost predicate Bounded<T>(v: Tracked<T>) {
    forall k :: k in v.its ==> v.its[k].index <= |v.items| && (v.its[k].onItem ==> v.its[k].index < |v.items|)
  }

  ghost predicate AllConsistent<T>(v: Tracked<T>) {
    forall k :: k in v.its ==> Consistent(v.its[k], |v.items|)
  }

  ghost function Inserted<T>(v: Tracked<T>, d: nat, xs: seq<T>): (r: Tracked<T>)
    requires d <= |v.items| && Bounded(v)
    ensures Bounded(r)
  {
    Tracked(v.items[..d] + xs + v.items[d..],
            map k | k in v.its :: InsertedPos(v.its[k], d, |xs|, |v.items|))
  }

  ghost function Erased<T>(v: Tracked<T>, d: nat, e: nat): (r: Tracked<T>)
    requires d <= e <= |v.items| && Bounded(v)
    ensures Bounded(r)
  {
    Tracked(v.items[..d] + v.items[e..],
            map k | k in v.its :: ErasedPos(v.its[k], d, e, |v.items|))
  }

  /** An insertion, element by element and iterator by iterator. */
  ghost predicate IsInsertion<T>(v: Tracked<T>, d: nat, xs: seq<T>, r: Tracked<T>)
    requires d <= |v.items|
  {
    && |r.items| == |v.items| + |xs|
    && (forall i :: 0 <= i < d ==> r.items[i] == v.items[i])
    && (forall i :: 0 <= i < |xs| ==> r.items[d + i] == xs[i])
    && (forall i :: d <= i < |v.items| ==> r.items[i + |xs|] == v.items[i])
    && r.its.Keys == v.its.Keys
    && forall k :: k in v.its ==>
         r.its[k] == if v.its[k].index < d then v.its[k] else Pos(v.its[k].index + |xs|, v.its[k].onItem)
  }

  lemma InsertedIs<T>(v: Tracked<T>, d: nat, xs: seq<T>)
    requires Bounded(v) && d <= |v.items|
    ensures IsInsertion(v, d, xs, Inserted(v, d, xs))
  {
  }

  /**
   * An erasure.  An iterator in the erased range loses its item.  It ends up at the end of the vector, or, if at
   * least as many elements survive behind the range as were erased, that many places before the end.
   */
  ghost predicate IsErasure<T>(v: Tracked<T>, d: nat, e: nat, r: Tracked<T>)
    requires d <= e <= |v.items|
  {
    var n, size := e - d, |v.items| - (e - d);
    && |r.items| == size
    && (forall i :: 0 <= i < d ==> r.items[i] == v.items[i])
    && (forall i :: e <= i < |v.items| ==> r.items[i - n] == v.items[i])
    && r.its.Keys == v.its.Keys
    && forall k :: k in v.its ==>
         r.its[k] == if v.its[k].index < d then v.its[k]
                     else if v.its[k].index >= e then Pos(v.its[k].index - n, v.its[k].onItem)
                     else Pos(if size < e then size else size - n, false)
  }

  lemma ErasedIs<T>(v: Tracked<T>, d: nat, e: nat)
    requires Bounded(v) && d <= e <= |v.items|
    ensures IsErasure(v, d, e, Erased(v, d, e))
  {
  }

  /** A change of size: what is below both sizes stays, and everything else is new or at the end. */
  ghost predicate IsResizing<T>(v: Tracked<T>, size: nat, x: T, r: Tracked<T>) {
    && |r.items| == size
    && (forall i :: 0 <= i < size && i < |v.items| ==> r.items[i] == v.items[i])
    && (forall i :: |v.items| <= i < size ==> r.items[i] == x)
    && r.its.Keys == v.its.Keys
    && forall k :: k in v.its ==>
         r.its[k] == if v.its[k].index < size && v.its[k].index < |v.items| then v.its[k] else Pos(size, false)
  }

  /** clear() and assign(): all elements are new and all iterators are end markers. */
  ghost function Replaced<T>(v: Tracked<T>, xs: seq<T>): (r: Tracked<T>)
    ensures Bounded(r)
  {
    Tracked(xs, map k | k in v.its :: EndMarker(|xs|))
  }

  /** What dereferencing the iterator yields; `None` is the end of the vector. */
  ghost function Denotes<T>(v: Tracked<T>, k: Key): Option<T>
    requires k in v.its
  {
    if v.its[k].index < |v.items| then Some(v.items[v.its[k].index]) else None
  }

  // ----- what one operation keeps

  /** Insertion anywhere: every iterator keeps its element, and end markers stay at the end. */
  lemma InsertKeepsElements<T>(v: Tracked<T>, d: nat, xs: seq<T>, k: Key)
    requires Bounded(v) && d <= |v.items| && k in v.its
    ensures Denotes(Inserted(v, d, xs), k) == Denotes(v, k)
    ensures Consistent(Inserted(v, d, xs).its[k], |Inserted(v, d, xs).items|) <==> Consistent(v.its[k], |v.items|)
  {
  }

  /** Erasing: an iterator outside the range keeps its element or its end position, and its consistency. */
  lemma EraseKeepsElementsOutside<T>(v: Tracked<T>, d: nat, e: nat, k: Key)
    requires Bounded(v) && d <= e <= |v.items| && k in v.its
    requires !(d <= v.its[k].index < e)
    ensures Denotes(Erased(v, d, e), k) == Denotes(v, k)
    ensures Consistent(Erased(v, d, e).its[k], |Erased(v, d, e).items|) <==> Consistent(v.its[k], |v.items|)
  {
  }

  /**
   * An iterator inside the erased range becomes an end marker, as intended, exactly if fewer elements
   * survive behind the range than were erased.  Otherwise the second pass moves it again: it stands on an
   * item while its flag denies it.
   */
  lemma ErasedIteratorIsEndMarkerIff<T>(v: Tracked<T>, d: nat, e: nat, k: Key)
    requires Bounded(v) && d <= e <= |v.items| && k in v.its
    requires d <= v.its[k].index < e
    ensures var r := Erased(v, d, e);
            && (Consistent(r.its[k], |r.items|) <==> |v.items| - e < e - d)
            && (Consistent(r.its[k], |r.items|) <==> r.its[k] == EndMarker(|r.items|))
            && !r.its[k].onItem
  {
  }

  /** Which iterators an erase leaves in a consistent state, over all iterators at once. */
  lemma EraseKeepsConsistencyIff<T>(v: Tracked<T>, d: nat, e: nat)
    requires AllConsistent(v) && d <= e <= |v.items|
    ensures AllConsistent(Erased(v, d, e)) <==> EraseIsHarmless(v, d, e)
  {
    var r := Erased(v, d, e);
    forall k | k in v.its
      ensures Consistent(r.its[k], |r.items|) <==> !(d <= v.its[k].index < e && e - d <= |v.items| - e)
    {
      assert Consistent(v.its[k], |v.items|);
      if d <= v.its[k].index < e {
        ErasedIteratorIsEndMarkerIff(v, d, e, k);
      } else {
        EraseKeepsElementsOutside(v, d, e, k);
      }
    }
    assert r.its.Keys == v.its.Keys;
  }

  ghost predicate EraseIsHarmless<T>(v: Tracked<T>, d: nat, e: nat) {
    |v.items| - e < e - d || forall k :: k in v.its ==> !(d <= v.its[k].index < e)
  }

  /** Three elements and an iterator at the first: erasing it leaves the iterator on the last one. */
  lemma EraseBreaksIteratorExample()
    ensures var v := Tracked([10, 20, 30], map[0 := Pos(0, true)]);
            AllConsistent(v) && Erased(v, 0, 1).its[0] == Pos(1, false)
    ensures var v := Tracked([10, 20, 30], map[0 := Pos(0, true)]);
            Denotes(Erased(v, 0, 1), 0) == Some(30)
  {
  }

  // ----- whole runs

  datatype Op<T> =
    | Insert(d: nat, xs: seq<T>)
    | Erase(d: nat, e: nat)
    | Replace(xs: seq<T>)
    | Place(k: Key, pos: Pos) // creates an iterator, moves one or copies another's position
    | Release(k: Key)

  ghost predicate AllDistinct<T>(s: seq<T>) {
    forall i, j :: 0 <= i < j < |s| ==> s[i] != s[j]
  }

  /** Elements are identities: what is inserted is new. */
  ghost predicate Allowed<T>(v: Tracked<T>, op: Op<T>) {
    match op
    case Insert(d, xs) => d <= |v.items| && AllDistinct(xs) && forall x :: x in xs ==> x !in v.items
    case Erase(d, e) => d <= e <= |v.items|
    case Replace(xs) => AllDistinct(xs) && forall x :: x in xs ==> x !in v.items
    case Place(k, pos) => Consistent(pos, |v.items|) || exists j :: j in v.its && v.its[j] == pos
    case Release(k) => k in v.its
  }

  ghost function Apply<T>(v: Tracked<T>, op: Op<T>): Tracked<T>
    requires Bounded(v) && Allowed(v, op)
  {
    match op
    case Insert(d, xs) => Inserted(v, d, xs)
    case Erase(d, e) => Erased(v, d, e)
    case Replace(xs) => Replaced(v, xs)
    case Place(k, pos) => v.(its := v.its[k := pos])
    case Release(k) => v.(its := v.its - {k})
  }

  predicate Handles<T>(op: Op<T>, k: Key) {
    (op.Place? || op.Release?) && op.k == k
  }

  ghost predicate IsRun<T>(run: seq<Tracked<T>>, ops: seq<Op<T>>) {
    && |run| == |ops| + 1
    && Bounded(run[0]) && AllDistinct(run[0].items)
    && forall i :: 0 <= i < |ops| ==> Bounded(run[i]) && Allowed(run[i], ops[i]) && run[i + 1] == Apply(run[i], ops[i])
  }

  lemma StepKeepsDistinct<T>(v: Tracked<T>, op: Op<T>)
    requires Bounded(v) && AllDistinct(v.items) && Allowed(v, op)
    ensures Bounded(Apply(v, op)) && AllDistinct(Apply(v, op).items)
  {
    if op.Insert? {
      var r := Apply(v, op).items;
      forall i, j | 0 <= i < j < |r| ensures r[i] != r[j] {
        assert op.d <= i < op.d + |op.xs| ==> r[i] in op.xs;
        assert op.d <= j < op.d + |op.xs| ==> r[j] in op.xs;
      }
    }
  }

  /** One step: an iterator that is not handled follows its element unless that element goes. */
  lemma StepTracks<T>(v: Tracked<T>, op: Op<T>, k: Key)
    requires Bounded(v) && AllDistinct(v.items) && Allowed(v, op)
    requires k in v.its && !Handles(op, k)
    ensures k in Apply(v, op).its
    ensures Denotes(v, k) == None ==> Denotes(Apply(v, op), k) == None
    ensures Denotes(v, k).Some? && Denotes(v, k).value in Apply(v, op).items ==>
              Denotes(Apply(v, op), k) == Denotes(v, k)
  {
    match op
    case Insert(d, xs) => InsertKeepsElements(v, d, xs, k);
    case Erase(d, e) =>
      var i := v.its[k].index;
      if d <= i < e {
        var r := Apply(v, op).items;
        forall j | 0 <= j < |r| ensures r[j] != v.items[i] {
          assert r[j] == v.items[if j < d then j else j + (e - d)];
        }
      } else {
        EraseKeepsElementsOutside(v, d, e, k);
      }
    case _ =>
  }

  lemma {:induction false} RunIsBounded<T>(run: seq<Tracked<T>>, ops: seq<Op<T>>, i: nat)
    requires IsRun(run, ops) && i < |run|
    ensures Bounded(run[i]) && AllDistinct(run[i].items)
  {
    if i > 0 {
      RunIsBounded(run, ops, i - 1);
      StepKeepsDistinct(run[i - 1], ops[i - 1]);
    }
  }

  /**
   * Element tracking: over any run, an iterator that is not itself handled keeps denoting its element for
   * as long as the element is in the vector.
   */
  lemma {:induction false} IteratorFollowsElement<T>(run: seq<Tracked<T>>, ops: seq<Op<T>>, k: Key, x: T, i: nat)
    requires IsRun(run, ops) && i < |run|
    requires k in run[0].its && Denotes(run[0], k) == Some(x)
    requires forall j :: 0 <= j < i ==> !Handles(ops[j], k)
    requires forall j :: 0 <= j <= i ==> x in run[j].items
    ensures k in run[i].its && Denotes(run[i], k) == Some(x)
  {
    if i > 0 {
      IteratorFollowsElement(run, ops, k, x, i - 1);
      RunIsBounded(run, ops, i - 1);
      var v, op := run[i - 1], ops[i - 1];
      assert run[i] == Apply(v, op) && x in run[i].items && !Handles(op, k);
      StepTracks(v, op, k);
    }
  }

  /** An end marker stays the end marker. */
  lemma {:induction false} EndMarkerStays<T>(run: seq<Tracked<T>>, ops: seq<Op<T>>, k: Key, i: nat)
    requires IsRun(run, ops) && i < |run|
    requires k in run[0].its && Denotes(run[0], k) == None
    requires forall j :: 0 <= j < i ==> !Handles(ops[j], k)
    ensures k in run[i].its && Denotes(run[i], k) == None
  {
    if i > 0 {
      EndMarkerStays(run, ops, k, i - 1);
      RunIsBounded(run, ops, i - 1);
      StepTracks(run[i - 1], ops[i - 1], k);
    }
  }

  /** Flags and indexes agree in every run whose erases are harmless, and a harmful one breaks them. */
  lemma {:induction false} ConsistencyOverRuns<T>(run: seq<Tracked<T>>, ops: seq<Op<T>>, i: nat)
    requires IsRun(run, ops) && i < |run| && AllConsistent(run[0])
    requires forall j :: 0 <= j < i && ops[j].Erase? ==> EraseIsHarmless(run[j], ops[j].d, ops[j].e)
    ensures AllConsistent(run[i])
  {
    if i > 0 {
      ConsistencyOverRuns(run, ops, i - 1);
      StepConsistencyIff(run[i - 1], ops[i - 1]);
    }
  }

  lemma StepConsistencyIff<T>(v: Tracked<T>, op: Op<T>)
    requires Bounded(v) && AllConsistent(v) && Allowed(v, op)
    ensures AllConsistent(Apply(v, op)) <==> (op.Erase? ==> EraseIsHarmless(v, op.d, op.e))
  {
    match op
    case Insert(d, xs) =>
      forall k | k in v.its ensures Consistent(Inserted(v, d, xs).its[k], |Inserted(v, d, xs).items|) {
        assert Consistent(v.its[k], |v.items|);
        InsertKeepsElements(v, d, xs, k);
      }
    case Erase(d, e) => EraseKeepsConsistencyIff(v, d, e);
    case _ =>
  }

  // ----- navigation

  function SetToBeginning(p: Pos, size: nat): Pos {
    Pos(0, if size >= 1 then true else p.onItem)
  }

  /** `None` is the exception. */
  function SetToNext(p: Pos, size: nat): Option<Pos> {
    if !p.onItem then None
    else if size < p.index + 1 then Some(EndMarker(size))
    else Some(Pos(p.index + 1, p.index + 1 < size))
  }

  function SetToPrevious(p: Pos): Option<Pos> {
    if p.index == 0 then None else Some(Pos(p.index - 1, true))
  }

  function Advance(p: Pos, n: int, size: nat): Option<Pos> {
    if p.index + n < 0 || size < p.index + n then None
    else Some(Pos(p.index + n, p.index + n < size))
  }

  /** Where navigation leads, and when it fails. */
  lemma NavigationMeans(p: Pos, n: int, size: nat)
    requires p.index <= size && (p.onItem ==> p.index < size)
    ensures SetToBeginning(p, size) == Pos(0, size > 0)
    ensures SetToNext(p, size) == if p.onItem then Some(Pos(p.index + 1, p.index + 1 < size)) else None
    ensures SetToPrevious(p) == if p.index > 0 then Some(Pos(p.index - 1, true)) else None
    ensures Advance(p, n, size) ==
      if 0 <= p.index + n <= size then Some(Pos(p.index + n, p.index + n < size)) else None
  {
  }

  /** Wherever an iterator may be, navigation leaves it consistent if it succeeds. */
  lemma NavigationKeepsConsistency(p: Pos, n: int, size: nat)
    requires p.index <= size && (p.onItem ==> p.index < size)
    ensures Consistent(SetToBeginning(p, size), size)
    ensures SetToNext(p, size).Some? ==> Consistent(SetToNext(p, size).value, size)
    ensures SetToPrevious(p).Some? ==> Consistent(SetToPrevious(p).value, size)
    ensures Advance(p, n, size).Some? ==> Consistent(Advance(p, n, size).value, size)
    ensures SetToPrevious(p) == Advance(p, -1, size)
    ensures Consistent(p, size) ==> SetToNext(p, size) == Advance(p, 1, size)
  {
  }
}
