/** The vector that keeps its iterators up to date through every structural change. */
module TrackedVector {
  import opened Options
  import opened Sequences
  import opened TrackedPositions
  import opened IteratorRegistry

  // ----- the two passes over the iterators add up to the intended rewriting

  lemma InsertPass<T>(v: Tracked<T>, d: nat, xs: seq<T>, u: Update, size: nat, after: map<Key, Pos>)
    requires Bounded(v) && d <= |v.items|
    requires size == |v.items| + |xs| && u == ShiftRange(d, |v.items|, |xs|)
    ensures AllFit(u, v.its, size)
    ensures AllUpdated(u, v.its, after, size) ==> after == Inserted(v, d, xs).its
  {
  }

  lemma ErasePasses<T>(v: Tracked<T>, d: nat, e: nat, mid: map<Key, Pos>, u: Update, size: nat, after: map<Key, Pos>)
    requires Bounded(v) && d <= e <= |v.items|
    requires AllUpdated(InvalidateRange(d, e - 1), v.its, mid, size)
    requires size == |v.items| - (e - d) && u == ShiftRange(e, |v.items|, d - e)
    ensures AllFit(u, mid, size)
    ensures AllUpdated(u, mid, after, size) ==> after == Erased(v, d, e).its
  {
  }

  /** A reset never fails, and resetting an empty range does nothing. */
  lemma ResetPass(u: Update, size: nat, before: map<Key, Pos>)
    requires u.InvalidateRange? || u.ResetAll?
    ensures AllFit(u, before, size)
    ensures u.InvalidateRange? && u.first > u.last ==> AllUpdated(u, before, before, size)
  {
  }

  class TrackedVector<T> {
    var items: seq<T>
    const its: IteratorSet

    constructor (xs: seq<T>)
      ensures Valid() && View() == Tracked(xs, map[])
      ensures fresh(its) && fresh(its.consts) && fresh(its.muts)
    {
      items := xs;
      its := new IteratorSet();
      new;
    }

    ghost function View(): Tracked<T>
      reads this, its.consts`pos, its.muts`pos
    {
      Tracked(items, its.Positions())
    }

    ghost predicate Valid()
      reads this, its, its.consts, its.consts.fast, its.consts.objs, its.muts, its.muts.fast, its.muts.objs
    {
      var registryValid := its.Valid();
      registryValid && Bounded(View())
    }

    /** The registry's own invariant, taken as a whole. */
    ghost predicate RegistryValid()
      reads its, its.consts, its.consts.fast, its.consts.objs, its.muts, its.muts.fast, its.muts.objs
    {
      var registryValid := its.Valid();
      registryValid
    }

    // ----- the passes over the iterators, after the elements have changed; no exception gets out of them

    method RewriteForInsert(ghost v: Tracked<T>, d: nat, ghost xs: seq<T>, originalSize: nat)
      requires RegistryValid() && Bounded(v) && d <= |v.items| == originalSize
      requires its.Positions() == v.its && |items| == originalSize + |xs|
      modifies its.consts`pos, its.muts`pos, its.consts.objs, its.muts.objs
      ensures RegistryValid() && its.Positions() == Inserted(v, d, xs).its
    {
      var size := |items|;
      var u := ShiftRange(d, originalSize, size - originalSize);
      InsertPass(v, d, xs, u, size, map[]);
      var ok := its.ApplyToAll(u, size);
      assert ok;
      InsertPass(v, d, xs, u, size, its.Positions());
    }

    method RewriteForErase(ghost v: Tracked<T>, d: nat, e: nat, originalSize: nat)
      requires RegistryValid() && Bounded(v) && d <= e <= |v.items| == originalSize
      requires its.Positions() == v.its && |items| == originalSize - (e - d)
      modifies its.consts`pos, its.muts`pos, its.consts.objs, its.muts.objs
      ensures RegistryValid() && its.Positions() == Erased(v, d, e).its
    {
      var size := |items|;
      var reset := InvalidateRange(d, e - 1);
      ResetPass(reset, size, v.its);
      if d < e {
        var done := its.ApplyToAll(reset, size);
        assert done;
      }
      ghost var mid := its.Positions();
      ShiftForErase(v, d, e, originalSize, mid);
    }

    method ShiftForErase(ghost v: Tracked<T>, d: nat, e: nat, originalSize: nat, ghost mid: map<Key, Pos>)
      requires RegistryValid() && Bounded(v) && d <= e <= |v.items| == originalSize
      requires |items| == originalSize - (e - d)
      requires its.Positions() == mid && AllUpdated(InvalidateRange(d, e - 1), v.its, mid, |items|)
      modifies its.consts`pos, its.muts`pos, its.consts.objs, its.muts.objs
      ensures RegistryValid() && its.Positions() == Erased(v, d, e).its
    {
      var size := |items|;
      var u := ShiftRange(e, originalSize, d - e);
      ErasePasses(v, d, e, mid, u, size, map[]);
      var ok := its.ApplyToAll(u, size);
      assert ok;
      ErasePasses(v, d, e, mid, u, size, its.Positions());
    }

    // ----- structural operations

    method PushBack(x: T)
      requires Valid()
      modifies this`items, its.consts`pos, its.muts`pos, its.consts.objs, its.muts.objs
      ensures Valid() && View() == Inserted(old(View()), |old(items)|, [x])
      ensures IsInsertion(old(View()), |old(items)|, [x], View())
    {
      ghost var v := View();
      var noIterators := its.IsEmpty();
      var originalSize := |items|;
      items := items + [x];
      if !noIterators {
        RewriteForInsert(v, originalSize, [x], originalSize);
      }
      AppendIsInsert(v.items, [x]);
      InsertedView(v, originalSize, [x], items, its.Positions());
    }

    method PopBack() returns (ok: bool)
      requires Valid() && (its.Positions() == map[] ==> items != [])
      modifies this`items, its.consts`pos, its.muts`pos, its.consts.objs, its.muts.objs
      ensures Valid() && ok == (old(items) != [])
      ensures View() == if ok then Erased(old(View()), |old(items)| - 1, |old(items)|) else old(View())
      ensures ok ==> IsErasure(old(View()), |old(items)| - 1, |old(items)|, View())
    {
      ghost var v := View();
      var noIterators := its.IsEmpty();
      var originalSize := |items|;
      if !noIterators && originalSize == 0 {
        return false;
      }
      items := items[..originalSize - 1];
      if !noIterators {
        RewriteForErase(v, originalSize - 1, originalSize, originalSize);
      }
      ErasedView(v, originalSize - 1, originalSize, items, its.Positions());
      return true;
    }

    /** Shrinking erases at the end and growing inserts there. */
    method Resize(size: nat, x: T)
      requires Valid()
      modifies this`items, its.consts`pos, its.muts`pos, its.consts.objs, its.muts.objs
      ensures Valid() && View() == Resized(old(View()), size, x) && IsResizing(old(View()), size, x, View())
    {
      ghost var v := View();
      var originalSize := |items|;
      if size < originalSize {
        items := items[..size];
        RewriteForErase(v, size, originalSize, originalSize);
        ErasedView(v, size, originalSize, items, its.Positions());
        ShrinkingIsResizing(v, size, x, View());
      } else {
        var fill := Repeat(x, size - originalSize);
        items := items + fill;
        RewriteForInsert(v, originalSize, fill, originalSize);
        AppendIsInsert(v.items, fill);
        InsertedView(v, originalSize, fill, items, its.Positions());
        GrowingIsResizing(v, size, x, View());
      }
    }

    /** The position is checked only if there are iterators to keep up to date. */
    method Insert(d: int, xs: seq<T>) returns (ok: bool)
      requires Valid() && (its.Positions() == map[] ==> 0 <= d <= |items|)
      modifies this`items, its.consts`pos, its.muts`pos, its.consts.objs, its.muts.objs
      ensures Valid() && ok == (0 <= d <= |old(items)|)
      ensures View() == if ok then Inserted(old(View()), d, xs) else old(View())
      ensures ok ==> IsInsertion(old(View()), d, xs, View())
    {
      ghost var v := View();
      var noIterators := its.IsEmpty();
      if !noIterators && (0 > d || |items| < d) {
        return false;
      }
      var originalSize := |items|;
      items := items[..d] + xs + items[d..];
      if !noIterators {
        RewriteForInsert(v, d, xs, originalSize);
      }
      InsertedView(v, d, xs, items, its.Positions());
      return true;
    }

    /** With iterators around, erasing nothing at the very end counts as an error. */
    method EraseRange(d: int, e: int) returns (ok: bool)
      requires Valid() && d <= e && (its.Positions() == map[] ==> 0 <= d && e <= |items|)
      modifies this`items, its.consts`pos, its.muts`pos, its.consts.objs, its.muts.objs
      ensures Valid()
      ensures ok == (0 <= d && e <= |old(items)| && (d < |old(items)| || old(its.Positions()) == map[]))
      ensures View() == if ok then Erased(old(View()), d, e) else old(View())
      ensures ok ==> IsErasure(old(View()), d, e, View())
    {
      ghost var v := View();
      var noIterators := its.IsEmpty();
      if !noIterators {
        if 0 > d || |items| < d {
          return false;
        }
        if 0 > e || |items| < e {
          return false;
        }
        if d == |items| {
          return false;
        }
      }
      var originalSize := |items|;
      items := items[..d] + items[e..];
      if !noIterators {
        RewriteForErase(v, d, e, originalSize);
      }
      ErasedView(v, d, e, items, its.Positions());
      return true;
    }

    method Erase(d: int) returns (ok: bool)
      requires Valid() && (its.Positions() == map[] ==> 0 <= d < |items|)
      modifies this`items, its.consts`pos, its.muts`pos, its.consts.objs, its.muts.objs
      ensures Valid() && ok == (0 <= d < |old(items)|)
      ensures View() == if ok then Erased(old(View()), d, d + 1) else old(View())
      ensures ok ==> IsErasure(old(View()), d, d + 1, View())
    {
      ghost var v := View();
      var noIterators := its.IsEmpty();
      if !noIterators {
        if 0 > d || |items| < d {
          return false;
        }
        if d == |items| {
          return false;
        }
      }
      var originalSize := |items|;
      var e := d + 1;
      items := items[..d] + items[e..];
      if !noIterators {
        RewriteForErase(v, d, e, originalSize);
      }
      ErasedView(v, d, e, items, its.Positions());
      return true;
    }

    /** assign(); clear() is the case of no elements. */
    method Assign(xs: seq<T>)
      requires Valid()
      modifies this`items, its.consts`pos, its.muts`pos, its.consts.objs, its.muts.objs
      ensures Valid() && View() == Replaced(old(View()), xs)
      ensures items == xs && its.Positions() == map k | k in old(its.Positions()) :: Pos(|xs|, false)
    {
      ghost var v := View();
      items := xs;
      var size := |items|;
      ResetPass(ResetAll, size, v.its);
      var ok := its.ApplyToAll(ResetAll, size);
      assert ok;
      ReplacedView(v, xs, its.Positions());
    }

    // ----- operations through the clients' iterators

    /** A new iterator, moved to the given index. */
    method NewIteratorAt(index: nat) returns (h: Handle)
      requires Valid() && index <= |items|
      modifies its`nextKey, its.muts, its.muts.fast
      ensures Valid() && its.muts.Live(h) && h.key !in old(its.Positions())
      ensures its.Positions() == old(its.Positions())[h.key := Pos(index, index < |items|)]
    {
      ghost var v, p := View(), Pos(index, index < |items|);
      h := its.AllocateMut(|items|);
      PlacedTwice(v.its, h.key, SetToBeginning(EndMarker(0), |items|), p);
      var ok := its.MoveMutBy(h, index, |items|);
      PlacedIsBounded(v, h.key, p);
    }

    /** Returns an iterator at the first of the new elements. */
    method InsertBefore(pos: Handle, xs: seq<T>) returns (h: Handle)
      requires Valid() && its.consts.Live(pos)
      modifies this`items, its`nextKey, its.consts`pos, its.consts.objs, its.muts, its.muts.fast, its.muts.objs
      ensures Valid() && pos.key in old(its.Positions()) && h.key !in old(its.Positions())
      ensures View() == InsertedBefore(old(View()), pos.key, xs, h.key)
      ensures its.consts.Live(pos) && its.muts.Live(h)
    {
      its.PositionsOfLive(pos);
      var originalPos := pos.it.index;
      var ok := Insert(originalPos, xs);
      h := NewIteratorAt(originalPos);
    }

    /** Fails exactly at the end of the vector; returns an iterator at the element after the erased one. */
    method EraseItem(pos: Handle) returns (ok: bool, h: Option<Handle>)
      requires Valid() && its.consts.Live(pos)
      modifies this`items, its`nextKey
      modifies its.consts, its.consts.fast, its.consts.objs, its.muts, its.muts.fast, its.muts.objs
      ensures Valid() && pos.key in old(its.Positions()) && ok == old(its.Positions())[pos.key].onItem == h.Some?
      ensures ok ==> h.value.key !in old(its.Positions())
      ensures View() == if ok then ErasedItem(old(View()), pos.key, h.value.key) else old(View())
    {
      ghost var v := View();
      its.PositionsOfLive(pos);
      h := its.SuccessorConst(pos, |items|);
      if h.None? {
        return false, None;
      }
      var next := h.value;
      SuccessorIsBounded(v, pos.key, next.key);
      its.PositionsOfLive(pos);
      its.PositionsOfLive(next);
      ghost var w := View();
      var r := EraseAndReturn(pos, next);
      EraseStepIsErasedItem(v, w, pos.key, next.key, r.key);
      return true, Some(r);
    }

    /** The part of the erasure that follows the saving of the successor. */
    method EraseAndReturn(pos: Handle, next: Handle) returns (r: Handle)
      requires Valid() && its.consts.Live(pos) && its.consts.Live(next)
      requires pos.it.index + 1 == next.it.index <= |items|
      modifies this`items, its`nextKey
      modifies its.consts, its.consts.fast, its.consts.objs, its.muts, its.muts.fast, its.muts.objs
      ensures Valid() && r.key !in old(its.Positions())
      ensures View() == EraseStep(old(View()), old(pos.it.index), next.key, r.key)
    {
      ghost var w, i := View(), pos.it.index;
      EraseBehind(pos.it.index, next);
      ghost var e := View();
      r := TradeForMut(next);
      EraseStepFrom(w, e, View(), i, next.key, r.key);
    }

    /** The erasure before a live iterator, which comes to stand at the erased index. */
    method EraseBehind(i: nat, next: Handle)
      requires Valid() && its.consts.Live(next) && i + 1 == next.it.index <= |items|
      modifies this`items, its.consts`pos, its.muts`pos, its.consts.objs, its.muts.objs
      ensures Valid() && its.consts.Live(next) && next.key in old(its.Positions())
      ensures View() == Erased(old(View()), i, i + 1) && next.it.index == i <= |items|
    {
      ghost var w := View();
      its.PositionsOfLive(next);
      var erased := Erase(i);
      SuccessorAfterErase(w, i, next.key);
      its.PositionsOfLive(next);
    }

    /** A new iterator where the given one stands, which is then given up. */
    method TradeForMut(next: Handle) returns (r: Handle)
      requires Valid() && its.consts.Live(next) && next.it.index <= |items|
      modifies its`nextKey, its.consts, its.consts.fast, its.muts, its.muts.fast, its.muts.objs
      ensures Valid() && r.key !in old(its.Positions())
      ensures its.Positions() ==
        old(its.Positions())[r.key := Pos(old(next.it.index), old(next.it.index) < |items|)] - {next.key}
    {
      r := NewIteratorAt(next.it.index);
      var released := its.ReleaseConst(next.key);
    }
  }

  lemma ShrinkingIsResizing<T>(v: Tracked<T>, size: nat, x: T, r: Tracked<T>)
    requires Bounded(v) && size < |v.items| && IsErasure(v, size, |v.items|, r)
    ensures IsResizing(v, size, x, r)
  {
  }

  lemma GrowingIsResizing<T>(v: Tracked<T>, size: nat, x: T, r: Tracked<T>)
    requires Bounded(v) && size >= |v.items|
    requires IsInsertion(v, |v.items|, Repeat(x, size - |v.items|), r)
    ensures IsResizing(v, size, x, r)
  {
    forall i | |v.items| <= i < size ensures r.items[i] == x {
      assert r.items[|v.items| + (i - |v.items|)] == Repeat(x, size - |v.items|)[i - |v.items|];
    }
  }

  ghost function Resized<T>(v: Tracked<T>, size: nat, x: T): Tracked<T>
    requires Bounded(v)
  {
    if size < |v.items| then Erased(v, size, |v.items|)
    else Inserted(v, |v.items|, Repeat(x, size - |v.items|))
  }

  lemma PlacedIsBounded<T>(v: Tracked<T>, k: Key, p: Pos)
    requires Bounded(v) && Consistent(p, |v.items|)
    ensures Bounded(v.(its := v.its[k := p]))
  {
  }

  // ----- what the operations through iterators mean

  ghost function InsertedBefore<T>(v: Tracked<T>, pos: Key, xs: seq<T>, h: Key): Tracked<T>
    requires Bounded(v) && pos in v.its
  {
    var i := v.its[pos].index;
    var r := Inserted(v, i, xs);
    r.(its := r.its[h := Pos(i, i < |r.items|)])
  }

  /** The result denotes the first new element, and the position argument still its own element. */
  lemma InsertBeforeMeaning<T>(v: Tracked<T>, pos: Key, xs: seq<T>, h: Key)
    requires Bounded(v) && pos in v.its && h !in v.its
    ensures var r := InsertedBefore(v, pos, xs, h);
            && IsInsertion(v, v.its[pos].index, xs, r.(its := r.its - {h}))
            && r.its[h].index == v.its[pos].index && Consistent(r.its[h], |r.items|)
            && Denotes(r, h) == (if |xs| > 0 then Some(xs[0]) else Denotes(v, pos))
            && Denotes(r, pos) == Denotes(v, pos)
  {
    var i := v.its[pos].index;
    InsertedIs(v, i, xs);
    InsertKeepsElements(v, i, xs, pos);
    var r := InsertedBefore(v, pos, xs, h);
    assert r.its - {h} == Inserted(v, i, xs).its;
  }

  ghost function ErasedItem<T>(v: Tracked<T>, pos: Key, h: Key): Tracked<T>
    requires Bounded(v) && pos in v.its && v.its[pos].onItem
  {
    var i := v.its[pos].index;
    var r := Erased(v, i, i + 1);
    r.(its := r.its[h := Pos(i, i < |r.items|)])
  }

  /**
   * The result denotes what followed the erased element.  The position argument itself is left as an end
   * marker only if its element was the last; otherwise it stands on the last element, denying it.
   */
  lemma EraseItemMeaning<T>(v: Tracked<T>, pos: Key, h: Key)
    requires Bounded(v) && pos in v.its && v.its[pos].onItem && h !in v.its
    ensures var r := ErasedItem(v, pos, h);
            var i := v.its[pos].index;
            && IsErasure(v, i, i + 1, r.(its := r.its - {h}))
            && r.its[h].index == i && Consistent(r.its[h], |r.items|)
            && Denotes(r, h) == (if i + 1 < |v.items| then Some(v.items[i + 1]) else None)
            && r.its[pos] == if i + 1 == |v.items| then EndMarker(|r.items|) else Pos(|r.items| - 1, false)
  {
    var i := v.its[pos].index;
    var e, r := Erased(v, i, i + 1), ErasedItem(v, pos, h);
    ErasedIs(v, i, i + 1);
    assert r.its - {h} == e.its && r.its[pos] == e.its[pos];
    assert i + 1 < |v.items| ==> e.items[i] == v.items[i + 1];
    assert r.(its := r.its - {h}) == e;
  }

  ghost function WithSuccessor<T>(v: Tracked<T>, pos: Key, next: Key): Tracked<T>
    requires pos in v.its && v.its[pos].onItem
  {
    v.(its := v.its[next := SetToNext(v.its[pos], |v.items|).value])
  }

  /** The saved successor iterator, itself tracked through the erasure, ends up at the erased index. */
  lemma SuccessorAfterErase<T>(w: Tracked<T>, i: nat, next: Key)
    requires Bounded(w) && i < |w.items| && next in w.its && w.its[next].index == i + 1
    ensures Erased(w, i, i + 1).its[next].index == i && |Erased(w, i, i + 1).items| == |w.items| - 1
  {
  }

  /** Erase, place the result where the successor has come to stand, and drop the successor. */
  ghost function EraseStep<T>(w: Tracked<T>, i: nat, next: Key, h: Key): Tracked<T>
    requires Bounded(w) && i < |w.items|
  {
    var e := Erased(w, i, i + 1);
    e.(its := e.its[h := Pos(i, i < |e.items|)] - {next})
  }

  lemma EraseStepFrom<T>(w: Tracked<T>, e: Tracked<T>, g: Tracked<T>, i: nat, next: Key, h: Key)
    requires Bounded(w) && i < |w.items| && next in w.its && h !in w.its
    requires e == Erased(w, i, i + 1)
    requires g == e.(its := e.its[h := Pos(i, i < |e.items|)] - {next})
    ensures g == EraseStep(w, i, next, h) && Bounded(g)
  {
  }

  lemma EraseStepIsErasedItem<T>(v: Tracked<T>, w: Tracked<T>, pos: Key, next: Key, h: Key)
    requires Bounded(v) && pos in v.its && v.its[pos].onItem && next !in v.its && h !in w.its
    requires SetToNext(v.its[pos], |v.items|).Some? && w == WithSuccessor(v, pos, next) && Bounded(w)
    ensures EraseStep(w, v.its[pos].index, next, h) == ErasedItem(v, pos, h)
  {
    var i := v.its[pos].index;
    var e, r := EraseStep(w, i, next, h), ErasedItem(v, pos, h);
    assert e.its.Keys == r.its.Keys;
  }

  lemma SuccessorIsBounded<T>(v: Tracked<T>, pos: Key, next: Key)
    requires Bounded(v) && pos in v.its && SetToNext(v.its[pos], |v.items|).Some?
    ensures Bounded(WithSuccessor(v, pos, next))
  {
  }

  /** The state after an insertion, put together from the elements and the rewritten iterators. */
  lemma InsertedView<T>(v: Tracked<T>, d: nat, xs: seq<T>, items: seq<T>, its: map<Key, Pos>)
    requires Bounded(v) && d <= |v.items|
    requires items == v.items[..d] + xs + v.items[d..]
    requires its == Inserted(v, d, xs).its || (v.its == map[] && its == map[])
    ensures Tracked(items, its) == Inserted(v, d, xs) && Bounded(Tracked(items, its))
    ensures IsInsertion(v, d, xs, Tracked(items, its))
  {
    InsertedIs(v, d, xs);
  }

  lemma AppendIsInsert<T>(s: seq<T>, xs: seq<T>)
    ensures s[..|s|] + xs + s[|s|..] == s + xs
  {
  }

  lemma ReplacedView<T>(v: Tracked<T>, xs: seq<T>, its: map<Key, Pos>)
    requires AllUpdated(ResetAll, v.its, its, |xs|)
    ensures Tracked(xs, its) == Replaced(v, xs) && Bounded(Tracked(xs, its))
  {
  }

  lemma ErasedView<T>(v: Tracked<T>, d: nat, e: nat, items: seq<T>, its: map<Key, Pos>)
    requires Bounded(v) && d <= e <= |v.items|
    requires items == v.items[..d] + v.items[e..]
    requires its == Erased(v, d, e).its || (v.its == map[] && its == map[])
    ensures Tracked(items, its) == Erased(v, d, e) && Bounded(Tracked(items, its))
    ensures IsErasure(v, d, e, Tracked(items, its))
  {
    ErasedIs(v, d, e);
  }
}
