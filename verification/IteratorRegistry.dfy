/**
 * The registry through which a tracked vector reaches its live iterators: up to six of each kind in an
 * array, and from the seventh on in a hash map.
 */
module IteratorRegistry {
  import opened Options
  import opened IteratorTables
  import opened TrackedPositions

  ghost predicate IsInjective(m: map<Key, VectorIterator>) {
    forall j, k {:trigger m[j], m[k]} :: j in m && k in m && j != k ==> m[j] != m[k]
  }

  /** The functions that the vector applies to all iterators. */
  datatype Update =
    | InvalidateRange(first: int, last: int)
    | ShiftRange(first: int, last: int, shift: int)
    | ResetAll

  predicate Fits(u: Update, p: Pos, size: nat) {
    u.ShiftRange? ==> ShiftFits(p, u.first, u.last, u.shift, size)
  }

  function Updated(u: Update, p: Pos, size: nat): Pos
    requires Fits(u, p, size)
  {
    match u
    case InvalidateRange(first, last) => Invalidated(p, first, last, size)
    case ShiftRange(first, last, shift) => Shifted(p, first, last, shift, size)
    case ResetAll => EndMarker(size)
  }

  ghost predicate AllFit(u: Update, before: map<Key, Pos>, size: nat) {
    forall k :: k in before ==> Fits(u, before[k], size)
  }

  ghost predicate AllUpdated(u: Update, before: map<Key, Pos>, after: map<Key, Pos>, size: nat) {
    && after.Keys == before.Keys
    && forall k :: k in before ==> Fits(u, before[k], size) && after[k] == Updated(u, before[k], size)
  }

  lemma UpdatesCombine(u: Update, a: map<Key, Pos>, a': map<Key, Pos>, b: map<Key, Pos>, b': map<Key, Pos>, size: nat)
    requires a.Keys !! b.Keys
    ensures AllFit(u, a + b, size) <==> AllFit(u, a, size) && AllFit(u, b, size)
    ensures AllUpdated(u, a, a', size) && AllUpdated(u, b, b', size) ==> AllUpdated(u, a + b, a' + b', size)
  {
    if AllFit(u, a + b, size) {
      forall k | k in a ensures Fits(u, a[k], size) {
        assert (a + b)[k] == a[k];
      }
      forall k | k in b ensures Fits(u, b[k], size) {
        assert (a + b)[k] == b[k];
      }
    }
  }

  /** An iterator; `size` is the current size of the vector that owns it. */
  class VectorIterator {
    var index: nat
    var onItem: bool

    ghost function Pos(): Pos
      reads this
    {
      TrackedPositions.Pos(index, onItem)
    }

    constructor (size: nat)
      ensures Pos() == SetToBeginning(EndMarker(0), size)
    {
      index := 0;
      onItem := size >= 1;
    }

    method Reset(size: nat)
      modifies this
      ensures Pos() == EndMarker(size)
    {
      index := size;
      onItem := false;
    }

    method InvalidateInclusiveRange(first: int, last: int, size: nat)
      modifies this
      ensures Pos() == Invalidated(old(Pos()), first, last, size)
    {
      if first <= index && last >= index {
        Reset(size);
      }
    }

    method ShiftInclusiveRange(first: int, last: int, shift: int, size: nat) returns (ok: bool)
      modifies this
      ensures ok == ShiftFits(old(Pos()), first, last, shift, size)
      ensures Pos() == if ok then Shifted(old(Pos()), first, last, shift, size) else old(Pos())
    {
      if first <= index && last >= index {
        var newIndex := index + shift;
        if 0 > newIndex || size < newIndex {
          return false;
        }
        index := newIndex;
      }
      return true;
    }

    method Apply(u: Update, size: nat) returns (ok: bool)
      modifies this
      ensures ok == Fits(u, old(Pos()), size)
      ensures Pos() == if ok then Updated(u, old(Pos()), size) else old(Pos())
    {
      ok := true;
      match u {
        case InvalidateRange(first, last) => InvalidateInclusiveRange(first, last, size);
        case ShiftRange(first, last, shift) => ok := ShiftInclusiveRange(first, last, shift, size);
        case ResetAll => Reset(size);
      }
    }

    method MoveToNext(size: nat) returns (ok: bool)
      modifies this
      ensures ok == SetToNext(old(Pos()), size).Some?
      ensures Pos() == if ok then SetToNext(old(Pos()), size).value else old(Pos())
    {
      if !onItem {
        return false;
      }
      index := index + 1;
      if size <= index {
        onItem := false;
        if size < index {
          Reset(size);
        }
      }
      return true;
    }

    method MoveToPrevious() returns (ok: bool)
      modifies this
      ensures ok == SetToPrevious(old(Pos())).Some?
      ensures Pos() == if ok then SetToPrevious(old(Pos())).value else old(Pos())
    {
      if index == 0 {
        return false;
      }
      index := index - 1;
      onItem := true;
      return true;
    }

    method MoveBy(n: int, size: nat) returns (ok: bool)
      modifies this
      ensures ok == Advance(old(Pos()), n, size).Some?
      ensures Pos() == if ok then Advance(old(Pos()), n, size).value else old(Pos())
    {
      var newIndex := index + n;
      if 0 > newIndex || size < newIndex {
        return false;
      }
      index := newIndex;
      onItem := !(size <= index);
      return true;
    }

    method Assign(right: VectorIterator)
      modifies this
      ensures Pos() == old(right.Pos())
    {
      index, onItem := right.index, right.onItem;
    }
  }

  const MAX_FAST_ITERATORS: nat := 6

  lemma UnionUpdates(a: map<Key, Pos>, b: map<Key, Pos>, k: Key, p: Pos)
    requires a.Keys !! b.Keys && k !in b
    ensures a[k := p] + b == (a + b)[k := p] && b + a[k := p] == (b + a)[k := p]
    ensures k in a ==> (a - {k}) + b == (a + b) - {k} && b + (a - {k}) == (b + a) - {k}
    ensures k !in a ==> a - {k} == a
  {
  }

  lemma PlacedTwice(m: map<Key, Pos>, k: Key, p: Pos, q: Pos)
    requires k !in m
    ensures m[k := p][k := q] == m[k := q] && m[k := p] - {k} == m
  {
  }

  /** What a client's iterator holds on to. */
  datatype Handle = Handle(key: Key, it: VectorIterator)

  class IteratorTable {
    ghost var its: map<Key, VectorIterator>               // the table that the current mode stands for
    ghost var pos: map<Key, Pos>                          // where its iterators stand
    ghost var objs: set<VectorIterator>                   // its iterators
    ghost var entries: seq<Entry<VectorIterator>>         // the occupied slots of the array
    const fast: array<Option<Entry<VectorIterator>>>
    var numFast: nat
    var slow: Option<map<Key, VectorIterator>>

    constructor ()
      ensures Valid() && its == map[] && objs == {} && fresh(fast)
    {
      fast := new Option<Entry<VectorIterator>>[MAX_FAST_ITERATORS];
      numFast := 0;
      slow := None;
      its, pos, objs, entries := map[], map[], {}, [];
    }

    ghost predicate Shaped()
      reads this, fast
    {
      && fast.Length == MAX_FAST_ITERATORS && |entries| == numFast <= fast.Length
      && forall i :: 0 <= i < numFast ==> fast[i] == Some(entries[i])
    }

    ghost predicate Tables()
      reads this, fast
    {
      && Shaped()
      && its == (if slow.Some? then slow.value else Table(entries))
      && (slow == None ==> DistinctKeys(entries))
    }

    ghost predicate Valid()
      reads this, fast, objs
    {
      && Tables()
      && (forall k {:trigger its[k]} :: k in its ==> its[k] in objs)
      && IsInjective(its)
      && pos.Keys == its.Keys
      && forall k {:trigger its[k]} :: k in its ==> pos[k] == its[k].Pos()
    }

    method IsEmpty() returns (r: bool)
      requires Valid()
      ensures r <==> pos == map[]
    {
      if slow.Some? {
        return slow.value == map[];
      }
      if numFast >= 1 {
        TableAt(entries, 0);
        return false;
      }
      return true;
    }

    /** The seventh iterator switches to the hash map for good. */
    method Store(key: Key, it: VectorIterator)
      requires Tables() && key !in its
      modifies this`its, this`entries, this`numFast, this`slow, fast
      ensures Tables() && its == old(its)[key := it]
    {
      if slow.Some? {
        slow := Some(slow.value[key := it]);
      } else if numFast == MAX_FAST_ITERATORS {
        var items := map[];
        for i := 0 to MAX_FAST_ITERATORS
          invariant items == Table(entries[..i])
        {
          assert entries[..i + 1][..i] == entries[..i];
          items := items[fast[i].value.key := fast[i].value.it];
        }
        assert entries[..MAX_FAST_ITERATORS] == entries;
        slow := Some(items[key := it]);
      } else {
        TableAppend(entries, key, it);
        fast[numFast] := Some(Entry(key, it));
        numFast := numFast + 1;
        entries := entries + [Entry(key, it)];
      }
      its := its[key := it];
    }

    method Add(key: Key, it: VectorIterator)
      requires Valid() && key !in its && it !in objs
      modifies this, fast
      ensures Valid() && its == old(its)[key := it] && pos == old(pos)[key := it.Pos()]
      ensures objs == old(objs) + {it}
    {
      Store(key, it);
      objs := objs + {it};
      pos := pos[key := it.Pos()];
    }

    method IndexOf(key: Key) returns (found: int)
      requires Tables() && slow == None
      ensures -1 <= found < numFast
      ensures found >= 0 ==> entries[found].key == key
      ensures found < 0 ==> key !in its
    {
      for i := 0 to numFast
        invariant forall j :: 0 <= j < i ==> entries[j].key != key
      {
        if key == fast[i].value.key {
          return i;
        }
      }
      TableKeys(entries, key);
      return -1;
    }

    /** Moves the entries behind `found` one slot down. */
    method CloseGap(found: nat)
      requires Shaped() && found < numFast
      modifies this`numFast, this`entries, fast
      ensures Shaped() && numFast == old(numFast) - 1
      ensures entries == old(entries)[..found] + old(entries)[found + 1..]
    {
      numFast := numFast - 1;
      for j := found to numFast
        invariant numFast == old(numFast) - 1 && entries == old(entries)
        invariant forall i :: 0 <= i < fast.Length ==> fast[i] == old(fast[if found <= i < j then i + 1 else i])
      {
        fast[j] := fast[j + 1];
      }
      entries := entries[..found] + entries[found + 1..];
    }

    /** Fails exactly if the key is not in the table. */
    method Remove(key: Key) returns (ok: bool)
      requires Tables()
      modifies this`its, this`entries, this`numFast, this`slow, fast
      ensures ok == (key in old(its))
      ensures Tables() && its == old(its) - {key}
    {
      if slow.Some? {
        ok := key in slow.value;
        slow := Some(slow.value - {key});
        its := its - {key};
        return;
      }
      var found := IndexOf(key);
      if found < 0 {
        assert its - {key} == its;
        return false;
      }
      TableAt(entries, found);
      TableWithout(entries, found);
      CloseGap(found);
      its := its - {key};
      return true;
    }

    method Release(key: Key) returns (ok: bool)
      requires Valid()
      modifies this, fast
      ensures Valid() && ok == (key in old(its))
      ensures its == old(its) - {key} && pos == old(pos) - {key} && objs <= old(objs)
    {
      if key in its {
        objs := objs - {its[key]};
      }
      ok := Remove(key);
      pos := pos - {key};
    }

    // ----- applying a function to all iterators

    /**
     * Applies the update to every live iterator, once each.  It stops early only if some iterator does not
     * admit the update.
     */
    method ApplyToAll(u: Update, size: nat) returns (ok: bool)
      requires Valid()
      modifies this`pos, objs
      ensures Valid()
      ensures AllFit(u, old(pos), size) ==> ok
      ensures ok ==> AllUpdated(u, old(pos), pos, size)
    {
      if slow.Some? {
        ok := ApplyToSlow(u, size);
      } else {
        ok := ApplyToFast(u, size);
      }
      pos := map k | k in its :: its[k].Pos();
    }

    method ApplyToSlow(u: Update, size: nat) returns (ok: bool)
      requires Valid() && slow.Some?
      modifies objs
      ensures AllFit(u, pos, size) ==> ok
      ensures ok ==> forall k :: k in its ==> Fits(u, pos[k], size) && its[k].Pos() == Updated(u, pos[k], size)
    {
      var m := slow.value;
      var todo := m.Keys;
      while todo != {}
        invariant todo <= m.Keys
        invariant forall k :: k in todo ==> m[k].Pos() == pos[k]
        invariant forall k :: k in m && k !in todo ==> Fits(u, pos[k], size) && m[k].Pos() == Updated(u, pos[k], size)
        decreases todo
      {
        var k :| k in todo;
        var done := m[k].Apply(u, size);
        if !done {
          return false;
        }
        todo := todo - {k};
      }
      return true;
    }

    method ApplyToFast(u: Update, size: nat) returns (ok: bool)
      requires Valid() && slow == None
      modifies objs
      ensures AllFit(u, pos, size) ==> ok
      ensures ok ==> forall k :: k in its ==> Fits(u, pos[k], size) && its[k].Pos() == Updated(u, pos[k], size)
    {
      ghost var es := entries;
      forall i | 0 <= i < |es| ensures es[i].key in its && its[es[i].key] == es[i].it {
        TableAt(es, i);
      }
      for i := 0 to numFast
        invariant forall j :: i <= j < |es| ==> es[j].it.Pos() == pos[es[j].key]
        invariant forall j :: 0 <= j < i ==>
                    Fits(u, pos[es[j].key], size) && es[j].it.Pos() == Updated(u, pos[es[j].key], size)
      {
        assert fast[i].value == es[i];
        forall j | 0 <= j < |es| && j != i ensures es[j].it != es[i].it {
          assert es[j].key != es[i].key;
        }
        var done := fast[i].value.it.Apply(u, size);
        if !done {
          return false;
        }
      }
      forall k | k in its ensures Fits(u, pos[k], size) && its[k].Pos() == Updated(u, pos[k], size) {
        TableKeys(es, k);
      }
      return true;
    }

    // ----- moving one iterator

    ghost predicate Live(h: Handle)
      reads this`its
    {
      h.key in its && its[h.key] == h.it
    }

    method MoveBy(h: Handle, n: int, size: nat) returns (ok: bool)
      requires Valid() && Live(h)
      modifies this`pos, h.it
      ensures Valid() && ok == Advance(old(pos)[h.key], n, size).Some?
      ensures pos == if ok then old(pos)[h.key := Advance(old(pos)[h.key], n, size).value] else old(pos)
    {
      ok := h.it.MoveBy(n, size);
      pos := pos[h.key := h.it.Pos()];
    }

    method MoveToNext(h: Handle, size: nat) returns (ok: bool)
      requires Valid() && Live(h)
      modifies this`pos, h.it
      ensures Valid() && ok == SetToNext(old(pos)[h.key], size).Some?
      ensures pos == if ok then old(pos)[h.key := SetToNext(old(pos)[h.key], size).value] else old(pos)
    {
      ok := h.it.MoveToNext(size);
      pos := pos[h.key := h.it.Pos()];
    }

    method MoveToPrevious(h: Handle) returns (ok: bool)
      requires Valid() && Live(h)
      modifies this`pos, h.it
      ensures Valid() && ok == SetToPrevious(old(pos)[h.key]).Some?
      ensures pos == if ok then old(pos)[h.key := SetToPrevious(old(pos)[h.key]).value] else old(pos)
    {
      ok := h.it.MoveToPrevious();
      pos := pos[h.key := h.it.Pos()];
    }

    method CopyPosition(h: Handle, right: Handle)
      requires Valid() && Live(h) && Live(right)
      modifies this`pos, h.it
      ensures Valid() && pos == old(pos)[h.key := old(pos)[right.key]]
    {
      h.it.Assign(right.it);
      pos := pos[h.key := h.it.Pos()];
    }
  }

  /** Both kinds of iterators, whose keys come from one counter. */
  class IteratorSet {
    const consts: IteratorTable
    const muts: IteratorTable
    var nextKey: Key

    constructor ()
      ensures Valid() && Positions() == map[]
      ensures fresh(consts) && fresh(muts) && fresh(consts.fast) && fresh(muts.fast)
    {
      consts := new IteratorTable();
      muts := new IteratorTable();
      nextKey := 0;
    }

    ghost predicate Valid()
      reads this, consts, consts.fast, consts.objs, muts, muts.fast, muts.objs
    {
      var constsValid, mutsValid := consts.Valid(), muts.Valid();
      && consts != muts && consts.fast != muts.fast
      && constsValid && mutsValid
      && consts.its.Keys !! muts.its.Keys
      && consts.objs !! muts.objs
      && (forall k :: k in consts.its ==> k < nextKey)
      && (forall k :: k in muts.its ==> k < nextKey)
    }

    ghost function Positions(): map<Key, Pos>
      reads consts`pos, muts`pos
    {
      consts.pos + muts.pos
    }

    method IsEmpty() returns (r: bool)
      requires Valid()
      ensures r <==> Positions() == map[]
    {
      r := consts.IsEmpty();
      if r {
        r := muts.IsEmpty();
        assert Positions().Keys == muts.pos.Keys;
      } else {
        assert consts.pos.Keys <= Positions().Keys;
      }
    }

    // A new iterator starts at the beginning, under a key never used before.

    method AllocateConst(size: nat) returns (h: Handle)
      requires Valid()
      modifies this`nextKey, consts, consts.fast
      ensures Valid() && fresh(h.it) && h.key !in old(Positions())
      ensures consts.its == old(consts.its)[h.key := h.it] && consts.objs == old(consts.objs) + {h.it}
      ensures Positions() == old(Positions())[h.key := SetToBeginning(EndMarker(0), size)]
    {
      var it := new VectorIterator(size);
      assert it !in muts.objs && it !in consts.objs;
      h := Handle(nextKey, it);
      nextKey := nextKey + 1;
      UnionUpdates(consts.pos, muts.pos, h.key, it.Pos());
      consts.Add(h.key, it);
    }

    method AllocateMut(size: nat) returns (h: Handle)
      requires Valid()
      modifies this`nextKey, muts, muts.fast
      ensures Valid() && fresh(h.it) && h.key !in old(Positions())
      ensures muts.its == old(muts.its)[h.key := h.it] && muts.objs == old(muts.objs) + {h.it}
      ensures Positions() == old(Positions())[h.key := SetToBeginning(EndMarker(0), size)]
    {
      var it := new VectorIterator(size);
      assert it !in consts.objs && it !in muts.objs;
      h := Handle(nextKey, it);
      nextKey := nextKey + 1;
      UnionUpdates(muts.pos, consts.pos, h.key, it.Pos());
      muts.Add(h.key, it);
    }

    // Releasing forgets exactly one iterator; it fails exactly if there is none of that kind under the key.

    method ReleaseConst(key: Key) returns (ok: bool)
      requires Valid() && key !in muts.its
      modifies consts, consts.fast
      ensures Valid() && ok == (key in old(consts.its))
      ensures consts.its == old(consts.its) - {key} && consts.objs <= old(consts.objs)
      ensures Positions() == if ok then old(Positions()) - {key} else old(Positions())
    {
      UnionUpdates(consts.pos, muts.pos, key, EndMarker(0));
      ok := consts.Release(key);
    }

    method ReleaseMut(key: Key) returns (ok: bool)
      requires Valid() && key !in consts.its
      modifies muts, muts.fast
      ensures Valid() && ok == (key in old(muts.its))
      ensures muts.its == old(muts.its) - {key} && muts.objs <= old(muts.objs)
      ensures Positions() == if ok then old(Positions()) - {key} else old(Positions())
    {
      UnionUpdates(muts.pos, consts.pos, key, EndMarker(0));
      ok := muts.Release(key);
    }

    // ----- one iterator, through its handle

    lemma PositionsOfLive(h: Handle)
      requires Valid() && (consts.Live(h) || muts.Live(h))
      ensures h.key in Positions() && Positions()[h.key] == h.it.Pos()
    {
      assert consts.Live(h) ==> consts.its[h.key] == h.it;
      assert muts.Live(h) ==> muts.its[h.key] == h.it;
    }

    method CopyConst(h: Handle, right: Handle)
      requires Valid() && consts.Live(h) && consts.Live(right)
      modifies consts`pos, h.it
      ensures Valid() && right.key in old(Positions())
      ensures Positions() == old(Positions())[h.key := old(Positions())[right.key]]
    {
      PositionsOfLive(h);
      PositionsOfLive(right);
      UnionUpdates(consts.pos, muts.pos, h.key, right.it.Pos());
      consts.CopyPosition(h, right);
    }

    /** The copy constructor of a client's iterator. */
    method DuplicateConst(right: Handle, size: nat) returns (h: Handle)
      requires Valid() && consts.Live(right)
      modifies this`nextKey, consts, consts.fast
      ensures Valid() && fresh(h.it) && right.key in old(Positions()) && h.key !in old(Positions())
      ensures consts.its == old(consts.its)[h.key := h.it] && fresh(consts.objs - old(consts.objs))
      ensures Positions() == old(Positions())[h.key := old(Positions())[right.key]]
    {
      PositionsOfLive(right);
      ghost var m := Positions();
      h := AllocateConst(size);
      PlacedTwice(m, h.key, SetToBeginning(EndMarker(0), size), m[right.key]);
      CopyConst(h, right);
    }

    method MoveConstToNext(h: Handle, size: nat) returns (ok: bool)
      requires Valid() && consts.Live(h)
      modifies consts`pos, h.it
      ensures Valid() && h.key in old(Positions()) && ok == SetToNext(old(Positions())[h.key], size).Some?
      ensures Positions() ==
        if ok then old(Positions())[h.key := SetToNext(old(Positions())[h.key], size).value] else old(Positions())
    {
      PositionsOfLive(h);
      ghost var cs, ms := consts.pos, muts.pos;
      ok := consts.MoveToNext(h, size);
      UnionUpdates(cs, ms, h.key, consts.pos[h.key]);
    }

    /** A copy of the iterator moved on by one; if that is not possible, the copy is given up again. */
    method SuccessorConst(right: Handle, size: nat) returns (h: Option<Handle>)
      requires Valid() && consts.Live(right) && right.key in Positions()
      modifies this`nextKey, consts, consts.fast
      ensures Valid() && consts.Live(right) && fresh(consts.objs - old(consts.objs))
      ensures h.Some? == SetToNext(old(Positions())[right.key], size).Some?
      ensures h.Some? ==> consts.Live(h.value) && h.value.key !in old(Positions())
      ensures Positions() == if h == None then old(Positions()) else
                old(Positions())[h.value.key := SetToNext(old(Positions())[right.key], size).value]
    {
      ghost var m := Positions();
      ghost var p := m[right.key];
      var next := DuplicateConst(right, size);
      ghost var n := Positions();
      assert n[next.key] == p;
      var ok := MoveConstToNext(next, size);
      PlacedTwice(m, next.key, p, if ok then SetToNext(p, size).value else p);
      if !ok {
        var released := ReleaseConst(next.key);
        return None;
      }
      return Some(next);
    }

    method MoveMutBy(h: Handle, n: int, size: nat) returns (ok: bool)
      requires Valid() && muts.Live(h)
      modifies muts`pos, h.it
      ensures Valid() && h.key in old(Positions()) && ok == Advance(old(Positions())[h.key], n, size).Some?
      ensures Positions() ==
        if ok then old(Positions())[h.key := Advance(old(Positions())[h.key], n, size).value] else old(Positions())
    {
      PositionsOfLive(h);
      ghost var cs, ms := consts.pos, muts.pos;
      ok := muts.MoveBy(h, n, size);
      UnionUpdates(ms, cs, h.key, muts.pos[h.key]);
    }

    // ----- all iterators

    /** Applies the update to the iterators of both kinds. */
    method ApplyToBoth(u: Update, size: nat) returns (ok: bool)
      requires Valid()
      modifies consts`pos, muts`pos, consts.objs, muts.objs
      ensures Valid()
      ensures AllFit(u, old(consts.pos), size) && AllFit(u, old(muts.pos), size) ==> ok
      ensures ok ==> AllUpdated(u, old(consts.pos), consts.pos, size)
      ensures ok ==> AllUpdated(u, old(muts.pos), muts.pos, size)
    {
      ok := consts.ApplyToAll(u, size);
      if ok {
        ok := muts.ApplyToAll(u, size);
      }
    }

    method ApplyToAll(u: Update, size: nat) returns (ok: bool)
      requires Valid()
      modifies consts`pos, muts`pos, consts.objs, muts.objs
      ensures Valid()
      ensures AllFit(u, old(Positions()), size) ==> ok
      ensures ok ==> AllUpdated(u, old(Positions()), Positions(), size)
    {
      ghost var cs, ms := consts.pos, muts.pos;
      assert cs.Keys !! ms.Keys;
      UpdatesCombine(u, cs, cs, ms, ms, size);
      ok := ApplyToBoth(u, size);
      UpdatesCombine(u, cs, consts.pos, ms, muts.pos, size);
    }
  }
}
