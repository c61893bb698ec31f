/** The type-erased value holder, and which allocated cells it owns. */
module Any {
  import opened Options
  import opened AnyContents

  class Cell<V(==)> {
    const value: V

    constructor (v: V)
      ensures value == v
    {
      value := v;
    }
  }

  /** The holder's storage: nothing definite, a pointer that may be null, or a value kept in place. */
  datatype Storage<V> = Unset | Dynamic(cell: Cell?<V>) | Stack(value: V)

  /** All holders in existence with what they contain, and the owner of every allocated cell. */
  class World<V(==)> {
    ghost var contents: Contents<Any<V>, V>
    ghost var owner: map<Cell<V>, Any<V>>

    constructor ()
      ensures Valid() && contents == map[] && owner == map[]
    {
      contents, owner := map[], map[];
    }

    ghost predicate Valid()
      reads this, contents.Keys
    {
      && (forall a :: a in contents ==> Represents(a, contents[a], owner))
      && (forall c :: c in owner ==> owner[c] in contents && Owns(owner[c], c))
    }
  }

  ghost predicate Represents<V>(a: Any<V>, x: Option<Typed<V>>, owner: map<Cell<V>, Any<V>>)
    reads a
  {
    match x
    case None => a.vtable == None
    case Some(t) =>
      && a.vtable == Some(t.kind)
      && Stores(a.storage, t)
      && (t.kind.dynamic ==> a.storage.cell in owner && owner[a.storage.cell] == a)
  }

  ghost predicate Stores<V>(s: Storage<V>, t: Typed<V>) {
    if t.kind.dynamic then s.Dynamic? && s.cell != null && s.cell.value == t.value
    else s == Stack(t.value)
  }

  ghost predicate Owns<V>(a: Any<V>, c: Cell<V>)
    reads a
  {
    a.vtable.Some? && a.vtable.value.dynamic && a.storage == Dynamic(c)
  }

  // ----- ownership

  ghost function DynamicHolders<A, V>(c: Contents<A, V>): set<A> {
    set a | a in c && c[a].Some? && c[a].value.kind.dynamic
  }

  lemma {:induction false} InjectiveMapSize<A, B>(m: map<A, B>)
    requires forall x, y :: x in m && y in m && m[x] == m[y] ==> x == y
    ensures |m| == |m.Values|
    decreases |m|
  {
    if m != map[] {
      var x :| x in m;
      InjectiveMapSize(m - {x});
      var rest := m - {x};
      forall v | v in m.Values && v != m[x] ensures v in rest.Values {
        var y :| y in m && m[y] == v;
        assert rest[y] == v;
      }
      assert rest.Values == m.Values - {m[x]};
    }
  }

  /**
   * The allocated cells and the holders of allocated values correspond one to one: no cell has two owners, and
   * none is left without one.
   */
  lemma EveryCellHasOneOwner<V>(w: World<V>)
    requires w.Valid()
    ensures forall a, c :: a in w.contents && Owns(a, c) ==> c in w.owner && w.owner[c] == a
    ensures w.owner.Values == DynamicHolders(w.contents)
    ensures |w.owner| == |DynamicHolders(w.contents)|
    ensures w.contents == map[] ==> w.owner == map[]
  {
    forall a, c | a in w.contents && Owns(a, c) ensures c in w.owner && w.owner[c] == a {
      assert Represents(a, w.contents[a], w.owner);
    }
    forall a | a in DynamicHolders(w.contents) ensures a in w.owner.Values {
      assert Represents(a, w.contents[a], w.owner);
      assert w.owner[a.storage.cell] == a;
    }
    forall c | c in w.owner ensures w.owner[c] in DynamicHolders(w.contents) {
      assert Represents(w.owner[c], w.contents[w.owner[c]], w.owner);
    }
    forall c, d | c in w.owner && d in w.owner && w.owner[c] == w.owner[d] ensures c == d {
      assert Owns(w.owner[c], c) && Owns(w.owner[c], d);
    }
    InjectiveMapSize(w.owner);
  }

  lemma SwapThroughTemporary<A, V>(c: Contents<A, V>, a: A, b: A, tmp: A)
    requires a in c && b in c && a != b && tmp !in c
    ensures var c1 := c[tmp := c[b]][b := None];
            var c2 := c1[b := c1[a]] - {a};
            var c3 := c2[a := c2[tmp]] - {tmp};
            c3[tmp := None] - {tmp} == Apply(c, Op.Swap(a, b))
  {
  }

  class Any<V(==)> {
    var vtable: Option<Type>
    var storage: Storage<V>

    // ----- construction

    constructor Empty(ghost w: World<V>)
      requires w.Valid()
      modifies w`contents
      ensures w.Valid() && fresh(this) && Allowed(old(w.contents), Op.Empty(this))
      ensures w.contents == Apply(old(w.contents), Op.Empty(this))
      ensures this in w.contents && w.contents[this] == None
    {
      vtable, storage := None, Unset;
      new;
      w.contents := w.contents[this := None];
    }

    constructor Hold(t: Type, v: V, ghost w: World<V>)
      requires w.Valid()
      modifies w
      ensures w.Valid() && fresh(this) && Allowed(old(w.contents), Op.Hold(this, Typed(t, v)))
      ensures w.contents == Apply(old(w.contents), Op.Hold(this, Typed(t, v)))
      ensures this in w.contents && w.contents[this] == Some(Typed(t, v))
    {
      vtable, storage := Some(t), Unset;
      new;
      if t.dynamic {
        var cell := new Cell(v);
        storage := Dynamic(cell);
        w.owner := w.owner[cell := this];
      } else {
        storage := Stack(v);
      }
      w.contents := w.contents[this := Some(Typed(t, v))];
    }

    constructor Copy(rhs: Any<V>, ghost w: World<V>)
      requires w.Valid() && rhs in w.contents
      modifies w
      ensures w.Valid() && fresh(this) && Allowed(old(w.contents), Op.Copy(this, rhs))
      ensures w.contents == Apply(old(w.contents), Op.Copy(this, rhs))
      ensures this in w.contents && w.contents[this] == w.contents[rhs] == old(w.contents)[rhs]
    {
      vtable, storage := rhs.vtable, Unset;
      new;
      if rhs.vtable.Some? {
        if rhs.vtable.value.dynamic {
          var cell := new Cell(rhs.storage.cell.value);
          storage := Dynamic(cell);
          w.owner := w.owner[cell := this];
        } else {
          storage := Stack(rhs.storage.value);
        }
      }
      w.contents := w.contents[this := w.contents[rhs]];
    }

    constructor Move(rhs: Any<V>, ghost w: World<V>)
      requires w.Valid() && rhs in w.contents
      modifies w, rhs
      ensures w.Valid() && fresh(this) && Allowed(old(w.contents), Op.Move(this, rhs))
      ensures w.contents == Apply(old(w.contents), Op.Move(this, rhs))
      ensures this in w.contents && w.contents[this] == old(w.contents)[rhs] && w.contents[rhs] == None
    {
      vtable, storage := None, Unset;
      new;
      TakeFrom(rhs, w);
      rhs.vtable := None;
      w.contents := w.contents[rhs := None];
    }

    // ----- the virtual functions that act on the storage

    static method MoveStorage(t: Type, src: Any<V>, dest: Any<V>)
      requires src != dest && (if t.dynamic then src.storage.Dynamic? else src.storage.Stack?)
      modifies src`storage, dest`storage
      ensures dest.storage == old(src.storage)
    {
      if t.dynamic {
        dest.storage := src.storage;
        src.storage := Dynamic(null);
      } else {
        dest.storage := src.storage;
        src.storage := Unset;
      }
    }

    /** For an allocated value the cell is deleted, which requires that it is still allocated. */
    static method DestroyStorage(t: Type, src: Any<V>, ghost w: World<V>)
      requires if t.dynamic then src.storage.Dynamic? && src.storage.cell in w.owner else src.storage.Stack?
      modifies src`storage, w`owner
      ensures w.owner == if t.dynamic then old(w.owner) - {old(src.storage.cell)} else old(w.owner)
    {
      if t.dynamic {
        w.owner := w.owner - {src.storage.cell};
      }
      src.storage := Unset;
    }

    /**
     * Takes over the type and the storage of src, which no longer counts as a holder: it is left with a stale
     * type for the caller to reset.
     */
    method TakeFrom(src: Any<V>, ghost w: World<V>)
      requires w.Valid() && src in w.contents && src != this
      requires this !in w.contents || w.contents[this] == None
      modifies w, this, src`storage
      ensures w.Valid() && w.contents == old(w.contents)[this := old(w.contents)[src]] - {src}
    {
      ghost var c, o := w.contents, w.owner;
      assert Represents(src, c[src], o);
      vtable := src.vtable;
      if src.vtable.Some? {
        if src.vtable.value.dynamic {
          w.owner := w.owner[src.storage.cell := this];
        }
        MoveStorage(src.vtable.value, src, this);
      }
      w.contents := c[this := c[src]] - {src};
      forall a | a in w.contents ensures Represents(a, w.contents[a], w.owner) {
        if a != this {
          assert old(Represents(a, c[a], o));
        }
      }
    }

    // ----- destruction, clear, swap

    method Clear(ghost w: World<V>)
      requires w.Valid() && this in w.contents
      modifies w, this
      ensures w.Valid() && w.contents == Apply(old(w.contents), Op.Clear(this))
      ensures this in w.contents && w.contents[this] == None
    {
      if vtable.Some? {
        DestroyStorage(vtable.value, this, w);
        vtable := None;
      }
      w.contents := w.contents[this := None];
    }

    method Destroy(ghost w: World<V>)
      requires w.Valid() && this in w.contents
      modifies w, this
      ensures w.Valid() && w.contents == Apply(old(w.contents), Op.Destroy(this))
      ensures this !in w.contents
    {
      Clear(w);
      w.contents := w.contents - {this};
    }

    method Swap(rhs: Any<V>, ghost w: World<V>)
      requires w.Valid() && this in w.contents && rhs in w.contents
      modifies w, this, rhs
      ensures w.Valid() && w.contents == Apply(old(w.contents), Op.Swap(this, rhs))
      ensures this in w.contents && rhs in w.contents
      ensures w.contents[this] == old(w.contents)[rhs] && w.contents[rhs] == old(w.contents)[this]
    {
      if vtable != rhs.vtable {
        ghost var c := w.contents;
        var tmp := new Any.Move(rhs, w);
        SwapThroughTemporary(c, this, rhs, tmp);
        rhs.TakeFrom(this, w);
        TakeFrom(tmp, w);
        tmp.vtable := None;
        w.contents := w.contents[tmp := None];
        tmp.Destroy(w);
      } else {
        SwapStorage(rhs, w);
      }
    }

    /** The exchange of two values of one type; both holders may be the same. */
    method SwapStorage(rhs: Any<V>, ghost w: World<V>)
      requires w.Valid() && this in w.contents && rhs in w.contents && vtable == rhs.vtable
      modifies w, this, rhs
      ensures w.Valid() && w.contents == Apply(old(w.contents), Op.Swap(this, rhs))
    {
      ghost var c := w.contents;
      if vtable.Some? {
        if vtable.value.dynamic {
          SwapCells(rhs, w);
        } else {
          storage, rhs.storage := rhs.storage, storage;
        }
      }
      w.contents := c[this := c[rhs]][rhs := c[this]];
    }

    method SwapCells(rhs: Any<V>, ghost w: World<V>)
      requires w.Valid() && this in w.contents && rhs in w.contents
      requires vtable == rhs.vtable && vtable.Some? && vtable.value.dynamic
      modifies w, this`storage, rhs`storage
      ensures w.Valid() && w.contents == Apply(old(w.contents), Op.Swap(this, rhs))
    {
      ghost var c, o := w.contents, w.owner;
      assert Represents(this, c[this], o) && Represents(rhs, c[rhs], o);
      w.owner := o[storage.cell := rhs][rhs.storage.cell := this];
      storage, rhs.storage := rhs.storage, storage;
      w.contents := c[this := c[rhs]][rhs := c[this]];
      forall a | a in w.contents ensures Represents(a, w.contents[a], w.owner) {
        if a != this && a != rhs {
          assert old(Represents(a, c[a], o));
        }
      }
      forall k | k in w.owner ensures w.owner[k] in w.contents && Owns(w.owner[k], k) {
        assert old(Owns(o[k], k));
      }
    }

    // ----- assignment through temporaries

    method AssignCopy(rhs: Any<V>, ghost w: World<V>)
      requires w.Valid() && this in w.contents && rhs in w.contents
      modifies w, this
      ensures w.Valid() && w.contents == Apply(old(w.contents), Op.AssignCopy(this, rhs))
      ensures this in w.contents && rhs in w.contents
      ensures w.contents[this] == w.contents[rhs] == old(w.contents)[rhs]
    {
      var tmp := new Any.Copy(rhs, w);
      tmp.Swap(this, w);
      tmp.Destroy(w);
    }

    method AssignMove(rhs: Any<V>, ghost w: World<V>)
      requires w.Valid() && this in w.contents && rhs in w.contents
      modifies w, this, rhs
      ensures w.Valid() && w.contents == Apply(old(w.contents), Op.AssignMove(this, rhs))
      ensures this in w.contents && rhs in w.contents
      ensures w.contents[this] == old(w.contents)[rhs] && (rhs != this ==> w.contents[rhs] == None)
    {
      var tmp := new Any.Move(rhs, w);
      tmp.Swap(this, w);
      tmp.Destroy(w);
    }

    method AssignValue(t: Type, v: V, ghost w: World<V>)
      requires w.Valid() && this in w.contents
      modifies w, this
      ensures w.Valid() && w.contents == Apply(old(w.contents), Op.AssignValue(this, Typed(t, v)))
      ensures this in w.contents && w.contents[this] == Some(Typed(t, v))
    {
      var tmp := new Any.Hold(t, v, w);
      tmp.Swap(this, w);
      tmp.Destroy(w);
    }
  }
}
