/** Registered objects and registered pointers, whose methods rewrite the intrusive lists in place. */
module RegisteredPointers {
  import opened Options
  import opened WeakStore
  import opened PointerLists
  import opened PointerRuns

  /** Everything alive, and the order in which each object's list holds its pointers. */
  class World {
    ghost var objs: set<RegisteredObj>
    ghost var ptrs: set<RegisteredPointer>
    ghost var lists: Lists<RegisteredPointer, RegisteredObj>

    constructor ()
      ensures Valid() && objs == {} && ptrs == {}
    {
      objs, ptrs, lists := {}, {}, map[];
    }

    ghost function Fields(): Heap<RegisteredPointer, RegisteredObj>
      reads this`objs, this`ptrs, objs`head, ptrs`target, ptrs`next, ptrs`prev
    {
      Heap(map o | o in objs :: o.head, map p | p in ptrs :: Node(p.target, p.next, p.prev))
    }

    ghost predicate Valid()
      reads this, objs, ptrs
    {
      Ok(Fields(), lists)
    }

    ghost function View(): Store<RegisteredPointer, RegisteredObj>
      reads this`objs, this`ptrs, objs`head, ptrs`target, ptrs`next, ptrs`prev
    {
      StoreOf(Fields())
    }
  }

  class RegisteredObj {
    var head: Option<RegisteredPointer>

    constructor (ghost w: World)
      requires w.Valid()
      modifies w
      ensures w.Valid() && fresh(this) && Allowed(old(w.View()), NewObject(this))
      ensures w.View() == Apply(old(w.View()), NewObject(this))
      ensures w.lists == old(w.lists)[this := []]
      ensures Some(w.Fields()) == Perform(old(w.Fields()), NewObject(this))
      ensures w.objs == old(w.objs) + {this} && w.ptrs == old(w.ptrs)
    {
      head := None;
      new;
      ghost var h := w.Fields();
      w.objs := w.objs + {this};
      w.lists := w.lists[this := []];
      assert w.Fields() == h.SetHead(this, None);
      NewObjectKeepsLists(h, old(w.lists), this);
    }

    method SetHead(p: Option<RegisteredPointer>, ghost w: World)
      requires this in w.objs
      modifies this`head
      ensures w.Fields() == old(w.Fields()).SetHead(this, p)
    {
      head := p;
    }

    /** The field updates of register_pointer(). */
    method LinkInFront(node: RegisteredPointer, ghost w: World)
      requires this in w.objs && node in w.ptrs && (head.Some? ==> head.value in w.ptrs)
      modifies this`head, w.ptrs`next, w.ptrs`prev
      ensures w.Fields() == Registered(old(w.Fields()), this, node)
    {
      if head.Some? {
        head.value.SetPrevNextPtrPtr(NextOf(node), w);
      }
      node.SetNextPtr(head, w);
      node.SetPrevNextPtrPtr(HeadOf(this), w);
      SetHead(Some(node), w);
    }

    /** Links a pointer that already targets this object in front of the list. */
    method RegisterPointer(node: RegisteredPointer, ghost w: World)
      requires OkBut(w.Fields(), w.lists, node) && this in w.objs && node.target == Some(this)
      modifies w`lists, w.objs`head, w.ptrs`next, w.ptrs`prev
      ensures w.Valid() && w.View() == old(w.View())
      ensures w.lists == old(w.lists)[this := [node] + old(w.lists)[this]]
      ensures Some(w.Fields()) == Attached(old(w.Fields()), node)
    {
      ghost var h := w.Fields();
      HeadIsNode(h, w.lists, this);
      RegisterKeepsLists(h, w.lists, this, node);
      LinkInFront(node, w);
      w.lists := w.lists[this := [node] + w.lists[this]];
    }

    /** The destructor's loop over the list. */
    method ClearList(ghost l: seq<RegisteredPointer>, ghost w: World)
      requires this in w.objs && Chain(w.Fields(), this, l)
      modifies w.ptrs
      ensures w.Fields() == Cleared(old(w.Fields()), l)
    {
      ghost var h := w.Fields();
      ghost var i := 0;
      var current := head;
      assert Cleared(h, l[..0]) == h;
      while current.Some?
        invariant 0 <= i <= |l| && current == At(l, i)
        invariant w.Fields() == Cleared(h, l[..i])
        decreases |l| - i
      {
        ClearedNext(h, this, l, i);
        ghost var h1 := w.Fields();
        current.value.SetPointerToNull(w);
        current.value.SetPrevNextPtrPtr(NoSlot, w);
        var next := current.value.next;
        current.value.SetNextPtr(None, w);
        current := next;
        i := i + 1;
      }
      assert l[..i] == l;
    }

    /** The destructor: clears every pointer on the list, after which the object is gone. */
    method Destroy(ghost w: World)
      requires w.Valid() && this in w.objs
      modifies w, w.ptrs
      ensures w.Valid() && w.View() == Apply(old(w.View()), DropObject(this))
      ensures Some(w.Fields()) == Perform(old(w.Fields()), DropObject(this))
      ensures forall p :: p in old(w.ptrs) ==>
                p.target == if old(p.target) == Some(this) then None else old(p.target)
      ensures w.objs == old(w.objs) - {this} && w.ptrs == old(w.ptrs)
      ensures w.lists == old(w.lists) - {this}
    {
      ghost var h, l := w.Fields(), w.lists[this];
      DropObjectKeepsLists(h, w.lists, this);
      ClearList(l, w);
      w.objs := w.objs - {this};
      w.lists := w.lists - {this};
      assert w.Fields() == Dropped(h, this, l);
      forall p | p in old(w.ptrs)
        ensures p.target == if old(p.target) == Some(this) then None else old(p.target)
      {
        assert w.View().targets[p] == p.target && StoreOf(h).targets[p] == old(p.target);
      }
    }
  }

  /**
   * A pointer.  Except where its target is deleted, no method has the target of another pointer in its modifies
   * clause.
   */
  class RegisteredPointer {
    var target: Option<RegisteredObj>
    var next: Option<RegisteredPointer>
    var prev: Slot<RegisteredPointer, RegisteredObj>

    constructor Null(ghost w: World)
      requires w.Valid()
      modifies w
      ensures w.Valid() && fresh(this) && Allowed(old(w.View()), NewPointer(this))
      ensures w.View() == Apply(old(w.View()), NewPointer(this)) && w.lists == old(w.lists)
      ensures Some(w.Fields()) == Perform(old(w.Fields()), NewPointer(this))
      ensures target == None
      ensures w.objs == old(w.objs) && w.ptrs == old(w.ptrs) + {this}
    {
      target, next, prev := None, None, NoSlot;
      new;
      Appear(w);
      RetargetKeepsLists(w.Fields(), w.lists, this, None);
      assert w.Fields() == w.Fields().SetTarget(this, None);
    }

    constructor ToObject(o: RegisteredObj, ghost w: World)
      requires w.Valid() && o in w.objs
      modifies w, w.objs`head, w.ptrs`next, w.ptrs`prev
      ensures w.Valid() && fresh(this) && Allowed(old(w.View()), PointTo(this, o))
      ensures w.View() == Apply(old(w.View()), PointTo(this, o))
      ensures Some(w.Fields()) == Perform(old(w.Fields()), PointTo(this, o))
      ensures target == Some(o)
      ensures w.objs == old(w.objs) && w.ptrs == old(w.ptrs) + {this}
      ensures w.lists == old(w.lists)[o := [this] + old(w.lists)[o]]
    {
      target, next, prev := Some(o), None, NoSlot;
      new;
      assert w.Fields() == old(w.Fields());
      Appear(w);
      o.RegisterPointer(this, w);
    }

    constructor Copy(src: RegisteredPointer, ghost w: World)
      requires w.Valid() && src in w.ptrs
      modifies w, w.objs`head, w.ptrs`next, w.ptrs`prev
      ensures w.Valid() && fresh(this) && Allowed(old(w.View()), CopyNew(this, src))
      ensures w.View() == Apply(old(w.View()), CopyNew(this, src))
      ensures Some(w.Fields()) == Perform(old(w.Fields()), CopyNew(this, src))
      ensures target == old(src.target)
      ensures w.objs == old(w.objs) && w.ptrs == old(w.ptrs) + {this}
    {
      target, next, prev := src.target, None, NoSlot;
      new;
      assert w.Fields() == old(w.Fields());
      assert Placed(w.Fields(), w.lists, src);
      Appear(w);
      RegisterIfSet(w);
    }

    /** Book-keeping: a pointer under construction joins the world, linked to nothing yet. */
    ghost method Appear(w: World)
      requires w.Valid() && this !in w.ptrs && next == None && prev == NoSlot
      requires forall p :: p in w.ptrs ==> p.next != Some(this) && p.prev != NextOf(this)
      modifies w`ptrs
      ensures w.objs == old(w.objs) && w.ptrs == old(w.ptrs) + {this}
      ensures OkBut(w.Fields(), w.lists, this)
      ensures w.View() == old(w.View()).(targets := old(w.View()).targets[this := target])
      ensures w.Fields() == Created(old(w.Fields()), this, target)
    {
      var h := w.Fields();
      w.ptrs := w.ptrs + {this};
      assert w.Fields() == h.(nodes := h.nodes[this := Node(target, None, NoSlot)]);
      NewPointerKeepsLists(h, w.lists, this, target);
    }

    method SetPointerToNull(ghost w: World)
      requires this in w.ptrs
      modifies this`target
      ensures w.Fields() == old(w.Fields()).SetTarget(this, None)
    {
      target := None;
    }

    method SetNextPtr(p: Option<RegisteredPointer>, ghost w: World)
      requires this in w.ptrs
      modifies this`next
      ensures w.Fields() == old(w.Fields()).SetNext(this, p)
    {
      next := p;
    }

    method SetPrevNextPtrPtr(slot: Slot<RegisteredPointer, RegisteredObj>, ghost w: World)
      requires this in w.ptrs
      modifies this`prev
      ensures w.Fields() == old(w.Fields()).SetPrev(this, slot)
    {
      prev := slot;
    }

    /** The field updates of unregister_pointer(). */
    method Unlink(ghost w: World)
      requires CanUnlink(w.Fields(), this)
      modifies w.objs`head, w.ptrs`next, w.ptrs`prev
      ensures w.Fields() == Unregistered(old(w.Fields()), this)
    {
      match prev {
        case HeadOf(obj) => obj.SetHead(next, w);
        case NextOf(node) => node.SetNextPtr(next, w);
      }
      if next.Some? {
        next.value.SetPrevNextPtrPtr(prev, w);
      }
      SetPrevNextPtrPtr(NoSlot, w);
      SetNextPtr(None, w);
    }

    /** Unlinks the pointer from wherever it stands in its target's list. */
    method UnregisterPointer(ghost w: World)
      requires w.Valid() && this in w.ptrs && target.Some?
      modifies w`lists, w.objs`head, w.ptrs`next, w.ptrs`prev
      ensures OkBut(w.Fields(), w.lists, this) && w.View() == old(w.View())
      ensures target.value in old(w.lists)
      ensures var l := old(w.lists)[target.value];
              exists k :: && 0 <= k < |l| && l[k] == this
                          && w.lists == old(w.lists)[target.value := Without(l, k)]
      ensures CanUnlink(old(w.Fields()), this) && w.Fields() == Unregistered(old(w.Fields()), this)
    {
      ghost var o := target.value;
      assert Placed(w.Fields(), w.lists, this);
      ghost var k :| 0 <= k < |w.lists[o]| && w.lists[o][k] == this;
      ListedCanUnlink(w.Fields(), o, w.lists[o], k);
      UnregisterKeepsLists(w.Fields(), w.lists, o, k);
      Unlink(w);
      w.lists := w.lists[o := Without(w.lists[o], k)];
    }

    method Assign(right: RegisteredPointer, ghost w: World)
      requires w.Valid() && this in w.ptrs && right in w.ptrs
      modifies w`lists, w.objs`head, w.ptrs`next, w.ptrs`prev, this`target
      ensures w.Valid() && w.View() == Apply(old(w.View()), WeakStore.Assign(this, right))
      ensures Some(w.Fields()) == Perform(old(w.Fields()), WeakStore.Assign(this, right))
      ensures target == old(right.target)
      ensures w.objs == old(w.objs) && w.ptrs == old(w.ptrs)
    {
      ghost var h, v := w.Fields(), w.View();
      assert Placed(h, w.lists, right);
      UnregisterIfSet(w);
      ghost var h1 := w.Fields();
      assert Some(h1) == Detached(h, this) && h1.nodes[right].target == right.target;
      SetTarget(right.target, w);
      assert w.View() == Apply(v, WeakStore.Assign(this, right));
      RegisterIfSet(w);
    }

    /** The pointer value itself is overwritten while the node is on no list. */
    method SetTarget(t: Option<RegisteredObj>, ghost w: World)
      requires OkBut(w.Fields(), w.lists, this)
      modifies this`target
      ensures target == t && OkBut(w.Fields(), w.lists, this) && w.Fields() == old(w.Fields()).SetTarget(this, t)
      ensures t == None ==> w.Valid()
      ensures w.View() == old(w.View()).(targets := old(w.View()).targets[this := t])
    {
      RetargetKeepsLists(w.Fields(), w.lists, this, t);
      ghost var h := w.Fields();
      target := t;
      assert w.Fields() == h.SetTarget(this, t);
    }

    method UnregisterIfSet(ghost w: World)
      requires w.Valid() && this in w.ptrs
      modifies w`lists, w.objs`head, w.ptrs`next, w.ptrs`prev
      ensures OkBut(w.Fields(), w.lists, this) && w.View() == old(w.View())
      ensures Some(w.Fields()) == Detached(old(w.Fields()), this)
    {
      if target.Some? {
        UnregisterPointer(w);
      } else {
        NullIsUnlinked(w.Fields(), w.lists, this);
      }
    }

    method RegisterIfSet(ghost w: World)
      requires OkBut(w.Fields(), w.lists, this) && (target.Some? ==> target.value in w.objs)
      modifies w`lists, w.objs`head, w.ptrs`next, w.ptrs`prev
      ensures w.Valid() && w.View() == old(w.View())
      ensures Some(w.Fields()) == Attached(old(w.Fields()), this)
    {
      if target.Some? {
        target.value.RegisterPointer(this, w);
      } else {
        RetargetKeepsLists(w.Fields(), w.lists, this, None);
        assert w.Fields() == w.Fields().SetTarget(this, None);
      }
    }

    /** The destructor of a pointer. */
    method Destroy(ghost w: World)
      requires w.Valid() && this in w.ptrs
      modifies w, w.objs`head, w.ptrs`next, w.ptrs`prev
      ensures w.Valid() && w.View() == Apply(old(w.View()), DropPointer(this))
      ensures Some(w.Fields()) == Perform(old(w.Fields()), DropPointer(this))
      ensures w.objs == old(w.objs) && w.ptrs == old(w.ptrs) - {this}
    {
      UnregisterIfSet(w);
      ghost var h := w.Fields();
      DropPointerKeepsLists(h, w.lists, this);
      w.ptrs := w.ptrs - {this};
      assert w.Fields() == h.(nodes := h.nodes - {this});
    }

    /** Deletes the target through the pointer, which ends up null. */
    method DeleteTarget(ghost w: World)
      requires w.Valid() && this in w.ptrs
      modifies w, w.ptrs
      ensures w.Valid() && target == None
      ensures old(target) == None ==> w.View() == old(w.View())
      ensures old(target).Some? ==> old(target).value in old(w.objs)
      ensures old(target).Some? ==> w.View() == Apply(old(w.View()), DropObject(old(target).value))
      ensures old(target).Some? ==> Some(w.Fields()) == Perform(old(w.Fields()), DropObject(old(target).value))
      ensures old(target) == None ==> w.Fields() == old(w.Fields())
      ensures forall p :: p in old(w.ptrs) ==>
                p.target == if old(p.target) == old(target) then None else old(p.target)
    {
      assert Placed(w.Fields(), w.lists, this);
      if target.Some? {
        target.value.Destroy(w);
        assert w.View().targets[this] == None;
      }
    }
  }
}
