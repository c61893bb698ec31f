/**
 * The intrusive lists of registered pointers, as a heap of fields.  A node's back link is not the previous
 * node but the slot that points to the node: the head inside the object, or the next field of another node.
 */
module PointerLists {
  import opened Options
  import opened WeakStore

  datatype Slot<P, O> = NoSlot | HeadOf(obj: O) | NextOf(node: P)

  datatype Node<P, O> = Node(target: Option<O>, next: Option<P>, prev: Slot<P, O>)

  datatype Heap<!P, !O> = Heap(heads: map<O, Option<P>>, nodes: map<P, Node<P, O>>)
  {
    function SetHead(o: O, p: Option<P>): Heap<P, O> {
      this.(heads := heads[o := p])
    }

    function SetTarget(p: P, o: Option<O>): Heap<P, O>
      requires p in nodes
    {
      this.(nodes := nodes[p := nodes[p].(target := o)])
    }

    function SetNext(p: P, next: Option<P>): Heap<P, O>
      requires p in nodes
    {
      this.(nodes := nodes[p := nodes[p].(next := next)])
    }

    function SetPrev(p: P, prev: Slot<P, O>): Heap<P, O>
      requires p in nodes
    {
      this.(nodes := nodes[p := nodes[p].(prev := prev)])
    }
  }

  /** The order in which each object's list holds its pointers. */
  type Lists<!P, !O> = map<O, seq<P>>

  function At<P>(l: seq<P>, i: nat): Option<P> {
    if i < |l| then Some(l[i]) else None
  }

  /** The node that belongs at position `i` of the list of `o`. */
  function NodeAt<P, O>(o: O, l: seq<P>, i: nat): Node<P, O>
    requires i < |l|
  {
    Node(Some(o), At(l, i + 1), if i == 0 then HeadOf(o) else NextOf(l[i - 1]))
  }

  predicate Linked<P(==), O(==)>(h: Heap<P, O>, o: O, l: seq<P>, i: nat)
    requires i < |l|
  {
    l[i] in h.nodes && h.nodes[l[i]] == NodeAt(o, l, i)
  }

  predicate Differ<P(==)>(l: seq<P>, i: nat, j: nat)
    requires i < |l| && j < |l|
  {
    l[i] != l[j]
  }

  ghost predicate Distinct<P>(l: seq<P>) {
    forall i, j {:trigger Differ(l, i, j)} :: 0 <= i < j < |l| ==> Differ(l, i, j)
  }

  lemma SameIndex<P>(l: seq<P>, i: nat, j: nat)
    requires Distinct(l) && i < |l| && j < |l|
    ensures l[i] == l[j] <==> i == j
  {
    assert i < j ==> Differ(l, i, j);
    assert j < i ==> Differ(l, j, i);
  }

  ghost predicate Chain<P, O>(h: Heap<P, O>, o: O, l: seq<P>) {
    && (o in h.heads && h.heads[o] == At(l, 0))
    && (forall i {:trigger Linked(h, o, l, i)} :: 0 <= i < |l| ==> Linked(h, o, l, i))
    && Distinct(l)
  }

  /** A pointer with a target is on that object's list; one without is linked to nothing. */
  ghost predicate Placed<P, O>(h: Heap<P, O>, lists: Lists<P, O>, p: P)
    requires p in h.nodes
  {
    match h.nodes[p].target
    case None => h.nodes[p] == Node(None, None, NoSlot)
    case Some(o) => o in lists && p in lists[o]
  }

  ghost predicate Ok<P, O>(h: Heap<P, O>, lists: Lists<P, O>) {
    && lists.Keys == h.heads.Keys
    && (forall o {:trigger Chain(h, o, lists[o])} :: o in lists ==> Chain(h, o, lists[o]))
    && (forall p {:trigger Placed(h, lists, p)} :: p in h.nodes ==> Placed(h, lists, p))
  }

  /** The lists are exact, except that `p` is linked to nothing whatever its target. */
  ghost predicate OkBut<P, O>(h: Heap<P, O>, lists: Lists<P, O>, p: P) {
    && lists.Keys == h.heads.Keys
    && (forall o {:trigger Chain(h, o, lists[o])} :: o in lists ==> Chain(h, o, lists[o]) && p !in lists[o])
    && (forall q {:trigger Placed(h, lists, q)} :: q in h.nodes && q != p ==> Placed(h, lists, q))
    && p in h.nodes && h.nodes[p].next == None && h.nodes[p].prev == NoSlot
  }

  /** What the heap means: live objects, and the target of each live pointer. */
  function StoreOf<P, O>(h: Heap<P, O>): Store<P, O> {
    Store(h.heads.Keys, map p | p in h.nodes :: h.nodes[p].target)
  }

  lemma OkMeansNoDangling<P, O>(h: Heap<P, O>, lists: Lists<P, O>)
    requires Ok(h, lists)
    ensures NoDangling(StoreOf(h))
  {
    forall p | p in h.nodes && h.nodes[p].target.Some?
      ensures h.nodes[p].target.value in h.heads
    {
      assert Placed(h, lists, p);
    }
  }

  /** Each object's list holds exactly the pointers that target it, once each. */
  lemma ListIsExact<P, O>(h: Heap<P, O>, lists: Lists<P, O>, o: O, p: P)
    requires Ok(h, lists) && o in lists && p in h.nodes
    ensures multiset(lists[o])[p] == if h.nodes[p].target == Some(o) then 1 else 0
  {
    var l := lists[o];
    assert Chain(h, o, l) && Placed(h, lists, p);
    CountInDistinct(l, p);
    if p in l {
      var k :| 0 <= k < |l| && l[k] == p;
      assert Linked(h, o, l, k);
    }
  }

  lemma {:induction false} CountInDistinct<P>(l: seq<P>, p: P)
    requires Distinct(l)
    ensures multiset(l)[p] == if p in l then 1 else 0
  {
    if |l| > 0 {
      var rest := l[1..];
      forall i, j | 0 <= i < j < |rest| ensures Differ(rest, i, j) {
        assert Differ(l, i + 1, j + 1);
      }
      CountInDistinct(rest, p);
      assert l == [l[0]] + rest;
      if l[0] in rest {
        var j :| 0 <= j < |rest| && rest[j] == l[0];
        assert Differ(l, 0, j + 1);
      }
    }
  }

  /** Walking the links from the head slot passes the list's pointers in order and then ends. */
  function Walk<P, O>(h: Heap<P, O>, from: Option<P>, steps: nat): (r: Option<P>)
    decreases steps
  {
    if steps == 0 || from == None then from
    else if from.value !in h.nodes then None
    else Walk(h, h.nodes[from.value].next, steps - 1)
  }

  lemma {:induction false} WalkFollowsList<P, O>(h: Heap<P, O>, o: O, l: seq<P>, from: nat, steps: nat)
    requires Chain(h, o, l) && from <= |l|
    ensures Walk(h, At(l, from), steps) == At(l, from + steps)
    decreases steps
  {
    if steps > 0 && from < |l| {
      assert Linked(h, o, l, from);
      WalkFollowsList(h, o, l, from + 1, steps - 1);
    }
  }

  function ReadSlot<P, O>(h: Heap<P, O>, slot: Slot<P, O>): Option<P> {
    match slot
    case NoSlot => None
    case HeadOf(o) => if o in h.heads then h.heads[o] else None
    case NextOf(n) => if n in h.nodes then h.nodes[n].next else None
  }

  /** A pointer with a target is what its back link's slot points to, and no other slot points to it. */
  lemma BackLinkIsTheSlot<P, O>(h: Heap<P, O>, lists: Lists<P, O>, p: P, slot: Slot<P, O>)
    requires Ok(h, lists) && p in h.nodes && h.nodes[p].target.Some?
    ensures ReadSlot(h, slot) == Some(p) <==> slot == h.nodes[p].prev
  {
    assert Placed(h, lists, p);
    var o := h.nodes[p].target.value;
    var l := lists[o];
    assert Chain(h, o, l);
    var k :| 0 <= k < |l| && l[k] == p;
    assert Linked(h, o, l, k);
    if k > 0 {
      assert Linked(h, o, l, k - 1);
    }
    if ReadSlot(h, slot) == Some(p) {
      SlotOfListed(h, lists, slot, p);
    }
  }

  lemma SlotOfListed<P, O>(h: Heap<P, O>, lists: Lists<P, O>, slot: Slot<P, O>, p: P)
    requires Ok(h, lists) && p in h.nodes && ReadSlot(h, slot) == Some(p)
    ensures slot == h.nodes[p].prev
  {
    match slot
    case HeadOf(u) =>
      assert Chain(h, u, lists[u]);
      assert Linked(h, u, lists[u], 0);
    case NextOf(n) =>
      assert Placed(h, lists, n);
      var u := h.nodes[n].target.value;
      var l := lists[u];
      assert Chain(h, u, l);
      var j :| 0 <= j < |l| && l[j] == n;
      assert Linked(h, u, l, j);
      assert Linked(h, u, l, j + 1);
  }

  // ----- register_pointer()

  function Registered<P(==), O(==)>(h: Heap<P, O>, o: O, p: P): Heap<P, O>
    requires o in h.heads && p in h.nodes && (h.heads[o].Some? ==> h.heads[o].value in h.nodes)
  {
    var h1 := if h.heads[o].Some? then h.SetPrev(h.heads[o].value, NextOf(p)) else h;
    h1.SetNext(p, h.heads[o]).SetPrev(p, HeadOf(o)).SetHead(o, Some(p))
  }

  /** The list's head can be dereferenced. */
  lemma HeadIsNode<P, O>(h: Heap<P, O>, lists: Lists<P, O>, o: O)
    requires o in lists && Chain(h, o, lists[o])
    ensures h.heads[o].Some? ==> h.heads[o].value in h.nodes
  {
    if |lists[o]| > 0 {
      assert Linked(h, o, lists[o], 0);
    }
  }

  /** Registering changes the new node, the old head's back link and the head; nothing else. */
  lemma RegisteredNodes<P, O>(h: Heap<P, O>, o: O, p: P, q: P)
    requires o in h.heads && p in h.nodes && q in h.nodes && h.heads[o] != Some(p)
    requires h.heads[o].Some? ==> h.heads[o].value in h.nodes
    ensures var h' := Registered(h, o, p);
            && h'.nodes.Keys == h.nodes.Keys
            && h'.nodes[q] == if q == p then Node(h.nodes[p].target, h.heads[o], HeadOf(o))
                              else if h.heads[o] == Some(q) then h.nodes[q].(prev := NextOf(p))
                              else h.nodes[q]
  {
  }

  lemma RegisteredChain<P, O>(h: Heap<P, O>, o: O, l: seq<P>, p: P)
    requires Chain(h, o, l) && p in h.nodes && p !in l && h.nodes[p].target == Some(o)
    requires h.heads[o].Some? ==> h.heads[o].value in h.nodes
    ensures Chain(Registered(h, o, p), o, [p] + l)
  {
    var h', l' := Registered(h, o, p), [p] + l;
    forall i, j | 0 <= i < j < |l'| ensures Differ(l', i, j) {
      assert i > 0 ==> Differ(l, i - 1, j - 1);
    }
    forall i | 0 <= i < |l'| ensures Linked(h', o, l', i) {
      if i > 0 {
        assert Linked(h, o, l, i - 1);
        SameIndex(l, 0, i - 1);
      }
      RegisteredNodes(h, o, p, l'[i]);
    }
  }

  lemma RegisteredElsewhere<P, O>(h: Heap<P, O>, lists: Lists<P, O>, o: O, p: P, u: O)
    requires OkBut(h, lists, p) && o in lists && u in lists && u != o
    requires h.heads[o].Some? ==> h.heads[o].value in h.nodes
    ensures Chain(Registered(h, o, p), u, lists[u])
  {
    var h', l := Registered(h, o, p), lists[u];
    assert Chain(h, o, lists[o]) && Chain(h, u, l);
    OtherListsApart(h, lists, o, u);
    forall i | 0 <= i < |l| ensures Linked(h', u, l, i) {
      assert Linked(h, u, l, i);
      RegisteredNodes(h, o, p, l[i]);
    }
  }

  lemma RegisterKeepsLists<P, O>(h: Heap<P, O>, lists: Lists<P, O>, o: O, p: P)
    requires OkBut(h, lists, p) && o in lists && h.nodes[p].target == Some(o)
    requires h.heads[o].Some? ==> h.heads[o].value in h.nodes
    ensures Ok(Registered(h, o, p), lists[o := [p] + lists[o]])
    ensures StoreOf(Registered(h, o, p)) == StoreOf(h)
  {
    var h', lists' := Registered(h, o, p), lists[o := [p] + lists[o]];
    assert Chain(h, o, lists[o]);
    RegisteredChain(h, o, lists[o], p);
    forall u | u in lists && u != o ensures Chain(h', u, lists[u]) {
      RegisteredElsewhere(h, lists, o, p, u);
    }
    forall q | q in h.nodes
      ensures Placed(h', lists', q) && h'.nodes[q].target == h.nodes[q].target
    {
      RegisteredNodes(h, o, p, q);
      if q == p {
        assert p == lists'[o][0];
      } else {
        assert Placed(h, lists, q);
        if h.nodes[q].target == None {
          NoneIsUnlinked(h, lists, q, o);
        }
      }
    }
  }

  /** Lists of different objects have no pointer in common. */
  lemma OtherListsApart<P, O>(h: Heap<P, O>, lists: Lists<P, O>, o: O, u: O)
    requires o in lists && u in lists && o != u
    requires Chain(h, o, lists[o]) && Chain(h, u, lists[u])
    ensures forall i, j :: 0 <= i < |lists[o]| && 0 <= j < |lists[u]| ==> lists[o][i] != lists[u][j]
  {
    forall i, j | 0 <= i < |lists[o]| && 0 <= j < |lists[u]| ensures lists[o][i] != lists[u][j] {
      assert Linked(h, o, lists[o], i) && Linked(h, u, lists[u], j);
    }
  }

  lemma NoneIsUnlinked<P, O>(h: Heap<P, O>, lists: Lists<P, O>, q: P, o: O)
    requires q in h.nodes && h.nodes[q].target == None && o in lists && Chain(h, o, lists[o])
    ensures q !in lists[o]
  {
    forall k | 0 <= k < |lists[o]| ensures lists[o][k] != q {
      assert Linked(h, o, lists[o], k);
    }
  }

  // ----- unregister_pointer()

  /** The assignment through a back link. */
  function WriteSlot<P(==), O(==)>(h: Heap<P, O>, slot: Slot<P, O>, v: Option<P>): Heap<P, O>
    requires slot.NextOf? ==> slot.node in h.nodes
  {
    match slot
    case NoSlot => h
    case HeadOf(o) => h.SetHead(o, v)
    case NextOf(n) => h.SetNext(n, v)
  }

  predicate CanUnlink<P(==), O>(h: Heap<P, O>, p: P) {
    && p in h.nodes
    && h.nodes[p].prev != NoSlot
    && (h.nodes[p].prev.HeadOf? ==> h.nodes[p].prev.obj in h.heads)
    && (h.nodes[p].prev.NextOf? ==> h.nodes[p].prev.node in h.nodes && h.nodes[p].prev.node != p)
    && (h.nodes[p].next.Some? ==> h.nodes[p].next.value in h.nodes && h.nodes[p].next.value != p)
  }

  function Unregistered<P(==), O(==)>(h: Heap<P, O>, p: P): Heap<P, O>
    requires CanUnlink(h, p)
  {
    var n := h.nodes[p];
    var h1 := WriteSlot(h, n.prev, n.next);
    var h2 := if n.next.Some? then h1.SetPrev(n.next.value, n.prev) else h1;
    h2.SetPrev(p, NoSlot).SetNext(p, None)
  }

  function Without<P>(l: seq<P>, k: nat): seq<P>
    requires k < |l|
  {
    l[..k] + l[k + 1..]
  }

  lemma ListedCanUnlink<P, O>(h: Heap<P, O>, o: O, l: seq<P>, k: nat)
    requires Chain(h, o, l) && k < |l|
    ensures CanUnlink(h, l[k])
  {
    assert Linked(h, o, l, k);
    if k > 0 {
      assert Linked(h, o, l, k - 1) && Differ(l, k - 1, k);
    }
    if k + 1 < |l| {
      assert Linked(h, o, l, k + 1) && Differ(l, k, k + 1);
    }
  }

  /** Unlinking changes the node itself, the slot before it and the back link after it; nothing else. */
  lemma UnregisteredNodes<P, O>(h: Heap<P, O>, p: P, q: P)
    requires CanUnlink(h, p) && q in h.nodes
    ensures var h' := Unregistered(h, p);
            var n := h.nodes[p];
            && h'.nodes.Keys == h.nodes.Keys
            && h'.heads == (if n.prev.HeadOf? then h.heads[n.prev.obj := n.next] else h.heads)
            && h'.nodes[q] == if q == p then Node(n.target, None, NoSlot)
                              else Node(h.nodes[q].target,
                                        if n.prev == NextOf(q) then n.next else h.nodes[q].next,
                                        if n.next == Some(q) then n.prev else h.nodes[q].prev)
  {
  }

  /** Unlinking from any position leaves a list that is exact again. */
  lemma UnlinkedChain<P, O>(h: Heap<P, O>, o: O, l: seq<P>, k: nat)
    requires Chain(h, o, l) && k < |l| && CanUnlink(h, l[k])
    ensures Chain(Unregistered(h, l[k]), o, Without(l, k))
    ensures l[k] !in Without(l, k)
  {
    var p := l[k];
    var h', l' := Unregistered(h, p), Without(l, k);
    assert Linked(h, o, l, k);
    forall i, j | 0 <= i < j < |l'| ensures Differ(l', i, j) {
      SameIndex(l, if i < k then i else i + 1, if j < k then j else j + 1);
    }
    forall i | 0 <= i < |l'| ensures Linked(h', o, l', i) && l'[i] != p {
      var j := if i < k then i else i + 1;
      assert l'[i] == l[j] && Linked(h, o, l, j);
      UnregisteredNodes(h, p, l[j]);
      SameIndex(l, j, k);
      if k > 0 {
        SameIndex(l, j, k - 1);
      }
      if k + 1 < |l| {
        SameIndex(l, j, k + 1);
      }
    }
    UnregisteredNodes(h, p, p);
  }

  lemma UnlinkedElsewhere<P, O>(h: Heap<P, O>, lists: Lists<P, O>, o: O, k: nat, u: O)
    requires Ok(h, lists) && o in lists && k < |lists[o]| && u in lists && u != o
    requires CanUnlink(h, lists[o][k])
    ensures Chain(Unregistered(h, lists[o][k]), u, lists[u])
    ensures lists[o][k] !in lists[u]
  {
    var p, l := lists[o][k], lists[u];
    var h' := Unregistered(h, p);
    assert Chain(h, o, lists[o]) && Chain(h, u, l);
    OtherListsApart(h, lists, o, u);
    assert Linked(h, o, lists[o], k);
    UnregisteredNodes(h, p, p);
    if k > 0 {
      assert Linked(h, o, lists[o], k - 1);
    }
    if k + 1 < |lists[o]| {
      assert Linked(h, o, lists[o], k + 1);
    }
    forall i | 0 <= i < |l| ensures Linked(h', u, l, i) {
      assert Linked(h, u, l, i);
      UnregisteredNodes(h, p, l[i]);
    }
  }

  lemma UnregisterKeepsLists<P, O>(h: Heap<P, O>, lists: Lists<P, O>, o: O, k: nat)
    requires Ok(h, lists) && o in lists && k < |lists[o]| && CanUnlink(h, lists[o][k])
    ensures var p := lists[o][k];
            && OkBut(Unregistered(h, p), lists[o := Without(lists[o], k)], p)
            && StoreOf(Unregistered(h, p)) == StoreOf(h)
  {
    var l := lists[o];
    var p := l[k];
    var h', l' := Unregistered(h, p), Without(l, k);
    assert Chain(h, o, l);
    assert Linked(h, o, l, k);
    UnlinkedChain(h, o, l, k);
    UnregisteredNodes(h, p, p);
    forall u | u in lists && u != o ensures Chain(h', u, lists[u]) && p !in lists[u] {
      UnlinkedElsewhere(h, lists, o, k, u);
    }
    forall q | q in h.nodes && q != p
      ensures Placed(h', lists[o := l'], q) && h'.nodes[q].target == h.nodes[q].target
    {
      UnregisteredNodes(h, p, q);
      UnlinkedPlacement(h, lists, o, k, q);
    }
  }

  lemma UnlinkedPlacement<P, O>(h: Heap<P, O>, lists: Lists<P, O>, o: O, k: nat, q: P)
    requires Ok(h, lists) && o in lists && k < |lists[o]| && CanUnlink(h, lists[o][k])
    requires q in h.nodes && q != lists[o][k]
    ensures Placed(Unregistered(h, lists[o][k]), lists[o := Without(lists[o], k)], q)
  {
    var l := lists[o];
    assert Chain(h, o, l) && Placed(h, lists, q);
    assert Linked(h, o, l, k);
    UnregisteredNodes(h, l[k], q);
    if h.nodes[q].target == Some(o) {
      var j :| 0 <= j < |l| && l[j] == q;
      assert Without(l, k)[if j < k then j else j - 1] == q;
    } else if h.nodes[q].target == None {
      NoneIsUnlinked(h, lists, q, o);
      if k > 0 {
        assert l[k - 1] in l;
      }
      if k + 1 < |l| {
        assert l[k + 1] in l;
      }
    }
  }

  // ----- changing a detached pointer's target

  lemma RetargetKeepsLists<P, O>(h: Heap<P, O>, lists: Lists<P, O>, p: P, t: Option<O>)
    requires OkBut(h, lists, p)
    ensures OkBut(h.SetTarget(p, t), lists, p)
    ensures t == None ==> Ok(h.SetTarget(p, t), lists)
  {
    var h' := h.SetTarget(p, t);
    forall o | o in lists ensures Chain(h', o, lists[o]) && p !in lists[o] {
      assert Chain(h, o, lists[o]);
      forall i | 0 <= i < |lists[o]| ensures Linked(h', o, lists[o], i) {
        assert Linked(h, o, lists[o], i);
      }
    }
    forall q | q in h'.nodes && q != p ensures Placed(h', lists, q) {
      assert Placed(h, lists, q);
    }
  }

  // ----- the destructor of an object

  /** The heap after the pointers in `l` have been cleared. */
  function Cleared<P(==), O>(h: Heap<P, O>, l: seq<P>): Heap<P, O> {
    h.(nodes := map p | p in h.nodes :: if p in l then Node(None, None, NoSlot) else h.nodes[p])
  }

  /** One round of the destructor's loop. */
  lemma ClearedNext<P, O>(h: Heap<P, O>, o: O, l: seq<P>, i: nat)
    requires Chain(h, o, l) && i < |l|
    ensures var c := Cleared(h, l[..i]);
            && l[i] in c.nodes && c.nodes[l[i]] == NodeAt(o, l, i)
            && c.SetTarget(l[i], None).SetPrev(l[i], NoSlot).SetNext(l[i], None) == Cleared(h, l[..i + 1])
  {
    assert Linked(h, o, l, i);
    forall j | 0 <= j < i ensures l[j] != l[i] {
      SameIndex(l, i, j);
    }
    assert l[..i + 1] == l[..i] + [l[i]];
  }

  lemma DestroyKeepsLists<P, O>(h: Heap<P, O>, lists: Lists<P, O>, o: O)
    requires Ok(h, lists) && o in lists
    ensures var h' := Cleared(h, lists[o]);
            var gone := h'.(heads := h'.heads - {o});
            && Ok(gone, lists - {o})
            && StoreOf(gone) == Apply(StoreOf(h), DropObject(o))
  {
    var l := lists[o];
    var h' := Cleared(h, l);
    var gone := h'.(heads := h'.heads - {o});
    assert Chain(h, o, l);
    forall u | u in lists && u != o ensures Chain(gone, u, lists[u]) {
      OtherListsApart(h, lists, o, u);
      forall i | 0 <= i < |lists[u]| ensures Linked(gone, u, lists[u], i) {
        assert Linked(h, u, lists[u], i);
      }
    }
    forall p | p in h.nodes
      ensures Placed(gone, lists - {o}, p)
      ensures p in l <==> h.nodes[p].target == Some(o)
    {
      assert Placed(h, lists, p);
      if p in l {
        var k :| 0 <= k < |l| && l[k] == p;
        assert Linked(h, o, l, k);
      }
    }
  }

  // ----- objects and pointers coming and going

  lemma NewObjectKeepsLists<P, O>(h: Heap<P, O>, lists: Lists<P, O>, o: O)
    requires Ok(h, lists) && o !in h.heads
    ensures Ok(h.SetHead(o, None), lists[o := []])
  {
    var h' := h.SetHead(o, None);
    forall u | u in lists ensures Chain(h', u, lists[u]) {
      assert Chain(h, u, lists[u]);
      forall i | 0 <= i < |lists[u]| ensures lists[u][i] in h.nodes {
        assert Linked(h, u, lists[u], i);
      }
      ChainIsLocal(h, h', u, lists[u]);
    }
    forall p | p in h.nodes ensures Placed(h', lists[o := []], p) {
      assert Placed(h, lists, p);
    }
  }

  /** A chain only depends on its own head and its own nodes. */
  lemma ChainIsLocal<P, O>(h: Heap<P, O>, h': Heap<P, O>, o: O, l: seq<P>)
    requires Chain(h, o, l)
    requires o in h'.heads && h'.heads[o] == h.heads[o]
    requires forall p :: p in l ==> p in h'.nodes && (p in h.nodes ==> h'.nodes[p] == h.nodes[p])
    ensures Chain(h', o, l)
  {
    forall i | 0 <= i < |l| ensures Linked(h', o, l, i) {
      assert Linked(h, o, l, i);
      assert l[i] in l;
    }
  }

  lemma NewPointerKeepsLists<P, O>(h: Heap<P, O>, lists: Lists<P, O>, p: P, t: Option<O>)
    requires Ok(h, lists) && p !in h.nodes
    ensures OkBut(h.(nodes := h.nodes[p := Node(t, None, NoSlot)]), lists, p)
  {
    var h' := h.(nodes := h.nodes[p := Node(t, None, NoSlot)]);
    forall o | o in lists ensures Chain(h', o, lists[o]) && p !in lists[o] {
      assert Chain(h, o, lists[o]);
      forall i | 0 <= i < |lists[o]| ensures lists[o][i] in h.nodes {
        assert Linked(h, o, lists[o], i);
      }
      ChainIsLocal(h, h', o, lists[o]);
    }
    forall q | q in h.nodes ensures Placed(h', lists, q) {
      assert Placed(h, lists, q);
    }
  }

  lemma DropPointerKeepsLists<P, O>(h: Heap<P, O>, lists: Lists<P, O>, p: P)
    requires OkBut(h, lists, p)
    ensures Ok(h.(nodes := h.nodes - {p}), lists)
  {
    var h' := h.(nodes := h.nodes - {p});
    forall o | o in lists ensures Chain(h', o, lists[o]) {
      assert Chain(h, o, lists[o]);
      forall i | 0 <= i < |lists[o]| ensures lists[o][i] in h.nodes {
        assert Linked(h, o, lists[o], i);
      }
      ChainIsLocal(h, h', o, lists[o]);
    }
    forall q | q in h'.nodes ensures Placed(h', lists, q) {
      assert Placed(h, lists, q);
    }
  }

  lemma NullIsUnlinked<P, O>(h: Heap<P, O>, lists: Lists<P, O>, p: P)
    requires Ok(h, lists) && p in h.nodes && h.nodes[p].target == None
    ensures OkBut(h, lists, p)
  {
    assert Placed(h, lists, p);
    forall o | o in lists ensures p !in lists[o] {
      NoneIsUnlinked(h, lists, p, o);
    }
  }
}
