/** What the operations on type-erased holders mean: which value each holder has afterwards. */
module AnyContents {
  import opened Options

  /** A type, and whether its values are kept in an allocated cell rather than in the holder itself. */
  datatype Type = Type(id: nat, dynamic: bool)

  datatype Typed<+V> = Typed(kind: Type, value: V)

  type Contents<A, V> = map<A, Option<Typed<V>>>

  datatype Op<A, V> =
    | Empty(a: A)
    | Hold(a: A, v: Typed<V>)
    | Copy(a: A, from: A)
    | Move(a: A, from: A)
    | Destroy(a: A)
    | Clear(a: A)
    | AssignCopy(a: A, from: A)
    | AssignMove(a: A, from: A)
    | AssignValue(a: A, v: Typed<V>)
    | Swap(a: A, from: A)

  ghost predicate Allowed<A, V>(c: Contents<A, V>, op: Op<A, V>) {
    if op.Empty? || op.Hold? || op.Copy? || op.Move? then
      op.a !in c && (op.Copy? || op.Move? ==> op.from in c)
    else
      op.a in c && (op.AssignCopy? || op.AssignMove? || op.Swap? ==> op.from in c)
  }

  ghost function Apply<A, V>(c: Contents<A, V>, op: Op<A, V>): Contents<A, V>
    requires Allowed(c, op)
  {
    match op
    case Empty(a) => c[a := None]
    case Hold(a, v) => c[a := Some(v)]
    case Copy(a, from) => c[a := c[from]]
    case Move(a, from) => c[a := c[from]][from := None]
    case Destroy(a) => c - {a}
    case Clear(a) => c[a := None]
    case AssignCopy(a, from) => c[a := c[from]]
    case AssignMove(a, from) => c[from := None][a := c[from]]
    case AssignValue(a, v) => c[a := Some(v)]
    case Swap(a, from) => c[a := c[from]][from := c[a]]
  }

  // ----- where the values go

  ghost function Holders<A, V>(c: Contents<A, V>, v: Typed<V>): set<A> {
    set a | a in c && c[a] == Some(v)
  }

  /** One if the holder exists and has that value. */
  ghost function Has<A, V>(c: Contents<A, V>, a: A, v: Typed<V>): int {
    if a in c && c[a] == Some(v) then 1 else 0
  }

  lemma HoldersAfterSet<A, V>(c: Contents<A, V>, a: A, x: Option<Typed<V>>, v: Typed<V>)
    ensures |Holders(c[a := x], v)| == |Holders(c, v)| - Has(c, a, v) + (if x == Some(v) then 1 else 0)
  {
    var before, after := Holders(c, v), Holders(c[a := x], v);
    assert after == before - {a} + (if x == Some(v) then {a} else {});
  }

  lemma HoldersAfterDestroy<A, V>(c: Contents<A, V>, a: A, v: Typed<V>)
    ensures |Holders(c - {a}, v)| == |Holders(c, v)| - Has(c, a, v)
  {
    assert Holders(c - {a}, v) == Holders(c, v) - {a};
  }

  /** How many more holders have the value after the operation than before. */
  ghost function Gain<A, V>(c: Contents<A, V>, op: Op<A, V>, v: Typed<V>): int {
    match op
    case Empty(_) | Move(_, _) | Swap(_, _) => 0
    case Hold(_, x) => if x == v then 1 else 0
    case Copy(_, from) => Has(c, from, v)
    case Destroy(a) => -Has(c, a, v)
    case Clear(a) => -Has(c, a, v)
    case AssignCopy(a, from) => Has(c, from, v) - Has(c, a, v)
    case AssignMove(a, from) => if a == from then 0 else -Has(c, a, v)
    case AssignValue(a, x) => (if x == v then 1 else 0) - Has(c, a, v)
  }

  lemma StepBalance<A, V>(c: Contents<A, V>, op: Op<A, V>, v: Typed<V>)
    requires Allowed(c, op)
    ensures |Holders(Apply(c, op), v)| == |Holders(c, v)| + Gain(c, op, v)
  {
    match op
    case Move(a, from) =>
      HoldersAfterSet(c, a, c[from], v);
      HoldersAfterSet(c[a := c[from]], from, None, v);
    case Destroy(a) =>
      HoldersAfterDestroy(c, a, v);
    case AssignMove(a, from) =>
      HoldersAfterSet(c, from, None, v);
      HoldersAfterSet(c[from := None], a, c[from], v);
    case Swap(a, from) =>
      HoldersAfterSet(c, a, c[from], v);
      HoldersAfterSet(c[a := c[from]], from, c[a], v);
    case _ =>
      HoldersAfterSet(c, op.a, Apply(c, op)[op.a], v);
  }

  // ----- whole runs

  ghost predicate IsRun<A, V>(c: Contents<A, V>, ops: seq<Op<A, V>>)
    decreases |ops|
  {
    ops == [] || (Allowed(c, ops[0]) && IsRun(Apply(c, ops[0]), ops[1..]))
  }

  ghost function Final<A, V>(c: Contents<A, V>, ops: seq<Op<A, V>>): Contents<A, V>
    requires IsRun(c, ops)
    decreases |ops|
  {
    if ops == [] then c else Final(Apply(c, ops[0]), ops[1..])
  }

  /** An operation that neither makes a value nor discards one. */
  ghost predicate OnlyMoves<A, V>(op: Op<A, V>) {
    op.Empty? || op.Move? || op.Swap? || (op.AssignMove? && op.a == op.from)
  }

  /** Moving and exchanging duplicates nothing and loses nothing. */
  lemma {:induction false} MovesConserve<A, V>(c: Contents<A, V>, ops: seq<Op<A, V>>, v: Typed<V>)
    requires IsRun(c, ops) && forall i :: 0 <= i < |ops| ==> OnlyMoves(ops[i])
    ensures |Holders(Final(c, ops), v)| == |Holders(c, v)|
    decreases |ops|
  {
    if ops != [] {
      assert OnlyMoves(ops[0]);
      StepBalance(c, ops[0], v);
      MovesConserve(Apply(c, ops[0]), ops[1..], v);
    }
  }

  // ----- where a value comes from

  lemma {:induction false} RunOfFront<A, V>(c: Contents<A, V>, ops: seq<Op<A, V>>)
    requires IsRun(c, ops) && ops != []
    ensures var front, last := ops[..|ops| - 1], ops[|ops| - 1];
            IsRun(c, front) && Allowed(Final(c, front), last) && Final(c, ops) == Apply(Final(c, front), last)
    decreases |ops|
  {
    if |ops| > 1 {
      RunOfFront(Apply(c, ops[0]), ops[1..]);
      assert ops[1..][..|ops| - 2] == ops[..|ops| - 1][1..];
    }
  }

  /** The value that was put somewhere and has come to this holder through copies, moves and exchanges. */
  ghost function ValueBy<A, V>(ops: seq<Op<A, V>>, x: A): Option<Typed<V>> {
    if ops == [] then None
    else
      var front, last := ops[..|ops| - 1], ops[|ops| - 1];
      if (last.Hold? || last.AssignValue?) && last.a == x then Some(last.v)
      else if (last.Empty? || last.Clear?) && last.a == x then None
      else if (last.Copy? || last.Move? || last.AssignCopy? || last.AssignMove? || last.Swap?) && last.a == x then
        ValueBy(front, last.from)
      else if (last.Move? || last.AssignMove?) && last.from == x then None
      else if last.Swap? && last.from == x then ValueBy(front, last.a)
      else ValueBy(front, x)
  }

  /** Every holder that a run from nothing leaves has the value that came to it. */
  lemma {:induction false} ContentsAreHistory<A, V>(ops: seq<Op<A, V>>, x: A)
    requires IsRun<A, V>(map[], ops) && x in Final<A, V>(map[], ops)
    ensures Final<A, V>(map[], ops)[x] == ValueBy(ops, x)
    decreases |ops|
  {
    if ops != [] {
      RunOfFront<A, V>(map[], ops);
      var front, last := ops[..|ops| - 1], ops[|ops| - 1];
      var c := Final<A, V>(map[], front);
      if x in c {
        ContentsAreHistory(front, x);
      }
      if !last.Empty? && !last.Hold? && !last.Destroy? && !last.Clear? && !last.AssignValue? {
        ContentsAreHistory(front, last.from);
      }
      if last.Swap? {
        ContentsAreHistory(front, last.a);
      }
    }
  }
}
