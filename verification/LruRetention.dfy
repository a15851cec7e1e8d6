// What a least-recently-used cache keeps: nothing leaves it but by deletion or eviction, and only
// what has fallen behind a full list of others is evicted.
module LruRetention {
  import opened Basics
  import opened LruCache
  import opened LruLaws

  // What a deletion takes away.
  ghost function Dropped<T>(order: Order<T>, id: Id): set<Element<T>> {
    if Has(order, id) then {order[Find(order, id)]} else {}
  }

  // Every element that was ever deleted.
  ghost function Deleted<T>(c: int, ops: seq<Op<T>>): set<Element<T>> {
    if ops == [] then {}
    else
      var before, op := ops[..|ops| - 1], ops[|ops| - 1];
      Deleted(c, before) + if op.DeleteOp? then Dropped(Run(c, before), op.id) else {}
  }

  lemma StepKeeps<T>(c: int, order: Order<T>, op: Op<T>, e: Element<T>)
    requires e in order
    ensures || e in Step(c, order, op)
            || (op.AddOp? && e in PushedOut(c, order))
            || (op.DeleteOp? && e in Dropped(order, op.id))
  {
    var i :| 0 <= i < |order| && order[i] == e;
    match op
    case AddOp(x) =>
      if i < |order| - 1 {
        assert Evict(order)[i] == e;
      }
    case GetOp(id) => RemoveKeeps(order, id, e);
    case DeleteOp(id) => RemoveKeeps(order, id, e);
  }

  lemma RemoveKeeps<T>(order: Order<T>, id: Id, e: Element<T>)
    requires e in order
    ensures e in RemoveFirst(order, id) || (Has(order, id) && e == order[Find(order, id)])
  {
    var k := Find(order, id);
    var i :| 0 <= i < |order| && order[i] == e;
    if k < |order| {
      assert i < k ==> order[..k][i] == e;
      assert i > k ==> order[k + 1..][i - k - 1] == e;
    }
  }

  // Over every run: whatever was added is in the cache, or was evicted, or was deleted.
  lemma {:induction false} NothingVanishes<T>(c: int, ops: seq<Op<T>>, e: Element<T>)
    requires Added(ops, e)
    ensures e in Run(c, ops) || e in Evicted(c, ops) || e in Deleted(c, ops)
    decreases |ops|
  {
    var before, op := ops[..|ops| - 1], ops[|ops| - 1];
    if op == AddOp(e) {
      assert Step(c, Run(c, before), op)[0] == e;
    } else {
      var i :| 0 <= i < |ops| && ops[i] == AddOp(e);
      assert before[i] == AddOp(e);
      NothingVanishes(c, before, e);
      if e in Run(c, before) {
        StepKeeps(c, Run(c, before), op, e);
      }
    }
  }

  // An operation evicts only if the list then holds as many elements as the capacity allows.
  lemma EvictsOnlyWhenFull<T>(c: int, ops: seq<Op<T>>, e: Element<T>)
    requires ops != [] && e in Evicted(c, ops) && e !in Evicted(c, ops[..|ops| - 1])
    ensures |Run(c, ops)| == Effective(c)
  {
    SizeIsBounded(c, ops[..|ops| - 1]);
  }

  // How each operation changes the size.
  lemma StepSize<T>(c: int, ops: seq<Op<T>>, op: Op<T>)
    ensures var (before, after) := (|Run(c, ops)|, |Run(c, ops + [op])|);
            match op
            case AddOp(_) => after == Min(before + 1, Effective(c))
            case GetOp(_) => after == before
            case DeleteOp(_) => after == if Has(Run(c, ops), op.id) then before - 1 else before
  {
    SizeIsBounded(c, ops);
    assert (ops + [op])[..|ops|] == ops;
  }

  // Over every run: an element is evicted only after as many others as fit the cache have been
  // touched since it was touched last. So the most recently touched ones are always there.
  lemma {:induction false} EvictedAfterEnough<T>(c: int, ops: seq<Op<T>>, e: Element<T>)
    returns (others: Order<T>)
    requires DistinctAdds(ops) && e in Evicted(c, ops)
    ensures |others| == Effective(c) && forall i, j :: 0 <= i < j < |others| ==> others[i] != others[j]
    ensures forall x :: x in others ==> LastTouch(c, ops, x) > LastTouch(c, ops, e)
    decreases |ops|
  {
    var before, op := ops[..|ops| - 1], ops[|ops| - 1];
    if e in Evicted(c, before) {
      others := EvictedAfterEnough(c, before, e);
      EvictedIsNotTouched(c, ops, e);
      forall x | x in others
        ensures LastTouch(c, ops, x) > LastTouch(c, ops, e)
      {
        TouchStep(c, ops, x);
        TouchStep(c, ops, e);
      }
    } else {
      EvictsOnlyWhenFull(c, ops, e);
      OrderedByRecency(c, ops);
      others := Run(c, ops);
      AboveTheGone(others, Evicted(c, ops), Recency(c, ops), e);
      assert forall x :: Recency(c, ops)(x) == LastTouch(c, ops, x);
    }
  }

  lemma AboveTheGone<T>(order: Order<T>, gone: set<Element<T>>, rank: Element<T> -> nat, e: Element<T>)
    requires Ranked(order, gone, rank) && e in gone
    ensures forall i, j :: 0 <= i < j < |order| ==> order[i] != order[j]
    ensures forall x :: x in order ==> rank(x) > rank(e)
  {
  }

  lemma EvictedIsNotTouched<T>(c: int, ops: seq<Op<T>>, e: Element<T>)
    requires DistinctAdds(ops) && ops != [] && e in Evicted(c, ops[..|ops| - 1])
    ensures !Touches(Run(c, ops[..|ops| - 1]), ops[|ops| - 1], e)
  {
    var before, op := ops[..|ops| - 1], ops[|ops| - 1];
    EvictedIsGone(c, before, e);
    if op == AddOp(e) {
      OnlyAddedElements(c, before, e);
      NotAddedYet(c, ops);
    }
  }

  lemma EvictedIsGone<T>(c: int, ops: seq<Op<T>>, e: Element<T>)
    requires DistinctAdds(ops) && e in Evicted(c, ops)
    ensures e !in Run(c, ops)
  {
    OrderedByRecency(c, ops);
    AboveTheGone(Run(c, ops), Evicted(c, ops), Recency(c, ops), e);
  }
}
