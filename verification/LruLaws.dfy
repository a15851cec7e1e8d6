// Laws of least-recently-used eviction over every sequence of operations.
module LruLaws {
  import opened Basics
  import opened LruCache

  datatype Op<T> = AddOp(e: Element<T>) | GetOp(id: Id) | DeleteOp(id: Id)

  function Step<T>(capacity: int, order: Order<T>, op: Op<T>): Order<T> {
    match op
    case AddOp(e) => Push(capacity, order, e)
    case GetOp(id) => Touch(order, id)
    case DeleteOp(id) => RemoveFirst(order, id)
  }

  // The list after a sequence of operations on a new cache.
  function Run<T>(capacity: int, ops: seq<Op<T>>): Order<T> {
    if ops == [] then [] else Step(capacity, Run(capacity, ops[..|ops| - 1]), ops[|ops| - 1])
  }

  function Effective(capacity: int): nat {
    if capacity < 1 then 1 else capacity
  }

  // ---------- inclusion ----------

  ghost predicate Subsequence<T>(s: seq<T>, l: seq<T>) {
    s == [] || (l != [] && if s[0] == l[0] then Subsequence(s[1..], l[1..]) else Subsequence(s, l[1..]))
  }

  // The elements with a given id, in order.
  function OfId<T>(order: Order<T>, id: Id): Order<T> {
    if order == [] then []
    else (if order[0].id == id then [order[0]] else []) + OfId(order[1..], id)
  }

  // How the list of a smaller cache relates to that of a larger one. The last clause keeps duplicates of
  // an id in step: the smaller cache holds the newest of them.
  ghost predicate Included<T>(c: int, s: Order<T>, c': int, l: Order<T>) {
    && |s| <= Effective(c) && |l| <= Effective(c') && |l| - |s| <= Effective(c') - Effective(c)
    && Subsequence(s, l)
    && forall id :: OfId(s, id) <= OfId(l, id)
  }

  lemma {:induction false} SubsequenceTail<T>(s: seq<T>, l: seq<T>)
    requires Subsequence(s, l) && s != []
    ensures l != [] && Subsequence(s[1..], l[1..]) && Subsequence(s[1..], l)
    decreases |l|, 0
  {
    if s[0] != l[0] {
      SubsequenceTail(s, l[1..]);
    }
    SubsequenceGrows(s[1..], l[1..], l[0]);
    assert [l[0]] + l[1..] == l;
  }

  lemma {:induction false} SubsequenceGrows<T>(s: seq<T>, l: seq<T>, x: T)
    requires Subsequence(s, l)
    ensures Subsequence(s, [x] + l)
    decreases |l|, 1
  {
    assert ([x] + l)[1..] == l;
    if s != [] && s[0] == x {
      SubsequenceTail(s, l);
    }
  }

  lemma SubsequenceCons<T>(s: seq<T>, l: seq<T>, x: T)
    requires Subsequence(s, l)
    ensures Subsequence([x] + s, [x] + l)
  {
    assert ([x] + s)[1..] == s && ([x] + l)[1..] == l;
  }

  lemma EvictTail<T>(order: Order<T>)
    requires |order| > 1
    ensures Evict(order) != [] && Evict(order)[0] == order[0] && Evict(order)[1..] == Evict(order[1..])
  {
    var n := |order|;
    assert order[..n - 1][1..] == order[1..n - 1] == order[1..][..n - 2];
  }

  // Dropping the last element of the shorter, or of both.
  lemma {:induction false} SubsequenceEvict<T>(s: Order<T>, l: Order<T>)
    requires Subsequence(s, l)
    ensures Subsequence(Evict(s), Evict(l)) && Subsequence(Evict(s), l)
    decreases |l|
  {
    if |s| <= 1 {
    } else {
      if s[0] == l[0] {
        SubsequenceEvict(s[1..], l[1..]);
        EvictTail(s);
      } else {
        SubsequenceEvict(s, l[1..]);
      }
      if |l| > 1 {
        EvictTail(l);
      }
    }
  }

  lemma RemoveFirstHead<T>(order: Order<T>, id: Id)
    requires order != []
    ensures RemoveFirst(order, id) == if order[0].id == id then order[1..] else [order[0]] + RemoveFirst(order[1..], id)
  {
    if order[0].id != id {
      var i := Find(order[1..], id);
      assert Find(order, id) == i + 1;
      if i < |order[1..]| {
        assert order[..i + 1] == [order[0]] + order[1..][..i];
        assert order[i + 2..] == order[1..][i + 1..];
      }
    }
  }

  lemma {:induction false} SubsequenceRemove<T>(s: Order<T>, l: Order<T>, id: Id)
    requires Subsequence(s, l)
    ensures Subsequence(RemoveFirst(s, id), RemoveFirst(l, id))
    decreases |l|
  {
    if l == [] {
    } else {
      RemoveFirstHead(l, id);
      if s != [] {
        RemoveFirstHead(s, id);
        SubsequenceTail(s, l);
      }
      if s != [] && s[0] == l[0] {
        if s[0].id != id {
          SubsequenceRemove(s[1..], l[1..], id);
          SubsequenceCons(RemoveFirst(s[1..], id), RemoveFirst(l[1..], id), l[0]);
        }
      } else {
        SubsequenceRemove(s, l[1..], id);
        if l[0].id == id {
          SubsequenceAfterRemove(s, l[1..], id);
        } else {
          SubsequenceGrows(RemoveFirst(s, id), RemoveFirst(l[1..], id), l[0]);
        }
      }
    }
  }

  lemma {:induction false} SubsequenceAfterRemove<T>(s: Order<T>, l: Order<T>, id: Id)
    requires Subsequence(s, l)
    ensures Subsequence(RemoveFirst(s, id), l)
    decreases |l|
  {
    if s == [] {
    } else {
      RemoveFirstHead(s, id);
      SubsequenceTail(s, l);
      if s[0].id != id {
        if s[0] == l[0] {
          SubsequenceAfterRemove(s[1..], l[1..], id);
          SubsequenceCons(RemoveFirst(s[1..], id), l[1..], l[0]);
          assert [l[0]] + l[1..] == l;
        } else {
          SubsequenceAfterRemove(s, l[1..], id);
          SubsequenceGrows(RemoveFirst(s, id), l[1..], l[0]);
          assert [l[0]] + l[1..] == l;
        }
      }
    }
  }

  // ---------- elements of one id ----------

  lemma {:induction false} OfIdFirst<T>(order: Order<T>, id: Id)
    ensures Has(order, id) <==> OfId(order, id) != []
    ensures Has(order, id) ==> OfId(order, id)[0] == order[Find(order, id)]
  {
    if order == [] || order[0].id == id {
    } else {
      OfIdFirst(order[1..], id);
    }
  }

  lemma OfIdCons<T>(e: Element<T>, order: Order<T>, id: Id)
    ensures OfId([e] + order, id) == (if e.id == id then [e] else []) + OfId(order, id)
  {
    assert ([e] + order)[1..] == order;
  }

  lemma {:induction false} OfIdRemove<T>(order: Order<T>, x: Id, id: Id)
    ensures OfId(RemoveFirst(order, x), id)
         == if x == id && OfId(order, id) != [] then OfId(order, id)[1..] else OfId(order, id)
  {
    if order == [] {
    } else {
      RemoveFirstHead(order, x);
      if order[0].id != x {
        OfIdRemove(order[1..], x, id);
        OfIdCons(order[0], RemoveFirst(order[1..], x), id);
      }
    }
  }

  lemma {:induction false} OfIdEvict<T>(order: Order<T>, id: Id)
    requires order != []
    ensures OfId(order, id) == OfId(Evict(order), id) + if order[|order| - 1].id == id then [order[|order| - 1]] else []
  {
    var first, last := order[0], order[|order| - 1];
    if |order| == 1 {
    } else {
      OfIdEvict(order[1..], id);
      EvictTail(order);
      var tail := if last.id == id then [last] else [];
      Assoc(if first.id == id then [first] else [], OfId(Evict(order[1..]), id), tail);
    }
  }

  lemma {:induction false} OfIdCounts<T>(s: Order<T>, l: Order<T>, id: Id)
    requires Subsequence(s, l)
    ensures |OfId(s, id)| <= |OfId(l, id)|
    decreases |l|
  {
    if s == [] {
    } else {
      OfIdCounts(if s[0] == l[0] then s[1..] else s, l[1..], id);
    }
  }

  // ---------- each operation keeps inclusion ----------

  lemma RemoveIncluded<T>(c: int, s: Order<T>, c': int, l: Order<T>, id: Id)
    requires Included(c, s, c', l)
    ensures Included(c, RemoveFirst(s, id), c', RemoveFirst(l, id))
    ensures Has(s, id) ==> Has(l, id) && s[Find(s, id)] == l[Find(l, id)]
  {
    assert OfId(s, id) <= OfId(l, id);
    OfIdFirst(s, id);
    OfIdFirst(l, id);
    SubsequenceRemove(s, l, id);
    forall x: Id
      ensures OfId(RemoveFirst(s, id), x) <= OfId(RemoveFirst(l, id), x)
    {
      RemoveKeepsPrefix(s, l, id, x);
    }
  }

  lemma RemoveKeepsPrefix<T>(s: Order<T>, l: Order<T>, id: Id, x: Id)
    requires OfId(s, x) <= OfId(l, x)
    ensures OfId(RemoveFirst(s, id), x) <= OfId(RemoveFirst(l, id), x)
  {
    OfIdRemove(s, id, x);
    OfIdRemove(l, id, x);
    PrefixTail(OfId(s, x), OfId(l, x));
  }

  lemma PrefixTail<T>(a: seq<T>, b: seq<T>)
    requires a <= b
    ensures a != [] ==> b != [] && a[1..] <= b[1..]
  {
  }

  lemma TouchIncluded<T>(c: int, s: Order<T>, c': int, l: Order<T>, id: Id)
    requires Included(c, s, c', l)
    ensures Included(c, Touch(s, id), c', Touch(l, id))
  {
    RemoveIncluded(c, s, c', l, id);
    if Has(l, id) {
      var e, l' := l[Find(l, id)], RemoveFirst(l, id);
      if Has(s, id) {
        ConsIncluded(e, RemoveFirst(s, id), l');
      } else {
        assert RemoveFirst(s, id) == s;
        SubsequenceGrows(s, l', e);
        forall x: Id
          ensures OfId(s, x) <= OfId([e] + l', x)
        {
          assert OfId(s, x) <= OfId(l, x);
          OfIdFirst(s, id);
          OfIdCons(e, l', x);
          OfIdRemove(l, id, x);
          OfIdFirst(l, id);
        }
      }
    }
  }

  lemma ConsIncluded<T>(e: Element<T>, s: Order<T>, l: Order<T>)
    requires Subsequence(s, l) && forall id :: OfId(s, id) <= OfId(l, id)
    ensures Subsequence([e] + s, [e] + l) && forall id :: OfId([e] + s, id) <= OfId([e] + l, id)
  {
    SubsequenceCons(s, l, e);
    forall id: Id
      ensures OfId([e] + s, id) <= OfId([e] + l, id)
    {
      assert OfId(s, id) <= OfId(l, id);
      OfIdCons(e, s, id);
      OfIdCons(e, l, id);
    }
  }

  // When the larger cache is full, so is the smaller one, and evicting from both keeps
  // the newest of every id in step.
  lemma PushIncluded<T>(c: int, s: Order<T>, c': int, l: Order<T>, e: Element<T>)
    requires Included(c, s, c', l)
    ensures Included(c, Push(c, s, e), c', Push(c', l, e))
  {
    var s' := if |s| >= c then Evict(s) else s;
    var l' := if |l| >= c' then Evict(l) else l;
    SubsequenceEvict(s, l);
    forall id: Id
      ensures OfId(s', id) <= OfId(l', id)
    {
      EvictKeepsPrefix(c, s, c', l, id);
    }
    ConsIncluded(e, s', l');
  }

  lemma EvictKeepsPrefix<T>(c: int, s: Order<T>, c': int, l: Order<T>, id: Id)
    requires Included(c, s, c', l)
    ensures var s' := if |s| >= c then Evict(s) else s;
            var l' := if |l| >= c' then Evict(l) else l;
            OfId(s', id) <= OfId(l', id)
  {
    var s' := if |s| >= c then Evict(s) else s;
    var l' := if |l| >= c' then Evict(l) else l;
    assert OfId(s, id) <= OfId(l, id);
    EvictIsPrefix(s, id);
    EvictIsPrefix(l, id);
    SubsequenceEvict(s, l);
    OfIdCounts(s', l', id);
    ShorterPrefix(OfId(s', id), OfId(l', id), OfId(l, id));
  }

  lemma EvictIsPrefix<T>(order: Order<T>, id: Id)
    ensures OfId(Evict(order), id) <= OfId(order, id)
  {
    if order != [] {
      OfIdEvict(order, id);
    }
  }

  lemma ShorterPrefix<T>(a: seq<T>, b: seq<T>, whole: seq<T>)
    requires a <= whole && b <= whole && |a| <= |b|
    ensures a <= b
  {
  }

  // The larger cache has everything the smaller one has, in the same order, whatever
  // the operations were: a hit in the smaller is a hit in the larger, with the same entry.
  lemma {:induction false} Inclusion<T>(c: int, c': int, ops: seq<Op<T>>)
    requires Effective(c) <= Effective(c')
    ensures Included(c, Run(c, ops), c', Run(c', ops))
    ensures forall id :: Has(Run(c, ops), id) ==> Lookup(Run(c', ops), id) == Lookup(Run(c, ops), id)
    decreases |ops|
  {
    if ops == [] {
    } else {
      var before, op := ops[..|ops| - 1], ops[|ops| - 1];
      Inclusion(c, c', before);
      var s, l := Run(c, before), Run(c', before);
      match op
      case AddOp(e) => PushIncluded(c, s, c', l, e);
      case GetOp(id) => TouchIncluded(c, s, c', l, id);
      case DeleteOp(id) => RemoveIncluded(c, s, c', l, id);
    }
    forall id | Has(Run(c, ops), id)
      ensures Lookup(Run(c', ops), id) == Lookup(Run(c, ops), id)
    {
      RemoveIncluded(c, Run(c, ops), c', Run(c', ops), id);
    }
  }

  // ---------- recency ----------

  // The list length that a capacity allows.
  lemma {:induction false} SizeIsBounded<T>(c: int, ops: seq<Op<T>>)
    ensures |Run(c, ops)| <= Effective(c)
    decreases |ops|
  {
    if ops == [] {
    } else {
      SizeIsBounded(c, ops[..|ops| - 1]);
    }
  }

  // When an element was last added or returned by a successful lookup, counting
  // operations from 1; 0 if never. Defined on the history alone.
  function LastTouch<T(==)>(c: int, ops: seq<Op<T>>, e: Element<T>): nat {
    if ops == [] then 0
    else
      var before := ops[..|ops| - 1];
      if Touches(Run(c, before), ops[|ops| - 1], e) then |ops| else LastTouch(c, before, e)
  }

  function Recency<T(==)>(c: int, ops: seq<Op<T>>): Element<T> -> nat {
    e => LastTouch(c, ops, e)
  }

  predicate Touches<T(==)>(order: Order<T>, op: Op<T>, e: Element<T>) {
    match op
    case AddOp(x) => x == e
    case GetOp(id) => Has(order, id) && order[Find(order, id)] == e
    case DeleteOp(_) => false
  }

  // Every element the capacity has ever pushed out.
  ghost function Evicted<T>(c: int, ops: seq<Op<T>>): set<Element<T>> {
    if ops == [] then {}
    else
      var before, op := ops[..|ops| - 1], ops[|ops| - 1];
      Evicted(c, before) + if op.AddOp? then PushedOut(c, Run(c, before)) else {}
  }

  ghost function PushedOut<T>(c: int, order: Order<T>): set<Element<T>> {
    if |order| >= c && order != [] then {order[|order| - 1]} else {}
  }

  // No object is added twice. Ids may still repeat.
  ghost predicate DistinctAdds<T>(ops: seq<Op<T>>) {
    forall i, j :: 0 <= i < j < |ops| && ops[i].AddOp? && ops[j].AddOp? ==> ops[i].e != ops[j].e
  }

  ghost predicate Added<T>(ops: seq<Op<T>>, e: Element<T>) {
    exists i :: 0 <= i < |ops| && ops[i] == AddOp(e)
  }

  // Strictly falling along the list, and lower still for what is gone.
  ghost predicate Ranked<T>(order: Order<T>, gone: set<Element<T>>, rank: Element<T> -> nat) {
    && (forall i, j :: 0 <= i < j < |order| ==> rank(order[i]) > rank(order[j]))
    && (forall i, x :: 0 <= i < |order| && x in gone ==> rank(order[i]) > rank(x))
  }

  lemma {:induction false} TouchInPast<T>(c: int, ops: seq<Op<T>>, e: Element<T>)
    ensures LastTouch(c, ops, e) <= |ops|
    decreases |ops|
  {
    if ops == [] {
    } else {
      TouchInPast(c, ops[..|ops| - 1], e);
    }
  }

  lemma RankedFront<T>(order: Order<T>, gone: set<Element<T>>,
        rank: Element<T> -> nat, rank': Element<T> -> nat, e: Element<T>)
    requires Ranked(order, gone, rank) && e !in order && e !in gone
    requires forall x :: x in order || x in gone ==> rank'(x) == rank(x) < rank'(e)
    ensures Ranked([e] + order, gone, rank')
  {
    var order' := [e] + order;
    forall i, j | 0 <= i < j < |order'|
      ensures rank'(order'[i]) > rank'(order'[j])
    {
      assert order'[j] == order[j - 1] && (i > 0 ==> order'[i] == order[i - 1]);
    }
  }

  lemma RankedWithout<T>(order: Order<T>, gone: set<Element<T>>, rank: Element<T> -> nat, i: nat)
    requires Ranked(order, gone, rank) && i < |order|
    ensures var rest := order[..i] + order[i + 1..];
            && Ranked(rest, gone, rank) && order[i] !in rest && order[i] !in gone
            && forall x :: x in rest ==> x in order && x != order[i]
  {
  }

  lemma RankedPush<T>(c: int, order: Order<T>, gone: set<Element<T>>,
        rank: Element<T> -> nat, rank': Element<T> -> nat, e: Element<T>)
    requires Ranked(order, gone, rank) && e !in order && e !in gone
    requires forall x :: x in order || x in gone ==> rank'(x) == rank(x) < rank'(e)
    ensures Ranked(Push(c, order, e), gone + PushedOut(c, order), rank')
  {
    RankedFront(if |order| >= c then Evict(order) else order, gone + PushedOut(c, order), rank, rank', e);
  }

  lemma RankedTouch<T>(order: Order<T>, gone: set<Element<T>>,
        rank: Element<T> -> nat, rank': Element<T> -> nat, id: Id)
    requires Ranked(order, gone, rank) && Has(order, id)
    requires var e := order[Find(order, id)];
             forall x :: (x in order || x in gone) && x != e ==> rank'(x) == rank(x) < rank'(e)
    ensures Ranked(Touch(order, id), gone, rank')
  {
    var i := Find(order, id);
    RankedWithout(order, gone, rank, i);
    RankedToFront(order, RemoveFirst(order, id), gone, rank, rank', order[i]);
  }

  lemma RankedToFront<T>(order: Order<T>, rest: Order<T>, gone: set<Element<T>>,
        rank: Element<T> -> nat, rank': Element<T> -> nat, e: Element<T>)
    requires Ranked(rest, gone, rank) && e !in rest && e !in gone
    requires forall x :: x in rest ==> x in order
    requires forall x :: (x in order || x in gone) && x != e ==> rank'(x) == rank(x) < rank'(e)
    ensures Ranked([e] + rest, gone, rank')
  {
    RankedFront(rest, gone, rank, rank', e);
  }

  // An operation changes the rank of the element it touches, to the top, and of no other.
  lemma TouchStep<T>(c: int, ops: seq<Op<T>>, e: Element<T>)
    requires ops != []
    ensures var before := ops[..|ops| - 1];
            && LastTouch(c, before, e) < |ops|
            && LastTouch(c, ops, e)
            == if Touches(Run(c, before), ops[|ops| - 1], e) then |ops| else LastTouch(c, before, e)
  {
    TouchInPast(c, ops[..|ops| - 1], e);
  }

  // What the list holds and what was evicted has been added before.
  lemma {:induction false} OnlyAddedElements<T>(c: int, ops: seq<Op<T>>, e: Element<T>)
    requires e in Run(c, ops) || e in Evicted(c, ops)
    ensures Added(ops, e)
    decreases |ops|
  {
    var before, op := ops[..|ops| - 1], ops[|ops| - 1];
    if op == AddOp(e) {
      assert ops[|ops| - 1] == AddOp(e);
    } else {
      OnlyAddedElements(c, before, e);
      var i :| 0 <= i < |before| && before[i] == AddOp(e);
      assert ops[i] == AddOp(e);
    }
  }

  // Over every run: the list is strictly ordered by last touch, and everything ever
  // evicted was last touched before everything still present.
  lemma {:induction false} OrderedByRecency<T>(c: int, ops: seq<Op<T>>)
    requires DistinctAdds(ops)
    ensures Ranked(Run(c, ops), Evicted(c, ops), Recency(c, ops))
    decreases |ops|
  {
    if ops == [] {
    } else {
      var before, op := ops[..|ops| - 1], ops[|ops| - 1];
      OrderedByRecency(c, before);
      var order, gone := Run(c, before), Evicted(c, before);
      forall x | x in order || x in gone || (op.AddOp? && x == op.e)
        ensures Recency(c, before)(x) < |ops|
        ensures Recency(c, ops)(x) == if Touches(order, op, x) then |ops| else Recency(c, before)(x)
      {
        TouchStep(c, ops, x);
      }
      if op.AddOp? {
        NotAddedYet(c, ops);
        if op.e in order || op.e in gone {
          OnlyAddedElements(c, before, op.e);
        }
      }
      RankedStep(c, op, order, gone, |ops|, Recency(c, before), Recency(c, ops));
    }
  }

  lemma RankedStep<T>(c: int, op: Op<T>, order: Order<T>, gone: set<Element<T>>, now: nat,
                      rank: Element<T> -> nat, rank': Element<T> -> nat)
    requires Ranked(order, gone, rank) && (op.AddOp? ==> op.e !in order && op.e !in gone)
    requires forall x :: x in order || x in gone ==>
               rank(x) < now && rank'(x) == if Touches(order, op, x) then now else rank(x)
    requires op.AddOp? ==> rank'(op.e) == now
    ensures Ranked(Step(c, order, op), gone + (if op.AddOp? then PushedOut(c, order) else {}), rank')
  {
    match op
    case AddOp(e) => RankedPush(c, order, gone, rank, rank', e);
    case GetOp(id) =>
      if Has(order, id) {
        assert forall x :: Touches(order, op, x) <==> x == order[Find(order, id)];
        RankedTouch(order, gone, rank, rank', id);
      } else {
        assert forall x :: !Touches(order, op, x);
        RankedSame(order, gone, rank, rank');
      }
    case DeleteOp(id) => RankedRemove(order, gone, rank, rank', id);
  }

  lemma NotAddedYet<T>(c: int, ops: seq<Op<T>>)
    requires DistinctAdds(ops) && ops != [] && ops[|ops| - 1].AddOp?
    ensures !Added(ops[..|ops| - 1], ops[|ops| - 1].e)
  {
    assert forall i :: 0 <= i < |ops| - 1 ==> ops[..|ops| - 1][i] == ops[i];
  }

  lemma RankedSame<T>(order: Order<T>, gone: set<Element<T>>, rank: Element<T> -> nat, rank': Element<T> -> nat)
    requires Ranked(order, gone, rank)
    requires forall x :: x in order || x in gone ==> rank'(x) == rank(x)
    ensures Ranked(order, gone, rank')
  {
  }

  lemma RankedRemove<T>(order: Order<T>, gone: set<Element<T>>,
        rank: Element<T> -> nat, rank': Element<T> -> nat, id: Id)
    requires Ranked(order, gone, rank)
    requires forall x :: x in order || x in gone ==> rank'(x) == rank(x)
    ensures Ranked(RemoveFirst(order, id), gone, rank')
  {
    if Has(order, id) {
      RankedWithout(order, gone, rank, Find(order, id));
    }
    RankedSame(RemoveFirst(order, id), gone, rank, rank');
  }

  // What Newest returns is the element touched last.
  lemma NewestIsLastTouched<T>(c: int, ops: seq<Op<T>>, order: Order<T>, i: nat)
    requires DistinctAdds(ops) && order == Run(c, ops) && i < |order|
    ensures Recency(c, ops)(order[0]) >= Recency(c, ops)(order[i])
  {
    OrderedByRecency(c, ops);
    FrontRanksHighest(order, Evicted(c, ops), Recency(c, ops), i);
  }

  lemma FrontRanksHighest<T>(order: Order<T>, gone: set<Element<T>>, rank: Element<T> -> nat, i: nat)
    requires Ranked(order, gone, rank) && i < |order|
    ensures rank(order[0]) >= rank(order[i])
  {
  }

  // List turns the order around: it ends with the newest.
  lemma {:induction false} ReversedAt<T>(order: Order<T>, i: nat)
    requires i < |order|
    ensures |Reversed(order)| == |order| && Reversed(order)[|order| - 1 - i] == order[i].entry
    decreases |order|
  {
    if |order| == 1 {
    } else {
      ReversedAt(order[1..], if i == 0 then 0 else i - 1);
    }
  }
}
