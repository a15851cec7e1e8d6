// The cache of internal/lru/cache.go. The doubly linked list is a sequence with its
// front first. Nothing is assumed about ids: Add does not look for an entry that already
// has the same id, so duplicates are possible. Nor about the capacity: a cache of
// capacity zero or less behaves like one of capacity one.
module LruCache {
  import opened Basics

  type Id = string

  // An element of the list; `entry` stands for the cached object.
  datatype Element<T> = Element(id: Id, entry: T)

  type Order<T> = seq<Element<T>>

  // ---------- what the operations do to the list ----------

  function Evict<T>(order: Order<T>): Order<T> {
    if order == [] then [] else order[..|order| - 1]
  }

  function Push<T>(capacity: int, order: Order<T>, e: Element<T>): Order<T> {
    [e] + if |order| >= capacity then Evict(order) else order
  }

  // The position of the first element with this id, or the length of the list.
  function Find<T>(order: Order<T>, id: Id): (i: nat)
    ensures i <= |order| && (i < |order| ==> order[i].id == id)
    ensures forall k :: 0 <= k < i ==> order[k].id != id
  {
    if order == [] || order[0].id == id then 0 else 1 + Find(order[1..], id)
  }

  // The element at `i` is the first with this id.
  ghost predicate IsFirst<T>(order: Order<T>, id: Id, i: int) {
    0 <= i < |order| && order[i].id == id && forall k :: 0 <= k < i ==> order[k].id != id
  }

  predicate Has<T>(order: Order<T>, id: Id) {
    Find(order, id) < |order|
  }

  function Lookup<T>(order: Order<T>, id: Id): Option<T> {
    if Has(order, id) then Some(order[Find(order, id)].entry) else None
  }

  function RemoveFirst<T>(order: Order<T>, id: Id): Order<T> {
    var i := Find(order, id);
    if i < |order| then order[..i] + order[i + 1..] else order
  }

  function Touch<T>(order: Order<T>, id: Id): Order<T> {
    if Has(order, id) then [order[Find(order, id)]] + RemoveFirst(order, id) else order
  }

  function Reversed<T>(order: Order<T>): seq<T> {
    if order == [] then [] else Reversed(order[1..]) + [order[0].entry]
  }

  class Cache<T> {
    const capacity: int
    var order: Order<T>

    constructor (capacity: int)
      ensures this.capacity == capacity && order == []
    {
      this.capacity := capacity;
      order := [];
    }

    method EvictUnsafe()
      modifies `order
      ensures order == Evict(old(order))
    {
      if |order| > 0 {
        order := order[..|order| - 1];
      }
    }

    method AddEntryUnsafe(id: Id, entry: T)
      modifies `order
      ensures order == Push(capacity, old(order), Element(id, entry))
      ensures var kept := if |old(order)| < capacity then |old(order)| else |old(order)| - 1;
              order == [Element(id, entry)] + if kept < 0 then [] else old(order)[..kept]
    {
      if |order| >= capacity {
        EvictUnsafe();
      }
      order := [Element(id, entry)] + order;
    }

    // Add, and CreateAndAdd once its callback has produced an entry.
    method Add(id: Id, entry: T)
      modifies `order
      ensures order == Push(capacity, old(order), Element(id, entry))
    {
      AddEntryUnsafe(id, entry);
    }

    method Size() returns (n: nat)
      ensures n == |order|
    {
      n := |order|;
    }

    method GetById(id: Id) returns (found: Option<T>)
      modifies `order
      ensures found == Lookup(old(order), id)
      ensures order == Touch(old(order), id)
      ensures found.Some? ==> exists i :: IsFirst(old(order), id, i) && found == Some(old(order)[i].entry)
                                          && order == [old(order)[i]] + (old(order)[..i] + old(order)[i + 1..])
      ensures found.None? ==> order == old(order) && forall i :: 0 <= i < |order| ==> order[i].id != id
    {
      var i := 0;
      while i < |order|
        invariant 0 <= i <= |order| && order == old(order)
        invariant forall k :: 0 <= k < i ==> order[k].id != id
      {
        if order[i].id == id {
          var element := order[i];
          assert i == Find(order, id);
          order := [element] + (order[..i] + order[i + 1..]);
          assert IsFirst(old(order), id, i);
          return Some(element.entry);
        }
        i := i + 1;
      }
      return None;
    }

    method DeleteById(id: Id) returns (present: bool)
      modifies `order
      ensures present == Has(old(order), id)
      ensures order == RemoveFirst(old(order), id)
      ensures present ==> exists i :: IsFirst(old(order), id, i) && order == old(order)[..i] + old(order)[i + 1..]
      ensures !present ==> order == old(order) && forall i :: 0 <= i < |order| ==> order[i].id != id
    {
      var i := 0;
      while i < |order|
        invariant 0 <= i <= |order| && order == old(order)
        invariant forall k :: 0 <= k < i ==> order[k].id != id
      {
        if order[i].id == id {
          assert i == Find(order, id);
          order := order[..i] + order[i + 1..];
          assert IsFirst(old(order), id, i);
          return true;
        }
        i := i + 1;
      }
      return false;
    }

    method Newest() returns (entry: Option<T>)
      ensures entry == if order == [] then None else Some(order[0].entry)
    {
      if |order| == 0 { return None; }
      return Some(order[0].entry);
    }

    // `generated` is what the callback would return; None stands for its error.
    method MostRecentOrCreate(id: Id, generated: Option<T>) returns (entry: Option<T>)
      modifies `order
      ensures old(order) != [] ==> entry == Some(old(order)[0].entry) && order == old(order)
      ensures old(order) == [] ==> entry == generated
      ensures old(order) == [] ==> order == if generated.None? then [] else [Element(id, generated.value)]
    {
      if |order| > 0 {
        return Some(order[0].entry);
      }
      match generated
      case None => return None;
      case Some(created) =>
        AddEntryUnsafe(id, created);
        return generated;
    }

    // Oldest first.
    method List() returns (entries: seq<T>)
      ensures entries == Reversed(order)
    {
      entries := [];
      var i := |order|;
      while i > 0
        invariant 0 <= i <= |order|
        invariant entries == Reversed(order[i..])
      {
        i := i - 1;
        entries := entries + [order[i].entry];
      }
    }
  }
}
