/**
 The intrusive circular doubly linked list of bsl/include/bsl_module_list.h.  The
 macros edit the pointers of a shared ring; each edit is proved to be an insertion
 into or a deletion from the sequence of the ring's nodes.
 */
module RingList {

  class ListHead {
    var next: ListHead?
    var prev: ListHead?

    constructor ()
      ensures next == null && prev == null
    {
      next, prev := null, null;
    }
  }

  /** The node after `nodes[i]` on the ring. */
  function Succ(nodes: seq<ListHead>, i: nat): ListHead
    requires i < |nodes|
  {
    if i + 1 < |nodes| then nodes[i + 1] else nodes[0]
  }

  /** The node before `nodes[i]` on the ring. */
  function Pred(nodes: seq<ListHead>, i: nat): ListHead
    requires i < |nodes|
  {
    if i > 0 then nodes[i - 1] else nodes[|nodes| - 1]
  }

  ghost predicate Distinct(nodes: seq<ListHead>) {
    forall i, j :: 0 <= i < j < |nodes| ==> nodes[i] != nodes[j]
  }

  /** The nodes, in this order, form one well-linked ring. */
  ghost predicate Ring(nodes: seq<ListHead>)
    reads set x | x in nodes
  {
    nodes != [] && Distinct(nodes) &&
    (forall i {:trigger nodes[i].next} :: 0 <= i < |nodes| ==> nodes[i].next == Succ(nodes, i)) &&
    (forall i {:trigger nodes[i].prev} :: 0 <= i < |nodes| ==> nodes[i].prev == Pred(nodes, i))
  }

  ghost function Insert(nodes: seq<ListHead>, i: nat, item: ListHead): (r: seq<ListHead>)
    requires i <= |nodes|
  {
    nodes[..i] + [item] + nodes[i..]
  }

  ghost function Delete(nodes: seq<ListHead>, i: nat): (r: seq<ListHead>)
    requires i < |nodes|
  {
    nodes[..i] + nodes[i + 1..]
  }

  method Init(head: ListHead)
    modifies head
    ensures Ring([head])
  {
    head.next, head.prev := head, head;
  }

  /** LIST_IS_EMPTY: the head is its own successor exactly when it is alone on the ring. */
  method IsEmpty(head: ListHead, ghost nodes: seq<ListHead>) returns (empty: bool)
    requires Ring(nodes) && head == nodes[0]
    ensures empty <==> nodes == [head]
  {
    assert nodes[0].next == Succ(nodes, 0);
    return head.next == head;
  }

  /** LIST_ADD_AFTER: the four pointer assignments, in the order of the macro. */
  method AddAfter(where: ListHead, item: ListHead, ghost nodes: seq<ListHead>, ghost i: nat)
    requires Ring(nodes) && i < |nodes| && where == nodes[i] && item !in nodes
    modifies where`next, item, Succ(nodes, i)`prev
    ensures Ring(Insert(nodes, i + 1, item))
  {
    item.next := where.next;
    item.prev := where;
    where.next := item;
    item.next.prev := item;
    ghost var ring := Insert(nodes, i + 1, item);
    forall j | 0 <= j < |ring| ensures ring[j].next == Succ(ring, j) && ring[j].prev == Pred(ring, j) {
      if j <= i {
        assert ring[j] == nodes[j];
      } else if j > i + 1 {
        assert ring[j] == nodes[j - 1];
      }
    }
  }

  /** LIST_ADD_BEFORE: before the head means at the end of the list. */
  method AddBefore(where: ListHead, item: ListHead, ghost nodes: seq<ListHead>, ghost i: nat)
    requires Ring(nodes) && i < |nodes| && where == nodes[i] && item !in nodes
    modifies Pred(nodes, i)`next, item, where`prev
    ensures Ring(Insert(nodes, if i == 0 then |nodes| else i, item))
  {
    ghost var k := if i == 0 then |nodes| - 1 else i - 1;
    assert where.prev == nodes[k];
    AddAfter(where.prev, item, nodes, k);
  }

  /** Deleting node i changes only the successor of the node before it and the predecessor of the one after it. */
  lemma NeighboursInDelete(nodes: seq<ListHead>, i: nat, j: nat, k: nat)
    requires Distinct(nodes) && 1 < |nodes| && i < |nodes| && j < |nodes| - 1 && k == if j < i then j else j + 1
    ensures var ring := Delete(nodes, i);
            ring[j] == nodes[k] &&
            Succ(ring, j) == (if nodes[k] == Pred(nodes, i) then Succ(nodes, i) else Succ(nodes, k)) &&
            Pred(ring, j) == (if nodes[k] == Succ(nodes, i) then Pred(nodes, i) else Pred(nodes, k))
  {
  }

  /** BSL_LIST_REMOVE: the neighbours are joined; the removed node keeps its own pointers. */
  method Remove(item: ListHead, ghost nodes: seq<ListHead>, ghost i: nat)
    requires Ring(nodes) && i < |nodes| && item == nodes[i]
    modifies Pred(nodes, i)`next, Succ(nodes, i)`prev
    ensures |nodes| > 1 ==> Ring(Delete(nodes, i))
    ensures |nodes| == 1 ==> Ring(nodes)
    ensures item.next == old(item.next) && item.prev == old(item.prev)
  {
    assert nodes[i].prev == Pred(nodes, i) && nodes[i].next == Succ(nodes, i);
    item.prev.next := item.next;
    item.next.prev := item.prev;
    if |nodes| > 1 {
      ghost var ring := Delete(nodes, i);
      forall j | 0 <= j < |ring| ensures ring[j].next == Succ(ring, j) && ring[j].prev == Pred(ring, j) {
        NeighboursInDelete(nodes, i, j, if j < i then j else j + 1);
      }
    }
  }

  /** The nodes of a ring determine its pointers. */
  twostate lemma SamePointers(nodes: seq<ListHead>)
    requires old(Ring(nodes)) && Ring(nodes)
    ensures forall j :: 0 <= j < |nodes| ==> nodes[j].next == old(nodes[j].next) && nodes[j].prev == old(nodes[j].prev)
  {
  }

  lemma AroundInsert(nodes: seq<ListHead>, i: nat, item: ListHead)
    requires i < |nodes|
    ensures var ring := Insert(nodes, i + 1, item);
            ring[i + 1] == item && Pred(ring, i + 1) == nodes[i] && Succ(ring, i + 1) == Succ(nodes, i) &&
            Delete(ring, i + 1) == nodes
  {
  }

  lemma AroundDelete(nodes: seq<ListHead>, i: nat)
    requires Distinct(nodes) && 0 < i < |nodes|
    ensures var ring := Delete(nodes, i);
            ring[i - 1] == nodes[i - 1] && Succ(ring, i - 1) == Succ(nodes, i) && nodes[i] !in ring &&
            Insert(ring, i, nodes[i]) == nodes
  {
  }

  /** Removing an item that was just added restores every pointer of the ring. */
  method AddThenRemove(where: ListHead, item: ListHead, ghost nodes: seq<ListHead>, ghost i: nat)
    requires Ring(nodes) && i < |nodes| && where == nodes[i] && item !in nodes
    modifies where`next, item, Succ(nodes, i)`prev
    ensures Ring(nodes)
    ensures forall j :: 0 <= j < |nodes| ==> nodes[j].next == old(nodes[j].next) && nodes[j].prev == old(nodes[j].prev)
  {
    AddAfter(where, item, nodes, i);
    AroundInsert(nodes, i, item);
    Remove(item, Insert(nodes, i + 1, item), i + 1);
    SamePointers(nodes);
  }

  /** Adding a removed item where it was restores every pointer of the ring, its own included. */
  method RemoveThenAdd(item: ListHead, ghost nodes: seq<ListHead>, ghost i: nat)
    requires Ring(nodes) && 0 < i < |nodes| && item == nodes[i]
    modifies Pred(nodes, i)`next, item, Succ(nodes, i)`prev
    ensures Ring(nodes)
    ensures forall j :: 0 <= j < |nodes| ==> nodes[j].next == old(nodes[j].next) && nodes[j].prev == old(nodes[j].prev)
  {
    assert nodes[i].prev == nodes[i - 1];
    var where := item.prev;
    Remove(item, nodes, i);
    AroundDelete(nodes, i);
    AddAfter(where, item, Delete(nodes, i), i - 1);
    SamePointers(nodes);
  }

  // ------------------------------------------------------------ safe traversal

  /** The ring's head followed by the items that are not dropped, in order. */
  ghost function Survivors(nodes: seq<ListHead>, drop: set<ListHead>): seq<ListHead>
    requires nodes != []
  {
    if |nodes| == 1 then nodes
    else
      var last := nodes[|nodes| - 1];
      Survivors(nodes[..|nodes| - 1], drop) + if last in drop then [] else [last]
  }

  lemma {:induction false} SurvivorsAreNodes(nodes: seq<ListHead>, drop: set<ListHead>)
    requires nodes != []
    ensures Survivors(nodes, drop) != [] && Survivors(nodes, drop)[0] == nodes[0]
    ensures forall x :: x in Survivors(nodes, drop) <==> x == nodes[0] || (x in nodes[1..] && x !in drop)
  {
    if |nodes| > 1 {
      var front, last := nodes[..|nodes| - 1], nodes[|nodes| - 1];
      SurvivorsAreNodes(front, drop);
      assert nodes[1..] == front[1..] + [last];
    }
  }

  /** A loop body that removes the current item and wipes it, as freeing it would. */
  method DropItem(item: ListHead, ghost nodes: seq<ListHead>, ghost i: nat)
    requires Ring(nodes) && 1 < |nodes| && i < |nodes| && item == nodes[i]
    modifies item, Pred(nodes, i), Succ(nodes, i)
    ensures Ring(Delete(nodes, i))
  {
    Remove(item, nodes, i);
    ghost var rest := Delete(nodes, i);
    assert item !in rest;
    item.next, item.prev := null, null;
    assert forall j :: 0 <= j < |rest| ==> rest[j] != item;
  }

  /** The ring in the middle of a traversal: the survivors so far, then the items from `nodes[k]` on. */
  ghost predicate Midway(nodes: seq<ListHead>, drop: set<ListHead>, k: nat)
    reads set x | x in nodes
  {
    1 <= k <= |nodes| && Distinct(nodes) &&
    var done := Survivors(nodes[..k], drop);
    done != [] && done[0] == nodes[0] &&
    (forall x :: x in done + nodes[k..] ==> x in nodes) && Ring(done + nodes[k..])
  }

  /** The body of the traversal at item k. */
  method VisitItem(item: ListHead, drop: set<ListHead>, ghost nodes: seq<ListHead>, ghost k: nat)
    requires Midway(nodes, drop, k) && k < |nodes| && item == nodes[k]
    modifies nodes
    ensures Midway(nodes, drop, k + 1)
  {
    ghost var done := Survivors(nodes[..k], drop);
    ghost var live := done + nodes[k..];
    assert live[|done|] == item;
    assert nodes[..k + 1][..k] == nodes[..k];
    if item in drop {
      assert Pred(live, |done|) in nodes && Succ(live, |done|) in nodes;
      DropItem(item, live, |done|);
      assert Delete(live, |done|) == done + nodes[k + 1..];
      assert Survivors(nodes[..k + 1], drop) == done;
    } else {
      assert live == done + [item] + nodes[k + 1..];
      assert Survivors(nodes[..k + 1], drop) == done + [item];
    }
  }

  lemma StartMidway(nodes: seq<ListHead>, drop: set<ListHead>)
    requires Ring(nodes)
    ensures Midway(nodes, drop, 1) && nodes[0].next == Succ(nodes, 0) && Succ(nodes, 0).next != null
  {
    var head, first := nodes[0], if |nodes| == 1 then 0 else 1;
    assert [head] + nodes[1..] == nodes && nodes[..1] == [head];
    assert nodes[0].next == Succ(nodes, 0) == nodes[first];
    assert nodes[first].next == Succ(nodes, first);
  }

  lemma NextMidway(nodes: seq<ListHead>, drop: set<ListHead>, k: nat)
    requires Midway(nodes, drop, k) && k < |nodes|
    ensures nodes[k].next == Succ(nodes, k) && Succ(nodes, k - 1) == nodes[k] != nodes[0]
  {
    var done := Survivors(nodes[..k], drop);
    assert (done + nodes[k..])[|done|].next == Succ(done + nodes[k..], |done|);
  }

  lemma BackAtHead(nodes: seq<ListHead>, k: nat)
    requires 1 <= k <= |nodes| && Distinct(nodes) && Succ(nodes, k - 1) == nodes[0]
    ensures k == |nodes|
  {
  }

  lemma HeadMidway(nodes: seq<ListHead>, drop: set<ListHead>)
    requires Midway(nodes, drop, |nodes|)
    ensures Ring(Survivors(nodes, drop)) && nodes[0].next != null
  {
    assert nodes[..|nodes|] == nodes;
    var ring := Survivors(nodes, drop) + nodes[|nodes|..];
    assert ring == Survivors(nodes, drop);
    assert ring[0].next == Succ(ring, 0);
  }

  lemma NextExists(nodes: seq<ListHead>, drop: set<ListHead>, k: nat)
    requires Midway(nodes, drop, k)
    ensures Succ(nodes, k - 1).next != null
  {
    if k < |nodes| {
      NextMidway(nodes, drop, k);
    } else {
      HeadMidway(nodes, drop);
    }
  }

  /** One turn of the traversal: the body at item k, then the step to the saved successor. */
  method Turn(
    head: ListHead, item: ListHead, temp: ListHead, drop: set<ListHead>, ghost nodes: seq<ListHead>, ghost k: nat)
    returns (item': ListHead, temp': ListHead)
    requires Midway(nodes, drop, k) && head == nodes[0] && item == Succ(nodes, k - 1) != head && temp == item.next
    modifies nodes
    ensures k < |nodes| && item == nodes[k]
    ensures Midway(nodes, drop, k + 1) && item' == Succ(nodes, k) && temp' == item'.next
  {
    NextMidway(nodes, drop, k);
    VisitItem(item, drop, nodes, k);
    item' := temp;
    NextExists(nodes, drop, k + 1);
    temp' := item'.next;
  }

  /**
   LIST_FOR_EACH_ITEM_SAFE with a body that removes the items of `drop` and wipes them.
   Every item of the original list is visited once, in order, and the survivors form the ring.
   */
  method ForEachSafe(head: ListHead, drop: set<ListHead>, ghost nodes: seq<ListHead>) returns (visited: seq<ListHead>)
    requires Ring(nodes) && head == nodes[0]
    modifies nodes
    ensures visited == nodes[1..]
    ensures Ring(Survivors(nodes, drop))
  {
    visited := [];
    StartMidway(nodes, drop);
    var item: ListHead := head.next;
    var temp: ListHead := item.next;
    ghost var k := 1;
    while item != head
      invariant Midway(nodes, drop, k) && visited == nodes[1..k]
      invariant item == Succ(nodes, k - 1) && temp == item.next
      decreases |nodes| - k
    {
      visited := visited + [item];
      item, temp := Turn(head, item, temp, drop, nodes, k);
      k := k + 1;
    }
    BackAtHead(nodes, k);
    HeadMidway(nodes, drop);
  }
}
