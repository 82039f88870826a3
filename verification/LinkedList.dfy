/** Circular doubly linked lists: a head node and list nodes that point at each other. */
module LinkedList {
  import opened Prelude

  class ListHead<T> {
    var next: ListHead?<T>
    var prev: ListHead?<T>
    var item: T

    /** `ListHeadInit`: a list of its own. */
    constructor (item: T)
      ensures this.item == item && Ring([this])
    {
      this.item := item;
      next := this;
      prev := this;
    }
  }

  /** Neighbours in `s` point at each other. */
  ghost predicate Path<T>(s: seq<ListHead<T>>)
    reads s`next, s`prev
  {
    && (forall k {:trigger s[k].next} :: 0 <= k < |s| - 1 ==> s[k].next == s[k + 1])
    && (forall k {:trigger s[k].prev} :: 0 < k < |s| ==> s[k].prev == s[k - 1])
  }

  /** The nodes `r`, the list head first, linked in a circle. */
  ghost predicate Ring<T>(r: seq<ListHead<T>>)
    reads r`next, r`prev
  {
    r != [] && Distinct(r) && Path(Closed(r))
  }

  ghost function Closed<T>(r: seq<T>): seq<T>
    requires r != []
  {
    r + [r[0]]
  }

  lemma PathSplit<T>(a: seq<ListHead<T>>, b: seq<ListHead<T>>)
    requires a != [] && b != [] && Path(a + b)
    ensures Path(a) && Path(b) && a[|a| - 1].next == b[0] && b[0].prev == a[|a| - 1]
  {
    var s := a + b;
    assert s[|a| - 1].next == s[|a|] && s[|a|].prev == s[|a| - 1];
    forall k {:trigger b[k].next} | 0 <= k < |b| - 1
      ensures b[k].next == b[k + 1]
    {
      assert s[|a| + k].next == s[|a| + k + 1];
    }
    forall k {:trigger b[k].prev} | 0 < k < |b|
      ensures b[k].prev == b[k - 1]
    {
      assert s[|a| + k].prev == s[|a| + k - 1];
    }
    forall k {:trigger a[k].next} | 0 <= k < |a| - 1 ensures a[k].next == a[k + 1] { assert s[k].next == s[k + 1]; }
    forall k {:trigger a[k].prev} | 0 < k < |a| ensures a[k].prev == a[k - 1] { assert s[k].prev == s[k - 1]; }
  }

  lemma PathJoin<T>(a: seq<ListHead<T>>, b: seq<ListHead<T>>)
    requires a != [] && b != [] && Path(a) && Path(b)
    requires a[|a| - 1].next == b[0] && b[0].prev == a[|a| - 1]
    ensures Path(a + b)
  {
  }

  function InsertAt<T>(s: seq<T>, i: nat, x: T): seq<T>
    requires i <= |s|
  {
    s[..i] + [x] + s[i..]
  }

  lemma InsertIndex<T>(s: seq<T>, i: nat, x: T)
    requires i <= |s|
    ensures |InsertAt(s, i, x)| == |s| + 1
    ensures forall j :: 0 <= j < i ==> InsertAt(s, i, x)[j] == s[j]
    ensures InsertAt(s, i, x)[i] == x
    ensures forall j :: i < j <= |s| ==> InsertAt(s, i, x)[j] == s[j - 1]
  {
  }

  lemma WithoutIndex<T>(s: seq<T>, i: nat)
    requires i < |s|
    ensures |Without(s, i)| == |s| - 1
    ensures forall k :: 0 <= k < |s| - 1 ==> Without(s, i)[k] == s[if k < i then k else k + 1]
  {
  }

  lemma DistinctInsert<T>(s: seq<T>, i: nat, x: T)
    requires Distinct(s) && x !in s && i <= |s|
    ensures Distinct(InsertAt(s, i, x))
  {
  }

  lemma ClosedSplit<T>(r: seq<T>, i: nat, x: T)
    requires 0 < i <= |r|
    ensures Closed(r) == r[..i] + (r[i..] + [r[0]])
    ensures Closed(InsertAt(r, i, x)) == (r[..i] + [x]) + (r[i..] + [r[0]])
  {
  }

  lemma ClosedWithout<T>(r: seq<T>, i: nat)
    requires 0 < i < |r|
    ensures Closed(r) == r[..i] + ([r[i]] + (r[i + 1..] + [r[0]]))
    ensures Closed(Without(r, i)) == r[..i] + (r[i + 1..] + [r[0]])
    ensures Closed([r[i]]) == [r[i], r[i]]
  {
  }

  /** Links a node in behind node `i` of the ring. */
  method ListInsert<T>(node: ListHead<T>, at: ListHead<T>, ghost r: seq<ListHead<T>>, ghost i: nat)
    requires Ring(r) && node !in r && i < |r| && r[i] == at
    modifies node`next, node`prev, r`next, r`prev
    ensures Ring(InsertAt(r, i + 1, node))
  {
    ghost var a, b := r[..i + 1], r[i + 1..] + [r[0]];
    DistinctInsert(r, i + 1, node);
    ClosedSplit(r, i + 1, node);
    PathSplit(a, b);
    hide Ring, Closed;
    var follower := at.next;
    follower.prev := node;
    node.next := follower;
    node.prev := at;
    at.next := node;
    assert Path(a) && Path(b);
    hide Path;
    PathJoin(a, [node]);
    PathJoin(a + [node], b);
    RingIs(InsertAt(r, i + 1, node));
  }

  /** Takes node `i` out of the ring and makes it a ring of its own. */
  method ListRemove<T>(entry: ListHead<T>, ghost r: seq<ListHead<T>>, ghost i: nat)
    requires Ring(r) && 0 < i < |r| && r[i] == entry
    modifies r`next, r`prev
    ensures Ring(Without(r, i)) && Ring([entry])
  {
    ghost var a, b := r[..i], r[i + 1..] + [r[0]];
    WithoutMembers(r, i);
    ClosedWithout(r, i);
    PathSplit(a, [entry] + b);
    PathSplit([entry], b);
    hide Ring, Closed;
    entry.next.prev := entry.prev;
    entry.prev.next := entry.next;
    entry.next := entry;
    entry.prev := entry;
    assert Path(a) && Path(b) && Path([entry, entry]);
    hide Path;
    PathJoin(a, b);
    RingIs(Without(r, i));
    RingIs([entry]);
  }

  lemma RingIs<T>(r: seq<ListHead<T>>)
    requires r != [] && Distinct(r) && Path(Closed(r))
    ensures Ring(r)
  {
  }

  ghost function Items<T>(nodes: seq<ListHead<T>>): (s: seq<T>)
    reads nodes`item
    ensures |s| == |nodes| && forall i :: 0 <= i < |s| ==> s[i] == nodes[i].item
  {
    if nodes == [] then [] else [nodes[0].item] + Items(nodes[1..])
  }

  /** The place of the first item that `x` compares below. */
  function Place<T>(x: T, s: seq<T>, cmp: (T, T) -> int): (k: nat)
    ensures k <= |s|
    ensures forall i :: 0 <= i < k ==> cmp(x, s[i]) >= 0
    ensures k < |s| ==> cmp(x, s[k]) < 0
  {
    if s == [] || cmp(x, s[0]) < 0 then 0 else 1 + Place(x, s[1..], cmp)
  }

  lemma {:induction false} PlaceIs<T>(x: T, s: seq<T>, cmp: (T, T) -> int, k: nat)
    requires k <= |s| && (forall i :: 0 <= i < k ==> cmp(x, s[i]) >= 0) && (k < |s| ==> cmp(x, s[k]) < 0)
    ensures Place(x, s, cmp) == k
  {
    if k > 0 {
      PlaceIs(x, s[1..], cmp, k - 1);
    }
  }

  lemma RingAt<T>(r: seq<ListHead<T>>, k: nat)
    requires Ring(r) && k < |r|
    ensures r[k].next == r[0] <==> k + 1 == |r|
    ensures k + 1 < |r| ==> r[k].next == r[k + 1]
  {
    assert Closed(r)[k] == r[k] && Closed(r)[k].next == Closed(r)[k + 1];
  }

  /** The node behind which an item belongs in a sorted list. */
  method SeekPlace<T>(x: T, head: ListHead<T>, cmp: (T, T) -> int, ghost r: seq<ListHead<T>>)
      returns (iter: ListHead<T>, ghost k: nat)
    requires Ring(r) && r[0] == head
    ensures k == Place(x, Items(r[1..]), cmp) && r[Place(x, Items(r[1..]), cmp)] == iter
  {
    RingAt(r, 0);
    hide Place, Ring, Items;
    iter := head;
    k := 0;
    while iter.next != head && cmp(x, iter.next.item) >= 0
      invariant k < |r| && r[k] == iter
      invariant if k + 1 < |r| then iter.next == r[k + 1] != head else iter.next == head
      invariant forall i :: 0 <= i < k ==> cmp(x, Items(r[1..])[i]) >= 0
      decreases |r| - k
    {
      iter := iter.next;
      k := k + 1;
      RingAt(r, k);
    }
    PlaceIs(x, Items(r[1..]), cmp, k);
  }

  /** Links a node in before the first one that it compares below. */
  method ListInsertSorted<T>(node: ListHead<T>, head: ListHead<T>, cmp: (T, T) -> int, ghost r: seq<ListHead<T>>)
      returns (ghost k: nat)
    requires Ring(r) && node !in r && r[0] == head
    modifies node`next, node`prev, r`next, r`prev
    ensures k == Place(node.item, Items(r[1..]), cmp)
    ensures Ring(InsertAt(r, k + 1, node))
  {
    var iter;
    iter, k := SeekPlace(node.item, head, cmp, r);
    ListInsert(node, iter, r, k);
  }
}
