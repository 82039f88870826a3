/** The timer lists: active and idle timers on two circular lists sorted by expiry time. */
module Timers {
  import opened Prelude
  import opened LinkedList
  import opened TimerTheory

  type Node = ListHead<TimerBlk>

  ghost predicate DistinctIds(s: seq<TimerBlk>) {
    forall i, j :: 0 <= i < j < |s| ==> s[i].id != s[j].id
  }

  ghost predicate HasId(s: seq<TimerBlk>, id: nat) {
    exists t :: t in s && t.id == id
  }

  /** The list without the timer of the given id. */
  ghost function Remove(s: seq<TimerBlk>, id: nat): seq<TimerBlk> {
    if s == [] then [] else if s[0].id == id then s[1..] else [s[0]] + Remove(s[1..], id)
  }

  lemma {:induction false} RemoveAt(s: seq<TimerBlk>, i: nat)
    requires i < |s| && DistinctIds(s)
    ensures Remove(s, s[i].id) == Without(s, i)
  {
    if i > 0 {
      RemoveAt(s[1..], i - 1);
      assert Without(s, i) == [s[0]] + Without(s[1..], i - 1);
    }
  }

  lemma {:induction false} RemoveAbsent(s: seq<TimerBlk>, id: nat)
    requires !HasId(s, id)
    ensures Remove(s, id) == s
  {
    if s != [] {
      assert s[0] in s && forall t :: t in s[1..] ==> t in s;
      RemoveAbsent(s[1..], id);
    }
  }

  lemma ItemsInsert(nodes: seq<Node>, k: nat, node: Node)
    requires k <= |nodes|
    ensures Items(InsertAt(nodes, k, node)) == InsertAt(Items(nodes), k, node.item)
  {
    hide Items, InsertAt;
    InsertIndex(nodes, k, node);
    InsertIndex(Items(nodes), k, node.item);
    var q, items := InsertAt(nodes, k, node), Items(nodes);
    forall j | 0 <= j < |q|
      ensures Items(q)[j] == InsertAt(items, k, node.item)[j]
    {
      assert Items(q)[j] == q[j].item;
      assert j < k ==> items[j] == nodes[j].item && q[j] == nodes[j];
      assert j > k ==> items[j - 1] == nodes[j - 1].item && q[j] == nodes[j - 1];
    }
  }

  lemma InsertedMembers<T>(s: seq<T>, k: nat, x: T)
    requires k <= |s|
    ensures forall y :: y in InsertAt(s, k, x) <==> y in s || y == x
  {
    assert s == s[..k] + s[k..];
  }

  lemma BehindHead<T>(h: T, s: seq<T>, k: nat, x: T)
    ensures ([h] + s)[1..] == s && ([h] + s)[0] == h
    ensures k <= |s| ==> InsertAt([h] + s, k + 1, x) == [h] + InsertAt(s, k, x)
    ensures k < |s| ==> Without([h] + s, k + 1) == [h] + Without(s, k)
  {
  }

  lemma ItemsWithout(nodes: seq<Node>, i: nat)
    requires i < |nodes|
    ensures Items(Without(nodes, i)) == Without(Items(nodes), i)
  {
    hide Items, Without;
    WithoutIndex(nodes, i);
    WithoutIndex(Items(nodes), i);
  }

  lemma DistinctBehind<T>(h: T, s: seq<T>)
    requires Distinct([h] + s)
    ensures h !in s && Distinct(s)
  {
    var r := [h] + s;
    assert r[0] == h && forall k :: 0 <= k < |s| ==> r[k + 1] == s[k];
  }

  ghost predicate Disjoint(r: seq<Node>, other: seq<Node>) {
    forall n :: n in r ==> n !in other
  }

  /** Inserts a node into a list at the place its expiry time gives it. */
  method InsertTimer(node: Node, head: Node, ghost nodes: seq<Node>, ghost other: seq<Node>)
      returns (ghost nodes': seq<Node>)
    requires Ring([head] + nodes) && Ring(other) && Disjoint([head] + nodes, other)
    requires node !in [head] + nodes && node !in other
    modifies node`next, node`prev, ([head] + nodes)`next, ([head] + nodes)`prev
    ensures Ring([head] + nodes') && Ring(other) && Disjoint([head] + nodes', other)
    ensures Items(nodes') == Insert(Items(nodes), node.item)
    ensures forall n :: n in nodes' <==> n in nodes || n == node
  {
    hide Ring, Place, Items, InsertAt;
    ghost var r := [head] + nodes;
    BehindHead(head, nodes, 0, node);
    var k := ListInsertSorted(node, head, TimerCmp, r);
    RingKept(other);
    nodes' := InsertAt(nodes, k, node);
    BehindHead(head, nodes, k, node);
    ItemsInsert(nodes, k, node);
    InsertedMembers(nodes, k, node);
  }

  lemma RingDistinct(r: seq<Node>)
    requires Ring(r)
    ensures Distinct(r)
  {
  }

  lemma RemovedNode(head: Node, nodes: seq<Node>, i: nat)
    requires i < |nodes| && Distinct([head] + nodes) && DistinctIds(Items(nodes))
    ensures ([head] + nodes)[i + 1] == nodes[i] != head
    ensures Without([head] + nodes, i + 1) == [head] + Without(nodes, i)
    ensures Items(Without(nodes, i)) == Remove(Items(nodes), nodes[i].item.id)
    ensures forall n :: n in Without(nodes, i) <==> n in nodes && n != nodes[i]
  {
    DistinctBehind(head, nodes);
    BehindHead(head, nodes, i, head);
    hide Items, Distinct, Without, DistinctIds, Remove;
    RemoveAt(Items(nodes), i);
    ItemsWithout(nodes, i);
    WithoutMembers(nodes, i);
  }

  /** Takes a node out of its list. */
  method RemoveTimer(node: Node, ghost head: Node, ghost nodes: seq<Node>, ghost other: seq<Node>)
      returns (ghost nodes': seq<Node>)
    requires Ring([head] + nodes) && Ring(other) && Disjoint([head] + nodes, other)
    requires node in nodes && DistinctIds(Items(nodes))
    modifies ([head] + nodes)`next, ([head] + nodes)`prev
    ensures Ring([head] + nodes') && Ring(other) && Disjoint([head] + nodes', other)
    ensures Items(nodes') == Remove(Items(nodes), node.item.id)
    ensures node != head && forall n :: n in nodes' <==> n in nodes && n != node
  {
    hide Ring, Items, Distinct, Without, DistinctIds, Remove;
    RingDistinct([head] + nodes);
    ghost var i :| 0 <= i < |nodes| && nodes[i] == node;
    ghost var r := [head] + nodes;
    RemovedNode(head, nodes, i);
    ListRemove(node, r, i + 1);
    RingKept(other);
    RemovedNode(head, nodes, i);
    nodes' := Without(nodes, i);
  }

  lemma ItemIn(nodes: seq<Node>, n: Node)
    requires n in nodes
    ensures n.item in Items(nodes)
  {
    var i :| 0 <= i < |nodes| && nodes[i] == n;
    assert Items(nodes)[i] == n.item;
  }

  /** What holds of the two lists at every time. */
  ghost predicate ListsOk(a: seq<TimerBlk>, b: seq<TimerBlk>) {
    && Sorted(a) && Sorted(b) && DistinctIds(a + b)
    && (forall t :: t in a ==> t.isRunning) && (forall t :: t in b ==> !t.isRunning)
  }

  lemma OneListOnly(a: seq<TimerBlk>, b: seq<TimerBlk>)
    requires ListsOk(a, b)
    ensures DistinctIds(a) && DistinctIds(b)
    ensures forall t :: t in a ==> !HasId(b, t.id)
    ensures forall t :: t in b ==> !HasId(a, t.id)
  {
    var s := a + b;
    assert forall i :: 0 <= i < |a| ==> s[i] == a[i];
    assert forall i :: 0 <= i < |b| ==> s[|a| + i] == b[i];
    forall i, j | 0 <= i < |a| && 0 <= j < |b|
      ensures a[i].id != b[j].id
    {
      assert s[i].id != s[|a| + j].id;
    }
    forall i, j | 0 <= i < j < |b|
      ensures b[i].id != b[j].id
    {
      assert s[|a| + i].id != s[|a| + j].id;
    }
  }

  /** A list none of whose links changed is still a ring. */
  twostate lemma RingKept(r: seq<Node>)
    requires old(Ring(r)) && forall n :: n in r ==> n.next == old(n.next) && n.prev == old(n.prev)
    ensures Ring(r)
  {
  }

  lemma {:induction false} RemoveMembers(s: seq<TimerBlk>, id: nat)
    requires DistinctIds(s)
    ensures forall t :: t in Remove(s, id) <==> t in s && t.id != id
  {
    if s != [] {
      var t, rest := s[0], s[1..];
      assert s == [t] + rest;
      RemoveMembers(rest, id);
      forall x | x in rest
        ensures x.id != t.id
      {
        var i :| 0 <= i < |rest| && rest[i] == x;
        assert s[i + 1] == x;
      }
    }
  }

  lemma {:induction false} RemoveKeepsOrder(s: seq<TimerBlk>, id: nat)
    requires DistinctIds(s) && Sorted(s)
    ensures Sorted(Remove(s, id)) && DistinctIds(Remove(s, id))
  {
    if i :| 0 <= i < |s| && s[i].id == id {
      RemoveAt(s, i);
      WithoutIndex(s, i);
    } else {
      RemoveAbsent(s, id);
    }
  }

  /** The ids on the two lists are distinct, said list by list. */
  lemma DistinctIdsSum(a: seq<TimerBlk>, b: seq<TimerBlk>)
    requires DistinctIds(a) && DistinctIds(b) && forall t, u :: t in a && u in b ==> t.id != u.id
    ensures DistinctIds(a + b)
  {
  }

  /** Taking a timer off keeps the lists in order and frees its id. */
  lemma RemoveOk(a: seq<TimerBlk>, b: seq<TimerBlk>, id: nat)
    requires ListsOk(a, b)
    ensures ListsOk(Remove(a, id), Remove(b, id))
    ensures !HasId(Remove(a, id), id) && !HasId(Remove(b, id), id)
  {
    OneListOnly(a, b);
    RemoveMembers(a, id);
    RemoveMembers(b, id);
    RemoveKeepsOrder(a, id);
    RemoveKeepsOrder(b, id);
    DistinctIdsSum(Remove(a, id), Remove(b, id));
  }

  lemma InsertDistinct(s: seq<TimerBlk>, t: TimerBlk)
    requires DistinctIds(s) && !HasId(s, t.id)
    ensures DistinctIds(Insert(s, t))
  {
    var k := Place(t, s, TimerCmp);
    InsertIndex(s, k, t);
    hide Place, InsertAt;
    var r := Insert(s, t);
    forall i, j | 0 <= i < j < |r|
      ensures r[i].id != r[j].id
    {
      assert i != k ==> r[i] == s[if i < k then i else i - 1] && r[i] in s;
      assert j != k ==> r[j] == s[if j < k then j else j - 1] && r[j] in s;
    }
  }

  /** Putting a timer on the list that its state names keeps the lists in order. */
  lemma InsertOk(a: seq<TimerBlk>, b: seq<TimerBlk>, t: TimerBlk)
    requires ListsOk(a, b) && !HasId(a, t.id) && !HasId(b, t.id)
    ensures if t.isRunning then ListsOk(Insert(a, t), b) else ListsOk(a, Insert(b, t))
  {
    OneListOnly(a, b);
    var s := if t.isRunning then a else b;
    InsertKeepsSorted(s, t);
    InsertMembers(s, t);
    InsertDistinct(s, t);
    hide Insert;
    DistinctIdsSum(if t.isRunning then Insert(a, t) else a, if t.isRunning then b else Insert(b, t));
  }

  /** The other list does not change when a timer leaves its list. */
  lemma RemoveFromOne(a: seq<TimerBlk>, b: seq<TimerBlk>, t: TimerBlk)
    requires ListsOk(a, b)
    ensures DistinctIds(a) && DistinctIds(b)
    ensures t in a ==> Remove(b, t.id) == b
    ensures t in b ==> Remove(a, t.id) == a
  {
    OneListOnly(a, b);
    if t in a {
      RemoveAbsent(b, t.id);
    }
    if t in b {
      RemoveAbsent(a, t.id);
    }
  }

  lemma RemoveFirst(a: seq<TimerBlk>, b: seq<TimerBlk>)
    requires ListsOk(a, b) && a != []
    ensures Remove(a, a[0].id) == a[1..] && Remove(b, a[0].id) == b
  {
    OneListOnly(a, b);
    assert a[0] in a;
    RemoveAbsent(b, a[0].id);
  }

  class TimerList {
    const active: Node
    const idle: Node

    ghost var actives: seq<Node>
    ghost var idles: seq<Node>

    ghost function Active(): seq<TimerBlk>
      reads `actives, actives`item
    {
      Items(actives)
    }

    ghost function Idle(): seq<TimerBlk>
      reads `idles, idles`item
    {
      Items(idles)
    }

    ghost function ActiveRing(): seq<Node>
      reads `actives
    {
      [active] + actives
    }

    ghost function IdleRing(): seq<Node>
      reads `idles
    {
      [idle] + idles
    }

    /** Two circular lists without a node in common. */
    ghost predicate Linked()
      reads `actives, `idles, ActiveRing()`next, ActiveRing()`prev, IdleRing()`next, IdleRing()`prev
    {
      Ring(ActiveRing()) && Ring(IdleRing()) && Disjoint(ActiveRing(), IdleRing())
    }

    ghost predicate Valid()
      reads this, ActiveRing()`next, ActiveRing()`prev, IdleRing()`next, IdleRing()`prev, actives`item, idles`item
    {
      Linked() && ListsOk(Active(), Idle())
    }

    /** `TimerListInit` */
    constructor ()
      ensures Valid() && Active() == [] && Idle() == [] && actives == [] && idles == []
      ensures fresh(active) && fresh(idle)
    {
      var blank := TimerBlk(0, Period, false, 0, 0);
      active := new ListHead(blank);
      idle := new ListHead(blank);
      actives, idles := [], [];
      new;
      assert ActiveRing() == [active] && IdleRing() == [idle];
    }

    /** `ListRemove` on a running timer. */
    method DetachActive(tm: Node)
      requires Linked() && tm in actives && DistinctIds(Active())
      modifies `actives, ActiveRing()`next, ActiveRing()`prev
      ensures Linked() && tm !in ActiveRing() && tm !in IdleRing()
      ensures Active() == Remove(old(Active()), tm.item.id)
      ensures forall n :: n in actives <==> n in old(actives) && n != tm
    {
      hide Ring, Items, Remove, DistinctIds;
      assert tm in ActiveRing();
      actives := RemoveTimer(tm, active, actives, IdleRing());
    }

    /** `ListRemove` on a timer that is not running. */
    method DetachIdle(tm: Node)
      requires Linked() && tm in idles && DistinctIds(Idle())
      modifies `idles, IdleRing()`next, IdleRing()`prev
      ensures Linked() && tm !in ActiveRing() && tm !in IdleRing()
      ensures Idle() == Remove(old(Idle()), tm.item.id)
      ensures forall n :: n in idles <==> n in old(idles) && n != tm
    {
      hide Ring, Items, Remove, DistinctIds;
      assert tm in IdleRing();
      idles := RemoveTimer(tm, idle, idles, ActiveRing());
    }

    method AttachActive(tm: Node)
      requires Linked() && tm !in ActiveRing() && tm !in IdleRing()
      modifies `actives, tm`next, tm`prev, ActiveRing()`next, ActiveRing()`prev
      ensures Linked() && Active() == Insert(old(Active()), tm.item)
      ensures forall n :: n in actives <==> n in old(actives) || n == tm
    {
      hide Ring, Items, Insert;
      actives := InsertTimer(tm, active, actives, IdleRing());
    }

    method AttachIdle(tm: Node)
      requires Linked() && tm !in ActiveRing() && tm !in IdleRing()
      modifies `idles, tm`next, tm`prev, IdleRing()`next, IdleRing()`prev
      ensures Linked() && Idle() == Insert(old(Idle()), tm.item)
      ensures forall n :: n in idles <==> n in old(idles) || n == tm
    {
      hide Ring, Items, Insert;
      idles := InsertTimer(tm, idle, idles, ActiveRing());
    }

    /** The list and the state of a timer agree. */
    lemma OnItsList(tm: Node)
      requires Valid() && (tm in actives || tm in idles)
      ensures tm in actives <==> tm.item.isRunning
      ensures tm in idles <==> !tm.item.isRunning
    {
      if tm in actives {
        ItemIn(actives, tm);
      }
      if tm in idles {
        ItemIn(idles, tm);
      }
    }

    /** The timers on either list. */
    ghost function Timers(): set<Node>
      reads `actives, `idles
    {
      (set n | n in actives) + (set n | n in idles)
    }

    ghost function Nodes(): set<Node>
      reads `actives, `idles
    {
      Timers() + {active, idle}
    }

    lemma RingNodes()
      ensures forall n :: n in ActiveRing() ==> n in Nodes()
      ensures forall n :: n in IdleRing() ==> n in Nodes()
    {
    }

    /** `ListRemove`: the same unlinking on either list. */
    method Detach(tm: Node)
      requires Valid() && tm in Timers()
      modifies `actives, `idles, Nodes()`next, Nodes()`prev
      ensures Valid() && tm !in ActiveRing() && tm !in IdleRing()
      ensures !HasId(Active(), tm.item.id) && !HasId(Idle(), tm.item.id)
      ensures Active() == Remove(old(Active()), tm.item.id) && Idle() == Remove(old(Idle()), tm.item.id)
      ensures Timers() == old(Timers()) - {tm}
    {
      hide Ring, Items, Remove, ListsOk, HasId, DistinctIds, Disjoint, Linked;
      ghost var a, b := Active(), Idle();
      OnItsList(tm);
      RingNodes();
      RemoveOk(a, b, tm.item.id);
      if tm.item.isRunning {
        ItemIn(actives, tm);
        RemoveFromOne(a, b, tm.item);
        DetachActive(tm);
      } else {
        ItemIn(idles, tm);
        RemoveFromOne(a, b, tm.item);
        DetachIdle(tm);
      }
    }

    /** Inserts a timer into the list that its state names. */
    method Attach(tm: Node)
      requires Valid() && tm !in ActiveRing() && tm !in IdleRing()
      requires !HasId(Active(), tm.item.id) && !HasId(Idle(), tm.item.id)
      modifies `actives, `idles, tm`next, tm`prev, Nodes()`next, Nodes()`prev
      ensures Valid() && Timers() == old(Timers()) + {tm}
      ensures tm.item.isRunning ==> Active() == Insert(old(Active()), tm.item) && Idle() == old(Idle())
      ensures !tm.item.isRunning ==> Active() == old(Active()) && Idle() == Insert(old(Idle()), tm.item)
    {
      hide Ring, Items, Insert, ListsOk, HasId, DistinctIds, Disjoint;
      RingNodes();
      InsertOk(Active(), Idle(), tm.item);
      if tm.item.isRunning {
        AttachActive(tm);
      } else {
        AttachIdle(tm);
      }
    }

    /** A timer on neither list changes state. */
    method Update(tm: Node, t: TimerBlk)
      requires Valid() && tm !in ActiveRing() && tm !in IdleRing()
      modifies tm`item
      ensures Valid() && tm.item == t && Active() == old(Active()) && Idle() == old(Idle())
    {
      hide Ring, ListsOk, Disjoint;
      tm.item := t;
    }

    // ----- Operations ------------------------------------------------------

    /** Takes a block from the pool, if there is one, and puts the new timer on the idle list. */
    method TimerCreate(kind: Kind, duration: u32, block: Option<nat>) returns (tm: Option<Node>)
      requires Valid() && (block.Some? ==> !HasId(Active(), block.value) && !HasId(Idle(), block.value))
      modifies `idles, `actives, Nodes()`next, Nodes()`prev
      ensures Valid() && (tm.Some? <==> block.Some?) && Active() == old(Active())
      ensures tm.None? ==> Idle() == old(Idle()) && Timers() == old(Timers())
      ensures tm.Some? ==> fresh(tm.value) && tm.value.item == TimerBlk(block.value, kind, false, 0, duration)
      ensures tm.Some? ==> Idle() == Insert(old(Idle()), tm.value.item) && Timers() == old(Timers()) + {tm.value}
    {
      RingNodes();
      hide Ring, Items, Insert, ListsOk, HasId, Disjoint;
      if block.None? {
        return None;
      }
      var node := new ListHead(TimerBlk(block.value, kind, false, 0, duration));
      Attach(node);
      tm := Some(node);
    }

    /** Moves the timer to the active list, to expire one duration from now in 32-bit time. */
    method TimerStart(tm: Node, now: u32)
      requires Valid() && tm in Timers()
      modifies `actives, `idles, tm`item, Nodes()`next, Nodes()`prev
      ensures Valid() && Timers() == old(Timers()) && tm in actives
      ensures tm.item == old(tm.item).(expireTime := (now + old(tm.item).duration) % 0x1_0000_0000, isRunning := true)
      ensures Active() == Insert(Remove(old(Active()), tm.item.id), tm.item)
      ensures Idle() == Remove(old(Idle()), tm.item.id)
    {
      hide Ring, Items, Insert, Remove, ListsOk, HasId, Disjoint, Linked, Active, Idle, Place, InsertAt;
      ghost var id := tm.item.id;
      Detach(tm);
      assert Rearm(tm.item, now).id == id;
      hide Rearm;
      Update(tm, Rearm(tm.item, now).(isRunning := true));
      Attach(tm);
      OnItsList(tm);
    }

    /** Moves a running timer to the idle list. */
    method TimerStop(tm: Node)
      requires Valid() && tm in Timers()
      modifies `actives, `idles, tm`item, Nodes()`next, Nodes()`prev
      ensures Valid() && Timers() == old(Timers()) && tm in idles && tm.item == old(tm.item).(isRunning := false)
      ensures old(tm.item).isRunning ==> Active() == Remove(old(Active()), tm.item.id)
      ensures old(tm.item).isRunning ==> Idle() == Insert(Remove(old(Idle()), tm.item.id), tm.item)
      ensures !old(tm.item).isRunning ==> Active() == old(Active()) && Idle() == old(Idle())
    {
      hide Ring, Items, Insert, Remove, ListsOk, HasId, Disjoint;
      OnItsList(tm);
      if tm.item.isRunning {
        Detach(tm);
        Update(tm, Stopped(tm.item));
        Attach(tm);
        OnItsList(tm);
      }
    }

    /** Takes the timer off its list; the result is the block to return to the pool. */
    method TimerDelete(tm: Node) returns (block: nat)
      requires Valid() && tm in Timers()
      modifies `actives, `idles, Nodes()`next, Nodes()`prev
      ensures Valid() && Timers() == old(Timers()) - {tm} && block == tm.item.id
      ensures Active() == Remove(old(Active()), block) && Idle() == Remove(old(Idle()), block)
      ensures !HasId(Active(), block) && !HasId(Idle(), block)
    {
      hide Ring, Items, Remove, ListsOk, HasId, Disjoint;
      Detach(tm);
      block := tm.item.id;
    }

    // ----- The expiry check ------------------------------------------------

    lemma FirstActive()
      requires Valid()
      ensures actives == [] ==> active.next == active && Active() == []
      ensures actives != [] ==> active.next == actives[0] && actives[0] != active && actives[0] in Timers()
      ensures actives != [] ==> Active() != [] && Active()[0] == actives[0].item && actives[0].item.isRunning
    {
      RingAt(ActiveRing(), 0);
      if actives != [] {
        assert Active()[0] in Active();
        assert ActiveRing()[1] == actives[0];
      }
    }

    /** One turn of the loop: `tm`, the first active timer, fires and is moved. */
    method FireFirst(tm: Node, now: u32, ghost fired: seq<TimerBlk>)
      requires Valid() && actives != [] && tm == actives[0]
      modifies `actives, `idles, tm`item, Nodes()`next, Nodes()`prev
      ensures Valid() && Timers() == old(Timers())
      ensures Turn(Lists(old(Active()), old(Idle()), fired), now) == Lists(Active(), Idle(), fired + [old(tm.item)])
    {
      hide Ring, Items, Insert, Remove, ListsOk, HasId, Disjoint, Turn, Linked, Active, Idle, Place, InsertAt, Rearm,
           Stopped;
      ghost var a, b, t := Active(), Idle(), tm.item;
      FirstActive();
      RemoveFirst(a, b);
      TurnIs(Lists(a, b, fired), now);
      Detach(tm);
      Refresh(tm, now);
      Attach(tm);
    }

    /** The fired timer gets its next expiry time, or stops running. */
    method Refresh(tm: Node, now: u32)
      requires Valid() && tm !in ActiveRing() && tm !in IdleRing()
      modifies tm`item
      ensures Valid() && Active() == old(Active()) && Idle() == old(Idle())
      ensures tm.item == if old(tm.item).kind == Period then Rearm(old(tm.item), now) else Stopped(old(tm.item))
      ensures tm.item.id == old(tm.item).id
      ensures tm.item.isRunning == (old(tm.item).isRunning && old(tm.item).kind == Period)
    {
      assert forall t: TimerBlk :: Rearm(t, now).id == t.id && Rearm(t, now).kind == t.kind;
      assert forall t: TimerBlk :: Rearm(t, now).isRunning == t.isRunning;
      hide Ring, Items, ListsOk, Disjoint, Linked, Active, Idle, Rearm;
      if tm.item.kind == Period {
        Update(tm, Rearm(tm.item, now));
      } else {
        Update(tm, Stopped(tm.item));
      }
    }

    /** Fires the overdue timers; `fired` is the record of the callbacks made. */
    method TimerExpireCheck(now: u32) returns (ghost fired: seq<TimerBlk>)
      requires Valid() && NoWrap(Active(), now)
      modifies `actives, `idles, Timers()`item, Nodes()`next, Nodes()`prev
      ensures Valid() && Timers() == old(Timers())
      ensures Lists(Active(), Idle(), fired) == AfterCheck(Lists(old(Active()), old(Idle()), []), now)
    {
      hide Ring, Items, Insert, Remove, HasId, Disjoint, AfterCheck, NoWrap, Turn, Due;
      fired := [];
      FirstActive();
      var tm := active.next;
      while tm != active
        invariant Valid() && Timers() == old(Timers()) && NoWrap(Active(), now)
        invariant if actives == [] then tm == active else tm == actives[0] && tm != active
        invariant AfterCheck(Lists(Active(), Idle(), fired), now) ==
          AfterCheck(Lists(old(Active()), old(Idle()), []), now)
        decreases Due(Active(), now)
      {
        ghost var st := Lists(Active(), Idle(), fired);
        FirstActive();
        if tm.item.expireTime >= now {
          break;
        }
        TurnKeepsResult(st, now);
        FireFirst(tm, now, fired);
        fired := fired + [st.active[0]];
        FirstActive();
        tm := active.next;
      }
      FirstActive();
      NothingDue(Lists(Active(), Idle(), fired), now);
    }
  }
}
