/** Free lists kept in a ring of queue slots: the plain pool and the pool that numbers its objects. */
module Pool {
  import opened Prelude

  // ----- Segments of a ring ----------------------------------------------

  function Wrap(x: nat, m: nat): nat {
    if x < m then x else x - m
  }

  lemma ModIsWrap(x: nat, m: nat)
    requires 0 < m && x < 2 * m
    ensures x % m == Wrap(x, m)
  {
    var q, r := x / m, x % m;
    assert x == m * q + r;
    TwiceAtLeast(m, q);
    if q == 0 {
      assert m * q == 0;
    } else {
      assert q == 1 && m * q == m;
    }
  }

  lemma TwiceAtLeast(m: nat, q: nat)
    ensures q >= 2 ==> m * q >= 2 * m
  {
    if q >= 2 {
      assert m * q == m * 2 + m * (q - 2);
    }
  }

  /** The number of queue slots in use of a ring with `cap + 1`. */
  function Size(front: nat, end: nat, cap: nat): (n: nat)
    requires front <= cap && end <= cap
    ensures n <= cap
  {
    Wrap(end + cap + 1 - front, cap + 1)
  }

  lemma SizePop(front: nat, end: nat, cap: nat)
    requires front <= cap && end <= cap && Size(front, end, cap) > 0
    ensures (front + 1) % (cap + 1) == Wrap(front + 1, cap + 1) <= cap
    ensures Size(Wrap(front + 1, cap + 1), end, cap) == Size(front, end, cap) - 1
  {
    ModIsWrap(front + 1, cap + 1);
  }

  lemma SizePush(front: nat, end: nat, cap: nat)
    requires front <= cap && end <= cap && Size(front, end, cap) < cap
    ensures (end + 1) % (cap + 1) == Wrap(end + 1, cap + 1) <= cap
    ensures Size(front, Wrap(end + 1, cap + 1), cap) == Size(front, end, cap) + 1
    ensures Wrap(front + Size(front, end, cap), cap + 1) == end
  {
    ModIsWrap(end + 1, cap + 1);
  }

  /** The `n` ring slots from `front` on, in order. */
  ghost function Segment<T>(a: seq<T>, front: nat, n: nat): (s: seq<T>)
    requires front < |a| && n <= |a|
    ensures |s| == n
  {
    seq(n, i requires 0 <= i < n => a[Wrap(front + i, |a|)])
  }

  lemma SegmentAt<T>(a: seq<T>, front: nat, n: nat)
    requires front < |a| && n <= |a|
    ensures forall i :: 0 <= i < n ==> Segment(a, front, n)[i] == a[Wrap(front + i, |a|)]
  {
  }

  lemma SegmentPop<T>(a: seq<T>, front: nat, n: nat)
    requires front < |a| && 0 < n <= |a|
    ensures Segment(a, front, n)[0] == a[front]
    ensures Segment(a, Wrap(front + 1, |a|), n - 1) == Segment(a, front, n)[1..]
  {
    var s, r := Segment(a, front, n), Segment(a, Wrap(front + 1, |a|), n - 1);
    SegmentAt(a, front, n);
    SegmentAt(a, Wrap(front + 1, |a|), n - 1);
    assert forall i :: 0 <= i < n - 1 ==> r[i] == s[i + 1];
  }

  lemma SegmentPush<T>(a: seq<T>, front: nat, n: nat, x: T)
    requires front < |a| && n < |a|
    ensures Segment(a[Wrap(front + n, |a|) := x], front, n + 1) == Segment(a, front, n) + [x]
  {
    SegmentAt(a, front, n);
    SegmentAt(a[Wrap(front + n, |a|) := x], front, n + 1);
  }

  // ----- The free list as a value ----------------------------------------

  /** The free objects in the order they will be handed out, and the objects handed out. */
  datatype PoolState = PoolState(free: seq<nat>, held: set<nat>)

  datatype Step = Alloc | Free(obj: nat)

  function Apply(st: PoolState, step: Step, cap: nat): PoolState {
    match step
    case Alloc =>
      if st.free == [] then st else PoolState(st.free[1..], st.held + {st.free[0]})
    case Free(x) =>
      if |st.free| < cap then PoolState(st.free + [x], st.held - {x}) else st
  }

  ghost function Run(st: PoolState, steps: seq<Step>, cap: nat): PoolState
    decreases |steps|
  {
    if steps == [] then st else Run(Apply(st, steps[0], cap), steps[1..], cap)
  }

  /** Only objects in use are freed. */
  ghost predicate Proper(st: PoolState, steps: seq<Step>, cap: nat)
    decreases |steps|
  {
    steps != [] ==>
      (steps[0].Free? ==> steps[0].obj in st.held) && Proper(Apply(st, steps[0], cap), steps[1..], cap)
  }

  /** Every object of the pool is either free, once, or in use. */
  ghost predicate Conserved(st: PoolState, cap: nat) {
    && Distinct(st.free)
    && (forall x :: x in st.free ==> x !in st.held)
    && (forall x: nat :: x in st.free || x in st.held <==> x < cap)
  }

  ghost function UpTo(n: nat): (s: set<nat>)
    ensures |s| == n && forall x: nat :: x in s <==> x < n
  {
    if n == 0 then {} else UpTo(n - 1) + {n - 1}
  }

  lemma DistinctTail<T>(s: seq<T>)
    requires Distinct(s) && s != []
    ensures Distinct(s[1..]) && s[0] !in s[1..]
    ensures forall x :: x in s <==> x in s[1..] || x == s[0]
  {
    assert s == [s[0]] + s[1..];
  }

  ghost function Members(s: seq<nat>): (m: set<nat>)
    ensures forall x: nat :: x in m <==> x in s
  {
    set x: nat | x in s
  }

  lemma {:induction false} DistinctCount(s: seq<nat>)
    requires Distinct(s)
    ensures |Members(s)| == |s|
  {
    if s == [] {
      assert Members(s) == {};
    } else {
      DistinctTail(s);
      DistinctCount(s[1..]);
      hide Distinct;
      assert Members(s) == Members(s[1..]) + {s[0]};
    }
  }

  /** Free plus in use is the capacity. */
  lemma Count(st: PoolState, cap: nat)
    requires Conserved(st, cap)
    ensures |st.free| + |st.held| == cap
    ensures st.free == [] <==> st.held == UpTo(cap)
  {
    DistinctCount(st.free);
    hide Distinct, UpTo;
    var f := Members(st.free);
    assert f + st.held == UpTo(cap);
    assert f !! st.held && |f + st.held| == |f| + |st.held|;
    assert st.free != [] ==> st.free[0] in f;
    if st.free == [] {
      assert f == {} && f + st.held == st.held;
    }
  }

  lemma DistinctAppend<T>(s: seq<T>, x: T)
    ensures Distinct(s + [x]) <==> Distinct(s) && x !in s
  {
    var r := s + [x];
    assert r[|s|] == x && forall i :: 0 <= i < |s| ==> r[i] == s[i];
  }

  lemma AllocConserves(st: PoolState, cap: nat)
    requires Conserved(st, cap)
    ensures Conserved(Apply(st, Alloc, cap), cap)
    ensures st.free == [] <==> st.held == UpTo(cap)
  {
    Count(st, cap);
    if st.free != [] {
      DistinctTail(st.free);
    }
  }

  lemma FirstIsFree(st: PoolState, cap: nat)
    requires Conserved(st, cap) && st.free != []
    ensures st.free[0] !in st.held && st.free[0] < cap
  {
    assert st.free[0] in st.free;
    hide Distinct;
  }

  /** Freeing keeps the pool conserved exactly when the object was in use; a full pool turns any object away. */
  lemma FreeConservesIffHeld(st: PoolState, x: nat, cap: nat)
    requires Conserved(st, cap)
    ensures Conserved(Apply(st, Free(x), cap), cap) <==> x in st.held || |st.free| == cap
    ensures x in st.held ==> |st.free| < cap
  {
    Count(st, cap);
    var st' := Apply(st, Free(x), cap);
    DistinctAppend(st.free, x);
    hide Distinct;
    if |st.free| < cap {
      assert forall y :: y in st'.free <==> y in st.free || y == x;
      if Conserved(st', cap) {
        assert x in st'.free;
        assert x !in st.free && x < cap;
      }
    }
  }

  /** All objects free, in order of position. */
  function AllFree(cap: nat): PoolState {
    PoolState(seq(cap, i => i), {})
  }

  lemma AllFreeConserved(cap: nat)
    ensures Conserved(AllFree(cap), cap)
  {
    var s := AllFree(cap).free;
    forall x: nat
      ensures x in s <==> x < cap
    {
      if x < cap {
        assert s[x] == x;
      }
    }
  }

  lemma InitialState(queue: seq<nat>, cap: nat)
    requires |queue| == cap + 1 && forall j :: 0 <= j < cap ==> queue[j] == j
    ensures PoolState(Segment(queue, 0, cap), {}) == AllFree(cap) && Conserved(AllFree(cap), cap)
  {
    SegmentAt(queue, 0, cap);
    AllFreeConserved(cap);
    assert Segment(queue, 0, cap) == AllFree(cap).free;
  }

  /** What one step more does to a run, and when it may be taken. */
  lemma {:induction false} RunGrows(st: PoolState, steps: seq<Step>, step: Step, cap: nat)
    ensures Run(st, [], cap) == st && Run(st, steps + [step], cap) == Apply(Run(st, steps, cap), step, cap)
    ensures Proper(st, [], cap)
    ensures Proper(st, steps + [step], cap) <==>
      Proper(st, steps, cap) && (step.Free? ==> step.obj in Run(st, steps, cap).held)
    decreases |steps|
  {
    hide Apply;
    if steps == [] {
      assert [] + [step] == [step] && [step][1..] == [];
      assert Proper(st, [step], cap) <==> (step.Free? ==> step.obj in st.held) && Proper(Apply(st, step, cap), [], cap);
    } else {
      RunGrows(Apply(st, steps[0], cap), steps[1..], step, cap);
      assert (steps + [step])[0] == steps[0] && (steps + [step])[1..] == steps[1..] + [step];
    }
  }

  /** Over every run that frees only objects in use, the pool stays conserved. */
  lemma {:induction false} RunConserves(st: PoolState, steps: seq<Step>, cap: nat)
    requires Conserved(st, cap) && Proper(st, steps, cap)
    ensures Conserved(Run(st, steps, cap), cap)
    decreases |steps|
  {
    if steps != [] {
      if steps[0] == Alloc {
        AllocConserves(st, cap);
      } else {
        FreeConservesIffHeld(st, steps[0].obj, cap);
      }
      RunConserves(Apply(st, steps[0], cap), steps[1..], cap);
    }
  }

  /** Allocation at the end of such a run fails only when every object is in use, and hands out an unused one. */
  lemma AllocAfterRun(st: PoolState, steps: seq<Step>, cap: nat)
    requires Conserved(st, cap) && Proper(st, steps, cap)
    ensures var end := Run(st, steps, cap);
      && (end.free == [] <==> end.held == UpTo(cap))
      && (end.free != [] ==> end.free[0] < cap && end.free[0] !in end.held)
  {
    RunConserves(st, steps, cap);
    AllocConserves(Run(st, steps, cap), cap);
  }

  // ----- The pool ---------------------------------------------------------

  /** The pool of `utlt_pool.h`; objects are named by their position in the array behind it. */
  class Pool {
    const qCap: nat
    const queueAvail: array<nat>
    var qFront: nat
    var qEnd: nat
    ghost var held: set<nat>

    ghost predicate Valid()
      reads this
    {
      queueAvail.Length == qCap + 1 && qFront <= qCap && qEnd <= qCap
    }

    /** The number of free objects. */
    function PoolSize(): (n: nat)
      requires Valid()
      reads this
      ensures n == Size(qFront, qEnd, qCap)
    {
      ModIsWrap(qEnd + qCap + 1 - qFront, qCap + 1);
      (qEnd + qCap + 1 - qFront) % (qCap + 1)
    }

    ghost function State(): PoolState
      requires Valid()
      reads this, queueAvail
    {
      PoolState(Segment(queueAvail[..], qFront, Size(qFront, qEnd, qCap)), held)
    }

    /** `PoolInit` */
    constructor (cap: nat)
      ensures Valid() && fresh(queueAvail) && qCap == cap
      ensures State() == AllFree(cap) && Conserved(State(), cap)
    {
      qFront := 0;
      qEnd := cap;
      qCap := cap;
      queueAvail := new nat[cap + 1];
      held := {};
      new;
      for i := 0 to cap
        invariant forall j :: 0 <= j < i ==> queueAvail[j] == j
        modifies queueAvail
      {
        queueAvail[i] := i;
      }
      InitialState(queueAvail[..], cap);
    }

    /** Hands out the first free object. */
    method PoolAlloc() returns (obj: Option<nat>)
      requires Valid()
      modifies `qFront, `held
      ensures Valid() && State() == Apply(old(State()), Alloc, qCap)
      ensures obj == if old(State()).free == [] then None else Some(old(State()).free[0])
    {
      hide Segment, Wrap, Size;
      if PoolSize() > 0 {
        SegmentPop(queueAvail[..], qFront, PoolSize());
        SizePop(qFront, qEnd, qCap);
        obj := Some(queueAvail[qFront]);
        held := held + {queueAvail[qFront]};
        qFront := (qFront + 1) % (qCap + 1);
      } else {
        obj := None;
      }
    }

    /** Puts an object behind the free ones, unless all are free. */
    method PoolFree(obj: nat)
      requires Valid()
      modifies `qEnd, `held, queueAvail
      ensures Valid() && State() == Apply(old(State()), Free(obj), qCap)
    {
      hide Segment, Wrap, Size;
      if PoolSize() < qCap {
        SegmentPush(queueAvail[..], qFront, PoolSize(), obj);
        SizePush(qFront, qEnd, qCap);
        queueAvail[qEnd] := obj;
        held := held - {obj};
        qEnd := (qEnd + 1) % (qCap + 1);
      }
    }
  }

  lemma ApplyAlloc(st: PoolState, cap: nat)
    ensures st.free == [] ==> Apply(st, Alloc, cap) == st
    ensures st.free != [] ==> Apply(st, Alloc, cap) == PoolState(st.free[1..], st.held + {st.free[0]})
  {
  }

  lemma ApplyFree(st: PoolState, x: nat, cap: nat)
    ensures |st.free| < cap ==> Apply(st, Free(x), cap) == PoolState(st.free + [x], st.held - {x})
    ensures |st.free| >= cap ==> Apply(st, Free(x), cap) == st
  {
  }

  // ----- The index pool ---------------------------------------------------

  /** A free object waits with its own position as its number, and one in use carries it. */
  ghost predicate Numbered(st: PoolState, numbers: seq<nat>, index: seq<nat>) {
    numbers == st.free && forall x :: x in st.held ==> x < |index| && index[x] == x
  }

  lemma AllocNumbered(st: PoolState, numbers: seq<nat>, index: seq<nat>, cap: nat)
    requires Conserved(st, cap) && Numbered(st, numbers, index) && |index| == cap + 1 && st.free != []
    ensures var x := st.free[0];
      x == numbers[0] && x < cap && Numbered(Apply(st, Alloc, cap), numbers[1..], index[x := x])
  {
    assert st.free[0] in st.free;
    hide Distinct;
  }

  /** Freeing keeps pool and numbers in order exactly when the object was in use or is turned away. */
  lemma FreeKeepsIff(st: PoolState, numbers: seq<nat>, index: seq<nat>, x: nat, cap: nat)
    requires Conserved(st, cap) && Numbered(st, numbers, index) && |index| == cap + 1 && x <= cap
    ensures |st.free| <= cap
    ensures var st', numbers' := Apply(st, Free(x), cap), if |st.free| < cap then numbers + [index[x]] else numbers;
      Conserved(st', cap) && Numbered(st', numbers', index) <==> x in st.held || |st.free| == cap
  {
    hide Conserved, Numbered;
    Count(st, cap);
    FreeConservesIffHeld(st, x, cap);
    if x in st.held {
      FreeNumbered(st, numbers, index, x, cap);
    }
  }

  lemma FreeNumbered(st: PoolState, numbers: seq<nat>, index: seq<nat>, x: nat, cap: nat)
    requires Conserved(st, cap) && Numbered(st, numbers, index) && |index| == cap + 1 && x in st.held
    ensures x < cap && index[x] == x
    ensures |st.free| < cap ==> Numbered(Apply(st, Free(x), cap), numbers + [x], index)
  {
    hide Distinct;
  }

  /** Two numbers have the same low 32 bits exactly when their difference has none set. */
  lemma SameLow(a: int, x: u32)
    ensures a % 0x1_0000_0000 == x <==> (a - x) % 0x1_0000_0000 == 0
  {
    var q, r := a / 0x1_0000_0000, a % 0x1_0000_0000;
    assert a - x == 0x1_0000_0000 * q + (r - x);
    if r >= x {
      assert (a - x) % 0x1_0000_0000 == r - x;
    } else {
      assert (a - x) % 0x1_0000_0000 == r - x + 0x1_0000_0000;
    }
  }

  /** The pool of `utlt_index.h`, whose objects carry a number; `index[x]` is the field of object `x`. */
  class Index {
    const qCap: nat
    const queueAvail: array<nat>
    const arrayForIndex: array<nat>
    const index: array<nat>
    var qFront: nat
    var qEnd: nat
    ghost var held: set<nat>

    ghost predicate Shape()
      reads this
    {
      && queueAvail.Length == arrayForIndex.Length == index.Length == qCap + 1 && qFront <= qCap && qEnd <= qCap
      && queueAvail != arrayForIndex && arrayForIndex != index && queueAvail != index
    }

    ghost predicate Valid()
      reads this, queueAvail, arrayForIndex, index
    {
      Shape() && Conserved(State(), qCap) && Numbered(State(), Numbers(), index[..])
    }

    /** The numbers that wait in the queue beside the free objects. */
    ghost function Numbers(): seq<nat>
      requires Shape()
      reads this, arrayForIndex
    {
      Segment(arrayForIndex[..], qFront, Size(qFront, qEnd, qCap))
    }

    function IndexSize(): (n: nat)
      requires qFront <= qCap && qEnd <= qCap
      reads this
      ensures n == Size(qFront, qEnd, qCap)
    {
      ModIsWrap(qEnd + qCap + 1 - qFront, qCap + 1);
      (qEnd + qCap + 1 - qFront) % (qCap + 1)
    }

    ghost function State(): PoolState
      requires Shape()
      reads this, queueAvail
    {
      PoolState(Segment(queueAvail[..], qFront, Size(qFront, qEnd, qCap)), held)
    }

    /** `IndexInit` */
    constructor (cap: nat)
      ensures Valid() && fresh(queueAvail) && fresh(arrayForIndex) && fresh(index) && qCap == cap && held == {}
    {
      qFront := 0;
      qEnd := cap;
      qCap := cap;
      queueAvail := new nat[cap + 1];
      arrayForIndex := new nat[cap + 1];
      index := new nat[cap + 1];
      held := {};
      new;
      hide Segment, Conserved;
      for i := 0 to cap
        invariant forall j :: 0 <= j < i ==> queueAvail[j] == j == arrayForIndex[j]
        modifies queueAvail, arrayForIndex
      {
        arrayForIndex[i] := i;
        queueAvail[i] := i;
      }
      InitialState(queueAvail[..], cap);
      InitialState(arrayForIndex[..], cap);
    }

    /** Hands out the first free object with its number filled in. */
    method IndexAlloc() returns (obj: Option<nat>)
      requires Valid()
      modifies `qFront, `held, index
      ensures Valid() && State() == Apply(old(State()), Alloc, qCap)
      ensures obj == if old(State()).free == [] then None else Some(old(State()).free[0])
      ensures index[..] == if obj.None? then old(index[..]) else old(index[..])[obj.value := obj.value]
    {
      hide Conserved, Numbered, Segment, Apply, Wrap, Size, IndexSize;
      ghost var st := State();
      AllocConserves(st, qCap);
      ApplyAlloc(st, qCap);
      if IndexSize() > 0 {
        ghost var numbers, numbered := Numbers(), index[..];
        AllocNumbered(st, numbers, numbered, qCap);
        SegmentPop(queueAvail[..], qFront, IndexSize());
        SegmentPop(arrayForIndex[..], qFront, IndexSize());
        SizePop(qFront, qEnd, qCap);
        var x := queueAvail[qFront];
        obj := Some(x);
        index[x] := arrayForIndex[qFront];
        assert index[..] == numbered[x := x];
        held := held + {x};
        qFront := (qFront + 1) % (qCap + 1);
        assert Numbers() == numbers[1..];
        assert State() == Apply(st, Alloc, qCap);
      } else {
        obj := None;
      }
    }

    /**
     * Queues an object, and its number beside it, unless all are free; the pool stays valid exactly when the
     * object was in use or is turned away.
     */
    method IndexFree(obj: nat)
      requires Valid() && obj < index.Length
      modifies `qEnd, `held, queueAvail, arrayForIndex
      ensures Shape() && State() == Apply(old(State()), Free(obj), qCap)
      ensures Numbers() == if |old(State()).free| < qCap then old(Numbers()) + [index[obj]] else old(Numbers())
      ensures Valid() <==> obj in old(held) || |old(State()).free| == qCap
    {
      hide Conserved, Numbered, Segment, Apply, Wrap, Size, IndexSize;
      ghost var st := State();
      FreeKeepsIff(st, Numbers(), index[..], obj, qCap);
      ApplyFree(st, obj, qCap);
      if IndexSize() < qCap {
        SegmentPush(queueAvail[..], qFront, IndexSize(), obj);
        SegmentPush(arrayForIndex[..], qFront, IndexSize(), index[obj]);
        SizePush(qFront, qEnd, qCap);
        queueAvail[qEnd] := obj;
        arrayForIndex[qEnd] := index[obj];
        held := held - {obj};
        qEnd := (qEnd + 1) % (qCap + 1);
      }
    }

    /** `IndexFind`: the object at a position. */
    function IndexFind(i: nat): nat {
      i
    }

    /** The session endpoint identifier given to an object, from its number. */
    function Seid(obj: nat): int
      requires obj < index.Length
      reads index
    {
      index[obj] + 1
    }

    /** `UpfSessionFindBySeid`: only the low 32 bits of the identifier less one are looked at. */
    function FindBySeid(seid: u64): nat {
      IndexFind((seid - 1) % 0x1_0000_0000)
    }

    /** Looking up an object in use by its own identifier finds it, and no two objects share one. */
    lemma SeidFindsItsObject(obj: nat)
      requires Valid() && obj in held && qCap < 0x1_0000_0000
      ensures 1 <= Seid(obj) <= qCap && FindBySeid(Seid(obj)) == obj
      ensures forall other :: other in held && Seid(other) == Seid(obj) ==> other == obj
    {
      assert obj < qCap;
    }

    /** An identifier finds an object exactly when it is the object's own up to the high 32 bits. */
    lemma SeidFindsIff(obj: nat, seid: u64)
      requires Valid() && obj in held && qCap < 0x1_0000_0000
      ensures FindBySeid(seid) == obj <==> (seid - Seid(obj)) % 0x1_0000_0000 == 0
    {
      SeidFindsItsObject(obj);
      hide Conserved, Numbered, Segment, Size;
      SameLow(seid - 1, obj);
    }
  }
}
