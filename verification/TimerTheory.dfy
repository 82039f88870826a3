/** Timers on two lists sorted by expiry time, as sequences: what one expiry check does. */
module TimerTheory {
  import opened Prelude
  import opened LinkedList

  const CLOCK_RANGE := 0x1_0000_0000

  datatype Kind = Period | Once

  /** A timer block; `id` is its slot in the timer pool. */
  datatype TimerBlk = TimerBlk(id: nat, kind: Kind, isRunning: bool, expireTime: u32, duration: u32)

  function TimerCmp(a: TimerBlk, b: TimerBlk): int {
    if a.expireTime < b.expireTime then -1 else 1
  }

  function Insert(s: seq<TimerBlk>, x: TimerBlk): (r: seq<TimerBlk>)
    ensures |r| == |s| + 1
  {
    InsertAt(s, Place(x, s, TimerCmp), x)
  }

  ghost predicate Sorted(s: seq<TimerBlk>) {
    forall i, j :: 0 <= i < j < |s| ==> s[i].expireTime <= s[j].expireTime
  }

  /** Insertion keeps the list sorted, behind every timer that expires no later. */
  lemma InsertKeepsSorted(s: seq<TimerBlk>, x: TimerBlk)
    requires Sorted(s)
    ensures Sorted(Insert(s, x))
    ensures var k := Place(x, s, TimerCmp);
      && Insert(s, x) == s[..k] + [x] + s[k..]
      && (forall i :: 0 <= i < k ==> s[i].expireTime <= x.expireTime)
      && (forall i :: k <= i < |s| ==> x.expireTime < s[i].expireTime)
  {
    hide Place;
    var k := Place(x, s, TimerCmp);
    assert forall i :: 0 <= i < k ==> TimerCmp(x, s[i]) >= 0;
    assert k < |s| ==> TimerCmp(x, s[k]) < 0;
    assert forall i :: k <= i < |s| ==> s[k].expireTime <= s[i].expireTime;
    SortedAround(s, k, x);
  }

  lemma SortedAround(s: seq<TimerBlk>, k: nat, x: TimerBlk)
    requires Sorted(s) && k <= |s|
    requires forall i :: 0 <= i < k ==> s[i].expireTime <= x.expireTime
    requires forall i :: k <= i < |s| ==> x.expireTime < s[i].expireTime
    ensures Sorted(InsertAt(s, k, x))
  {
    var r := InsertAt(s, k, x);
    forall i, j | 0 <= i < j < |r|
      ensures r[i].expireTime <= r[j].expireTime
    {
      assert r[i] == if i < k then s[i] else if i == k then x else s[i - 1];
      assert r[j] == if j < k then s[j] else if j == k then x else s[j - 1];
    }
  }

  lemma InsertMembers(s: seq<TimerBlk>, x: TimerBlk)
    ensures multiset(Insert(s, x)) == multiset(s) + multiset{x}
    ensures forall t :: t in Insert(s, x) <==> t in s || t == x
  {
    var k := Place(x, s, TimerCmp);
    assert s == s[..k] + s[k..];
  }

  // ----- The expiry loop ---------------------------------------------------

  datatype Lists = Lists(active: seq<TimerBlk>, idle: seq<TimerBlk>, fired: seq<TimerBlk>)

  predicate Overdue(t: TimerBlk, now: u32) {
    t.expireTime < now
  }

  predicate Done(st: Lists, now: u32) {
    st.active == [] || !Overdue(st.active[0], now)
  }

  /** The expiry time is computed in 32-bit arithmetic. */
  function Rearm(t: TimerBlk, now: u32): TimerBlk {
    t.(expireTime := (now + t.duration) % CLOCK_RANGE)
  }

  function Stopped(t: TimerBlk): TimerBlk {
    t.(isRunning := false)
  }

  /** One turn of the loop: the first active timer fires and changes place. */
  function Turn(st: Lists, now: u32): Lists
    requires st.active != []
  {
    var t := st.active[0];
    if t.kind == Period then
      Lists(Insert(st.active[1..], Rearm(t, now)), st.idle, st.fired + [t])
    else
      Lists(st.active[1..], Insert(st.idle, Stopped(t)), st.fired + [t])
  }

  /** The state after at most `n` turns. */
  function Turns(n: nat, st: Lists, now: u32): Lists {
    if n == 0 || Done(st, now) then st else Turns(n - 1, Turn(st, now), now)
  }

  ghost predicate Terminates(st: Lists, now: u32) {
    exists n: nat :: Done(Turns(n, st, now), now)
  }

  predicate WrapsOnRearm(t: TimerBlk, now: u32) {
    Overdue(t, now) && t.kind == Period && now + t.duration >= CLOCK_RANGE
  }

  predicate NoWrap(active: seq<TimerBlk>, now: u32) {
    forall t :: t in active ==> !WrapsOnRearm(t, now)
  }

  /** The number of leading overdue timers. */
  function Due(s: seq<TimerBlk>, now: u32): (k: nat)
    ensures k <= |s|
    ensures forall i :: 0 <= i < k ==> Overdue(s[i], now)
    ensures k < |s| ==> !Overdue(s[k], now)
  {
    if s == [] || !Overdue(s[0], now) then 0 else 1 + Due(s[1..], now)
  }

  function InsertAll(s: seq<TimerBlk>, xs: seq<TimerBlk>): seq<TimerBlk>
    decreases |xs|
  {
    if xs == [] then s else InsertAll(Insert(s, xs[0]), xs[1..])
  }

  function Rearmed(fired: seq<TimerBlk>, now: u32): seq<TimerBlk> {
    if fired == [] then []
    else (if fired[0].kind == Period then [Rearm(fired[0], now)] else []) + Rearmed(fired[1..], now)
  }

  function Retired(fired: seq<TimerBlk>): seq<TimerBlk> {
    if fired == [] then []
    else (if fired[0].kind == Once then [Stopped(fired[0])] else []) + Retired(fired[1..])
  }

  /** The state after the check: the overdue timers have fired, in list order, and moved. */
  function AfterCheck(st: Lists, now: u32): Lists {
    var k := Due(st.active, now);
    var due := st.active[..k];
    Lists(InsertAll(st.active[k..], Rearmed(due, now)), InsertAll(st.idle, Retired(due)), st.fired + due)
  }

  lemma InsertAtBehind(a: seq<TimerBlk>, b: seq<TimerBlk>, k: nat, x: TimerBlk)
    requires k <= |b|
    ensures InsertAt(a + b, |a| + k, x) == a + InsertAt(b, k, x)
  {
    assert (a + b)[..|a| + k] == a + b[..k] && (a + b)[|a| + k..] == b[k..];
  }

  lemma InsertBehind(a: seq<TimerBlk>, b: seq<TimerBlk>, x: TimerBlk)
    requires forall i :: 0 <= i < |a| ==> a[i].expireTime <= x.expireTime
    ensures Insert(a + b, x) == a + Insert(b, x)
  {
    var k := Place(x, b, TimerCmp);
    assert forall i :: 0 <= i < k ==> TimerCmp(x, b[i]) >= 0;
    assert k < |b| ==> TimerCmp(x, b[k]) < 0;
    hide Place, InsertAt;
    PlaceIs(x, a + b, TimerCmp, |a| + k);
    InsertAtBehind(a, b, k, x);
  }

  lemma InsertHead(s: seq<TimerBlk>, x: TimerBlk)
    ensures Insert(s, x)[0] == x || (s != [] && Insert(s, x)[0] == s[0])
  {
  }

  /** Due timers stay in front while rearmed ones go in behind them. */
  lemma DueAfterTurn(s: seq<TimerBlk>, x: TimerBlk, now: u32)
    requires !Overdue(x, now)
    ensures var k := Due(s, now); var s' := Insert(s, x);
      Due(s', now) == k && s'[..k] == s[..k] && s'[k..] == Insert(s[k..], x)
  {
    hide Insert, Due;
    var k := Due(s, now);
    var a, b := s[..k], s[k..];
    var r := Insert(b, x);
    InsertHead(b, x);
    assert b != [] ==> b[0] == s[k];
    InsertBehind(a, b, x);
    assert a + b == s;
    assert (a + r)[..k] == a && (a + r)[k..] == r;
    DueIs(a + r, now, k);
  }

  lemma {:induction false} DueIs(s: seq<TimerBlk>, now: u32, k: nat)
    requires k <= |s| && (forall i :: 0 <= i < k ==> Overdue(s[i], now)) && (k < |s| ==> !Overdue(s[k], now))
    ensures Due(s, now) == k
  {
    if k > 0 {
      DueIs(s[1..], now, k - 1);
    }
  }

  lemma DueCons(s: seq<TimerBlk>, now: u32)
    requires s != [] && Overdue(s[0], now)
    ensures var k := Due(s, now);
      k == 1 + Due(s[1..], now) && s[..k] == [s[0]] + s[1..][..k - 1] && s[k..] == s[1..][k - 1..]
  {
  }

  lemma FiredCons(t: TimerBlk, xs: seq<TimerBlk>, now: u32)
    ensures Rearmed([t] + xs, now) == if t.kind == Period then [Rearm(t, now)] + Rearmed(xs, now) else Rearmed(xs, now)
    ensures Retired([t] + xs) == if t.kind == Period then Retired(xs) else [Stopped(t)] + Retired(xs)
  {
    assert ([t] + xs)[1..] == xs;
    assert [] + Rearmed(xs, now) == Rearmed(xs, now) && [] + Retired(xs) == Retired(xs);
  }

  lemma InsertAllCons(s: seq<TimerBlk>, x: TimerBlk, xs: seq<TimerBlk>)
    ensures InsertAll(s, [x] + xs) == InsertAll(Insert(s, x), xs)
  {
    assert ([x] + xs)[1..] == xs;
  }

  lemma NoWrapRest(s: seq<TimerBlk>, now: u32)
    requires Sorted(s) && NoWrap(s, now) && s != []
    ensures Sorted(s[1..]) && NoWrap(s[1..], now) && !WrapsOnRearm(s[0], now)
  {
    assert s[0] in s && forall t :: t in s[1..] ==> t in s;
  }

  lemma TurnIs(st: Lists, now: u32)
    requires st.active != []
    ensures var t := st.active[0];
      && (t.kind == Period ==> Turn(st, now) == Lists(Insert(st.active[1..], Rearm(t, now)), st.idle, st.fired + [t]))
      && (t.kind != Period ==> Turn(st, now) == Lists(st.active[1..], Insert(st.idle, Stopped(t)), st.fired + [t]))
  {
    hide Insert, Rearm, Stopped;
  }

  lemma AfterCheckIs(st: Lists, now: u32, k: nat)
    requires k == Due(st.active, now)
    ensures AfterCheck(st, now) == Lists(InsertAll(st.active[k..], Rearmed(st.active[..k], now)),
                                         InsertAll(st.idle, Retired(st.active[..k])), st.fired + st.active[..k])
  {
    hide InsertAll, Rearmed, Retired, Due;
  }

  /** One turn takes one due timer and does not change what the check ends with. */
  lemma TurnKeepsResult(st: Lists, now: u32)
    requires Sorted(st.active) && NoWrap(st.active, now) && !Done(st, now)
    ensures var st' := Turn(st, now);
      && Sorted(st'.active) && NoWrap(st'.active, now)
      && Due(st'.active, now) == Due(st.active, now) - 1 && AfterCheck(st', now) == AfterCheck(st, now)
  {
    var t, rest, st' := st.active[0], st.active[1..], Turn(st, now);
    NoWrapRest(st.active, now);
    DueCons(st.active, now);
    TurnIs(st, now);
    if t.kind == Period {
      RearmedNotDue(t, now);
    }
    hide Turn, Due, Insert, InsertAll, Rearmed, Retired, Sorted, NoWrap, Rearm, Stopped, Overdue, AfterCheck,
         WrapsOnRearm, Done;
    var k := Due(rest, now);
    FiredCons(t, rest[..k], now);
    if t.kind == Period {
      TurnOfPeriodic(rest, Rearm(t, now), k, Rearmed(rest[..k], now), now);
    } else {
      InsertAllCons(st.idle, Stopped(t), Retired(rest[..k]));
    }
    AfterCheckIs(st, now, k + 1);
    AfterCheckIs(st', now, k);
    Associate(st.fired, [t], rest[..k]);
  }

  lemma RearmedNotDue(t: TimerBlk, now: u32)
    requires !WrapsOnRearm(t, now) && Overdue(t, now) && t.kind == Period
    ensures !Overdue(Rearm(t, now), now)
  {
  }

  lemma TurnOfPeriodic(rest: seq<TimerBlk>, x: TimerBlk, k: nat, xs: seq<TimerBlk>, now: u32)
    requires Sorted(rest) && NoWrap(rest, now) && !Overdue(x, now) && k == Due(rest, now)
    ensures Sorted(Insert(rest, x)) && NoWrap(Insert(rest, x), now)
    ensures Due(Insert(rest, x), now) == k && Insert(rest, x)[..k] == rest[..k]
    ensures InsertAll(Insert(rest, x)[k..], xs) == InsertAll(rest[k..], [x] + xs)
  {
    DueAfterTurn(rest, x, now);
    InsertKeepsSorted(rest, x);
    InsertMembers(rest, x);
    InsertAllCons(rest[k..], x, xs);
  }

  /** Without wrap-around the loop stops after one turn per overdue timer, in the stated state. */
  lemma {:induction false} CheckResult(st: Lists, now: u32)
    requires Sorted(st.active) && NoWrap(st.active, now)
    ensures Turns(Due(st.active, now), st, now) == AfterCheck(st, now) && Done(AfterCheck(st, now), now)
    decreases Due(st.active, now)
  {
    hide AfterCheck, Turn;
    if Done(st, now) {
      NothingDue(st, now);
    } else {
      TurnKeepsResult(st, now);
      CheckResult(Turn(st, now), now);
    }
  }

  lemma NothingDue(st: Lists, now: u32)
    requires Done(st, now)
    ensures Due(st.active, now) == 0 && AfterCheck(st, now) == st
  {
    assert st.active[..0] == [] && st.active[0..] == st.active && st.fired + [] == st.fired;
  }

  // ----- Termination -------------------------------------------------------

  /** Some overdue periodic timer would be rearmed with a wrapped expiry time. */
  ghost predicate WrapAhead(st: Lists, now: u32) {
    Sorted(st.active) && exists t :: t in st.active && WrapsOnRearm(t, now)
  }

  /** A wrapped timer is overdue again at once, so there is always another turn. */
  lemma WrapRemains(st: Lists, now: u32)
    requires WrapAhead(st, now)
    ensures !Done(st, now) && WrapAhead(Turn(st, now), now)
  {
    var t :| t in st.active && WrapsOnRearm(t, now);
    var head, rest := st.active[0], st.active[1..];
    assert Sorted(rest) && head.expireTime <= t.expireTime && (t == head || t in rest);
    InsertMembers(rest, Rearm(head, now));
    InsertKeepsSorted(rest, Rearm(head, now));
    hide Insert, Place, InsertAt, Sorted;
    var t' := if t == head then Rearm(t, now) else t;
    assert WrapsOnRearm(t', now);
    assert t' in Turn(st, now).active;
  }

  lemma {:induction false} NeverDone(n: nat, st: Lists, now: u32)
    requires WrapAhead(st, now)
    ensures !Done(Turns(n, st, now), now)
  {
    WrapRemains(st, now);
    if n > 0 {
      NeverDone(n - 1, Turn(st, now), now);
    }
  }

  /** The expiry check ends exactly when no rearmed expiry time wraps around. */
  lemma TerminatesIffNoWrap(st: Lists, now: u32)
    requires Sorted(st.active)
    ensures Terminates(st, now) <==> NoWrap(st.active, now)
  {
    if NoWrap(st.active, now) {
      CheckResult(st, now);
      assert Done(Turns(Due(st.active, now), st, now), now);
    } else {
      assert WrapAhead(st, now);
      forall n: nat
        ensures !Done(Turns(n, st, now), now)
      {
        NeverDone(n, st, now);
      }
    }
  }

  /** A periodic timer that is overdue just before the clock wraps keeps the check busy for ever. */
  lemma ChecksForEver(id: nat)
    ensures !Terminates(Lists([TimerBlk(id, Period, true, 0, 1)], [], []), CLOCK_RANGE - 1)
  {
    var t := TimerBlk(id, Period, true, 0, 1);
    assert t in [t] && WrapsOnRearm(t, CLOCK_RANGE - 1);
    TerminatesIffNoWrap(Lists([t], [], []), CLOCK_RANGE - 1);
  }

  // ----- What the check does to each timer ---------------------------------

  lemma {:induction false} InsertAllMembers(s: seq<TimerBlk>, xs: seq<TimerBlk>)
    ensures |InsertAll(s, xs)| == |s| + |xs| && forall t :: t in InsertAll(s, xs) <==> t in s || t in xs
    ensures Sorted(s) ==> Sorted(InsertAll(s, xs))
    decreases |xs|
  {
    if xs != [] {
      InsertMembers(s, xs[0]);
      if Sorted(s) {
        InsertKeepsSorted(s, xs[0]);
      }
      InsertAllMembers(Insert(s, xs[0]), xs[1..]);
      assert xs == [xs[0]] + xs[1..];
    }
  }

  lemma {:induction false} FiredMembers(due: seq<TimerBlk>, now: u32)
    ensures forall x :: x in Rearmed(due, now) <==> exists t :: t in due && t.kind == Period && x == Rearm(t, now)
    ensures forall x :: x in Retired(due) <==> exists t :: t in due && t.kind == Once && x == Stopped(t)
    ensures |Rearmed(due, now)| + |Retired(due)| == |due|
  {
    if due != [] {
      FiredMembers(due[1..], now);
      assert due == [due[0]] + due[1..];
    }
  }

  lemma DueIsOverdue(s: seq<TimerBlk>, now: u32)
    requires Sorted(s)
    ensures forall i :: 0 <= i < |s| ==> (Overdue(s[i], now) <==> i < Due(s, now))
    ensures forall t :: t in s[..Due(s, now)] <==> t in s && Overdue(t, now)
  {
    var k := Due(s, now);
    forall i | k <= i < |s|
      ensures !Overdue(s[i], now)
    {
      assert s[k].expireTime <= s[i].expireTime;
    }
  }

  /** `t` is an active timer after the check: it was not overdue, or it fired and was rearmed. */
  predicate ActiveAfter(t: TimerBlk, st: Lists, now: u32) {
    || (t in st.active && !Overdue(t, now))
    || exists d :: d in st.active && Overdue(d, now) && d.kind == Period && t == Rearm(d, now)
  }

  /** `t` is an idle timer after the check: it was idle, or it is a one-shot timer that fired. */
  predicate IdleAfter(t: TimerBlk, st: Lists, now: u32) {
    || t in st.idle
    || exists d :: d in st.active && Overdue(d, now) && d.kind == Once && t == Stopped(d)
  }

  /** A timer that is rearmed changes in its expiry time alone, and one that is stopped in its state alone. */
  lemma RearmKeeps(t: TimerBlk, now: u32)
    ensures Rearm(t, now) == TimerBlk(t.id, t.kind, t.isRunning, (now + t.duration) % 0x1_0000_0000, t.duration)
    ensures Stopped(t) == TimerBlk(t.id, t.kind, false, t.expireTime, t.duration)
  {
  }

  /** The check fires exactly the overdue timers, each once and in order of expiry. */
  lemma CheckFires(st: Lists, now: u32)
    requires Sorted(st.active)
    ensures var due := st.active[..Due(st.active, now)];
      && AfterCheck(st, now).fired == st.fired + due && Sorted(due)
      && forall i :: 0 <= i < |st.active| ==> (st.active[i].expireTime < now <==> i < |due|)
  {
    DueIsOverdue(st.active, now);
  }

  lemma MovesMean(st: Lists, now: u32)
    ensures forall t :: ActiveAfter(t, st, now) <==> (
      || (t in st.active && t.expireTime >= now)
      || exists d :: d in st.active && d.expireTime < now && d.kind == Period
           && t == d.(expireTime := (now + d.duration) % 0x1_0000_0000))
    ensures forall t :: IdleAfter(t, st, now) <==> (
      || t in st.idle
      || exists d :: d in st.active && d.expireTime < now && d.kind == Once && t == d.(isRunning := false))
  {
  }

  lemma MovesBy(st: Lists, now: u32)
    requires Sorted(st.active)
    ensures var r := AfterCheck(st, now);
      && (forall t :: t in r.active <==> ActiveAfter(t, st, now))
      && (forall t :: t in r.idle <==> IdleAfter(t, st, now))
      && |r.active| + |r.idle| == |st.active| + |st.idle|
  {
    var k := Due(st.active, now);
    var due, rest := st.active[..k], st.active[k..];
    DueIsOverdue(st.active, now);
    RestNotDue(st.active, now);
    hide Due, Sorted, Overdue, Rearm, Stopped, Rearmed, Retired, InsertAll;
    FiredMembers(due, now);
    InsertAllMembers(rest, Rearmed(due, now));
    InsertAllMembers(st.idle, Retired(due));
  }

  /** The periodic timers that fired end active, and the one-shot timers idle; no timer is lost. */
  lemma CheckMoves(st: Lists, now: u32)
    requires Sorted(st.active)
    ensures var r := AfterCheck(st, now);
      && (forall t :: t in r.active <==> (
            || (t in st.active && t.expireTime >= now)
            || exists d :: d in st.active && d.expireTime < now && d.kind == Period
                 && t == d.(expireTime := (now + d.duration) % 0x1_0000_0000)))
      && (forall t :: t in r.idle <==> (
            || t in st.idle
            || exists d :: d in st.active && d.expireTime < now && d.kind == Once && t == d.(isRunning := false)))
      && |r.active| + |r.idle| == |st.active| + |st.idle|
  {
    MovesBy(st, now);
    MovesMean(st, now);
    hide AfterCheck, Sorted, ActiveAfter, IdleAfter;
  }

  /** Both lists stay sorted; rearmed timers expire one duration from now, so none is left overdue. */
  lemma CheckLeavesNoneOverdue(st: Lists, now: u32)
    requires Sorted(st.active) && Sorted(st.idle) && NoWrap(st.active, now)
    ensures var r := AfterCheck(st, now);
      && Sorted(r.active) && Sorted(r.idle) && (forall t :: t in r.active ==> t.expireTime >= now)
    ensures forall d :: d in st.active && d.expireTime < now && d.kind == Period ==>
      Rearm(d, now) == d.(expireTime := now + d.duration)
  {
    CheckKeepsSorted(st, now);
    MovesBy(st, now);
    forall d | d in st.active && d.expireTime < now && d.kind == Period
      ensures Rearm(d, now) == d.(expireTime := now + d.duration) && Rearm(d, now).expireTime >= now
    {
      RearmedLater(d, now);
    }
    hide AfterCheck, Sorted, NoWrap, WrapsOnRearm, Rearm;
  }

  lemma RearmedLater(t: TimerBlk, now: u32)
    requires t.expireTime < now && t.kind == Period && !WrapsOnRearm(t, now)
    ensures Rearm(t, now) == t.(expireTime := now + t.duration) && Rearm(t, now).expireTime >= now
  {
  }

  lemma CheckKeepsSorted(st: Lists, now: u32)
    requires Sorted(st.active) && Sorted(st.idle)
    ensures Sorted(AfterCheck(st, now).active) && Sorted(AfterCheck(st, now).idle)
  {
    var k := Due(st.active, now);
    assert Sorted(st.active[k..]);
    hide Sorted, InsertAll, Rearmed, Retired, Due;
    InsertAllMembers(st.active[k..], Rearmed(st.active[..k], now));
    InsertAllMembers(st.idle, Retired(st.active[..k]));
  }

  lemma RestNotDue(s: seq<TimerBlk>, now: u32)
    requires Sorted(s)
    ensures forall t :: t in s[Due(s, now)..] <==> t in s && !Overdue(t, now)
  {
    DueIsOverdue(s, now);
    SuffixMembers(s, Due(s, now), t => !Overdue(t, now));
  }

  lemma SuffixMembers<T>(s: seq<T>, k: nat, p: T -> bool)
    requires k <= |s| && forall i :: 0 <= i < |s| ==> (p(s[i]) <==> i >= k)
    ensures forall t :: t in s[k..] <==> t in s && p(t)
  {
    forall t | t in s[k..]
      ensures t in s && p(t)
    {
      var i :| 0 <= i < |s| - k && s[k..][i] == t;
      assert s[k + i] == t;
    }
  }
}
