/** Address lists: singly linked lists that are sorted, filtered and copied by relinking. */
module AddressList {
  import opened Prelude

  class SockAddr {
    const family: int
    const address: octets
    var next: SockAddr?

    constructor (family: int, address: octets, next: SockAddr?)
      ensures this.family == family && this.address == address && this.next == next
    {
      this.family := family;
      this.address := address;
      this.next := next;
    }
  }

  /** The nodes from `head` on are `s`. */
  ghost predicate List(head: SockAddr?, s: seq<SockAddr>)
    reads s`next
  {
    && Distinct(s) && head == At(s, 0)
    && forall i {:trigger s[i].next} :: 0 <= i < |s| ==> s[i].next == At(s, i + 1)
  }

  function At(s: seq<SockAddr>, i: int): SockAddr? {
    if 0 <= i < |s| then s[i] else null
  }

  // ----- The sort as a function of sequences -------------------------------

  /** The addresses in front of which a further one goes: the leading ones that are not preferred. */
  function Run<T>(s: seq<T>, p: T -> bool): (k: nat)
    ensures k <= |s|
    ensures forall i :: 0 <= i < k ==> !p(s[i])
    ensures k < |s| ==> p(s[k])
  {
    if s == [] || p(s[0]) then 0 else 1 + Run(s[1..], p)
  }

  /** Where the sort puts one address: in front if preferred, else behind the first and those not preferred. */
  function Settle<T>(s: seq<T>, x: T, p: T -> bool): (r: seq<T>)
    ensures |r| == |s| + 1
  {
    if s == [] || p(x) then [x] + s
    else var k := 1 + Run(s[1..], p); s[..k] + [x] + s[k..]
  }

  function SettleAll<T>(s: seq<T>, rest: seq<T>, p: T -> bool): seq<T>
    decreases |rest|
  {
    if rest == [] then s else SettleAll(Settle(s, rest[0], p), rest[1..], p)
  }

  lemma {:induction false} SortPermutes<T>(s: seq<T>, rest: seq<T>, p: T -> bool)
    ensures multiset(SettleAll(s, rest, p)) == multiset(s) + multiset(rest)
    decreases |rest|
  {
    if rest != [] {
      SettlePermutes(s, rest[0], p);
      SortPermutes(Settle(s, rest[0], p), rest[1..], p);
      assert rest == [rest[0]] + rest[1..];
    }
  }

  lemma SettlePermutes<T>(s: seq<T>, x: T, p: T -> bool)
    ensures multiset(Settle(s, x, p)) == multiset(s) + multiset{x}
  {
    var k := if s == [] then 0 else 1 + Run(s[1..], p);
    assert s == s[..k] + s[k..];
  }

  /** Without a preferred address the list stays as it is. */
  lemma {:induction false} SortKeepsOthers<T>(s: seq<T>, rest: seq<T>, p: T -> bool)
    requires (forall i :: 0 <= i < |s| ==> !p(s[i])) && (forall i :: 0 <= i < |rest| ==> !p(rest[i]))
    ensures SettleAll(s, rest, p) == s + rest
    decreases |rest|
  {
    if rest == [] {
      assert s + rest == s;
    } else {
      assert s + rest == (s + [rest[0]]) + rest[1..];
      SettleLast(s, rest[0], p);
      SortKeepsOthers(s + [rest[0]], rest[1..], p);
    }
  }

  lemma SettleLast<T>(s: seq<T>, x: T, p: T -> bool)
    requires !p(x) && forall i :: 0 < i < |s| ==> !p(s[i])
    ensures Settle(s, x, p) == s + [x]
  {
    if s != [] {
      RunIs(s[1..], p, |s| - 1);
    }
  }

  /** The head is the last preferred address. */
  lemma {:induction false} SortHead<T>(s: seq<T>, rest: seq<T>, p: T -> bool, i: nat)
    requires i < |rest| && p(rest[i]) && forall j :: i < j < |rest| ==> !p(rest[j])
    ensures SettleAll(s, rest, p) != [] && SettleAll(s, rest, p)[0] == rest[i]
    decreases |rest|
  {
    if i == 0 {
      HeadStays([rest[0]] + s, rest[1..], p);
    } else {
      SortHead(Settle(s, rest[0], p), rest[1..], p, i - 1);
    }
  }

  lemma {:induction false} HeadStays<T>(s: seq<T>, rest: seq<T>, p: T -> bool)
    requires s != [] && forall x :: x in rest ==> !p(x)
    ensures SettleAll(s, rest, p) != [] && SettleAll(s, rest, p)[0] == s[0]
    decreases |rest|
  {
    if rest != [] {
      assert rest[0] in rest;
      HeadStays(Settle(s, rest[0], p), rest[1..], p);
    }
  }

  // ----- When the preferred addresses end up first --------------------------

  ghost predicate PreferredFirst<T>(s: seq<T>, p: T -> bool) {
    forall i, j :: 0 <= i < j < |s| && p(s[j]) ==> p(s[i])
  }

  function Preferred<T>(s: seq<T>, p: T -> bool): nat {
    if s == [] then 0 else (if p(s[0]) then 1 else 0) + Preferred(s[1..], p)
  }

  /** No other address comes after two preferred ones, `n` of which came earlier. */
  ghost predicate NoneLate<T>(n: nat, rest: seq<T>, p: T -> bool) {
    forall j :: 0 <= j < |rest| && !p(rest[j]) ==> n + Preferred(rest[..j], p) <= 1
  }

  lemma NoneLateStep<T>(n: nat, rest: seq<T>, p: T -> bool)
    requires rest != []
    ensures NoneLate(n, rest, p) <==>
      (!p(rest[0]) ==> n <= 1) && NoneLate(n + if p(rest[0]) then 1 else 0, rest[1..], p)
  {
    var m := n + if p(rest[0]) then 1 else 0;
    forall j | 0 < j < |rest|
      ensures n + Preferred(rest[..j], p) == m + Preferred(rest[1..][..j - 1], p)
    {
      assert rest[..j][1..] == rest[1..][..j - 1];
    }
    assert forall j :: 0 <= j < |rest| - 1 ==> rest[1..][j] == rest[j + 1];
    if NoneLate(n, rest, p) {
      assert !p(rest[0]) ==> n + Preferred(rest[..0], p) <= 1;
      forall j | 0 <= j < |rest| - 1 && !p(rest[1..][j])
        ensures m + Preferred(rest[1..][..j], p) <= 1
      {
        assert n + Preferred(rest[..j + 1], p) <= 1;
      }
    }
  }

  lemma {:induction false} PreferredSum<T>(a: seq<T>, b: seq<T>, p: T -> bool)
    ensures Preferred(a + b, p) == Preferred(a, p) + Preferred(b, p)
  {
    if a == [] {
      assert a + b == b;
    } else {
      PreferredSum(a[1..], b, p);
      assert (a + b)[1..] == a[1..] + b;
    }
  }

  lemma {:induction false} PreferredNone<T>(s: seq<T>, p: T -> bool)
    ensures Preferred(s, p) == 0 <==> forall i :: 0 <= i < |s| ==> !p(s[i])
  {
    if s != [] {
      PreferredNone(s[1..], p);
      assert forall i :: 0 <= i < |s| - 1 ==> s[1..][i] == s[i + 1];
    }
  }

  lemma SettleCounts<T>(s: seq<T>, x: T, p: T -> bool)
    ensures Preferred(Settle(s, x, p), p) == Preferred(s, p) + if p(x) then 1 else 0
  {
    if s != [] && !p(x) {
      var k := 1 + Run(s[1..], p);
      hide Run;
      PreferredSum(s[..k], [x], p);
      PreferredSum(s[..k] + [x], s[k..], p);
      PreferredSum(s[..k], s[k..], p);
      assert s[..k] + s[k..] == s;
    } else {
      PreferredSum([x], s, p);
    }
  }

  /** Settling keeps the preferred addresses first unless another address comes after two preferred ones. */
  lemma SettleGroups<T>(s: seq<T>, x: T, p: T -> bool)
    ensures PreferredFirst(Settle(s, x, p), p) <==> PreferredFirst(s, p) && (!p(x) ==> Preferred(s, p) <= 1)
  {
    var r := Settle(s, x, p);
    if s == [] || p(x) {
      assert forall i :: 0 <= i < |s| ==> r[i + 1] == s[i];
    } else {
      var k := 1 + Run(s[1..], p);
      assert forall i :: 0 <= i < k ==> r[i] == s[i];
      assert forall i :: k <= i < |s| ==> r[i + 1] == s[i];
      assert r[k] == x;
      SettleBehind(s, p, k);
      if k == |s| {
        assert forall j :: 0 < j < |r| ==> !p(r[j]);
      }
      if k < |s| {
        assert p(r[k + 1]) && !p(r[k]);
      } else {
        assert r == s + [x];
      }
    }
  }

  lemma SettleBehind<T>(s: seq<T>, p: T -> bool, k: nat)
    requires s != [] && k == 1 + Run(s[1..], p)
    ensures k < |s| ==> p(s[k])
    ensures k == |s| ==> Preferred(s, p) <= 1 && forall j :: 0 < j < |s| ==> !p(s[j])
    ensures k < |s| && PreferredFirst(s, p) ==> Preferred(s, p) >= 2
  {
    PreferredNone(s[1..], p);
    assert forall j :: 0 < j < |s| ==> s[j] == s[1..][j - 1];
    if k < |s| {
      assert s[1..][k - 1] == s[k];
      if PreferredFirst(s, p) {
        assert p(s[0]);
      }
    }
  }

  /** The sort puts the preferred addresses first exactly when no other address follows two preferred ones. */
  lemma {:induction false} SortGroupsIff<T>(s: seq<T>, rest: seq<T>, p: T -> bool)
    ensures PreferredFirst(SettleAll(s, rest, p), p) <==> PreferredFirst(s, p) && NoneLate(Preferred(s, p), rest, p)
    decreases |rest|
  {
    if rest != [] {
      var x := rest[0];
      SettleCounts(s, x, p);
      SettleGroups(s, x, p);
      NoneLateStep(Preferred(s, p), rest, p);
      SortGroupsIff(Settle(s, x, p), rest[1..], p);
    }
  }

  lemma {:induction false} PreferredTwo<T>(s: seq<T>, p: T -> bool)
    ensures Preferred(s, p) <= 1 <==> forall a, b :: 0 <= a < b < |s| ==> !(p(s[a]) && p(s[b]))
  {
    if s != [] {
      var t := s[1..];
      PreferredTwo(t, p);
      PreferredNone(t, p);
      assert forall i :: 0 <= i < |t| ==> t[i] == s[i + 1];
      if forall a, b :: 0 <= a < b < |s| ==> !(p(s[a]) && p(s[b])) {
        forall a, b | 0 <= a < b < |t|
          ensures !(p(t[a]) && p(t[b]))
        {
          assert t[a] == s[a + 1] && t[b] == s[b + 1];
        }
        assert p(s[0]) ==> forall i :: 0 <= i < |t| ==> !p(t[i]);
      }
    }
  }

  /** Sorting a list puts the preferred addresses first exactly when what follows two of them is one, too. */
  lemma SortGroupsWhen<T>(s: seq<T>, p: T -> bool)
    ensures var r := SettleAll([], s, p);
      (forall i, j :: 0 <= i < j < |r| && p(r[j]) ==> p(r[i]))
      <==> (forall a, b, j :: 0 <= a < b < j < |s| && p(s[a]) && p(s[b]) ==> p(s[j]))
  {
    SortGroupsIff([], s, p);
    forall j | 0 <= j < |s|
      ensures Preferred(s[..j], p) <= 1 <==> forall a, b :: 0 <= a < b < j ==> !(p(s[a]) && p(s[b]))
    {
      PreferredTwo(s[..j], p);
      assert forall a :: 0 <= a < j ==> s[..j][a] == s[a];
    }
    hide SettleAll, Preferred;
    assert NoneLate(0, s, p) <==> forall a, b, j :: 0 <= a < b < j < |s| && p(s[a]) && p(s[b]) ==> p(s[j]);
  }

  /** An address between two preferred ones: the sort does not always group by family. */
  lemma SortMixes()
    ensures SettleAll([], [1, 3, 2], x => x % 2 == 1) == [3, 2, 1]
  {
    var p := x => x % 2 == 1;
    assert Settle([], 1, p) == [1] && Settle([1], 3, p) == [3, 1];
    assert Settle([3, 1], 2, p) == [3, 2, 1];
    assert [1, 3, 2][1..] == [3, 2] && [3, 2][1..] == [2] && [2][1..] == [];
  }

  function Of(family: int): SockAddr -> bool {
    (a: SockAddr) => a.family == family
  }

  // ----- The lists -----------------------------------------------------------

  ghost function Nodes(s: seq<SockAddr>): set<SockAddr> {
    set a | a in s
  }

  /** Where a further address goes: the node to link it behind. */
  method FindPlace(head: SockAddr, family: int, ghost s: seq<SockAddr>) returns (place: SockAddr, ghost k: nat)
    requires List(head, s)
    ensures s != [] && k == Run(s[1..], Of(family)) && s[Run(s[1..], Of(family))] == place
  {
    ghost var p := Of(family);
    place := head;
    k := 0;
    while place.next != null && place.next.family != family
      invariant k < |s| && s[k] == place && forall i :: 0 < i <= k ==> !p(s[i])
      decreases |s| - k
    {
      place := place.next;
      k := k + 1;
    }
    RunIs(s[1..], p, k);
  }

  lemma {:induction false} RunIs<T>(s: seq<T>, p: T -> bool, k: nat)
    requires k <= |s| && (forall i :: 0 <= i < k ==> !p(s[i])) && (k < |s| ==> p(s[k]))
    ensures Run(s, p) == k
  {
    if k > 0 {
      RunIs(s[1..], p, k - 1);
    }
  }

  lemma InsertedAt<T>(s: seq<T>, k: nat, x: T)
    requires k <= |s|
    ensures var r := s[..k] + [x] + s[k..];
      && |r| == |s| + 1 && r[k] == x
      && (forall i :: 0 <= i < k ==> r[i] == s[i]) && (forall i :: k < i <= |s| ==> r[i] == s[i - 1])
      && (forall y :: y in r <==> y in s || y == x)
      && (Distinct(s) && x !in s ==> Distinct(r))
  {
    assert s == s[..k] + s[k..];
    var r := s[..k] + [x] + s[k..];
    assert (forall i :: 0 <= i < k ==> r[i] == s[i]) && (forall i :: k < i <= |s| ==> r[i] == s[i - 1]);
    InsertedDistinct(s, k, x, r);
  }

  lemma InsertedDistinct<T>(s: seq<T>, k: nat, x: T, r: seq<T>)
    requires k <= |s| && |r| == |s| + 1 && r[k] == x
    requires (forall i :: 0 <= i < k ==> r[i] == s[i]) && (forall i :: k < i <= |s| ==> r[i] == s[i - 1])
    ensures Distinct(s) && x !in s ==> Distinct(r)
  {
  }

  lemma RemovedAt<T>(s: seq<T>, k: nat)
    requires k < |s|
    ensures var r := s[..k] + s[k + 1..];
      && |r| == |s| - 1
      && (forall i :: 0 <= i < k ==> r[i] == s[i]) && (forall i :: k <= i < |s| - 1 ==> r[i] == s[i + 1])
      && (Distinct(s) ==> Distinct(r))
  {
  }

  lemma ListIs(head: SockAddr?, s: seq<SockAddr>)
    requires Distinct(s) && head == At(s, 0)
    requires forall i {:trigger s[i].next} :: 0 <= i < |s| ==> s[i].next == At(s, i + 1)
    ensures List(head, s)
  {
  }

  /** Links a node behind node `k` of a list. */
  method LinkBehind(addr: SockAddr, place: SockAddr, ghost head: SockAddr, ghost s: seq<SockAddr>, ghost k: nat)
    requires List(head, s) && addr !in s && k < |s| && s[k] == place
    modifies addr`next, Nodes(s)`next
    ensures List(head, s[..k + 1] + [addr] + s[k + 1..])
  {
    hide Distinct;
    ghost var r := s[..k + 1] + [addr] + s[k + 1..];
    InsertedAt(s, k + 1, addr);
    SameOnce(s, k);
    addr.next := place.next;
    place.next := addr;
    forall i {:trigger r[i].next} | 0 <= i < |r|
      ensures r[i].next == At(r, i + 1)
    {
      if i <= k {
        assert r[i] == s[i];
      } else if i > k + 1 {
        assert r[i] == s[i - 1] && r[i] != place;
      }
    }
    ListIs(head, r);
  }

  lemma SameOnce<T>(s: seq<T>, k: nat)
    requires Distinct(s) && k < |s|
    ensures forall i :: 0 <= i < |s| && i != k ==> s[i] != s[k]
  {
  }

  lemma SettleBy<T>(s: seq<T>, x: T, p: T -> bool)
    ensures s == [] || p(x) ==> Settle(s, x, p) == [x] + s
    ensures s != [] && !p(x) ==> var k := Run(s[1..], p); Settle(s, x, p) == s[..k + 1] + [x] + s[k + 1..]
    ensures forall y :: y in Settle(s, x, p) <==> y in s || y == x
  {
    SettlePermutes(s, x, p);
    assert forall y :: y in Settle(s, x, p) <==> y in multiset(Settle(s, x, p));
  }

  /** Links one address, which is on no list, into the sorted list. */
  method Link(addr: SockAddr, head: SockAddr?, family: int, ghost s: seq<SockAddr>)
      returns (head': SockAddr?, ghost s': seq<SockAddr>)
    requires List(head, s) && addr !in s
    modifies addr`next, Nodes(s)`next
    ensures List(head', s') && s' == Settle(s, addr, Of(family))
    ensures forall a :: a in s' <==> a in s || a == addr
  {
    hide Settle, Run, Distinct;
    SettleBy(s, addr, Of(family));
    s' := Settle(s, addr, Of(family));
    if head == null || addr.family == family {
      InsertedAt(s, 0, addr);
      assert s' == s[..0] + [addr] + s[0..];
      addr.next := head;
      head' := addr;
      ListIs(head', s');
    } else {
      var place;
      ghost var k;
      place, k := FindPlace(head, family, s);
      LinkBehind(addr, place, head, s, k);
      head' := head;
    }
  }

  lemma SortStep<T>(r: seq<T>, s: seq<T>, i: nat, p: T -> bool)
    requires i < |s|
    ensures SettleAll(r, s[i..], p) == SettleAll(Settle(r, s[i], p), s[i + 1..], p)
  {
    assert s[i..][1..] == s[i + 1..];
  }

  lemma SortEnd<T>(r: seq<T>, s: seq<T>, p: T -> bool)
    ensures SettleAll(r, s[|s|..], p) == r
    ensures s[0..] == s
  {
  }

  lemma OneMore<T>(s: seq<T>, i: nat)
    requires i < |s|
    ensures forall a :: a in s[..i + 1] <==> a in s[..i] || a == s[i]
    ensures Distinct(s) ==> forall j :: i <= j < |s| ==> s[j] !in s[..i]
    ensures s[i] in s && (forall a :: a in s[..i] ==> a in s) && (forall a :: a in s[i..] ==> a in s)
  {
    assert s[..i + 1] == s[..i] + [s[i]];
  }

  /**
   * What the sort does for a family: all addresses stay, the last one of the family leads, and without one
   * the order stays.
   */
  lemma SortMeans(s: seq<SockAddr>, family: int)
    ensures var r := SettleAll([], s, Of(family));
      && multiset(r) == multiset(s) && ((forall a :: a in s ==> a.family != family) ==> r == s)
      && forall i :: 0 <= i < |s| && s[i].family == family && (forall j :: i < j < |s| ==> s[j].family != family) ==>
           r != [] && r[0] == s[i]
  {
    hide SettleAll;
    SortPermutes([], s, Of(family));
    if forall a :: a in s ==> a.family != family {
      SortKeepsOthers([], s, Of(family));
      assert [] + s == s;
    }
    forall i | 0 <= i < |s| && s[i].family == family && (forall j :: i < j < |s| ==> s[j].family != family)
      ensures SettleAll([], s, Of(family)) != [] && SettleAll([], s, Of(family))[0] == s[i]
    {
      SortHead([], s, Of(family), i);
    }
  }

  /** `SockAddrSort` */
  method SockAddrSort(saList: SockAddr?, family: int, ghost s: seq<SockAddr>)
      returns (head: SockAddr?, ghost r: seq<SockAddr>)
    requires List(saList, s)
    modifies Nodes(s)`next
    ensures List(head, r) && r == SettleAll([], s, Of(family))
  {
    hide Settle, SettleAll, List;
    ListLinks(saList, s);
    ListEmpty();
    SortEnd([], s, Of(family));
    head := null;
    r := [];
    var rest := saList;
    ghost var i := 0;
    while rest != null
      invariant i <= |s| && rest == At(s, i) && List(head, r)
      invariant (forall a :: a in r <==> a in s[..i]) && forall a :: a in r ==> a in s
      invariant forall j {:trigger s[j].next} :: i <= j < |s| ==> s[j].next == At(s, j + 1)
      invariant SettleAll(r, s[i..], Of(family)) == SettleAll([], s, Of(family))
      decreases |s| - i
    {
      var addr := rest;
      rest := rest.next;
      OneMore(s, i);
      assert addr == s[i];
      SortStep(r, s, i, Of(family));
      head, r := Link(addr, head, family, r);
      i := i + 1;
    }
    SortEnd(r, s, Of(family));
  }

  lemma ListLinks(head: SockAddr?, s: seq<SockAddr>)
    requires List(head, s)
    ensures Distinct(s) && head == At(s, 0)
    ensures forall i {:trigger s[i].next} :: 0 <= i < |s| ==> s[i].next == At(s, i + 1)
  {
  }

  lemma ListEmpty()
    ensures List(null, [])
  {
  }

  /** Takes node `k` out of a list, whose node before it is `prev`. */
  method Unlink(addr: SockAddr, prev: SockAddr?, head: SockAddr?, ghost s: seq<SockAddr>, ghost k: nat)
      returns (head': SockAddr?)
    requires List(head, s) && k < |s| && s[k] == addr && prev == At(s, k - 1)
    modifies Nodes(s)`next
    ensures List(head', s[..k] + s[k + 1..]) && addr.next == old(addr.next)
  {
    hide Distinct;
    ghost var r := s[..k] + s[k + 1..];
    RemovedAt(s, k);
    SameOnce(s, k);
    head' := head;
    if prev != null {
      SameOnce(s, k - 1);
      prev.next := addr.next;
    } else {
      head' := addr.next;
    }
    forall i {:trigger r[i].next} | 0 <= i < |r|
      ensures r[i].next == At(r, i + 1)
    {
      assert i < k ==> r[i] == s[i];
      assert i >= k ==> r[i] == s[i + 1];
    }
    ListIs(head', r);
  }

  /** Exactly the addresses of the family remain, as often as they were there. */
  lemma FilterMeans(s: seq<SockAddr>, family: int)
    ensures forall a :: a in Keep(s, Of(family)) <==> a in s && a.family == family
    ensures multiset(Keep(s, Of(family))) <= multiset(s)
  {
    KeepMeans(s, Of(family));
  }

  /** `SockAddrFilter`: unlinks the addresses of other families, in place. */
  method SockAddrFilter(saList: SockAddr?, family: int, ghost s: seq<SockAddr>)
      returns (head: SockAddr?, ghost r: seq<SockAddr>)
    requires List(saList, s)
    modifies Nodes(s)`next
    ensures List(head, r) && r == Keep(s, Of(family)) && forall a :: a in r <==> a in s && a.family == family
  {
    hide Keep, Distinct, List, At, Pending;
    head := saList;
    r := [];
    ghost var t := s;
    var prev: SockAddr? := null;
    var addr := saList;
    ghost var i := 0;
    PendingStart(s, Of(family));
    HeadOf(saList, s);
    while addr != null
      invariant Pending(r, t, s, i, Of(family)) && List(head, t)
      invariant addr == At(s, i) && prev == At(r, |r| - 1)
      decreases |s| - i
    {
      PendingStep(r, t, s, i, Of(family));
      NextOf(head, t, |r|);
      var next := addr.next;
      if addr.family != family {
        head := Unlink(addr, prev, head, t, |r|);
        t := t[..|r|] + t[|r| + 1..];
      } else {
        prev := addr;
        r := r + [addr];
      }
      addr := next;
      i := i + 1;
    }
    PendingEnd(r, t, s, i, Of(family));
    FilterMeans(s, family);
    assert forall a :: a in r ==> a in s && a.family == family;
  }

  /** Part of the list is filtered: `t` is the list now, `r` its kept front, and the rest is still to be seen. */
  ghost predicate Pending(r: seq<SockAddr>, t: seq<SockAddr>, s: seq<SockAddr>, i: nat, p: SockAddr -> bool) {
    i <= |s| && r == Keep(s[..i], p) && t == r + s[i..] && Nodes(t) <= Nodes(s)
  }

  lemma PendingStart(s: seq<SockAddr>, p: SockAddr -> bool)
    ensures Pending([], s, s, 0, p) && At([], -1) == null
  {
    assert [] + s[0..] == s && s[..0] == [];
  }

  lemma PendingStep(r: seq<SockAddr>, t: seq<SockAddr>, s: seq<SockAddr>, i: nat, p: SockAddr -> bool)
    requires Pending(r, t, s, i, p) && At(s, i) != null
    ensures i < |s| && |r| < |t| && t[|r|] == At(s, i) == s[i] && At(t, |r| + 1) == At(s, i + 1)
    ensures At(r, |r| - 1) == At(t, |r| - 1) && Nodes(t) <= Nodes(s)
    ensures p(s[i]) ==> Pending(r + [s[i]], t, s, i + 1, p) && At(r + [s[i]], |r|) == s[i]
    ensures !p(s[i]) ==> Pending(r, t[..|r|] + t[|r| + 1..], s, i + 1, p)
  {
    hide Keep;
    KeepLast(s, i, p);
    assert r + [] == r;
    assert t[|r|] == s[i];
    assert s[i..] == [s[i]] + s[i + 1..];
    assert t == (r + [s[i]]) + s[i + 1..];
    assert t[..|r|] + t[|r| + 1..] == r + s[i + 1..];
    assert forall a :: a in r + s[i + 1..] ==> a in t;
  }

  lemma PendingEnd(r: seq<SockAddr>, t: seq<SockAddr>, s: seq<SockAddr>, i: nat, p: SockAddr -> bool)
    requires Pending(r, t, s, i, p) && At(s, i) == null
    ensures t == r == Keep(s, p)
  {
    assert s[..i] == s && r + s[i..] == r;
  }

  lemma HeadOf(head: SockAddr?, s: seq<SockAddr>)
    requires List(head, s)
    ensures head == At(s, 0)
  {
  }

  lemma NextOf(head: SockAddr?, s: seq<SockAddr>, k: nat)
    requires List(head, s) && k < |s|
    ensures s[k].next == At(s, k + 1)
  {
  }

  /** The elements with the property, in order. */
  function Keep<T>(s: seq<T>, p: T -> bool): seq<T> {
    if s == [] then [] else (if p(s[0]) then [s[0]] else []) + Keep(s[1..], p)
  }

  lemma {:induction false} KeepLast<T>(s: seq<T>, i: nat, p: T -> bool)
    requires i < |s|
    ensures Keep(s[..i + 1], p) == Keep(s[..i], p) + if p(s[i]) then [s[i]] else []
  {
    if i > 0 {
      KeepLast(s[1..], i - 1, p);
      assert s[..i + 1][1..] == s[1..][..i] && s[..i][1..] == s[1..][..i - 1];
    } else {
      assert s[..1][1..] == [];
    }
  }

  lemma {:induction false} KeepMeans<T>(s: seq<T>, p: T -> bool)
    ensures forall x :: x in Keep(s, p) <==> x in s && p(x)
    ensures multiset(Keep(s, p)) <= multiset(s)
  {
    if s != [] {
      KeepMeans(s[1..], p);
      assert s == [s[0]] + s[1..];
    }
  }

  /** `SockAddrCopy`: a list of new nodes with the same families and addresses. */
  method SockAddrCopy(src: SockAddr?, ghost s: seq<SockAddr>) returns (dst: SockAddr?, ghost r: seq<SockAddr>)
    requires List(src, s)
    ensures List(dst, r) && |r| == |s| && fresh(r)
    ensures forall i :: 0 <= i < |s| ==> r[i].family == s[i].family && r[i].address == s[i].address
  {
    dst, r := null, [];
    var d: SockAddr? := null;
    var addr := src;
    ghost var i := 0;
    while addr != null
      invariant i <= |s| && addr == At(s, i) && |r| == i && fresh(r)
      invariant forall j :: 0 <= j < i ==> r[j].family == s[j].family && r[j].address == s[j].address
      invariant Distinct(r) && dst == At(r, 0) && d == if r == [] then null else r[i - 1]
      invariant forall j {:trigger r[j].next} :: 0 <= j < i - 1 ==> r[j].next == r[j + 1]
      invariant i > 0 ==> r[i - 1].next == addr
      decreases |s| - i
    {
      var node := new SockAddr(addr.family, addr.address, addr.next);
      if d == null {
        dst := node;
      } else {
        d.next := node;
      }
      d := node;
      r := r + [node];
      addr := addr.next;
      i := i + 1;
    }
  }
}
