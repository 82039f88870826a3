/** The tables of packet rules: rules filed by identifier, in nodes from a pool, on the lists of their sessions. */
module RuleTables {
  import opened Prelude
  import opened Pool

  /** A rule: its identifier and what else it says. */
  datatype Rule = Rule(id: int, content: int)

  /** Every identifier leads to a node with that identifier, and every node is filed. */
  ghost predicate Filed(hash: map<int, nat>, nodes: map<nat, Rule>) {
    && (forall id :: id in hash ==> hash[id] in nodes && nodes[hash[id]].id == id)
    && (forall n :: n in nodes ==> nodes[n].id in hash && hash[nodes[n].id] == n)
  }

  /** Every node is on exactly one list, once. */
  ghost predicate Listed(lists: map<nat, seq<nat>>, nodes: map<nat, Rule>, owner: map<nat, nat>) {
    && (forall n :: n in nodes <==> n in owner)
    && (forall n :: n in owner ==> owner[n] in lists && n in lists[owner[n]])
    && (forall s, n :: s in lists && n in lists[s] ==> n in owner && owner[n] == s)
    && (forall s :: s in lists ==> Distinct(lists[s]))
  }

  ghost predicate Pooled(pool: PoolState, nodes: map<nat, Rule>, cap: nat) {
    Conserved(pool, cap) && forall n: nat :: n in pool.held <==> n in nodes
  }

  /** The list without `x`. */
  function Minus<T(==)>(s: seq<T>, x: T): seq<T> {
    if s == [] then [] else if s[0] == x then s[1..] else [s[0]] + Minus(s[1..], x)
  }

  lemma {:induction false} MinusMembers<T>(s: seq<T>, x: T)
    requires Distinct(s)
    ensures Distinct(Minus(s, x)) && (forall y :: y in Minus(s, x) <==> y in s && y != x)
    ensures x !in s ==> Minus(s, x) == s
    ensures s != [] ==> Minus(s, s[0]) == s[1..]
  {
    if s != [] {
      DistinctTail(s);
      MinusMembers(s[1..], x);
      assert s == [s[0]] + s[1..];
    }
  }

  /** `ListRemove`: the node leaves the list it is on. */
  function Unlisted(lists: map<nat, seq<nat>>, n: nat): (r: map<nat, seq<nat>>)
    ensures r.Keys == lists.Keys
  {
    map s | s in lists :: Minus(lists[s], n)
  }

  lemma OnOneList(lists: map<nat, seq<nat>>, nodes: map<nat, Rule>, owner: map<nat, nat>, n: nat)
    requires Listed(lists, nodes, owner) && n in owner
    ensures owner[n] in lists && forall s :: s in lists ==> Distinct(lists[s]) && (s != owner[n] ==> n !in lists[s])
  {
  }

  /** Only the list of the node's session changes. */
  lemma UnlistedOne(lists: map<nat, seq<nat>>, nodes: map<nat, Rule>, owner: map<nat, nat>, n: nat)
    requires Listed(lists, nodes, owner) && n in owner
    ensures owner[n] in lists && Unlisted(lists, n) == lists[owner[n] := Minus(lists[owner[n]], n)]
  {
    hide Minus, Distinct, Listed, Unlisted;
    OnOneList(lists, nodes, owner, n);
    forall s | s in lists && s != owner[n]
      ensures Minus(lists[s], n) == lists[s]
    {
      MinusMembers(lists[s], n);
    }
    UnlistedIs(lists, n, owner[n]);
  }

  lemma UnlistedIs(lists: map<nat, seq<nat>>, n: nat, o: nat)
    requires o in lists && forall s :: s in lists && s != o ==> Minus(lists[s], n) == lists[s]
    ensures Unlisted(lists, n) == lists[o := Minus(lists[o], n)]
  {
    hide Minus;
  }

  lemma DropListed(lists: map<nat, seq<nat>>, nodes: map<nat, Rule>, owner: map<nat, nat>, n: nat)
    requires Listed(lists, nodes, owner) && n in nodes
    ensures Listed(Unlisted(lists, n), nodes - {n}, owner - {n})
  {
    hide Minus, Distinct;
    forall s | s in lists
      ensures Distinct(Minus(lists[s], n))
    {
      MinusMembers(lists[s], n);
    }
    forall s, m | s in lists
      ensures m in Minus(lists[s], n) <==> m in lists[s] && m != n
    {
      MinusMembers(lists[s], n);
    }
  }

  lemma DropFiled(hash: map<int, nat>, nodes: map<nat, Rule>, n: nat)
    requires Filed(hash, nodes) && n in nodes
    ensures Filed(hash - {nodes[n].id}, nodes - {n})
  {
  }

  lemma DropPooled(pool: PoolState, nodes: map<nat, Rule>, cap: nat, n: nat)
    requires Pooled(pool, nodes, cap) && n in nodes
    ensures Pooled(Apply(pool, Free(n), cap), nodes - {n}, cap)
  {
    FreeConservesIffHeld(pool, n, cap);
    hide Conserved;
  }

  lemma AddListed(lists: map<nat, seq<nat>>, nodes: map<nat, Rule>, owner: map<nat, nat>, n: nat, s: nat, r: Rule)
    requires Listed(lists, nodes, owner) && n !in nodes && s in lists
    ensures Listed(lists[s := [n] + lists[s]], nodes[n := r], owner[n := s])
  {
    var list := [n] + lists[s];
    assert list[0] == n && forall i :: 0 <= i < |lists[s]| ==> list[i + 1] == lists[s][i];
    assert n !in lists[s];
    assert Distinct(list);
    hide Distinct;
  }

  lemma EmptyListed(lists: map<nat, seq<nat>>, nodes: map<nat, Rule>, owner: map<nat, nat>, s: nat)
    requires Listed(lists, nodes, owner) && s !in lists
    ensures Listed(lists[s := []], nodes, owner)
  {
    assert Distinct<nat>([]);
    hide Distinct;
  }

  lemma NoLongerListed(lists: map<nat, seq<nat>>, nodes: map<nat, Rule>, owner: map<nat, nat>, s: nat)
    requires Listed(lists, nodes, owner) && s in lists && lists[s] == []
    ensures Listed(lists - {s}, nodes, owner)
  {
    hide Distinct;
  }

  lemma AddFiled(hash: map<int, nat>, nodes: map<nat, Rule>, n: nat, r: Rule)
    requires Filed(hash, nodes) && n !in nodes && r.id !in hash
    ensures Filed(hash[r.id := n], nodes[n := r])
  {
  }

  lemma AddPooled(pool: PoolState, nodes: map<nat, Rule>, cap: nat, r: Rule)
    requires Pooled(pool, nodes, cap) && pool.free != []
    ensures pool.free[0] !in nodes && Pooled(Apply(pool, Alloc, cap), nodes[pool.free[0] := r], cap)
  {
    hide Conserved;
    AllocConserves(pool, cap);
    FirstIsFree(pool, cap);
  }

  /** A rule overwritten in place stays filed, listed and pooled. */
  lemma Overwritten(hash: map<int, nat>, lists: map<nat, seq<nat>>, pool: PoolState, nodes: map<nat, Rule>,
                    owner: map<nat, nat>, cap: nat, r: Rule)
    requires Filed(hash, nodes) && Listed(lists, nodes, owner) && Pooled(pool, nodes, cap) && r.id in hash
    ensures var nodes' := nodes[hash[r.id] := r];
      && Filed(hash, nodes') && Listed(lists, nodes', owner) && Pooled(pool, nodes', cap)
      && hash[r.id := hash[r.id]] == hash
  {
    hide Conserved, Distinct;
  }

  /** A table as a value. */
  datatype TableState = TableState(pool: PoolState, nodes: map<nat, Rule>, hash: map<int, nat>,
                                   lists: map<nat, seq<nat>>, owner: map<nat, nat>)

  /** The table with a rule registered for a session. */
  function Enroll(t: TableState, s: nat, r: Rule, cap: nat): TableState
    requires s in t.lists && (r.id in t.hash || t.pool.free != [])
  {
    if r.id in t.hash then t.(nodes := t.nodes[t.hash[r.id] := r])
    else
      var n := t.pool.free[0];
      TableState(Apply(t.pool, Alloc, cap), t.nodes[n := r], t.hash[r.id := n],
                 t.lists[s := [n] + t.lists[s]], t.owner[n := s])
  }

  /** The table without a rule. */
  function Discard(t: TableState, id: int, cap: nat): TableState
    requires id in t.hash
  {
    var n := t.hash[id];
    TableState(Apply(t.pool, Free(n), cap), t.nodes - {n}, t.hash - {id}, Unlisted(t.lists, n), t.owner - {n})
  }

  /** The rule with an identifier. */
  function Find(t: TableState, id: int): Option<Rule> {
    if id in t.hash && t.hash[id] in t.nodes then Some(t.nodes[t.hash[id]]) else None
  }

  ghost predicate Consistent(t: TableState, cap: nat) {
    Filed(t.hash, t.nodes) && Listed(t.lists, t.nodes, t.owner) && Pooled(t.pool, t.nodes, cap)
  }

  /** After a registration the rule is found, no other rule has changed, and a known rule has not moved. */
  lemma EnrollMeans(t: TableState, s: nat, r: Rule, cap: nat)
    requires Consistent(t, cap) && s in t.lists && (r.id in t.hash || t.pool.free != [])
    ensures var t' := Enroll(t, s, r, cap);
      && Find(t', r.id) == Some(r) && (forall id :: id != r.id ==> Find(t', id) == Find(t, id))
      && (r.id in t.hash ==> t'.lists == t.lists && t'.hash == t.hash && t'.owner == t.owner && t'.pool == t.pool)
      && (r.id !in t.hash ==> t'.lists[s] == [t'.hash[r.id]] + t.lists[s] && t'.hash[r.id] !in t.nodes)
      && t'.lists.Keys == t.lists.Keys && (forall u :: u in t.lists && u != s ==> t'.lists[u] == t.lists[u])
  {
    hide Conserved, Listed;
    if r.id !in t.hash {
      AddPooled(t.pool, t.nodes, cap, r);
    }
  }

  /** After a deregistration the rule is not found, and no other rule has changed. */
  lemma DiscardMeans(t: TableState, id: int, cap: nat)
    requires Consistent(t, cap) && id in t.hash
    ensures var t' := Discard(t, id, cap);
      Find(t', id) == None && forall other :: other != id ==> Find(t', other) == Find(t, other)
  {
    hide Conserved, Listed, Pooled, Apply, Unlisted;
  }

  /** A deregistration takes the node off the list it is on, wherever it is there, and gives it back to the pool. */
  lemma DiscardFrees(t: TableState, id: int, cap: nat)
    requires Consistent(t, cap) && id in t.hash
    ensures var t', n := Discard(t, id, cap), t.hash[id];
      && n in t.owner && t.owner[n] in t.lists && n in t.lists[t.owner[n]]
      && t'.lists == t.lists[t.owner[n] := Minus(t.lists[t.owner[n]], n)]
      && (forall m :: m in t'.lists[t.owner[n]] <==> m in t.lists[t.owner[n]] && m != n)
      && t'.pool == PoolState(t.pool.free + [n], t.pool.held - {n})
  {
    var n := t.hash[id];
    assert n in t.nodes;
    OnOneList(t.lists, t.nodes, t.owner, n);
    UnlistedOne(t.lists, t.nodes, t.owner, n);
    MinusMembers(t.lists[t.owner[n]], n);
    FreeConservesIffHeld(t.pool, n, cap);
    ApplyFree(t.pool, n, cap);
    hide Conserved, Unlisted, Minus, Apply, Distinct;
  }

  /** The table without a session and the rules on its list, whose nodes are back in the pool. */
  ghost function Strip(t: TableState, s: nat, cap: nat): TableState
    requires s in t.lists
  {
    var gone := Members(t.lists[s]);
    TableState(FreeAll(t.pool, t.lists[s], cap), t.nodes - gone, WithoutNodes(t.hash, gone),
               t.lists - {s}, t.owner - gone)
  }

  /** Stripping a session leaves the rules and the lists of every other session as they were. */
  lemma StripKeepsOthers(t: TableState, s: nat, cap: nat, id: int)
    requires Filed(t.hash, t.nodes) && Listed(t.lists, t.nodes, t.owner) && s in t.lists
    ensures var t' := Strip(t, s, cap);
      && (forall u :: u in t.lists && u != s ==> u in t'.lists && t'.lists[u] == t.lists[u])
      && (id in t.hash ==>
            (t.owner[t.hash[id]] == s ==> id !in t'.hash)
            && (t.owner[t.hash[id]] != s ==>
                  id in t'.hash && t'.hash[id] == t.hash[id] && t'.hash[id] in t'.nodes
                  && t'.nodes[t'.hash[id]] == t.nodes[t.hash[id]]))
  {
    hide Distinct;
  }

  class RuleTable {
    const cap: nat
    var pool: PoolState
    var nodes: map<nat, Rule>
    var hash: map<int, nat>
    var lists: map<nat, seq<nat>>
    ghost var owner: map<nat, nat>

    ghost predicate Valid()
      reads this
    {
      Filed(hash, nodes) && Listed(lists, nodes, owner) && Pooled(pool, nodes, cap)
    }

    ghost function Now(): TableState
      reads this
    {
      TableState(pool, nodes, hash, lists, owner)
    }

    lemma NowConsistent()
      requires Valid()
      ensures Consistent(Now(), cap)
    {
    }

    /** `RuleInit` */
    constructor (cap: nat)
      ensures Valid() && this.cap == cap && nodes == map[] && hash == map[] && lists == map[]
    {
      this.cap := cap;
      pool := AllFree(cap);
      nodes, hash, lists, owner := map[], map[], map[], map[];
      new;
      AllFreeConserved(cap);
    }

    /** Gives a session an empty list (`ListHeadInit`). */
    method AddSession(s: nat)
      requires Valid() && s !in lists
      modifies `lists
      ensures Valid() && lists == old(lists)[s := []]
    {
      hide Filed, Listed, Pooled;
      EmptyListed(lists, nodes, owner, s);
      lists := lists[s := []];
    }

    /** Forgets the empty list of a session. */
    method RemoveSession(s: nat)
      requires Valid() && s in lists && lists[s] == []
      modifies `lists
      ensures Valid() && lists == old(lists) - {s}
    {
      hide Filed, Listed, Pooled;
      NoLongerListed(lists, nodes, owner, s);
      lists := lists - {s};
    }

    /**
     * Registers a rule: a known one is overwritten where it is, a new one gets a node at the front of
     * the session's list.  Without a free node the program writes through a null pointer (`faulted`).
     */
    method Register(s: nat, r: Rule) returns (faulted: bool)
      requires Valid() && s in lists
      modifies this
      ensures Valid() && (faulted <==> r.id !in old(hash) && old(pool).free == [])
      ensures Now() == if faulted then old(Now()) else Enroll(old(Now()), s, r, cap)
    {
      hide Filed, Listed, Pooled, Conserved, Apply;
      faulted := r.id !in hash && pool.free == [];
      if faulted {
        return;
      }
      var n;
      if r.id in hash {
        Overwritten(hash, lists, pool, nodes, owner, cap, r);
        n := hash[r.id];
      } else {
        AddPooled(pool, nodes, cap, r);
        n := pool.free[0];
        AddFiled(hash, nodes, n, r);
        AddListed(lists, nodes, owner, n, s, r);
        pool := Apply(pool, Alloc, cap);
        lists := lists[s := [n] + lists[s]];
        owner := owner[n := s];
      }
      nodes := nodes[n := r];
      hash := hash[r.id := n];
    }

    /** The node leaves the hash table and its list, and goes back to the pool. */
    method Drop(n: nat)
      requires Valid() && n in nodes
      modifies this
      ensures Valid() && nodes == old(nodes) - {n} && hash == old(hash) - {old(nodes)[n].id}
      ensures lists == Unlisted(old(lists), n) && owner == old(owner) - {n}
      ensures pool == Apply(old(pool), Free(n), cap)
    {
      hide Filed, Listed, Pooled, Conserved, Unlisted;
      DropFiled(hash, nodes, n);
      DropListed(lists, nodes, owner, n);
      DropPooled(pool, nodes, cap, n);
      hash := hash - {nodes[n].id};
      lists := Unlisted(lists, n);
      pool := Apply(pool, Free(n), cap);
      nodes := nodes - {n};
      owner := owner - {n};
    }

    /** Deregisters a rule by its identifier, whichever session has it. */
    method DeregisterById(id: int) returns (status: Status)
      requires Valid()
      modifies this
      ensures Valid() && status == if id in old(hash) then Ok else Error
      ensures Now() == if status == Ok then Discard(old(Now()), id, cap) else old(Now())
    {
      hide Listed, Pooled, Conserved, Unlisted, Apply;
      if id !in hash {
        return Error;
      }
      Drop(hash[id]);
      status := Ok;
    }

    /** Deletes every rule of a session, from the front of its list (`...ListDeletionAndFreeWithGTPv1Tunnel`). */
    method DeleteList(s: nat)
      requires Valid() && s in lists
      modifies this
      ensures Valid() && lists == old(lists)[s := []]
      ensures nodes == old(nodes) - Members(old(lists)[s]) && owner == old(owner) - Members(old(lists)[s])
      ensures hash == WithoutNodes(old(hash), Members(old(lists)[s]))
      ensures pool == FreeAll(old(pool), old(lists)[s], cap)
    {
      hide Filed, Listed, Pooled, Conserved, Unlisted, Minus, Distinct, WithoutNodes, FreeAll, Members;
      var list := lists[s];
      ghost var lists0, nodes0, hash0, owner0, pool0 := lists, nodes, hash, owner, pool;
      NoneGone(nodes, hash, owner, list, pool, cap);
      OwnList(lists, nodes, owner, s);
      var i := 0;
      while i < |list|
        invariant Valid() && i <= |list| && lists == lists0[s := list[i..]]
        invariant nodes == nodes0 - Members(list[..i]) && owner == owner0 - Members(list[..i])
        invariant hash == WithoutNodes(hash0, Members(list[..i])) && pool == FreeAll(pool0, list[..i], cap)
      {
        FreeOneMore(pool0, list, i, cap);
        OwnList(lists, nodes, owner, s);
        UnlistedOne(lists, nodes, owner, list[i]);
        MinusMembers(list[i..], list[i]);
        SameRule(nodes0, Members(list[..i]), list[i]);
        WithoutOneMore(hash0, nodes0, Members(list[..i]), list[i]);
        LessOneMore(owner0, Members(list[..i]), list[i]);
        Drop(list[i]);
        i := i + 1;
      }
    }

    /** Deletes the rules of a session and forgets its list. */
    method DeleteSession(s: nat)
      requires Valid() && s in lists
      modifies this
      ensures Valid() && Now() == Strip(old(Now()), s, cap)
    {
      hide Filed, Listed, Pooled, WithoutNodes, FreeAll, Members;
      ghost var lists0 := lists;
      DeleteList(s);
      RemoveSession(s);
      assert lists == lists0 - {s};
    }
  }

  // ----- Deleting the list of a session -------------------------------------

  /** The entries that do not lead to one of the nodes. */
  function WithoutNodes(hash: map<int, nat>, gone: set<nat>): map<int, nat> {
    map id | id in hash && hash[id] !in gone :: hash[id]
  }

  lemma WithoutOneMore(hash: map<int, nat>, nodes: map<nat, Rule>, gone: set<nat>, n: nat)
    requires Filed(hash, nodes) && n in nodes
    ensures WithoutNodes(hash, gone) - {nodes[n].id} == WithoutNodes(hash, gone + {n})
    ensures (nodes - gone) - {n} == nodes - (gone + {n})
  {
    LessOneMore(nodes, gone, n);
    var a, b := WithoutNodes(hash, gone) - {nodes[n].id}, WithoutNodes(hash, gone + {n});
    forall id
      ensures id in a <==> id in b
    {
      if id in hash && hash[id] == n {
        assert id == nodes[n].id;
      }
    }
    assert a == b;
  }

  lemma LessOneMore<T>(m: map<nat, T>, gone: set<nat>, n: nat)
    ensures (m - gone) - {n} == m - (gone + {n})
  {
  }

  /** The pool after the objects were freed in order. */
  function FreeAll(pool: PoolState, objects: seq<nat>, cap: nat): PoolState {
    if objects == [] then pool
    else Apply(FreeAll(pool, objects[..|objects| - 1], cap), Free(objects[|objects| - 1]), cap)
  }

  lemma FreeOneMore(pool: PoolState, list: seq<nat>, i: nat, cap: nat)
    requires i < |list|
    ensures FreeAll(pool, list[..i + 1], cap) == Apply(FreeAll(pool, list[..i], cap), Free(list[i]), cap)
    ensures Members(list[..i + 1]) == Members(list[..i]) + {list[i]}
    ensures list[i..] != [] && list[i..][0] == list[i] && list[i..][1..] == list[i + 1..]
  {
    assert list[..i + 1][..i] == list[..i];
    assert list[..i + 1] == list[..i] + [list[i]];
  }

  lemma OwnList(lists: map<nat, seq<nat>>, nodes: map<nat, Rule>, owner: map<nat, nat>, s: nat)
    requires Listed(lists, nodes, owner) && s in lists
    ensures Distinct(lists[s])
    ensures forall i :: 0 <= i < |lists[s]| ==> lists[s][i] in nodes && lists[s][i] in owner && owner[lists[s][i]] == s
  {
    hide Distinct;
  }

  lemma SameRule(nodes: map<nat, Rule>, gone: set<nat>, n: nat)
    requires n in nodes - gone
    ensures n in nodes && (nodes - gone)[n] == nodes[n]
  {
  }

  lemma NoneGone(nodes: map<nat, Rule>, hash: map<int, nat>, owner: map<nat, nat>, list: seq<nat>, pool: PoolState,
                 cap: nat)
    ensures Members(list[..0]) == {} && FreeAll(pool, list[..0], cap) == pool
    ensures nodes - {} == nodes && owner - {} == owner && WithoutNodes(hash, {}) == hash
    ensures list[0..] == list && list[..|list|] == list && list[|list|..] == []
  {
  }
}
