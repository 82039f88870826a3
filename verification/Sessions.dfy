/** Sessions of the user plane, their rules and the packet slots of their PDRs. */
module Sessions {
  import opened Prelude
  import opened Pool
  import opened RuleTables

  const PDN_TYPE_IPV4 := 1
  const PDN_TYPE_IPV6 := 2
  const PDN_TYPE_IPV4V6 := 3

  const ACTION_DROP := 1
  const ACTION_FORW := 2
  const ACTION_BUFF := 4

  // ----- Session keys ---------------------------------------------------------

  /** The network name up to its first zero octet, `n` octets of it at most (`strncpy`). */
  function Name(dnn: octets, n: nat): (name: octets)
    ensures |name| <= n && forall i :: 0 <= i < |name| ==> name[i] != 0
    ensures name <= dnn && (|name| == n || |name| == |dnn| || dnn[|name|] == 0)
  {
    if n == 0 || dnn == [] || dnn[0] == 0 then [] else [dnn[0]] + Name(dnn[1..], n - 1)
  }

  const MAX_DNN_LEN := 100

  /** The address in a key: for a dual-stack session no address field is filled in. */
  function Address(pdnType: octet, addr4: octets, addr6: octets): octets {
    if pdnType == PDN_TYPE_IPV4 then addr4 else if pdnType == PDN_TYPE_IPV6 then addr6 else seq(16, _ => 0)
  }

  /** `SessionHashKeygen` */
  function HashKey(pdnType: octet, addr4: octets, addr6: octets, dnn: octets): octets {
    Address(pdnType, addr4, addr6) + Name(dnn, MAX_DNN_LEN + 1)
  }

  /** The octets of a key: the address of the session's type, or sixteen zeros, and the network name. */
  lemma KeyIs(addr4: octets, addr6: octets, dnn: octets)
    requires 0 !in dnn
    ensures var name := if |dnn| <= 101 then dnn else dnn[..101];
      && HashKey(1, addr4, addr6, dnn) == addr4 + name && HashKey(2, addr4, addr6, dnn) == addr6 + name
      && HashKey(3, addr4, addr6, dnn) == seq(16, _ => 0) + name
  {
    NameWhole(dnn);
  }

  /** A name without a zero octet is kept whole, up to 101 octets. */
  lemma NameWhole(dnn: octets)
    requires 0 !in dnn
    ensures Name(dnn, MAX_DNN_LEN + 1) == if |dnn| <= 101 then dnn else dnn[..101]
  {
    var name := Name(dnn, MAX_DNN_LEN + 1);
    hide Name;
    assert forall i :: 0 <= i < |dnn| ==> dnn[i] != 0;
    assert name == dnn[..|name|];
  }

  /** Sessions of one type in different networks, whose names are whole, never share a key. */
  lemma NetworksApart(pdnType: octet, a4: octets, a6: octets, dnn: octets, b4: octets, b6: octets, dnn': octets)
    requires |a4| == |b4| == 4 && |a6| == |b6| == 16 && pdnType in {1, 2, 3}
    requires |dnn| <= 101 && |dnn'| <= 101 && 0 !in dnn && 0 !in dnn'
    ensures HashKey(pdnType, a4, a6, dnn) == HashKey(pdnType, b4, b6, dnn') ==> dnn == dnn'
  {
    SameKeyIff(pdnType, a4, a6, dnn, b4, b6, dnn');
    NameWhole(dnn);
    NameWhole(dnn');
  }

  /** Two sequences with a shorter and a longer front coincide exactly when the longer front takes from the rest. */
  lemma FrontsIff(a: octets, x: octets, b: octets, y: octets)
    requires |a| <= |b|
    ensures a + x == b + y <==>
      |x| >= |b| - |a| && b == a + x[..|b| - |a|] && y == x[|b| - |a|..]
  {
    var k := |b| - |a|;
    if a + x == b + y {
      assert |x| == k + |y|;
      assert (a + x)[|a|..] == x && (b + y)[|b|..] == y;
      assert (a + x)[..|b|] == a + x[..k];
    }
    if |x| >= k && b == a + x[..k] && y == x[k..] {
      assert x == x[..k] + x[k..];
    }
  }

  /** Two sessions of one type share a key exactly when network and, unless dual-stack, address agree. */
  lemma SameKeyIff(pdnType: octet, a4: octets, a6: octets, dnn: octets, b4: octets, b6: octets, dnn': octets)
    requires |a4| == |b4| == 4 && |a6| == |b6| == 16 && pdnType in {1, 2, 3}
    ensures HashKey(pdnType, a4, a6, dnn) == HashKey(pdnType, b4, b6, dnn') <==> (
      && Name(dnn, MAX_DNN_LEN + 1) == Name(dnn', MAX_DNN_LEN + 1)
      && (pdnType == PDN_TYPE_IPV4 ==> a4 == b4) && (pdnType == PDN_TYPE_IPV6 ==> a6 == b6))
  {
    hide Name;
    FrontsIff(Address(pdnType, a4, a6), Name(dnn, MAX_DNN_LEN + 1),
              Address(pdnType, b4, b6), Name(dnn', MAX_DNN_LEN + 1));
  }

  /**
   * Sessions of different types share a key exactly when the longer address is the shorter one with the
   * start of the other network's name, and its own network is the rest of that name.
   */
  lemma KeysMeetIff(pdnType: octet, a4: octets, a6: octets, dnn: octets,
                    pdnType': octet, b4: octets, b6: octets, dnn': octets)
    requires |a4| == |b4| == 4 && |a6| == |b6| == 16 && pdnType in {1, 2, 3} && pdnType' in {1, 2, 3}
    requires |Address(pdnType, a4, a6)| <= |Address(pdnType', b4, b6)|
    ensures HashKey(pdnType, a4, a6, dnn) == HashKey(pdnType', b4, b6, dnn') <==> (
      var name := Name(dnn, MAX_DNN_LEN + 1);
      var k := |Address(pdnType', b4, b6)| - |Address(pdnType, a4, a6)|;
      && |name| >= k && Address(pdnType', b4, b6) == Address(pdnType, a4, a6) + name[..k]
      && Name(dnn', MAX_DNN_LEN + 1) == name[k..])
  {
    hide Name;
    FrontsIff(Address(pdnType, a4, a6), Name(dnn, MAX_DNN_LEN + 1),
              Address(pdnType', b4, b6), Name(dnn', MAX_DNN_LEN + 1));
  }

  /** An IPv4 and a dual-stack session never share a key: the name holds no zero octet. */
  lemma DualStackApart(a4: octets, a6: octets, dnn: octets, b4: octets, b6: octets, dnn': octets)
    requires |a4| == |b4| == 4 && |a6| == |b6| == 16
    ensures HashKey(PDN_TYPE_IPV4, a4, a6, dnn) != HashKey(PDN_TYPE_IPV4V6, b4, b6, dnn')
  {
    KeysMeetIff(PDN_TYPE_IPV4, a4, a6, dnn, PDN_TYPE_IPV4V6, b4, b6, dnn');
    var name := Name(dnn, MAX_DNN_LEN + 1);
    hide Name, HashKey;
    if |name| >= 12 {
      assert (a4 + name[..12])[4] == name[0];
    }
  }

  // ----- What holds between the tables ---------------------------------------

  datatype Session = Session(key: octets)

  /** Every key leads to a live session with that key; live sessions hold their place in the pool. */
  ghost predicate SessionsOk(pool: PoolState, sessions: map<nat, Session>, sessionHash: map<octets, nat>, cap: nat) {
    && Conserved(pool, cap) && (forall s :: s in sessions ==> s in pool.held)
    && (forall k :: k in sessionHash ==> sessionHash[k] in sessions && sessions[sessionHash[k]].key == k)
  }

  ghost predicate SameSessions(sessions: map<nat, Session>, lists: map<nat, seq<nat>>) {
    forall s :: s in sessions <==> s in lists
  }

  /** The slot of a PDR belongs to the session that has the PDR. */
  ghost predicate SlotsOk(slots: map<int, nat>, hash: map<int, nat>, owner: map<nat, nat>) {
    forall id :: id in slots ==> id != 0 && id in hash && hash[id] in owner && owner[hash[id]] == slots[id]
  }

  /** The session can be found under its key. */
  predicate Registered(sessions: map<nat, Session>, sessionHash: map<octets, nat>, s: nat) {
    s in sessions && Leads(sessionHash, sessions[s].key, s)
  }

  /** The key leads to the session. */
  predicate Leads(sessionHash: map<octets, nat>, key: octets, s: nat) {
    key in sessionHash && sessionHash[key] == s
  }

  ghost predicate AllRegistered(sessions: map<nat, Session>, sessionHash: map<octets, nat>) {
    forall s :: s in sessions ==> Registered(sessions, sessionHash, s)
  }

  /** The slots of the other sessions. */
  function SlotsWithout(slots: map<int, nat>, s: nat): map<int, nat> {
    map id | id in slots && slots[id] != s :: slots[id]
  }

  lemma SlotsWithoutMeans(slots: map<int, nat>, s: nat)
    ensures forall id :: id in SlotsWithout(slots, s) <==> id in slots && slots[id] != s
    ensures forall id :: id in SlotsWithout(slots, s) ==> SlotsWithout(slots, s)[id] == slots[id]
  {
  }

  /** A new session leaves every session registered exactly when its key was free. */
  lemma AddRegisteredIff(pool: PoolState, sessions: map<nat, Session>, sessionHash: map<octets, nat>, cap: nat,
                         s: nat, key: octets)
    requires SessionsOk(pool, sessions, sessionHash, cap) && s !in sessions
    ensures AllRegistered(sessions[s := Session(key)], sessionHash[key := s]) <==>
      AllRegistered(sessions, sessionHash) && key !in sessionHash
  {
    hide Conserved;
    var sessions', sessionHash' := sessions[s := Session(key)], sessionHash[key := s];
    forall t | t in sessions
      ensures Registered(sessions', sessionHash', t) <==> Registered(sessions, sessionHash, t) && sessions[t].key != key
    {
    }
    assert Registered(sessions', sessionHash', s);
    if key in sessionHash {
      var t := sessionHash[key];
      assert t in sessions' && !Registered(sessions', sessionHash', t);
    }
  }

  /** Removing a session leaves the others registered exactly when they were and none of them had its key. */
  lemma RemoveRegisteredIff(sessions: map<nat, Session>, sessionHash: map<octets, nat>, s: nat)
    requires s in sessions
    ensures AllRegistered(sessions - {s}, sessionHash - {sessions[s].key}) <==>
      forall t :: t in sessions && t != s ==> Registered(sessions, sessionHash, t) && sessions[t].key != sessions[s].key
  {
    var sessions', sessionHash' := sessions - {s}, sessionHash - {sessions[s].key};
    forall t | t in sessions && t != s
      ensures Registered(sessions', sessionHash', t) <==>
        Registered(sessions, sessionHash, t) && sessions[t].key != sessions[s].key
    {
    }
    assert AllRegistered(sessions', sessionHash') <==>
      forall t :: t in sessions && t != s ==> Registered(sessions', sessionHash', t);
  }

  /** Sessions that come under a free key and go. */
  datatype Change = Added(s: nat, key: octets) | Removed(s: nat)

  datatype Filing = Filing(sessions: map<nat, Session>, sessionHash: map<octets, nat>)

  /** What `SessionAdd` and `SessionRemove` do to the session table and its hash. */
  function After(f: Filing, c: Change): Filing {
    match c
    case Added(s, key) => Filing(f.sessions[s := Session(key)], f.sessionHash[key := s])
    case Removed(s) =>
      if s in f.sessions then Filing(f.sessions - {s}, f.sessionHash - {f.sessions[s].key}) else f
  }

  function AfterAll(f: Filing, cs: seq<Change>): Filing
    decreases |cs|
  {
    if cs == [] then f else AfterAll(After(f, cs[0]), cs[1..])
  }

  /** Each added session is new and comes under a key that is not in use. */
  predicate FreshKeys(f: Filing, cs: seq<Change>)
    decreases |cs|
  {
    cs != [] ==>
      && (cs[0].Added? ==> cs[0].s !in f.sessions && cs[0].key !in f.sessionHash)
      && FreshKeys(After(f, cs[0]), cs[1..])
  }

  lemma {:induction false} AfterLast(f: Filing, cs: seq<Change>, c: Change)
    ensures AfterAll(f, cs + [c]) == After(AfterAll(f, cs), c)
    ensures AfterAll(f, []) == f
    decreases |cs|
  {
    if cs == [] {
      assert [] + [c] == [c] && [c][1..] == [];
    } else {
      AfterLast(After(f, cs[0]), cs[1..], c);
      assert (cs + [c])[1..] == cs[1..] + [c];
    }
  }

  /** The keys are fresh exactly when each added session is new at its turn and its key is not in use then. */
  lemma {:induction false} FreshKeysIff(f: Filing, cs: seq<Change>)
    ensures FreshKeys(f, cs) <==> (forall i :: 0 <= i < |cs| && cs[i].Added? ==>
                                     && cs[i].s !in AfterAll(f, cs[..i]).sessions
                                     && cs[i].key !in AfterAll(f, cs[..i]).sessionHash)
    decreases |cs|
  {
    if cs != [] {
      var f1, rest := After(f, cs[0]), cs[1..];
      FreshKeysIff(f1, rest);
      forall i | 0 < i < |cs|
        ensures AfterAll(f, cs[..i]) == AfterAll(f1, rest[..i - 1]) && cs[i] == rest[i - 1]
      {
        assert cs[..i][1..] == rest[..i - 1];
      }
      assert AfterAll(f, cs[..0]) == f;
      hide AfterAll, After;
      assert forall i :: 0 <= i < |rest| ==>
        rest[i] == cs[i + 1] && AfterAll(f1, rest[..i]) == AfterAll(f, cs[..i + 1]);
    }
  }

  lemma AfterKeeps(f: Filing, c: Change)
    requires AllRegistered(f.sessions, f.sessionHash)
    requires c.Added? ==> c.s !in f.sessions && c.key !in f.sessionHash
    ensures AllRegistered(After(f, c).sessions, After(f, c).sessionHash)
  {
    if c.Removed? && c.s in f.sessions {
      RemoveRegisteredIff(f.sessions, f.sessionHash, c.s);
    }
  }

  /** Over every run in which each added key was free, every session stays registered. */
  lemma {:induction false} RunRegistered(f: Filing, cs: seq<Change>)
    requires AllRegistered(f.sessions, f.sessionHash) && FreshKeys(f, cs)
    ensures AllRegistered(AfterAll(f, cs).sessions, AfterAll(f, cs).sessionHash)
    decreases |cs|
  {
    hide AllRegistered;
    if cs != [] {
      AfterKeeps(f, cs[0]);
      RunRegistered(After(f, cs[0]), cs[1..]);
    }
  }

  lemma TakePlace(pool: PoolState, sessions: map<nat, Session>, sessionHash: map<octets, nat>, cap: nat)
    requires SessionsOk(pool, sessions, sessionHash, cap) && pool.free != []
    ensures pool.free[0] !in sessions && pool.free[0] !in pool.held
    ensures SessionsOk(Apply(pool, Alloc, cap), sessions, sessionHash, cap)
    ensures Apply(pool, Alloc, cap) == PoolState(pool.free[1..], pool.held + {pool.free[0]})
  {
    hide Conserved, Apply;
    AllocConserves(pool, cap);
    FirstIsFree(pool, cap);
    ApplyAlloc(pool, cap);
  }

  lemma AddSessionOk(pool: PoolState, sessions: map<nat, Session>, sessionHash: map<octets, nat>, cap: nat, s: nat,
                     key: octets)
    requires SessionsOk(pool, sessions, sessionHash, cap) && s !in sessions && s in pool.held
    ensures SessionsOk(pool, sessions[s := Session(key)], sessionHash[key := s], cap)
  {
    hide Conserved;
  }

  lemma RemoveSessionOk(pool: PoolState, sessions: map<nat, Session>, sessionHash: map<octets, nat>, cap: nat, s: nat)
    requires SessionsOk(pool, sessions, sessionHash, cap) && s in sessions
    ensures SessionsOk(Apply(pool, Free(s), cap), sessions - {s}, sessionHash - {sessions[s].key}, cap)
    ensures SessionsOk(pool, sessions, sessionHash - {sessions[s].key}, cap) && s in pool.held
  {
    hide Conserved;
    FreeConservesIffHeld(pool, s, cap);
  }

  lemma Stripped(t: TableState, s: nat, cap: nat)
    requires s in t.lists
    ensures var t' := Strip(t, s, cap);
      && t'.lists == t.lists - {s} && t'.owner == t.owner - Members(t.lists[s])
      && t'.hash == WithoutNodes(t.hash, Members(t.lists[s]))
  {
  }

  // ----- Slots of the rules that go ------------------------------------------

  /** The slots of the PDRs whose nodes stay. */
  function SlotsOf(slots: map<int, nat>, hash: map<int, nat>, gone: set<nat>): map<int, nat> {
    map id | id in slots && (id in hash ==> hash[id] !in gone) :: slots[id]
  }

  lemma SlotsOneMore(slots: map<int, nat>, hash: map<int, nat>, nodes: map<nat, Rule>, gone: set<nat>, n: nat)
    requires Filed(hash, nodes) && n in nodes
    ensures SlotsOf(slots, hash, gone) - {nodes[n].id} == SlotsOf(slots, hash, gone + {n})
  {
    var a, b := SlotsOf(slots, hash, gone) - {nodes[n].id}, SlotsOf(slots, hash, gone + {n});
    forall id
      ensures id in a <==> id in b
    {
      if id in hash && hash[id] == n {
        assert id == nodes[n].id;
      }
    }
    assert a == b;
  }

  lemma SlotsNoneGone(slots: map<int, nat>, hash: map<int, nat>)
    ensures SlotsOf(slots, hash, {}) == slots
  {
  }

  /** Without the PDRs of a session just the slots of that session are gone. */
  lemma SlotsOfSession(slots: map<int, nat>, hash: map<int, nat>, lists: map<nat, seq<nat>>, nodes: map<nat, Rule>,
                       owner: map<nat, nat>, s: nat)
    requires SlotsOk(slots, hash, owner) && Listed(lists, nodes, owner) && s in lists
    ensures SlotsOf(slots, hash, Members(lists[s])) == SlotsWithout(slots, s)
    ensures SlotsOk(SlotsWithout(slots, s), WithoutNodes(hash, Members(lists[s])), owner - Members(lists[s]))
  {
    hide Distinct;
    var a, b := SlotsOf(slots, hash, Members(lists[s])), SlotsWithout(slots, s);
    forall id
      ensures id in a <==> id in b
    {
      if id in slots {
        assert hash[id] in lists[s] <==> owner[hash[id]] == s;
      }
    }
    assert a == b;
  }

  /** The sessions removed so far, when the entries of `sessionHash` are still to be visited. */
  ghost predicate RemovedSoFar(sessions0: map<nat, Session>, hash0: map<octets, nat>,
                               sessions: map<nat, Session>, sessionHash: map<octets, nat>) {
    && (forall k :: k in sessionHash ==> k in hash0 && hash0[k] == sessionHash[k])
    && (forall s :: s in sessions ==> s in sessions0 && sessions[s] == sessions0[s])
    && (forall s :: s in sessions0 ==>
          (s in sessions <==> !(Registered(sessions0, hash0, s) && sessions0[s].key !in sessionHash)))
  }

  lemma RemoveOneMore(sessions0: map<nat, Session>, hash0: map<octets, nat>,
                      sessions: map<nat, Session>, sessionHash: map<octets, nat>, k: octets)
    requires RemovedSoFar(sessions0, hash0, sessions, sessionHash) && k in sessionHash
    requires sessionHash[k] in sessions && sessions[sessionHash[k]].key == k
    ensures RemovedSoFar(sessions0, hash0, sessions - {sessionHash[k]}, sessionHash - {k})
  {
  }

  lemma RemovedMeans(sessions0: map<nat, Session>, hash0: map<octets, nat>, sessions: map<nat, Session>)
    requires RemovedSoFar(sessions0, hash0, sessions, map[])
    ensures forall s :: s in sessions ==> s in sessions0 && !Leads(hash0, sessions0[s].key, s)
    ensures forall s :: s in sessions0 && s !in sessions ==> Leads(hash0, sessions0[s].key, s)
  {
  }

  /** Removing all sessions leaves none exactly when every session was registered under its key. */
  lemma RemoveAllEmptiesIff(sessions0: map<nat, Session>, hash0: map<octets, nat>, sessions: map<nat, Session>)
    requires RemovedSoFar(sessions0, hash0, sessions, map[])
    ensures sessions == map[] <==> AllRegistered(sessions0, hash0)
  {
    if sessions != map[] {
      var s :| s in sessions;
      assert !Registered(sessions0, hash0, s);
    }
  }

  /** After every run from nothing in which each added key was free, removing all sessions leaves none. */
  lemma RunThenRemoveAll(cs: seq<Change>, sessions: map<nat, Session>)
    requires FreshKeys(Filing(map[], map[]), cs)
    requires var f := AfterAll(Filing(map[], map[]), cs); RemovedSoFar(f.sessions, f.sessionHash, sessions, map[])
    ensures sessions == map[]
  {
    var f := AfterAll(Filing(map[], map[]), cs);
    RunRegistered(Filing(map[], map[]), cs);
    RemoveAllEmptiesIff(f.sessions, f.sessionHash, sessions);
  }

  /** Two sessions under one key: the first is left behind by the removal of all. */
  lemma OrphanStays(key: octets)
    ensures var f := AfterAll(Filing(map[], map[]), [Added(0, key), Added(1, key)]);
      && !AllRegistered(f.sessions, f.sessionHash)
      && RemovedSoFar(f.sessions, f.sessionHash, map[0 := Session(key)], map[])
  {
    var one := After(Filing(map[], map[]), Added(0, key));
    var two := After(one, Added(1, key));
    var cs := [Added(0, key), Added(1, key)];
    assert cs[1..] == [Added(1, key)] && cs[1..][1..] == [];
    assert AfterAll(two, cs[1..][1..]) == two;
    assert AfterAll(one, cs[1..]) == two;
    assert AfterAll(Filing(map[], map[]), cs) == two;
    assert two.sessions == map[0 := Session(key), 1 := Session(key)] && two.sessionHash == map[key := 1];
    assert two.sessions[0].key == key && two.sessions[1].key == key && two.sessionHash[key] == 1;
    assert !Registered(two.sessions, two.sessionHash, 0);
    assert Registered(two.sessions, two.sessionHash, 1);
  }

  /** The identifiers of the rules on a list. */
  function IdsOf(nodes: map<nat, Rule>, list: seq<nat>): (ids: seq<int>)
    requires forall i :: 0 <= i < |list| ==> list[i] in nodes
    ensures |ids| == |list| && forall i :: 0 <= i < |list| ==> ids[i] == nodes[list[i]].id
  {
    if list == [] then [] else [nodes[list[0]].id] + IdsOf(nodes, list[1..])
  }

  /** Dropping the packets of a session takes the slots of all its PDRs away. */
  lemma DropTakesSlots(slots: map<int, nat>, hash: map<int, nat>, lists: map<nat, seq<nat>>, nodes: map<nat, Rule>,
                       owner: map<nat, nat>, s: nat, n: nat)
    requires SlotsOk(slots, hash, owner) && Filed(hash, nodes) && Listed(lists, nodes, owner)
    requires s in lists && n in lists[s]
    ensures n in nodes && nodes[n].id !in SlotsWithout(slots, s)
  {
    hide Distinct;
  }

  lemma EnrollKeepsSessions(t: TableState, s: nat, r: Rule, cap: nat, sessions: map<nat, Session>)
    requires s in t.lists && (r.id in t.hash || t.pool.free != []) && SameSessions(sessions, t.lists)
    ensures SameSessions(sessions, Enroll(t, s, r, cap).lists)
  {
    hide Apply;
  }

  lemma DiscardKeepsSessions(t: TableState, id: int, cap: nat, sessions: map<nat, Session>)
    requires id in t.hash && SameSessions(sessions, t.lists)
    ensures SameSessions(sessions, Discard(t, id, cap).lists)
  {
    hide Apply, Unlisted;
  }

  /** A new PDR, with or without a slot for its session. */
  lemma EnrollKeepsSlots(t: TableState, s: nat, r: Rule, cap: nat, slots: map<int, nat>)
    requires Consistent(t, cap) && SlotsOk(slots, t.hash, t.owner) && s in t.lists
    requires r.id in t.hash || t.pool.free != []
    ensures var t' := Enroll(t, s, r, cap);
      && SlotsOk(slots, t'.hash, t'.owner)
      && (r.id !in t.hash && r.id != 0 ==> SlotsOk(slots[r.id := s], t'.hash, t'.owner))
  {
    hide Apply, Conserved, Distinct;
    if r.id !in t.hash {
      AddPooled(t.pool, t.nodes, cap, r);
    }
  }

  lemma DiscardKeepsSlots(t: TableState, id: int, cap: nat, slots: map<int, nat>)
    requires Consistent(t, cap) && SlotsOk(slots, t.hash, t.owner) && id in t.hash
    ensures var t' := Discard(t, id, cap); SlotsOk(slots - {id}, t'.hash, t'.owner)
  {
    hide Apply, Conserved, Distinct, Unlisted;
  }

  datatype RuleLists = RuleLists(pdrs: map<nat, seq<nat>>, fars: map<nat, seq<nat>>, qers: map<nat, seq<nat>>)

  function WithEmpty(l: RuleLists, s: nat): RuleLists {
    RuleLists(l.pdrs[s := []], l.fars[s := []], l.qers[s := []])
  }

  predicate HasAction(action: int, bit: int)
    requires bit > 0
  {
    action / bit % 2 == 1
  }

  /** Each bit of an action is seen, whatever the others are. */
  lemma ActionBits(action: int)
    ensures HasAction(action, ACTION_DROP) <==> action % 2 == 1
    ensures HasAction(action, ACTION_FORW) <==> action % 4 >= 2
    ensures HasAction(action, ACTION_BUFF) <==> action % 8 >= 4
    ensures !HasAction(action, ACTION_DROP) && HasAction(action, ACTION_FORW) <==> action % 4 == 2
  {
  }

  // ----- The context ---------------------------------------------------------

  class UpfContext {
    const pdr: RuleTable
    const far: RuleTable
    const qer: RuleTable
    const cap: nat
    var pool: PoolState
    var sessions: map<nat, Session>
    var sessionHash: map<octets, nat>
    var slots: map<int, nat>

    ghost predicate Valid()
      reads this, pdr, far, qer
    {
      && pdr != far && far != qer && pdr != qer && pdr.Valid() && far.Valid() && qer.Valid()
      && SessionsOk(pool, sessions, sessionHash, cap)
      && SameSessions(sessions, pdr.lists) && SameSessions(sessions, far.lists) && SameSessions(sessions, qer.lists)
      && SlotsOk(slots, pdr.hash, pdr.owner)
    }

    /** The lists of rules, by session. */
    ghost function Lists(): RuleLists
      reads pdr`lists, far`lists, qer`lists
    {
      RuleLists(pdr.lists, far.lists, qer.lists)
    }

    ghost function Files(): Filing
      reads `sessions, `sessionHash
    {
      Filing(sessions, sessionHash)
    }

    /** The places of the pool that were taken for a session that was never made. */
    ghost function Leaked(): set<nat>
      reads this
    {
      pool.held - sessions.Keys
    }

    constructor (cap: nat, pdrCap: nat, farCap: nat, qerCap: nat)
      ensures Valid() && sessions == map[] && slots == map[] && Leaked() == {}
    {
      this.cap := cap;
      pdr := new RuleTable(pdrCap);
      far := new RuleTable(farCap);
      qer := new RuleTable(qerCap);
      pool := AllFree(cap);
      sessions, sessionHash, slots := map[], map[], map[];
      new;
      AllFreeConserved(cap);
    }

    /** `UpfSessionAdd`: an unsupported type is found out only after a place in the pool was taken. */
    method SessionAdd(pdnType: octet, addr4: octets, addr6: octets, dnn: octets) returns (s: Option<nat>)
      requires Valid()
      modifies this, pdr`lists, far`lists, qer`lists
      ensures Valid() && slots == old(slots)
      ensures s.Some? <==> old(pool).free != [] && pdnType in {1, 2, 3}
      ensures s.None? ==> sessions == old(sessions) && sessionHash == old(sessionHash)
      ensures s.None? ==> Lists() == old(Lists())
      ensures s.None? ==> Leaked() == old(Leaked()) + if old(pool).free == [] then {} else {old(pool).free[0]}
      ensures s.Some? ==> s.value == old(pool).free[0] && s.value !in old(sessions) && Leaked() == old(Leaked())
      ensures s.Some? ==> sessions == old(sessions)[s.value := Session(HashKey(pdnType, addr4, addr6, dnn))]
      ensures s.Some? ==> sessionHash == old(sessionHash)[HashKey(pdnType, addr4, addr6, dnn) := s.value]
      ensures s.Some? ==> Lists() == WithEmpty(old(Lists()), s.value)
      ensures s.Some? ==> Files() == After(old(Files()), Added(s.value, sessions[s.value].key))
    {
      hide SessionsOk, SlotsOk, Filed, Listed, Pooled, HashKey, Apply;
      if pool.free == [] {
        return None;
      }
      var n := pool.free[0];
      TakePlace(pool, sessions, sessionHash, cap);
      pool := Apply(pool, Alloc, cap);
      if !(pdnType == PDN_TYPE_IPV4 || pdnType == PDN_TYPE_IPV6 || pdnType == PDN_TYPE_IPV4V6) {
        return None;
      }
      Enter(n, HashKey(pdnType, addr4, addr6, dnn));
      s := Some(n);
    }

    /** The lists of a new session are made, and the session is found under its key. */
    method Enter(n: nat, key: octets)
      requires Valid() && n in pool.held && n !in sessions
      modifies `sessions, `sessionHash, pdr`lists, far`lists, qer`lists
      ensures Valid() && sessions == old(sessions)[n := Session(key)] && sessionHash == old(sessionHash)[key := n]
      ensures Lists() == WithEmpty(old(Lists()), n)
    {
      hide SessionsOk, SlotsOk, Filed, Listed, Pooled;
      AddSessionOk(pool, sessions, sessionHash, cap, n, key);
      pdr.AddSession(n);
      far.AddSession(n);
      qer.AddSession(n);
      sessions := sessions[n := Session(key)];
      sessionHash := sessionHash[key := n];
    }

    /** `UpfBufPacketRemove`, for the slot of a PDR if there is one. */
    method BufPacketRemove(id: int)
      requires Valid()
      modifies `slots
      ensures Valid() && slots == old(slots) - {id}
    {
      hide SessionsOk, Filed, Listed, Pooled, SameSessions;
      slots := slots - {id};
    }

    /** Removes the packet slots of the PDRs on a session's list. */
    method RemoveSlots(s: nat)
      requires Valid() && s in sessions
      modifies `slots
      ensures Valid() && slots == SlotsWithout(old(slots), s)
    {
      hide SessionsOk, Filed, Listed, Pooled, SlotsOk, SlotsOf, SlotsWithout, Distinct, Members;
      var list := pdr.lists[s];
      ghost var slots0 := slots;
      SlotsNoneGone(slots, pdr.hash);
      NoneGone(pdr.nodes, pdr.hash, pdr.owner, list, pdr.pool, pdr.cap);
      OwnList(pdr.lists, pdr.nodes, pdr.owner, s);
      var i := 0;
      while i < |list|
        invariant Valid() && i <= |list| && slots == SlotsOf(slots0, pdr.hash, Members(list[..i]))
      {
        FreeOneMore(pdr.pool, list, i, pdr.cap);
        SlotsOneMore(slots0, pdr.hash, pdr.nodes, Members(list[..i]), list[i]);
        BufPacketRemove(pdr.nodes[list[i]].id);
        i := i + 1;
      }
      SlotsOfSession(slots0, pdr.hash, pdr.lists, pdr.nodes, pdr.owner, s);
    }

    /** `UpfSessionRemove` */
    method SessionRemove(s: nat)
      requires Valid() && s in sessions
      modifies this, pdr, far, qer
      ensures Valid() && sessions == old(sessions) - {s} && sessionHash == old(sessionHash) - {old(sessions)[s].key}
      ensures Files() == After(old(Files()), Removed(s))
      ensures slots == SlotsWithout(old(slots), s) && pool == Apply(old(pool), Free(s), cap)
      ensures s in old(pdr.lists) && pdr.Now() == Strip(old(pdr.Now()), s, pdr.cap)
      ensures s in old(far.lists) && far.Now() == Strip(old(far.Now()), s, far.cap)
      ensures s in old(qer.lists) && qer.Now() == Strip(old(qer.Now()), s, qer.cap)
    {
      hide SessionsOk, Filed, Listed, Pooled, SlotsOk, SlotsWithout, WithoutNodes, FreeAll, Members, Apply, Strip,
           SlotsOf;
      RemoveSessionOk(pool, sessions, sessionHash, cap, s);
      SlotsOfSession(slots, pdr.hash, pdr.lists, pdr.nodes, pdr.owner, s);
      Stripped(pdr.Now(), s, pdr.cap);
      Stripped(far.Now(), s, far.cap);
      Stripped(qer.Now(), s, qer.cap);
      sessionHash := sessionHash - {sessions[s].key};
      RemoveSlots(s);
      DeleteRules(s);
      sessions := sessions - {s};
      pool := Apply(pool, Free(s), cap);
    }

    /** Deletes a session's rules of all kinds. */
    method DeleteRules(s: nat)
      requires pdr != far && far != qer && pdr != qer && pdr.Valid() && far.Valid() && qer.Valid()
      requires s in pdr.lists && s in far.lists && s in qer.lists
      modifies pdr, far, qer
      ensures pdr.Valid() && far.Valid() && qer.Valid()
      ensures pdr.Now() == Strip(old(pdr.Now()), s, pdr.cap) && far.Now() == Strip(old(far.Now()), s, far.cap)
      ensures qer.Now() == Strip(old(qer.Now()), s, qer.cap)
    {
      hide Filed, Listed, Pooled, Strip;
      pdr.DeleteSession(s);
      far.DeleteSession(s);
      qer.DeleteSession(s);
    }

    /** `UpfSessionRemoveAll`: visits the entries of the session hash, in some order, removing each one's session. */
    method SessionRemoveAll()
      requires Valid()
      modifies this, pdr, far, qer
      ensures Valid() && sessionHash == map[]
      ensures RemovedSoFar(old(sessions), old(sessionHash), sessions, map[])
      ensures forall s :: s in sessions ==>
        s in old(sessions) && !Leads(old(sessionHash), old(sessions)[s].key, s)
      ensures forall s :: s in old(sessions) && s !in sessions ==> Leads(old(sessionHash), old(sessions)[s].key, s)
      ensures sessions == map[] <==> AllRegistered(old(sessions), old(sessionHash))
    {
      hide Filed, Listed, Pooled, SlotsOk, SlotsWithout, Apply, Strip, RemovedSoFar, Conserved, Leads, Registered,
           After;
      ghost var sessions0, hash0 := sessions, sessionHash;
      NoneRemoved(sessions, sessionHash);
      while sessionHash != map[]
        invariant Valid() && RemovedSoFar(sessions0, hash0, sessions, sessionHash)
        decreases |sessionHash|
      {
        var k :| k in sessionHash;
        RemoveOneMore(sessions0, hash0, sessions, sessionHash, k);
        SessionRemove(sessionHash[k]);
      }
      RemovedMeans(sessions0, hash0, sessions);
      RemoveAllEmptiesIff(sessions0, hash0, sessions);
    }

    // ----- Handlers of rule requests ------------------------------------------
    //
    // `present` tells whether the mandatory elements are there, `converted` whether they could be turned
    // into a rule, and `kernel` whether the kernel took the change.

    /** `UpfN4HandleCreateFar` and `UpfN4HandleCreateQer`; without a free node the program faults. */
    method HandleCreate(t: RuleTable, s: nat, r: Rule, present: bool, converted: bool, kernel: bool)
        returns (status: Status, faulted: bool)
      requires Valid() && (t == far || t == qer) && s in sessions
      modifies t
      ensures Valid() && s in old(t.lists)
      ensures var accepted := present && old(r.id !in t.hash) && converted && kernel;
        && (faulted <==> accepted && old(t.pool).free == [])
        && status == if accepted && !faulted then Ok else Error
      ensures t.Now() == if status == Ok then Enroll(old(t.Now()), s, r, t.cap) else old(t.Now())
    {
      hide SessionsOk, Filed, Listed, Pooled, SlotsOk, Enroll;
      if !present || r.id in t.hash || !converted || !kernel {
        return Error, false;
      }
      if t.pool.free != [] {
        EnrollKeepsSessions(t.Now(), s, r, t.cap, sessions);
      }
      faulted := t.Register(s, r);
      status := if faulted then Error else Ok;
    }

    /** `UpfN4HandleUpdateFar`, but for its packets, and `UpfN4HandleUpdateQer` */
    method HandleUpdate(t: RuleTable, s: nat, r: Rule, present: bool, converted: bool, kernel: bool)
        returns (status: Status)
      requires Valid() && (t == far || t == qer) && s in sessions
      modifies t
      ensures Valid() && s in old(t.lists)
      ensures status == if present && old(r.id in t.hash) && converted && kernel then Ok else Error
      ensures t.Now() == if status == Ok then Enroll(old(t.Now()), s, r, t.cap) else old(t.Now())
    {
      hide SessionsOk, Filed, Listed, Pooled, SlotsOk, Enroll;
      if !present || r.id !in t.hash || !converted || !kernel {
        return Error;
      }
      EnrollKeepsSessions(t.Now(), s, r, t.cap, sessions);
      var _ := t.Register(s, r);
      status := Ok;
    }

    /** `UpfN4HandleRemoveFar` and `UpfN4HandleRemoveQer` */
    method HandleRemove(t: RuleTable, id: int, kernel: bool) returns (status: Status)
      requires Valid() && (t == far || t == qer)
      modifies t
      ensures Valid() && status == if id != 0 && old(id in t.hash) && kernel then Ok else Error
      ensures t.Now() == if status == Ok then Discard(old(t.Now()), id, t.cap) else old(t.Now())
    {
      hide SessionsOk, Filed, Listed, Pooled, SlotsOk, Discard;
      if id == 0 || id !in t.hash || !kernel {
        return Error;
      }
      DiscardKeepsSessions(t.Now(), id, t.cap, sessions);
      status := t.DeregisterById(id);
    }

    /**
     * `UpfN4HandleCreatePdr`; `compiled` tells whether a match rule was made, `slotRoom` whether a slot
     * was had.  Without a free node the program faults.
     */
    method HandleCreatePdr(s: nat, r: Rule, present: bool, converted: bool, kernel: bool, compiled: bool,
                           slotRoom: bool)
        returns (status: Status, faulted: bool)
      requires Valid() && s in sessions
      modifies pdr, `slots
      ensures Valid() && s in old(pdr.lists)
      ensures var accepted := present && old(r.id !in pdr.hash) && converted && kernel && compiled;
        && (faulted <==> accepted && old(pdr.pool).free == [])
        && status == if accepted && !faulted then Ok else Error
      ensures pdr.Now() == if status == Ok then Enroll(old(pdr.Now()), s, r, pdr.cap) else old(pdr.Now())
      ensures slots == if status == Ok && r.id != 0 && slotRoom then old(slots)[r.id := s] else old(slots)
    {
      hide SessionsOk, Filed, Listed, Pooled, SlotsOk, Enroll;
      if !present || r.id in pdr.hash || !converted || !kernel || !compiled {
        return Error, false;
      }
      if pdr.pool.free != [] {
        EnrollKeepsSessions(pdr.Now(), s, r, pdr.cap, sessions);
        EnrollKeepsSlots(pdr.Now(), s, r, pdr.cap, slots);
      }
      faulted := pdr.Register(s, r);
      if faulted {
        return Error, true;
      }
      if r.id != 0 && slotRoom {
        slots := slots[r.id := s];
      }
      status := Ok;
    }

    /** `UpfN4HandleUpdatePdr` */
    method HandleUpdatePdr(s: nat, r: Rule, present: bool, converted: bool, kernel: bool, compiled: bool)
        returns (status: Status)
      requires Valid() && s in sessions
      modifies pdr
      ensures Valid() && s in old(pdr.lists)
      ensures status == if present && old(r.id in pdr.hash) && converted && kernel && compiled then Ok else Error
      ensures pdr.Now() == if status == Ok then Enroll(old(pdr.Now()), s, r, pdr.cap) else old(pdr.Now())
    {
      hide SessionsOk, Filed, Listed, Pooled, SlotsOk, Enroll;
      if !present || r.id !in pdr.hash || !converted || !kernel || !compiled {
        return Error;
      }
      EnrollKeepsSessions(pdr.Now(), s, r, pdr.cap, sessions);
      EnrollKeepsSlots(pdr.Now(), s, r, pdr.cap, slots);
      var _ := pdr.Register(s, r);
      status := Ok;
    }

    /** `UpfN4HandleRemovePdr`: the slot goes before the rule. */
    method HandleRemovePdr(id: int, kernel: bool) returns (status: Status)
      requires Valid()
      modifies pdr, `slots
      ensures Valid() && status == if id != 0 && old(id in pdr.hash) && kernel then Ok else Error
      ensures pdr.Now() == if status == Ok then Discard(old(pdr.Now()), id, pdr.cap) else old(pdr.Now())
      ensures slots == if status == Ok then old(slots) - {id} else old(slots)
    {
      hide SessionsOk, Filed, Listed, Pooled, SlotsOk, Discard;
      if id == 0 || id !in pdr.hash || !kernel {
        return Error;
      }
      DiscardKeepsSessions(pdr.Now(), id, pdr.cap, sessions);
      DiscardKeepsSlots(pdr.Now(), id, pdr.cap, slots);
      BufPacketRemove(id);
      status := pdr.DeregisterById(id);
    }

    /**
     * `UpfN4HandleUpdateFar`: when packets were buffered under the old action, they are dropped or sent
     * for every PDR of the session.  `sent` lists the PDRs that were drained, and `faulted` tells that
     * a PDR without a slot was met; `header` tells whether the action has a GTP-U/IPv4 header.
     */
    method HandleUpdateFar(s: nat, r: Rule, present: bool, converted: bool, kernel: bool, header: bool)
        returns (status: Status, sent: seq<int>, faulted: bool)
      requires Valid() && s in sessions
      modifies far, `slots
      ensures Valid() && s in old(far.lists)
      ensures status == if present && old(r.id in far.hash) && converted && kernel then Ok else Error
      ensures far.Now() == if status == Ok then Enroll(old(far.Now()), s, r, far.cap) else old(far.Now())
      ensures var before := Find(old(far.Now()), r.id);
        var flush := status == Ok && before.Some? && before.value.content % 8 >= 4;
        var sends := flush && r.content % 4 == 2 && header;
        && slots == (if flush && r.content % 2 == 1 then SlotsWithout(old(slots), s) else old(slots))
        && (faulted <==> sends && exists id :: id in ListedIds(s) && id !in slots)
        && (sends && !faulted ==> sent == ListedIds(s))
        && (faulted ==> sent <= ListedIds(s) && |sent| < |ListedIds(s)| && ListedIds(s)[|sent|] !in slots)
        && (!sends ==> sent == [])
    {
      hide SessionsOk, Filed, Listed, Pooled, SlotsOk, Enroll, SlotsWithout, IdsOf, HasAction;
      sent, faulted := [], false;
      if r.id in far.hash && far.hash[r.id] in far.nodes {
        ActionBits(far.nodes[far.hash[r.id]].content);
      }
      var buffering := r.id in far.hash && far.hash[r.id] in far.nodes
        && HasAction(far.nodes[far.hash[r.id]].content, ACTION_BUFF);
      status := HandleUpdate(far, s, r, present, converted, kernel);
      if status == Ok && buffering {
        sent, faulted := FlushSlots(s, r.content, header);
      }
    }

    /** Drops or sends the packets of a session's PDRs, as the new action says. */
    method FlushSlots(s: nat, action: int, header: bool) returns (sent: seq<int>, faulted: bool)
      requires Valid() && s in sessions
      modifies `slots
      ensures Valid() && slots == if action % 2 == 1 then SlotsWithout(old(slots), s) else old(slots)
      ensures var sends := action % 4 == 2 && header;
        && (faulted <==> sends && exists id :: id in ListedIds(s) && id !in slots)
        && (sends && !faulted ==> sent == ListedIds(s))
        && (faulted ==> sent <= ListedIds(s) && |sent| < |ListedIds(s)| && ListedIds(s)[|sent|] !in slots)
        && (!sends ==> sent == [])
    {
      hide SessionsOk, Filed, Listed, Pooled, SlotsOk, SlotsWithout, IdsOf, HasAction;
      ActionBits(action);
      sent, faulted := [], false;
      if HasAction(action, ACTION_DROP) {
        assert action % 4 != 2;
        RemoveSlots(s);
      } else if HasAction(action, ACTION_FORW) && header {
        sent, faulted := SendSlots(s);
      }
    }

    /** The identifiers of a session's PDRs. */
    ghost function ListedIds(s: nat): (ids: seq<int>)
      requires Valid() && s in sessions
      reads this, pdr, far, qer
      ensures s in pdr.lists && |ids| == |pdr.lists[s]|
      ensures forall i :: 0 <= i < |ids| ==>
        pdr.lists[s][i] in pdr.nodes && ids[i] == pdr.nodes[pdr.lists[s][i]].id
    {
      OwnList(pdr.lists, pdr.nodes, pdr.owner, s);
      IdsOf(pdr.nodes, pdr.lists[s])
    }

    /** The loop that sends the packets of a session's PDRs, up to a PDR without a slot. */
    method SendSlots(s: nat) returns (sent: seq<int>, faulted: bool)
      requires Valid() && s in sessions
      ensures faulted <==> exists id :: id in ListedIds(s) && id !in slots
      ensures sent <= ListedIds(s) && (!faulted ==> sent == ListedIds(s)) && forall id :: id in sent ==> id in slots
      ensures faulted ==> |sent| < |ListedIds(s)| && ListedIds(s)[|sent|] !in slots
    {
      hide SessionsOk, Filed, Listed, Pooled, SlotsOk;
      var list := pdr.lists[s];
      OwnList(pdr.lists, pdr.nodes, pdr.owner, s);
      sent := [];
      for i := 0 to |list|
        invariant |sent| == i && sent <= ListedIds(s) && forall id :: id in sent ==> id in slots
      {
        var id := pdr.nodes[list[i]].id;
        assert ListedIds(s)[i] == id;
        if id !in slots {
          assert id in ListedIds(s);
          return sent, true;
        }
        sent := sent + [id];
      }
      faulted := false;
    }
  }

  /**
   * A FAR that buffers is updated to drop, to buffer, and to forward: the last update faults as soon as
   * the session has a PDR, whatever the slots were before.
   */
  method SendAfterDrop(c: UpfContext, s: nat, id: int) returns (faulted: bool)
    requires c.Valid() && s in c.sessions && c.ListedIds(s) != []
    requires Find(c.far.Now(), id).Some? && Find(c.far.Now(), id).value.content % 8 >= 4
    modifies c.far, c`slots
    ensures faulted
  {
    hide SessionsOk, Filed, Listed, Pooled, SlotsOk, SlotsWithout, Enroll, Find;
    faulted := UpdateKnown(c, s, id, ACTION_DROP);
    faulted := UpdateKnown(c, s, id, ACTION_BUFF);
    faulted := UpdateKnown(c, s, id, ACTION_FORW);
  }

  /** An update of a known FAR to one action. */
  method UpdateKnown(c: UpfContext, s: nat, id: int, action: int) returns (faulted: bool)
    requires c.Valid() && s in c.sessions && c.ListedIds(s) != [] && Find(c.far.Now(), id).Some?
    modifies c.far, c`slots
    ensures c.Valid() && Find(c.far.Now(), id) == Some(Rule(id, action)) && c.ListedIds(s) == old(c.ListedIds(s))
    ensures var buffered := Find(old(c.far.Now()), id).value.content % 8 >= 4;
      var lacking := exists i :: i in c.ListedIds(s) && i !in c.slots;
      && (buffered && action % 2 == 1 ==> lacking)
      && (!(buffered && action % 2 == 1) ==> c.slots == old(c.slots))
      && (faulted <==> buffered && action % 4 == 2 && lacking)
  {
    hide SessionsOk, Filed, Listed, Pooled, SlotsOk, SlotsWithout, Enroll, Find;
    ghost var t := c.far.Now();
    Known(t, id);
    EnrollMeans(t, s, Rule(id, action), c.far.cap);
    DropTakesFirst(c, s);
    var status, sent;
    status, sent, faulted := c.HandleUpdateFar(s, Rule(id, action), true, true, true, true);
    assert c.ListedIds(s)[0] in c.ListedIds(s);
  }

  lemma Known(t: TableState, id: int)
    requires Find(t, id).Some?
    ensures id in t.hash
  {
  }

  /** Without the slots of a session, no PDR of it has one. */
  lemma DropTakesFirst(c: UpfContext, s: nat)
    requires c.Valid() && s in c.sessions && c.ListedIds(s) != []
    ensures c.ListedIds(s)[0] !in SlotsWithout(c.slots, s)
  {
    DropTakesSlots(c.slots, c.pdr.hash, c.pdr.lists, c.pdr.nodes, c.pdr.owner, s, c.pdr.lists[s][0]);
  }


  lemma NoneRemoved(sessions: map<nat, Session>, sessionHash: map<octets, nat>)
    ensures RemovedSoFar(sessions, sessionHash, sessions, sessionHash)
  {
  }
}
