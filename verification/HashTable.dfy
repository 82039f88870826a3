/**
 * The chained hash table: buckets of linked entries with cached hash values, in-place
 * growth, and an iterator that stays good while the entry it stands on is deleted.
 */
module HashTable {
  import opened Prelude

  const INITIAL_MAX := 15

  // ----- Hash values and masks ---------------------------------------------

  /** The default hash of a key: multiply by 33 and add, in 32-bit arithmetic. */
  function HashBytes(key: octets, seed: u32): u32 {
    if key == [] then seed
    else (HashBytes(key[..|key| - 1], seed) * 33 + key[|key| - 1]) % 0x1_0000_0000
  }

  /** A key hashes its front first, and an octet is added to 33 times what was before. */
  lemma {:induction false} HashTogether(a: octets, b: octets, seed: u32)
    ensures HashBytes(a + b, seed) == HashBytes(b, HashBytes(a, seed))
    ensures HashBytes([], seed) == seed
    ensures |b| == 1 ==> HashBytes(b, seed) == (33 * seed + b[0]) % 0x1_0000_0000
  {
    if b == [] {
      assert a + b == a;
    } else {
      var n := |b| - 1;
      HashTogether(a, b[..n], seed);
      assert (a + b)[..|a + b| - 1] == a + b[..n];
    }
  }

  const HASH_KEY_STRING := -1

  /** The key is the first `klen` octets at `mem`, or with `HASH_KEY_STRING` those before the first zero octet. */
  method HashfuncDefault(mem: octets, klen: int, seed: u32) returns (hash: u32, len: nat)
    requires if klen == -1 then 0 in mem else 0 <= klen <= |mem|
    ensures len <= |mem| && hash == HashBytes(mem[..len], seed)
    ensures klen != -1 ==> len == klen
    ensures klen == -1 ==> len < |mem| && mem[len] == 0 && 0 !in mem[..len]
  {
    hash, len := seed, 0;
    if klen == HASH_KEY_STRING {
      while mem[len] != 0
        invariant len < |mem| && 0 !in mem[..len] && hash == HashBytes(mem[..len], seed)
        decreases |mem| - len
      {
        assert mem[..len + 1][..len] == mem[..len];
        hash := (hash * 33 + mem[len]) % 0x1_0000_0000;
        len := len + 1;
      }
    } else {
      while len < klen
        invariant len <= klen && hash == HashBytes(mem[..len], seed)
      {
        assert mem[..len + 1][..len] == mem[..len];
        hash := (hash * 33 + mem[len]) % 0x1_0000_0000;
        len := len + 1;
      }
    }
  }

  /** Bitwise conjunction. */
  function And(x: nat, y: nat): nat {
    if x == 0 || y == 0 then 0 else 2 * And(x / 2, y / 2) + (if x % 2 == 1 && y % 2 == 1 then 1 else 0)
  }

  function Pow2(k: nat): (p: nat)
    ensures p > 0
  {
    if k == 0 then 1 else 2 * Pow2(k - 1)
  }

  lemma {:induction false} AndBelow(x: nat, y: nat)
    ensures And(x, y) <= y
  {
    if x != 0 && y != 0 {
      AndBelow(x / 2, y / 2);
    }
  }

  lemma Scaled(q: int, d: int)
    ensures q >= 1 && d > 0 ==> q * d >= d
    ensures q <= -1 && d > 0 ==> q * d <= -d
  {
    if q >= 1 && d > 0 { assert (q - 1) * d >= 0; }
    if q <= -1 && d > 0 { assert (-q - 1) * d >= 0; }
  }

  lemma QuotientRemainder(x: nat, d: nat, q: nat, m: nat)
    requires d > 0 && x == q * d + m && m < d
    ensures x % d == m
  {
    var q', m' := x / d, x % d;
    calc { (q - q') * d; q * d - q' * d; m' - m; }
    Scaled(q - q', d);
  }

  lemma RemainderOfDouble(x: nat, p: nat)
    requires p > 0
    ensures x % (2 * p) == 2 * (x / 2 % p) + x % 2
  {
    var h := x / 2;
    var q, r := h / p, h % p;
    calc { q * (2 * p); 2 * (q * p); 2 * (h - r); }
    QuotientRemainder(x, 2 * p, q, 2 * r + x % 2);
  }

  /** With a mask of the form 2^k - 1, masking is the remainder modulo 2^k. */
  lemma {:induction false} MaskIsRemainder(x: nat, k: nat)
    ensures And(x, Pow2(k) - 1) == x % Pow2(k)
  {
    if k > 0 {
      var p := Pow2(k - 1);
      MaskIsRemainder(x / 2, k - 1);
      AndOdd(x, p);
      RemainderOfDouble(x, p);
    }
  }

  lemma AndOdd(x: nat, p: nat)
    requires p > 0
    ensures And(x, 2 * p - 1) == 2 * And(x / 2, p - 1) + x % 2
  {
    assert (2 * p - 1) / 2 == p - 1 && (2 * p - 1) % 2 == 1;
  }

  // ----- Chains ------------------------------------------------------------

  class Entry<V> {
    var next: Entry?<V>
    const hash: u32
    const key: octets
    var val: V

    constructor (hash: u32, key: octets, val: V)
      ensures this.hash == hash && this.key == key && this.val == val && next == null
    {
      this.hash, this.key, this.val, next := hash, key, val, null;
    }
  }

  ghost function At<V>(c: seq<Entry<V>>, i: nat): Entry?<V> {
    if i < |c| then c[i] else null
  }

  /** `c` is what one meets following `next` from `head` to null. */
  ghost predicate Linked<V>(c: seq<Entry<V>>, head: Entry?<V>)
    reads c`next
  {
    head == At(c, 0) && forall i {:trigger c[i].next} :: 0 <= i < |c| ==> c[i].next == At(c, i + 1)
  }

  lemma HeadTail<T>(s: seq<T>, i: nat, rest: seq<T>)
    requires i < |s|
    ensures s[i..][1..] == s[i + 1..] && s[i..] + rest == [s[i]] + (s[i..][1..] + rest)
  {
    assert s[i..] == [s[i]] + s[i + 1..];
  }

  lemma LinkedRest<V>(c: seq<Entry<V>>, head: Entry?<V>)
    requires Linked(c, head)
    ensures if c == [] then head == null else head == c[0] && Linked(c[1..], c[0].next)
  {
  }

  lemma LinkedFrom<V>(c: seq<Entry<V>>, head: Entry?<V>, i: nat)
    requires Linked(c, head) && i <= |c|
    ensures Linked(c[i..], At(c, i))
  {
  }

  lemma LinkedOne<V>(e: Entry<V>)
    requires e.next == null
    ensures Linked([e], e)
  {
  }

  /** The entries of the buckets from `i` on, in iteration order. */
  ghost function Flat<V>(cs: seq<seq<Entry<V>>>, i: nat): seq<Entry<V>>
    decreases |cs| - i
  {
    if i >= |cs| then [] else cs[i] + Flat(cs, i + 1)
  }

  /**
   * Every entry is filed once: under its own key, in the bucket its hash selects.
   * `repr` is the set of these entries.
   */
  ghost predicate Filing<V>(cs: seq<seq<Entry<V>>>, es: map<octets, Entry<V>>, repr: set<Entry<V>>, max: nat,
                            hashOf: octets -> u32) {
    && (forall b :: 0 <= b < |cs| ==> Distinct(cs[b]))
    && (forall b, i :: 0 <= b < |cs| && 0 <= i < |cs[b]| ==> cs[b][i] in repr && And(hashOf(cs[b][i].key), max) == b)
    && (forall e :: e in repr ==> e.key in es && es[e.key] == e && e.hash == hashOf(e.key))
    && (forall k :: k in es ==>
          es[k] in repr && es[k].key == k && And(hashOf(k), max) < |cs| && es[k] in cs[And(hashOf(k), max)])
  }

  /** An entry sits in one bucket only, at one place. */
  lemma FiledOnce<V>(cs: seq<seq<Entry<V>>>, es: map<octets, Entry<V>>, repr: set<Entry<V>>, max: nat,
                     hashOf: octets -> u32,
                     b: nat, i: nat)
    requires Filing(cs, es, repr, max, hashOf) && b < |cs| && i < |cs[b]|
    ensures cs[b][i] in repr && Distinct(cs[b])
    ensures forall b' :: 0 <= b' < |cs| && b' != b ==> cs[b][i] !in cs[b']
  {
  }

  lemma FilingAppend<V>(cs: seq<seq<Entry<V>>>, es: map<octets, Entry<V>>, repr: set<Entry<V>>, max: nat,
                        hashOf: octets -> u32,
                        e: Entry<V>)
    requires Filing(cs, es, repr, max, hashOf) && max < |cs|
    requires e.key !in es && e.hash == hashOf(e.key)
    ensures var b := And(hashOf(e.key), max);
      b < |cs| && Filing(cs[b := cs[b] + [e]], es[e.key := e], repr + {e}, max, hashOf)
  {
    AndBelow(hashOf(e.key), max);
    var b := And(hashOf(e.key), max);
    assert (cs[b] + [e])[|cs[b]|] == e;
  }

  lemma FilingRemove<V>(cs: seq<seq<Entry<V>>>, es: map<octets, Entry<V>>, repr: set<Entry<V>>, max: nat,
                        hashOf: octets -> u32,
                        key: octets, pos: nat)
    requires Filing(cs, es, repr, max, hashOf) && key in es
    requires var b := And(hashOf(key), max); b < |cs| && pos < |cs[b]| && cs[b][pos] == es[key]
    ensures var b := And(hashOf(key), max);
      Filing(cs[b := Without(cs[b], pos)], es - {key}, repr - {es[key]}, max, hashOf)
  {
    var b := And(hashOf(key), max);
    WithoutMembers(cs[b], pos);
    var cs' := cs[b := Without(cs[b], pos)];
    forall b', i | 0 <= b' < |cs'| && 0 <= i < |cs'[b']|
      ensures cs'[b'][i] in repr - {es[key]} && And(hashOf(cs'[b'][i].key), max) == b'
    {
      assert cs'[b'][i] in cs[b'];
    }
  }

  lemma FlatStep<V>(cs: seq<seq<Entry<V>>>, i: nat)
    ensures Flat(cs, i) == if i < |cs| then cs[i] + Flat(cs, i + 1) else []
    ensures i < |cs| && cs[i] == [] ==> Flat(cs, i) == Flat(cs, i + 1)
  {
  }

  lemma {:induction false} FlatFrom<V>(cs: seq<seq<Entry<V>>>, cs': seq<seq<Entry<V>>>, i: nat)
    requires |cs| == |cs'| && forall b :: i <= b < |cs| ==> cs[b] == cs'[b]
    ensures Flat(cs, i) == Flat(cs', i)
    decreases |cs| - i
  {
    if i < |cs| {
      FlatFrom(cs, cs', i + 1);
    }
  }

  lemma {:induction false} FlatMember<V>(cs: seq<seq<Entry<V>>>, i: nat, e: Entry<V>)
    ensures e in Flat(cs, i) <==> exists b :: i <= b < |cs| && e in cs[b]
    decreases |cs| - i
  {
    if i < |cs| {
      FlatMember(cs, i + 1, e);
      ConcatMember(cs[i], Flat(cs, i + 1), e);
      if b :| i <= b < |cs| && e in cs[b] {
        assert b == i || i + 1 <= b;
      }
    }
  }

  lemma ConcatMember<T>(a: seq<T>, b: seq<T>, x: T)
    ensures x in a + b <==> x in a || x in b
  {
  }

  lemma {:induction false} FlatDistinct<V>(cs: seq<seq<Entry<V>>>, i: nat)
    requires forall b :: 0 <= b < |cs| ==> Distinct(cs[b])
    requires forall b, b', e :: 0 <= b < b' < |cs| && e in cs[b] ==> e !in cs[b']
    ensures Distinct(Flat(cs, i))
    decreases |cs| - i
  {
    if i < |cs| {
      FlatDistinct(cs, i + 1);
      forall j | 0 <= j < |cs[i]|
        ensures cs[i][j] !in Flat(cs, i + 1)
      {
        FlatMember(cs, i + 1, cs[i][j]);
      }
    }
  }

  /** `s` lists the entries of `es`. */
  ghost predicate AllOf<V>(es: map<octets, Entry<V>>, s: seq<Entry<V>>) {
    && (forall k :: k in es ==> es[k].key == k && es[k] in s)
    && (forall e :: e in s ==> e.key in es && es[e.key] == e)
  }

  /** All entries in iteration order: each filed entry once. */
  lemma FlatOfFiling<V>(cs: seq<seq<Entry<V>>>, es: map<octets, Entry<V>>, repr: set<Entry<V>>, max: nat,
                        hashOf: octets -> u32)
    requires Filing(cs, es, repr, max, hashOf)
    ensures Distinct(Flat(cs, 0)) && AllOf(es, Flat(cs, 0)) && forall e :: e in Flat(cs, 0) <==> e in repr
  {
    FlatDistinct(cs, 0);
    forall e | e in Flat(cs, 0)
      ensures e in repr && e.key in es && es[e.key] == e
    {
      FlatMember(cs, 0, e);
    }
    forall e | e in repr
      ensures e in Flat(cs, 0)
    {
      FlatMember(cs, 0, e);
      assert e in cs[And(hashOf(es[e.key].key), max)];
    }
  }

  /** The entries `done`, moved to the buckets that the mask `max` selects. */
  ghost predicate Moved<V>(ns: seq<seq<Entry<V>>>, done: seq<Entry<V>>, max: nat) {
    && |ns| == max + 1
    && (forall b :: 0 <= b < |ns| ==> Distinct(ns[b]))
    && (forall b, i :: 0 <= b < |ns| && 0 <= i < |ns[b]| ==> ns[b][i] in done && And(ns[b][i].hash, max) == b)
    && (forall e :: e in done ==> And(e.hash, max) <= max && e in ns[And(e.hash, max)])
  }

  lemma MoveOne<V>(ns: seq<seq<Entry<V>>>, done: seq<Entry<V>>, max: nat, e: Entry<V>)
    requires Moved(ns, done, max) && e !in done
    ensures And(e.hash, max) <= max && forall b :: 0 <= b < |ns| ==> e !in ns[b]
    ensures Moved(ns[And(e.hash, max) := [e] + ns[And(e.hash, max)]], done + [e], max)
  {
    AndBelow(e.hash, max);
    var b := And(e.hash, max);
    var c := [e] + ns[b];
    assert e !in ns[b];
    assert forall x :: x in ns[b] ==> x in c by {
      forall x | x in ns[b] ensures x in c {}
    }
    assert c[0] == e;
  }

  lemma NothingMoved<V>(max: nat, heads: seq<Entry?<V>>, ns: seq<seq<Entry<V>>>)
    requires |ns| == |heads| == max + 1 && forall b :: 0 <= b <= max ==> ns[b] == [] && heads[b] == null
    ensures Moved(ns, [], max) && forall b :: 0 <= b < |ns| ==> Linked(ns[b], heads[b])
  {
  }

  lemma DistinctMiddle<T>(s: seq<T>, a: seq<T>, x: T, b: seq<T>)
    requires Distinct(s) && s == a + ([x] + b)
    ensures x !in a && x !in b && x in s && s == (a + [x]) + b
  {
    assert s[|a|] == x;
    assert forall i :: 0 <= i < |a| ==> s[i] == a[i];
    assert forall i :: 0 <= i < |b| ==> s[|a| + 1 + i] == b[i];
  }

  lemma Doubled(k: nat)
    ensures Pow2(k + 1) == 2 * Pow2(k)
  {
  }

  lemma FilingAfterMove<V>(cs: seq<seq<Entry<V>>>, ns: seq<seq<Entry<V>>>, es: map<octets, Entry<V>>,
                           repr: set<Entry<V>>,
                           max: nat, newMax: nat, hashOf: octets -> u32)
    requires Filing(cs, es, repr, max, hashOf) && Moved(ns, Flat(cs, 0), newMax)
    ensures Filing(ns, es, repr, newMax, hashOf)
  {
    FlatOfFiling(cs, es, repr, max, hashOf);
  }

  /** `c` is what is left of `m` when the selected ones of the entries `done` are gone. */
  ghost predicate Kept<V>(m: map<octets, V>, es: map<octets, Entry<V>>, c: map<octets, V>, done: seq<Entry<V>>,
                          sel: V -> bool) {
    && es.Keys == m.Keys
    && (forall k :: k in m ==> (k in c <==> !(es[k] in done && sel(m[k]))))
    && (forall k :: k in c ==> k in m && c[k] == m[k])
  }

  lemma StoredTwice<V>(m: map<octets, V>, m': map<octets, V>, key: octets, val: V)
    requires m'.Keys == m.Keys + {key} && forall k :: k in m && k != key ==> m'[k] == m[k]
    ensures m'[key := val] == m[key := val]
  {
  }

  lemma KeptStart<V>(m: map<octets, V>, es: map<octets, Entry<V>>, sel: V -> bool)
    requires es.Keys == m.Keys
    ensures Kept(m, es, m, [], sel)
  {
  }

  lemma KeptEnd<V>(m: map<octets, V>, es: map<octets, Entry<V>>, c: map<octets, V>, all: seq<Entry<V>>, sel: V -> bool)
    requires Kept(m, es, c, all, sel) && AllOf(es, all)
    ensures c == map k | k in m && !sel(m[k]) :: m[k]
  {
  }

  lemma KeptStep<V>(m: map<octets, V>, es: map<octets, Entry<V>>, c: map<octets, V>, done: seq<Entry<V>>,
                    sel: V -> bool, e: Entry<V>,
                    all: seq<Entry<V>>)
    requires Kept(m, es, c, done, sel) && e.key in c && es[e.key] == e && AllOf(es, all)
    ensures Kept(m, es, if sel(c[e.key]) then c - {e.key} else c, done + [e], sel)
  {
  }

  /** Which entry pointer a search stops at: a bucket, or the `next` field of an entry. */
  datatype Hep<V> = BucketAt(index: nat) | NextOf(entry: Entry<V>)

  class Hash<V> {
    var buckets: array<Entry?<V>>
    var count: nat
    var max: nat
    const hashOf: octets -> u32

    // The iterator.
    var this_: Entry?<V>
    var next: Entry?<V>
    var index: nat

    ghost var bits: nat
    ghost var chains: seq<seq<Entry<V>>>
    ghost var entries: map<octets, Entry<V>>
    ghost var Repr: set<Entry<V>>
    ghost var place: nat

    ghost function Bucket(key: octets): nat
      reads `max
    {
      And(hashOf(key), max)
    }

    /** Each chain is what its bucket leads to. */
    ghost predicate Linking()
      reads `chains, `buckets, buckets, (set b, i | 0 <= b < |chains| && 0 <= i < |chains[b]| :: chains[b][i])`next
    {
      |chains| == buckets.Length && forall b :: 0 <= b < |chains| ==> Linked(chains[b], buckets[b])
    }

    ghost predicate Valid()
      reads `buckets, `count, `max, `bits, `chains, `entries, `Repr, buckets, Repr`next
    {
      && max + 1 == Pow2(bits) == buckets.Length == |chains|
      && count == |entries|
      && Filing(chains, entries, Repr, max, hashOf)
      && Linking()
    }

    /** The finite map that the table stands for. */
    ghost function Contents(): map<octets, V>
      reads `entries, `Repr, Repr`val
    {
      map k | k in entries && entries[k] in Repr :: entries[k].val
    }

    constructor (hashOf: octets -> u32)
      ensures Valid() && fresh(buckets) && Contents() == map[] && entries == map[]
      ensures buckets.Length == 16 && max == 15 && count == 0 && this.hashOf == hashOf
    {
      this.hashOf := hashOf;
      count, max := 0, INITIAL_MAX;
      buckets := new Entry?<V>[INITIAL_MAX + 1](_ => null);
      this_, next, index := null, null, 0;
      bits, entries, Repr, place := 4, map[], {}, 0;
      chains := seq(INITIAL_MAX + 1, _ => []);
      assert Pow2(4) == 16;
    }

    function Deref(hep: Hep<V>): Entry?<V>
      requires hep.BucketAt? ==> hep.index < buckets.Length
      reads this, buckets, if hep.NextOf? then {hep.entry} else {}
    {
      match hep
      case BucketAt(i) => buckets[i]
      case NextOf(e) => e.next
    }

    /** `hep` is the pointer to position `pos` of bucket `b`. */
    ghost predicate PointsAt(hep: Hep<V>, b: nat, pos: nat)
      reads this
    {
      && b < |chains| && pos <= |chains[b]|
      && hep == if pos == 0 then BucketAt(b) else NextOf(chains[b][pos - 1])
    }

    /** The search part of the lookup; nothing changes. */
    method Scan(key: octets) returns (hep: Hep<V>, ghost pos: nat)
      requires Valid()
      ensures PointsAt(hep, Bucket(key), pos) && Deref(hep) == At(chains[Bucket(key)], pos)
      ensures key in entries <==> Deref(hep) != null
      ensures key in entries ==> Deref(hep) == entries[key]
    {
      var hash := hashOf(key);
      AndBelow(hash, max);
      var b := And(hash, max);
      hep := BucketAt(b);
      var he := buckets[b];
      pos := 0;
      ghost var c := chains[b];
      while he != null && !(he.hash == hash && he.key == key)
        invariant 0 <= pos <= |c| && PointsAt(hep, b, pos) && he == At(c, pos)
        invariant forall i :: 0 <= i < pos ==> c[i].key != key
        decreases |c| - pos
      {
        hep := NextOf(he);
        he := he.next;
        pos := pos + 1;
      }
    }

    lemma LinkedTail(b: nat, pos: nat)
      requires Linking() && b < |chains| && pos < |chains[b]|
      ensures Linked(chains[b][pos + 1..], chains[b][pos].next)
    {
    }

    /** Writes through `hep`, so that its chain continues with `tail`. */
    method Store(hep: Hep<V>, v: Entry?<V>, ghost b: nat, ghost pos: nat, ghost tail: seq<Entry<V>>)
      requires Linking() && PointsAt(hep, b, pos) && Linked(tail, v)
      requires Distinct(chains[b])
      requires pos > 0 ==> chains[b][pos - 1] !in tail
      requires pos > 0 ==> forall b' :: 0 <= b' < |chains| && b' != b ==> chains[b][pos - 1] !in chains[b']
      modifies `chains, buckets, (if pos > 0 then {chains[b][pos - 1]} else {})`next
      ensures Linking() && chains == old(chains)[b := old(chains[b])[..pos] + tail]
      ensures (hep.BucketAt? ==> hep.index < buckets.Length) && Deref(hep) == v
    {
      match hep {
        case BucketAt(i) => buckets[i] := v;
        case NextOf(p) => p.next := v;
      }
      ghost var c := chains[b][..pos] + tail;
      assert Linked(c, buckets[b]);
      assert forall b' :: 0 <= b' < |chains| && b' != b ==> Linked(chains[b'], buckets[b']);
      chains := chains[b := c];
    }

    /** Files a new entry at the end of its chain, where `hep` points. */
    method Insert(hep: Hep<V>, e: Entry<V>, ghost pos: nat)
      requires Valid() && e !in Repr && e.key !in entries && e.hash == hashOf(e.key) && e.next == null
      requires PointsAt(hep, Bucket(e.key), pos) && pos == |chains[Bucket(e.key)]|
      modifies `count, `chains, `entries, `Repr, buckets, Repr`next
      ensures Valid() && Repr == old(Repr) + {e} && entries == old(entries)[e.key := e]
      ensures PointsAt(hep, Bucket(e.key), pos) && At(chains[Bucket(e.key)], pos) == e == Deref(hep)
    {
      hide Pow2, Filing, And, Linked, Linking, Distinct;
      ghost var b := Bucket(e.key);
      LinkedOne(e);
      if pos > 0 {
        FiledOnce(chains, entries, Repr, max, hashOf, b, pos - 1);
      }
      FilingAppend(chains, entries, Repr, max, hashOf, e);
      assert chains[b][..pos] == chains[b];
      Store(hep, e, b, pos, [e]);
      count := count + 1;
      entries := entries[e.key := e];
      Repr := Repr + {e};
    }

    /**
     * Looks the key up; a value is stored under a key that is not there by appending a
     * new entry to the chain.
     */
    method FindEntry(key: octets, val: Option<V>) returns (hep: Hep<V>, ghost pos: nat)
      requires Valid()
      modifies `count, `chains, `entries, `Repr, buckets, Repr`next
      ensures Valid() && fresh(Repr - old(Repr)) && PointsAt(hep, Bucket(key), pos)
      ensures hep.BucketAt? ==> hep.index < buckets.Length
      ensures Deref(hep) == if key in entries then entries[key] else null
      ensures key in old(entries) || val.None? ==> unchanged(this) && unchanged(buckets) && unchanged(old(Repr))
      ensures key !in old(entries) && val.Some? ==>
        key in entries && entries == old(entries)[key := entries[key]] && entries[key].val == val.value
    {
      hide Pow2, Filing, And, Linked, Linking, Distinct;
      hep, pos := Scan(key);
      var he := Deref(hep);
      if he == null && val.Some? {
        var e := new Entry(hashOf(key), key, val.value);
        Insert(hep, e, pos);
      }
    }

    /** Takes the entry that `hep` points at out of its chain. */
    method Unlink(hep: Hep<V>, ghost pos: nat, ghost key: octets)
      requires Valid() && key in entries
      requires PointsAt(hep, Bucket(key), pos) && Deref(hep) == At(chains[Bucket(key)], pos) == entries[key]
      modifies `count, `chains, `entries, `Repr, buckets, Repr`next
      ensures Valid() && entries == old(entries) - {key}
      ensures Repr == old(Repr) - {old(entries[key])}
      ensures chains == old(chains[Bucket(key) := Without(chains[Bucket(key)], pos)])
    {
      hide Pow2, Filing, And, Linked, Linking, Distinct;
      ghost var b := Bucket(key);
      ghost var c := chains[b];
      FiledOnce(chains, entries, Repr, max, hashOf, b, pos);
      if pos > 0 {
        FiledOnce(chains, entries, Repr, max, hashOf, b, pos - 1);
      }
      FilingRemove(chains, entries, Repr, max, hashOf, key, pos);
      var he := Deref(hep);
      LinkedTail(b, pos);
      Store(hep, he.next, b, pos, c[pos + 1..]);
      count := count - 1;
      entries := entries - {key};
      Repr := Repr - {he};
    }

    // ----- Iteration -------------------------------------------------------

    /** What the iterator has still to visit of the chains `cs`. */
    ghost function Remaining(cs: seq<seq<Entry<V>>>): seq<Entry<V>>
      requires index > 0 ==> index <= |cs| && place <= |cs[index - 1]|
      reads `index, `place
    {
      Current(cs) + Flat(cs, index)
    }

    /** What is left of the chain that the iterator is in. */
    ghost function Current(cs: seq<seq<Entry<V>>>): seq<Entry<V>>
      requires index > 0 ==> index <= |cs| && place <= |cs[index - 1]|
      reads `index, `place
    {
      if index == 0 then [] else cs[index - 1][place..]
    }

    lemma Pending(cs: seq<seq<Entry<V>>>)
      requires Iterating(cs)
      ensures if Current(cs) == [] then next == null else next == Current(cs)[0] && Linked(Current(cs)[1..], next.next)
    {
      if index > 0 {
        LinkedRest(Current(cs), next);
      }
    }

    /** The iterator can go on: what it has still to visit is linked as in `cs`. */
    ghost predicate Iterating(cs: seq<seq<Entry<V>>>)
      reads this, buckets, (set b, i | 0 <= b < |cs| && 0 <= i < |cs[b]| :: cs[b][i])`next
    {
      && max + 1 == |cs| == buckets.Length && index <= |cs|
      && (if index == 0 then next == null
          else place <= |cs[index - 1]| && Linked(cs[index - 1][place..], next))
      && forall b :: index <= b < |cs| ==> Linked(cs[b], buckets[b])
    }

    /** The iterator stands on an entry and can go on from it. */
    ghost predicate OnEntry(cs: seq<seq<Entry<V>>>)
      reads this, buckets, (set b, i | 0 <= b < |cs| && 0 <= i < |cs[b]| :: cs[b][i])`next
    {
      && 0 < index <= |cs| && 0 < place <= |cs[index - 1]|
      && this_ != null && cs[index - 1][place - 1] == this_ && Iterating(cs)
    }

    /** The first entry from bucket `index` on, and the bucket after its own. */
    method SeekChain(ghost cs: seq<seq<Entry<V>>>) returns (he: Entry?<V>, i: nat)
      requires Iterating(cs)
      ensures index <= i <= |cs|
      ensures he == null ==> Flat(cs, index) == []
      ensures he != null ==> i > index && cs[i - 1] != [] && Linked(cs[i - 1], he)
      ensures he != null ==> Flat(cs, index) == cs[i - 1] + Flat(cs, i)
    {
      assert forall b :: index <= b < |cs| ==> Linked(cs[b], buckets[b]);
      assert max + 1 == |cs| == buckets.Length && index <= |cs|;
      hide *;
      he, i := null, index;
      while he == null && i <= max
        invariant index <= i <= |cs|
        invariant he == null ==> Flat(cs, index) == Flat(cs, i)
        invariant he != null ==> i > index && cs[i - 1] != [] && Linked(cs[i - 1], he)
        invariant he != null ==> Flat(cs, index) == cs[i - 1] + Flat(cs, i)
        decreases |cs| - i
      {
        he := buckets[i];
        LinkedRest(cs[i], he);
        FlatStep(cs, i);
        i := i + 1;
      }
      FlatStep(cs, i);
    }

    method HashNext(ghost cs: seq<seq<Entry<V>>>) returns (more: bool)
      requires Iterating(cs)
      modifies `this_, `next, `index, `place
      ensures more <==> old(Remaining(cs)) != []
      ensures more ==> OnEntry(cs) && old(Remaining(cs)) == [this_] + Remaining(cs)
    {
      hide Pow2, Linked, Flat, Distinct;
      Pending(cs);
      this_ := next;
      if this_ == null {
        this_, index := SeekChain(cs);
        if this_ == null {
          return false;
        }
        place := 0;
        assert cs[index - 1][0..] == cs[index - 1];
      }
      Advance(cs);
      more := true;
    }

    method Advance(ghost cs: seq<seq<Entry<V>>>)
      requires max + 1 == |cs| == buckets.Length && 0 < index <= |cs| && place < |cs[index - 1]|
      requires this_ != null && Linked(Current(cs), this_)
      requires forall b :: index <= b < |cs| ==> Linked(cs[b], buckets[b])
      modifies `next, `place
      ensures OnEntry(cs) && old(Current(cs)) + Flat(cs, index) == [this_] + Remaining(cs)
    {
      hide Pow2, Linked, Flat, Distinct;
      ghost var c, f := Current(cs), Flat(cs, index);
      LinkedRest(c, this_);
      HeadTail(cs[index - 1], place, f);
      next := this_.next;
      place := place + 1;
      assert Current(cs) == c[1..] && Remaining(cs) == c[1..] + f;
    }

    method HashFirst(ghost cs: seq<seq<Entry<V>>>) returns (more: bool)
      requires Linking() && max + 1 == |chains| && cs == chains
      modifies `this_, `next, `index, `place
      ensures more <==> Flat(cs, 0) != []
      ensures more ==> OnEntry(cs) && Flat(cs, 0) == [this_] + Remaining(cs)
    {
      hide Pow2, Linked, Flat, Distinct;
      index := 0;
      this_ := null;
      next := null;
      place := 0;
      assert Remaining(cs) == Flat(cs, 0);
      more := HashNext(cs);
    }

    // ----- Growing ---------------------------------------------------------

    /** Relinks the current entry at the front of its new bucket. */
    method Relink(heads: array<Entry?<V>>, i: nat, ghost ns: seq<seq<Entry<V>>>, ghost cs: seq<seq<Entry<V>>>)
      requires Iterating(cs) && this_ != null && this_ !in Remaining(cs)
      requires heads != buckets && heads.Length == |ns| && i < |ns|
      requires forall b :: 0 <= b < |ns| ==> this_ !in ns[b] && Linked(ns[b], heads[b])
      modifies heads, this_`next
      ensures Iterating(cs)
      ensures forall b :: 0 <= b < |ns| ==> Linked(ns[i := [this_] + ns[i]][b], heads[b])
    {
      hide Pow2, Filing, Flat, And, Distinct;
      NotAhead(cs, this_);
      this_.next := heads[i];
      heads[i] := this_;
    }

    /** An entry that is not still to be visited is on none of the chains ahead. */
    lemma NotAhead(cs: seq<seq<Entry<V>>>, e: Entry<V>)
      requires Iterating(cs) && e !in Remaining(cs)
      ensures index > 0 ==> e !in cs[index - 1][place..]
      ensures forall b :: index <= b < |cs| ==> e !in cs[b]
    {
      FlatMember(cs, index, e);
      hide Flat;
      ConcatMember(Current(cs), Flat(cs, index), e);
    }

    /** One turn of the relinking loop. */
    method MoveCurrent(newArray: array<Entry?<V>>, newMax: nat, ghost ns: seq<seq<Entry<V>>>, ghost done: seq<Entry<V>>,
                       ghost cs: seq<seq<Entry<V>>>)
        returns (more: bool, ghost ns': seq<seq<Entry<V>>>)
      requires Iterating(cs) && this_ != null && this_ !in Remaining(cs) && this_ !in done
      requires newArray != buckets && newArray.Length == newMax + 1 && Moved(ns, done, newMax)
      requires forall b :: 0 <= b < |ns| ==> Linked(ns[b], newArray[b])
      modifies `this_, `next, `index, `place, newArray, this_`next
      ensures if more then OnEntry(cs) && old(Remaining(cs)) == [this_] + Remaining(cs) else old(Remaining(cs)) == []
      ensures Moved(ns', done + [old(this_)], newMax) && |ns'| == newArray.Length
      ensures forall b :: 0 <= b < |ns'| ==> Linked(ns'[b], newArray[b])
    {
      assert |ns| == newMax + 1;
      hide Pow2, Flat, Linked, Moved, Distinct, And, Remaining, Iterating;
      ghost var e: Entry<V> := this_;
      var i := And(this_.hash, newMax);
      MoveOne(ns, done, newMax, e);
      Relink(newArray, i, ns, cs);
      ns' := ns[i := [e] + ns[i]];
      more := HashNext(cs);
    }

    /** Moves every entry to a new array, iterating over the chains that this takes apart. */
    method Rehash(newMax: nat) returns (newArray: array<Entry?<V>>, ghost ns: seq<seq<Entry<V>>>)
      requires Valid()
      modifies `this_, `next, `index, `place, Repr`next
      ensures fresh(newArray) && newArray.Length == |ns| == newMax + 1
      ensures forall b :: 0 <= b < |ns| ==> Linked(ns[b], newArray[b])
      ensures Moved(ns, Flat(chains, 0), newMax)
    {
      hide Pow2, Filing, Flat, Linked, Moved, And, AllOf, Remaining, Distinct;
      newArray := new Entry?<V>[newMax + 1](_ => null);
      ns := seq(newMax + 1, _ => []);
      NothingMoved(newMax, newArray[..], ns);
      FlatOfFiling(chains, entries, Repr, max, hashOf);
      ns := MoveAll(newArray, newMax, ns, chains);
    }

    /** The relinking loop: the chains `cs` are taken apart entry by entry, in iteration order. */
    method MoveAll(newArray: array<Entry?<V>>, newMax: nat, ghost ns0: seq<seq<Entry<V>>>, ghost cs: seq<seq<Entry<V>>>)
        returns (ghost ns: seq<seq<Entry<V>>>)
      requires Linking() && max + 1 == |chains| && cs == chains && Distinct(Flat(cs, 0))
      requires newArray != buckets && newArray.Length == newMax + 1 == |ns0|
      requires Moved(ns0, [], newMax) && forall b :: 0 <= b < |ns0| ==> Linked(ns0[b], newArray[b])
      modifies `this_, `next, `index, `place, newArray, (set e | e in Flat(cs, 0))`next
      ensures |ns| == newMax + 1 && forall b :: 0 <= b < |ns| ==> Linked(ns[b], newArray[b])
      ensures Moved(ns, Flat(cs, 0), newMax)
    {
      hide Pow2, Filing, Flat, Linked, Moved, And, AllOf, Remaining, Distinct, Linking;
      ghost var all, done: seq<Entry<V>> := Flat(cs, 0), [];
      ns := ns0;
      var more := HashFirst(cs);
      while more
        invariant if more then OnEntry(cs) && all == done + ([this_] + Remaining(cs)) else all == done
        invariant |ns| == newMax + 1 && forall b :: 0 <= b < |ns| ==> Linked(ns[b], newArray[b])
        invariant Moved(ns, done, newMax)
        decreases |all| - |done|
      {
        ghost var e: Entry<V> := this_;
        DistinctMiddle(all, done, e, Remaining(cs));
        more, ns := MoveCurrent(newArray, newMax, ns, done, cs);
        done := done + [e];
      }
    }

    /** Doubles the number of buckets; every entry object is kept and moved once. */
    method ExpandArray()
      requires Valid()
      modifies `this_, `next, `index, `place, `buckets, `max, `bits, `chains, Repr`next
      ensures Valid() && fresh(buckets) && max == 2 * old(max) + 1
    {
      hide Filing, Flat, Linked, Moved, Pow2, Distinct, And, Remaining, Linking;
      var newMax := max * 2 + 1;
      ghost var cs := chains;
      Doubled(bits);
      var newArray, ns := Rehash(newMax);
      FilingAfterMove(cs, ns, entries, Repr, max, newMax, hashOf);
      Install(newArray, newMax, ns);
    }

    /** Puts the new array in place of the old one. */
    method Install(newArray: array<Entry?<V>>, newMax: nat, ghost ns: seq<seq<Entry<V>>>)
      requires newArray.Length == |ns| && forall b :: 0 <= b < |ns| ==> Linked(ns[b], newArray[b])
      modifies `buckets, `max, `bits, `chains
      ensures Linking() && buckets == newArray && max == newMax && bits == old(bits) + 1 && chains == ns
    {
      hide Linked;
      buckets := newArray;
      max := newMax;
      bits := bits + 1;
      chains := ns;
    }

    // ----- Map operations --------------------------------------------------

    method HashGet(key: octets) returns (r: Option<V>)
      requires Valid()
      ensures r == if key in Contents() then Some(Contents()[key]) else None
    {
      hide Pow2, Filing, And, Linking, Contents, Distinct;
      ContentsNow();
      var hep, _ := Scan(key);
      var he := Deref(hep);
      r := if he != null then Some(he.val) else None;
    }

    lemma EntriesApart(key: octets)
      requires Valid() && key in entries
      ensures entries[key] in Repr && forall k :: k in entries && k != key ==> entries[k] != entries[key]
    {
    }

    lemma ContentsNow()
      requires Valid()
      ensures Contents().Keys == entries.Keys && forall k :: k in entries ==> Contents()[k] == entries[k].val
    {
    }

    lemma CountIs()
      requires Valid()
      ensures count == |entries|
    {
    }

    lemma ContentsAre(m: map<octets, V>)
      requires Valid() && m.Keys == entries.Keys && forall k :: k in m ==> m[k] == entries[k].val
      ensures Contents() == m
    {
    }

    /** Replaces the value of an entry, then grows the table if it is too full. */
    method Replace(key: octets, val: V, he: Entry<V>)
      requires Valid() && count <= max + 1 && key in entries && entries[key] == he
      modifies this, buckets, Repr
      ensures Valid() && count <= max && Repr == old(Repr) && (buckets == old(buckets) || fresh(buckets))
      ensures Contents() == old(Contents())[key := val]
      ensures max == if old(count) > old(max) then 2 * old(max) + 1 else old(max)
      ensures entries == old(entries)
    {
      hide Pow2, Filing, And, Linked, Moved, Contents, Distinct;
      ContentsNow();
      ghost var m := Contents()[key := val];
      EntriesApart(key);
      he.val := val;
      if count > max {
        ExpandArray();
      }
      ContentsAre(m);
    }

    /** The deleting half of `HashSet`. */
    method Delete(key: octets) returns (ghost pos: nat)
      requires Valid()
      modifies `count, `chains, `entries, `Repr, buckets, Repr`next
      ensures Valid() && entries == old(entries) - {key} && Repr <= old(Repr)
      ensures key !in old(entries) ==> chains == old(chains)
      ensures key in old(entries) ==>
        && PointsAtEntry(old(chains), old(Bucket(key)), pos, old(entries[key]))
        && chains == old(chains)[old(Bucket(key)) := Without(old(chains[Bucket(key)]), pos)]
    {
      hide Pow2, Filing, And, Linked, Linking, Distinct;
      var hep;
      hep, pos := Scan(key);
      if Deref(hep) != null {
        Unlink(hep, pos, key);
      } else {
        assert entries - {key} == entries;
      }
    }

    /** The storing half of `HashSet`. */
    method Put(key: octets, val: V)
      requires Valid() && count <= max
      modifies this, buckets, Repr
      ensures Valid() && count <= max && fresh(Repr - old(Repr)) && (buckets == old(buckets) || fresh(buckets))
      ensures Contents() == old(Contents())[key := val]
      ensures max == if |entries| > old(max) then 2 * old(max) + 1 else old(max)
    {
      hide Pow2, Filing, And, Linked, Linking, Contents, Distinct, PointsAt, Deref, At, Bucket, Valid;
      ContentsNow();
      CountIs();
      ghost var m := Contents();
      var hep, _ := FindEntry(key, Some(val));
      ContentsNow();
      CountIs();
      StoredTwice(m, Contents(), key, val);
      Replace(key, val, Deref(hep));
    }

    /** Stores a value under a key, or deletes the key when there is no value. */
    method HashSet(key: octets, val: Option<V>) returns (ghost pos: nat)
      requires Valid() && count <= max
      modifies this, buckets, Repr
      ensures Valid() && count <= max && fresh(Repr - old(Repr)) && (buckets == old(buckets) || fresh(buckets))
      ensures Contents() == if val.None? then old(Contents()) - {key} else old(Contents())[key := val.value]
      ensures val.Some? ==> max == if |entries| > old(max) then 2 * old(max) + 1 else old(max)
      ensures val.None? ==>
        && entries == old(entries) - {key} && Repr <= old(Repr)
        && unchanged(`buckets, `max, `this_, `next, `index, `place)
      ensures val.None? && key !in old(entries) ==> chains == old(chains)
      ensures val.None? && key in old(entries) ==>
        && PointsAtEntry(old(chains), old(Bucket(key)), pos, old(entries[key]))
        && chains == old(chains)[old(Bucket(key)) := Without(old(chains[Bucket(key)]), pos)]
    {
      hide Pow2, Filing, And, Linked, Linking, Contents, Distinct;
      if val.None? {
        ghost var m := Contents() - {key};
        ContentsNow();
        pos := Delete(key);
        ContentsAre(m);
      } else {
        Put(key, val.value);
        pos := 0;
      }
    }

    static ghost predicate PointsAtEntry(cs: seq<seq<Entry<V>>>, b: nat, pos: nat, e: Entry<V>) {
      b < |cs| && pos < |cs[b]| && cs[b][pos] == e
    }

    /** The value under the key, after storing `val` there if the key is new. */
    method HashGetOrSet(key: octets, val: Option<V>) returns (r: Option<V>)
      requires Valid() && count <= max
      modifies this, buckets, Repr
      ensures Valid() && count <= max && fresh(Repr - old(Repr)) && (buckets == old(buckets) || fresh(buckets))
      ensures r == if key in old(Contents()) then Some(old(Contents())[key]) else val
      ensures Contents() ==
        if key in old(Contents()) || val.None? then old(Contents()) else old(Contents())[key := val.value]
      ensures max == if |entries| > old(max) then 2 * old(max) + 1 else old(max)
    {
      hide Pow2, Filing, And, Linked, Linking, Moved, Contents, Distinct, PointsAt, At, Bucket;
      ContentsNow();
      ghost var m := if key in Contents() || val.None? then Contents() else Contents()[key := val.value];
      var hep, _ := FindEntry(key, val);
      var he := Deref(hep);
      r := None;
      if he != null {
        r := Some(he.val);
        if count > max {
          ExpandArray();
        }
      }
      ContentsAre(m);
    }

    // ----- Deleting while iterating ----------------------------------------

    lemma CurrentFiled(b: nat, i: nat, e: Entry<V>)
      requires Valid() && PointsAtEntry(chains, b, i, e)
      ensures e.key in entries && entries[e.key] == e && e in Repr && Bucket(e.key) == b && Distinct(chains[b])
    {
    }

    /** With the current entry gone from its chain, the iterator stands before the entry behind it. */
    lemma Resume(cs: seq<seq<Entry<V>>>)
      requires Linking() && max + 1 == |chains| == |cs| && 0 < index <= |cs| && place < |cs[index - 1]|
      requires chains == cs[index - 1 := Without(cs[index - 1], place)] && next == At(cs[index - 1], place + 1)
      ensures Iterating(chains) && Remaining(chains) == cs[index - 1][place + 1..] + Flat(cs, index)
    {
      hide Pow2, Filing, And, Linked, Flat, Distinct;
      FlatFrom(cs, chains, index);
      assert chains[index - 1][place..] == cs[index - 1][place + 1..];
      LinkedFrom(chains[index - 1], buckets[index - 1], place);
      BehindGone(cs[index - 1], place);
    }

    static lemma BehindGone(c: seq<Entry<V>>, i: nat)
      requires i < |c|
      ensures At(Without(c, i), i) == At(c, i + 1)
    {
    }

    lemma NextBehind(cs: seq<seq<Entry<V>>>)
      requires OnEntry(cs)
      ensures next == At(cs[index - 1], place)
    {
    }

    lemma RemainingIs(cs: seq<seq<Entry<V>>>)
      requires 0 < index <= |cs| && place <= |cs[index - 1]|
      ensures Remaining(cs) == cs[index - 1][place..] + Flat(cs, index)
    {
      hide Flat;
    }

    /** Deletes the entry that the iterator stands on. */
    method DeleteCurrent()
      requires Valid() && count <= max && OnEntry(chains)
      modifies this, buckets, Repr
      ensures Valid() && count <= max && buckets == old(buckets)
      ensures Repr <= old(Repr) && entries == old(entries) - {old(this_.key)}
      ensures Contents() == old(Contents()) - {old(this_.key)}
      ensures Iterating(chains) && Remaining(chains) == old(Remaining(chains))
    {
      hide Pow2, Filing, And, Linked, Linking, Contents, Flat, Distinct, Without, At, Iterating, Bucket, Remaining;
      ghost var cs := chains;
      NextBehind(cs);
      RemainingIs(cs);
      CurrentFiled(index - 1, place - 1, this_);
      var pos := HashSet(this_.key, None);
      SamePlace(cs[index - 1], pos, place - 1);
      place := place - 1;
      Resume(cs);
    }

    static lemma SamePlace(c: seq<Entry<V>>, i: nat, j: nat)
      requires Distinct(c) && i < |c| && j < |c| && c[i] == c[j]
      ensures i == j
    {
    }

    lemma Unvisited()
      requires Valid()
      ensures Distinct(Flat(chains, 0)) && AllOf(entries, Flat(chains, 0))
    {
      FlatOfFiling(chains, entries, Repr, max, hashOf);
    }

    /** Deletes the current entry if it is selected. */
    method DeleteSelected(sel: V -> bool)
      requires Valid() && count <= max && OnEntry(chains)
      modifies this, buckets, Repr
      ensures Valid() && count <= max && buckets == old(buckets) && Repr <= old(Repr)
      ensures old(this_.key) in old(Contents()) && old(entries)[old(this_.key)] == old(this_)
      ensures if sel(old(Contents())[old(this_.key)])
        then Contents() == old(Contents()) - {old(this_.key)} && entries == old(entries) - {old(this_.key)}
        else Contents() == old(Contents()) && entries == old(entries)
      ensures Iterating(chains) && Remaining(chains) == old(Remaining(chains))
    {
      hide Pow2, Filing, And, Linked, Linking, Contents, Flat, Remaining, Distinct;
      CurrentFiled(index - 1, place - 1, this_);
      ContentsNow();
      if sel(this_.val) {
        DeleteCurrent();
      }
    }

    /** One turn of the visiting loop. */
    method VisitCurrent(sel: V -> bool) returns (more: bool)
      requires Valid() && count <= max && OnEntry(chains)
      modifies this, buckets, Repr
      ensures Valid() && count <= max && buckets == old(buckets) && Repr <= old(Repr)
      ensures old(this_.key) in old(Contents()) && old(entries)[old(this_.key)] == old(this_)
      ensures if sel(old(Contents())[old(this_.key)])
        then Contents() == old(Contents()) - {old(this_.key)} && entries == old(entries) - {old(this_.key)}
        else Contents() == old(Contents()) && entries == old(entries)
      ensures if more then OnEntry(chains) && old(Remaining(chains)) == [this_] + Remaining(chains)
              else old(Remaining(chains)) == []
    {
      hide Pow2, Filing, And, Linked, Linking, Contents, Flat, Remaining, Distinct, Iterating;
      DeleteSelected(sel);
      more := HashNext(chains);
    }

    /** Visits each entry once, in iteration order, and deletes the selected ones on the way. */
    method RemoveWhere(sel: V -> bool) returns (ghost visited: seq<Entry<V>>)
      requires Valid() && count <= max
      modifies this, buckets, Repr
      ensures Valid() && count <= max && buckets == old(buckets) && Repr <= old(Repr)
      ensures Distinct(visited) && AllOf(old(entries), visited)
      ensures Contents() == map k | k in old(Contents()) && !sel(old(Contents())[k]) :: old(Contents())[k]
    {
      hide Pow2, Filing, And, Linked, Linking, Contents, Flat, Kept, AllOf, Iterating, Distinct;
      ghost var m, es, all := Contents(), entries, Flat(chains, 0);
      Unvisited();
      ContentsNow();
      KeptStart(m, es, sel);
      visited := [];
      var more := HashFirst(chains);
      while more
        invariant Valid() && count <= max && buckets == old(buckets) && Repr <= old(Repr)
        invariant if more then OnEntry(chains) && all == visited + ([this_] + Remaining(chains)) else all == visited
        invariant Kept(m, es, Contents(), visited, sel)
        invariant forall k :: k in entries ==> k in es && entries[k] == es[k]
        decreases |all| - |visited|
      {
        ghost var e: Entry<V>, c := this_, Contents();
        DistinctMiddle(all, visited, e, Remaining(chains));
        more := VisitCurrent(sel);
        KeptStep(m, es, c, visited, sel, e, all);
        visited := visited + [e];
      }
      KeptEnd(m, es, Contents(), visited, sel);
    }

    method HashClear()
      requires Valid() && count <= max
      modifies this, buckets, Repr
      ensures Valid() && Contents() == map[] && count == 0
    {
      var _ := RemoveWhere(_ => true);
      ContentsNow();
      assert entries == map[];
    }
  }
}
