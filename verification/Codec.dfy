/**
 * The PFCP type-length-value codec: a recursive parser and builder driven by a
 * schema.  An information element is a leaf, holding octets, or a group with an
 * ordered sequence of slots (sections 8.1.1 and 7.2.2 of 3GPP TS 29.244).
 */
module Codec {
  import opened Prelude

  /** One entry of the description table, with the entries its `next` array names inlined. */
  datatype Ie = Leaf(tag: u16) | Group(tag: u16, slots: seq<Ie>)

  /** What a slot of a message structure holds; `Absent` is a zero presence word. */
  datatype Value = Absent | Octets(bytes: octets) | Children(values: seq<Value>)

  datatype Parsed = Parsed(values: seq<Value>, used: nat)

  // ----- Specification of the parser ---------------------------------------

  function AllAbsent(n: nat): (vs: seq<Value>)
    ensures |vs| == n
    ensures forall i :: 0 <= i < n ==> vs[i] == Absent
  {
    seq(n, _ => Absent)
  }

  /** `r`, with `vs` parsed before it from the preceding `used` octets. */
  function After(vs: seq<Value>, used: nat, r: Option<Parsed>): Option<Parsed> {
    match r
    case None => None
    case Some(p) => Some(Parsed(vs + p.values, used + p.used))
  }

  /**
   * What the parser makes of `len` octets at the start of `mem` for the given slots.
   * `mem` is all the memory there is: the parser compares its offset with `len` only
   * between slots, so a header or a length may carry it past `len`.  `None` is a read
   * past the end of `mem`.
   */
  function ParseSlots(slots: seq<Ie>, mem: octets, len: int): Option<Parsed>
    decreases slots
  {
    if slots == [] || len <= 0 then
      Some(Parsed(AllAbsent(|slots|), 0))
    else if |mem| < 4 then
      None
    else if GetU16(mem) != slots[0].tag then
      After([Absent], 0, ParseSlots(slots[1..], mem, len))
    else
      var length := GetU16(mem[2..]);
      match ParseIe(slots[0], mem[4..], length)
      case None => None
      case Some(v) => After([v], 4 + length, ParseSlots(slots[1..], Drop(mem, 4 + length), len - (4 + length)))
  }

  /** The value of one element whose body of the given length starts `mem`. */
  function ParseIe(ie: Ie, mem: octets, length: u16): Option<Value>
    decreases ie
  {
    match ie
    case Leaf(_) =>
      if |mem| < length then None else Some(Octets(mem[..length]))
    case Group(_, slots) =>
      match ParseSlots(slots, mem, length)
      case None => None
      case Some(p) => Some(Children(p.values))
  }

  // ----- Specification of the builder --------------------------------------

  /** `vs` fits the message structure that the slots describe. */
  predicate Conforms(slots: seq<Ie>, vs: seq<Value>)
    decreases slots
  {
    |slots| == |vs| && forall i :: 0 <= i < |slots| ==> ConformsIe(slots[i], vs[i])
  }

  predicate ConformsIe(ie: Ie, v: Value)
    decreases ie
  {
    match v
    case Absent => true
    case Octets(bytes) => ie.Leaf? && |bytes| < 0x1_0000
    case Children(vs) => ie.Group? && Conforms(ie.slots, vs)
  }

  function BuildSlots(slots: seq<Ie>, vs: seq<Value>): octets
    requires Conforms(slots, vs)
    decreases slots
  {
    if slots == [] then [] else BuildIe(slots[0], vs[0]) + BuildSlots(slots[1..], vs[1..])
  }

  /** The length of a group is stored in 16 bits, so it is reduced modulo 65536. */
  function BuildIe(ie: Ie, v: Value): octets
    requires ConformsIe(ie, v)
    decreases ie
  {
    match v
    case Absent => []
    case Octets(bytes) => PutU16(ie.tag) + PutU16(|bytes|) + bytes
    case Children(vs) =>
      var body := BuildSlots(ie.slots, vs);
      PutU16(ie.tag) + PutU16(|body| % 0x1_0000) + body
  }

  // ----- The two loops -----------------------------------------------------

  lemma AfterAfter(vs: seq<Value>, n: nat, ws: seq<Value>, m: nat, r: Option<Parsed>)
    ensures After(vs, n, After(ws, m, r)) == After(vs + ws, n + m, r)
  {
    if r.Some? {
      assert vs + (ws + r.value.values) == (vs + ws) + r.value.values;
    }
  }

  lemma AfterNothing(r: Option<Parsed>)
    ensures After([], 0, r) == r
  {
    if r.Some? {
      assert [] + r.value.values == r.value.values;
    }
  }

  /** One turn of the loop: the next slot takes the value `v`, of the given encoded size. */
  lemma ParseStep(slots: seq<Ie>, mem: octets, len: int, v: Value, used: nat)
    requires slots != [] && len > 0 && |mem| >= 4
    requires if GetU16(mem) != slots[0].tag then v == Absent && used == 0
             else ParseIe(slots[0], mem[4..], GetU16(mem[2..])) == Some(v) && used == 4 + GetU16(mem[2..]) as int
    ensures ParseSlots(slots, mem, len) == After([v], used, ParseSlots(slots[1..], Drop(mem, used), len - used))
  {
  }

  lemma ParseEnds(slots: seq<Ie>, mem: octets, len: int)
    requires slots == [] || len <= 0
    ensures ParseSlots(slots, mem, len) == Some(Parsed(AllAbsent(|slots|), 0))
  {
  }

  /** The header, or the value of a matching slot, lies past the end of memory. */
  lemma ParseStuck(slots: seq<Ie>, mem: octets, len: int)
    requires slots != [] && len > 0
    requires |mem| < 4 || (GetU16(mem) == slots[0].tag && ParseIe(slots[0], mem[4..], GetU16(mem[2..])) == None)
    ensures ParseSlots(slots, mem, len) == None
  {
  }

  lemma ParseAdvance(slots: seq<Ie>, mem: octets, len: int, vs: seq<Value>, off: nat, i: nat, v: Value, used: nat)
    requires i < |slots|
    requires var here := Drop(mem, off);
      && ParseSlots(slots, mem, len) == After(vs, off, ParseSlots(slots[i..], here, len - off))
      && ParseSlots(slots[i..], here, len - off)
         == After([v], used, ParseSlots(slots[i..][1..], Drop(here, used), len - off - used))
    ensures ParseSlots(slots, mem, len)
         == After(vs + [v], off + used, ParseSlots(slots[i + 1..], Drop(mem, off + used), len - (off + used)))
  {
    hide ParseSlots;
    assert slots[i..][1..] == slots[i + 1..];
    assert Drop(Drop(mem, off), used) == Drop(mem, off + used);
    AfterAfter(vs, off, [v], used, ParseSlots(slots[i + 1..], Drop(mem, off + used), len - (off + used)));
  }

  method TlvParseMessage(slots: seq<Ie>, mem: octets, buffLen: int) returns (r: Option<Parsed>)
    ensures r == ParseSlots(slots, mem, buffLen)
    decreases slots
  {
    hide ParseSlots;
    var msg: seq<Value> := [];
    var buffOffset: nat := 0;
    var idx := 0;
    AfterNothing(ParseSlots(slots, mem, buffLen));
    while idx < |slots| && buffOffset < buffLen
      invariant 0 <= idx <= |slots| && |msg| == idx
      invariant ParseSlots(slots, mem, buffLen)
             == After(msg, buffOffset, ParseSlots(slots[idx..], Drop(mem, buffOffset), buffLen - buffOffset))
    {
      ghost var rest, left := slots[idx..], buffLen - buffOffset;
      var here := Drop(mem, buffOffset);
      if |here| < 4 {
        ParseStuck(rest, here, left);
        return None;
      }
      var v, used := Absent, 0;
      if GetU16(here) == slots[idx].tag {
        var length := GetU16(here[2..]);
        var body := here[4..];
        match slots[idx] {
          case Leaf(_) =>
            if |body| < length {
              ParseStuck(rest, here, left);
              return None;
            }
            v := Octets(body[..length]);
          case Group(_, inner) =>
            var sub := TlvParseMessage(inner, body, length);
            if sub.None? {
              ParseStuck(rest, here, left);
              return None;
            }
            v := Children(sub.value.values);
        }
        used := 4 + length as int;
      }
      ParseStep(rest, here, left, v, used);
      ParseAdvance(slots, mem, buffLen, msg, buffOffset, idx, v, used);
      msg := msg + [v];
      buffOffset := buffOffset + used;
      idx := idx + 1;
    }
    ParseEnds(slots[idx..], Drop(mem, buffOffset), buffLen - buffOffset);
    r := Some(Parsed(msg + AllAbsent(|slots| - idx), buffOffset));
  }

  lemma {:induction false} BuildSplit(slots: seq<Ie>, vs: seq<Value>, i: nat)
    requires Conforms(slots, vs) && i < |slots|
    ensures BuildSlots(slots[..i + 1], vs[..i + 1]) == BuildSlots(slots[..i], vs[..i]) + BuildIe(slots[i], vs[i])
    decreases i
  {
    hide BuildIe, ConformsIe;
    if i == 0 {
      assert slots[..1][1..] == [] && vs[..1][1..] == [];
    } else {
      var a, c := BuildIe(slots[0], vs[0]), BuildIe(slots[i], vs[i]);
      var b := BuildSlots(slots[1..][..i - 1], vs[1..][..i - 1]);
      BuildSplit(slots[1..], vs[1..], i - 1);
      assert slots[..i + 1][1..] == slots[1..][..i] && vs[..i + 1][1..] == vs[1..][..i];
      assert slots[..i][1..] == slots[1..][..i - 1] && vs[..i][1..] == vs[1..][..i - 1];
      assert BuildSlots(slots[..i + 1], vs[..i + 1]) == a + (b + c);
      assert BuildSlots(slots[..i], vs[..i]) == a + b;
    }
  }

  method TlvBuildMessage(ie: Ie, v: Value) returns (buf: octets)
    requires ConformsIe(ie, v)
    ensures buf == BuildIe(ie, v)
    decreases ie
  {
    if v.Absent? {
      return [];
    }
    if ie.Leaf? {
      buf := PutU16(ie.tag) + PutU16(|v.bytes|) + v.bytes;
    } else {
      buf := PutU16(ie.tag) + PutU16(0);
      var bufOffset := 0;
      for idx := 0 to |ie.slots|
        invariant buf == PutU16(ie.tag) + PutU16(0) + BuildSlots(ie.slots[..idx], v.values[..idx])
        invariant bufOffset == |buf| - 4
      {
        var tmp := TlvBuildMessage(ie.slots[idx], v.values[idx]);
        BuildSplit(ie.slots, v.values, idx);
        bufOffset := bufOffset + |tmp|;
        buf := buf + tmp;
      }
      assert ie.slots[..|ie.slots|] == ie.slots && v.values[..|ie.slots|] == v.values;
      buf := buf[..2] + PutU16(bufOffset % 0x1_0000) + buf[4..];
    }
  }

  method PfcpBuildBody(slots: seq<Ie>, root: seq<Value>) returns (buf: octets)
    requires Conforms(slots, root)
    ensures buf == BuildSlots(slots, root)
  {
    buf := [];
    for idx := 0 to |slots|
      invariant buf == BuildSlots(slots[..idx], root[..idx])
    {
      var tmp := TlvBuildMessage(slots[idx], root[idx]);
      BuildSplit(slots, root, idx);
      buf := buf + tmp;
    }
    assert slots[..|slots|] == slots && root[..|slots|] == root;
  }

  // ----- Round trip --------------------------------------------------------

  /** The tag of the first present value: the tag that leads the built octets. */
  function FirstTag(slots: seq<Ie>, vs: seq<Value>): Option<u16>
    requires |slots| == |vs|
  {
    if slots == [] then None
    else if vs[0] != Absent then Some(slots[0].tag)
    else FirstTag(slots[1..], vs[1..])
  }

  /**
   * The values a greedy parser can produce: no absent slot is followed, after absent
   * slots only, by a present slot of the same type.
   */
  predicate Packed(slots: seq<Ie>, vs: seq<Value>)
    requires Conforms(slots, vs)
    decreases slots
  {
    slots == [] ||
    (&& (vs[0] == Absent ==> FirstTag(slots[1..], vs[1..]) != Some(slots[0].tag))
     && PackedIe(slots[0], vs[0])
     && Packed(slots[1..], vs[1..]))
  }

  predicate PackedIe(ie: Ie, v: Value)
    requires ConformsIe(ie, v)
    decreases ie
  {
    v.Children? ==> Packed(ie.slots, v.values)
  }

  /** The body of every group fits the 16-bit length field. */
  predicate Fits(slots: seq<Ie>, vs: seq<Value>)
    requires Conforms(slots, vs)
    decreases slots
  {
    forall i :: 0 <= i < |slots| ==> FitsIe(slots[i], vs[i])
  }

  predicate FitsIe(ie: Ie, v: Value)
    requires ConformsIe(ie, v)
    decreases ie
  {
    v.Children? ==> Fits(ie.slots, v.values) && |BuildSlots(ie.slots, v.values)| < 0x1_0000
  }

  lemma {:induction false} BuildLeadsWithFirstTag(slots: seq<Ie>, vs: seq<Value>)
    requires Conforms(slots, vs)
    ensures var b := BuildSlots(slots, vs);
      match FirstTag(slots, vs)
      case None => b == [] && vs == AllAbsent(|slots|)
      case Some(tag) => |b| >= 4 && GetU16(b) == tag
  {
    if slots != [] {
      BuildLeadsWithFirstTag(slots[1..], vs[1..]);
      assert vs == [vs[0]] + vs[1..];
    }
  }

  /** What the parser reads at the start of one encoded element. */
  lemma ReadElement(tag: u16, body: octets, tail: octets)
    requires |body| < 0x1_0000
    ensures var mem := PutU16(tag) + PutU16(|body|) + body + tail;
      && |mem| >= 4 && GetU16(mem) == tag && GetU16(mem[2..]) == |body|
      && mem[4..] == body + tail && Drop(mem, 4 + |body|) == tail
  {
    var mem := PutU16(tag) + PutU16(|body|) + body + tail;
    assert mem[2..][..2] == PutU16(|body|);
    assert mem[4..] == body + tail;
    assert Drop(mem, 4 + |body|) == tail;
  }

  /** The first slot and the rest, for everything that is said slot by slot. */
  lemma FirstSlot(slots: seq<Ie>, vs: seq<Value>)
    requires Conforms(slots, vs) && slots != []
    ensures ConformsIe(slots[0], vs[0]) && Conforms(slots[1..], vs[1..])
    ensures BuildSlots(slots, vs) == BuildIe(slots[0], vs[0]) + BuildSlots(slots[1..], vs[1..])
    ensures Fits(slots, vs) ==> FitsIe(slots[0], vs[0]) && Fits(slots[1..], vs[1..])
    ensures vs[0] == Absent ==> BuildIe(slots[0], vs[0]) == []
    ensures Packed(slots, vs) ==> PackedIe(slots[0], vs[0]) && Packed(slots[1..], vs[1..])
    ensures Packed(slots, vs) && vs[0] == Absent ==> FirstTag(slots[1..], vs[1..]) != Some(slots[0].tag)
  {
  }

  lemma AddFirst(v: Value, rest: seq<Value>, used: nat, n: nat)
    ensures After([v], used, Some(Parsed(rest, n))) == Some(Parsed([v] + rest, used + n))
  {
  }

  lemma FirstAndRest<T>(s: seq<T>)
    requires s != []
    ensures [s[0]] + s[1..] == s
  {
  }

  lemma ReadAhead(b: octets, rest: octets)
    ensures |b| >= 2 ==> GetU16(b + rest) == GetU16(b)
    ensures b == [] ==> b + rest == rest
    ensures [] + b == b && Drop(b + rest, 0) == b + rest
  {
  }

  /** Parsing what was built gives back the values, whatever follows in memory. */
  lemma {:induction false} ParseOfBuild(slots: seq<Ie>, vs: seq<Value>, rest: octets)
    requires Conforms(slots, vs) && Fits(slots, vs) && Packed(slots, vs)
    ensures var b := BuildSlots(slots, vs); ParseSlots(slots, b + rest, |b|) == Some(Parsed(vs, |b|))
    decreases slots
  {
    hide ParseSlots, ParseIe, BuildSlots, BuildIe, Conforms, ConformsIe, Fits, FitsIe, Packed, PackedIe, After,
         FirstTag, GetU16, Drop;
    var b := BuildSlots(slots, vs);
    BuildLeadsWithFirstTag(slots, vs);
    ConformsCount(slots, vs);
    if slots == [] || b == [] {
      NothingBuilt(slots, vs);
      ParseEnds(slots, b + rest, |b|);
    } else {
      FirstSlot(slots, vs);
      var tail := BuildSlots(slots[1..], vs[1..]);
      FirstAndRest(vs);
      ReadAhead(b, rest);
      ReadAhead(tail, rest);
      ParseOfBuild(slots[1..], vs[1..], rest);
      if vs[0] == Absent {
        BuildLeadsWithFirstTag(slots[1..], vs[1..]);
        ConformsCount(slots[1..], vs[1..]);
        ParseStep(slots, b + rest, |b|, Absent, 0);
        AddFirst(Absent, vs[1..], 0, |tail|);
      } else {
        var first := BuildIe(slots[0], vs[0]);
        Associate(first, tail, rest);
        ParseOfBuiltElement(slots[0], vs[0], tail + rest);
        ParseStep(slots, b + rest, |b|, vs[0], |first|);
        AddFirst(vs[0], vs[1..], |first|, |tail|);
      }
    }
  }

  lemma ConformsCount(slots: seq<Ie>, vs: seq<Value>)
    requires Conforms(slots, vs)
    ensures |slots| == |vs|
  {
  }

  /** Nothing is built only from absent values. */
  lemma NothingBuilt(slots: seq<Ie>, vs: seq<Value>)
    requires Conforms(slots, vs) && (slots == [] || BuildSlots(slots, vs) == [])
    ensures vs == AllAbsent(|slots|) && BuildSlots(slots, vs) == []
  {
    BuildLeadsWithFirstTag(slots, vs);
  }

  lemma {:induction false} ParseOfBuiltElement(ie: Ie, v: Value, tail: octets)
    requires ConformsIe(ie, v) && FitsIe(ie, v) && PackedIe(ie, v) && v != Absent
    ensures var mem := BuildIe(ie, v) + tail;
      && |BuildIe(ie, v)| >= 4 && GetU16(mem) == ie.tag
      && var length := GetU16(mem[2..]);
      && 4 + length == |BuildIe(ie, v)|
      && ParseIe(ie, mem[4..], length) == Some(v)
      && Drop(mem, 4 + length) == tail
    decreases ie
  {
    if v.Octets? {
      ReadElement(ie.tag, v.bytes, tail);
      assert (v.bytes + tail)[..|v.bytes|] == v.bytes;
    } else {
      var body := BuildSlots(ie.slots, v.values);
      ReadElement(ie.tag, body, tail);
      ParseOfBuild(ie.slots, v.values, tail);
    }
  }

  /** Every parse result conforms to the slots and is packed, whatever the octets. */
  lemma {:induction false} ParseIsPacked(slots: seq<Ie>, mem: octets, len: int)
    requires ParseSlots(slots, mem, len).Some?
    ensures var vs := ParseSlots(slots, mem, len).value.values;
      && Conforms(slots, vs) && Packed(slots, vs)
      && match FirstTag(slots, vs)
         case None => true
         case Some(tag) => len > 0 && |mem| >= 4 && tag == GetU16(mem)
    decreases slots
  {
    var vs := ParseSlots(slots, mem, len).value.values;
    if slots == [] {
    } else if len <= 0 {
      AllAbsentIsPacked(slots);
    } else if GetU16(mem) != slots[0].tag {
      ParseIsPacked(slots[1..], mem, len);
      assert vs[1..] == ParseSlots(slots[1..], mem, len).value.values;
    } else {
      var length: int := GetU16(mem[2..]);
      var next := Drop(mem, 4 + length);
      ParseIsPacked(slots[1..], next, len - (4 + length));
      assert vs[1..] == ParseSlots(slots[1..], next, len - (4 + length)).value.values;
      if slots[0].Group? {
        ParseIsPacked(slots[0].slots, mem[4..], length);
      }
      assert PackedIe(slots[0], vs[0]);
    }
  }

  lemma {:induction false} AllAbsentIsPacked(slots: seq<Ie>)
    ensures Conforms(slots, AllAbsent(|slots|)) && Packed(slots, AllAbsent(|slots|))
    ensures FirstTag(slots, AllAbsent(|slots|)) == None
  {
    if slots != [] {
      AllAbsentIsPacked(slots[1..]);
      assert AllAbsent(|slots|)[1..] == AllAbsent(|slots[1..]|);
    }
  }

  /** The round trip succeeds exactly on packed values. */
  lemma RoundTrip(slots: seq<Ie>, vs: seq<Value>, rest: octets)
    requires Conforms(slots, vs) && Fits(slots, vs)
    ensures var b := BuildSlots(slots, vs);
      ParseSlots(slots, b + rest, |b|) == Some(Parsed(vs, |b|)) <==> Packed(slots, vs)
  {
    var b := BuildSlots(slots, vs);
    if Packed(slots, vs) {
      ParseOfBuild(slots, vs, rest);
    } else if ParseSlots(slots, b + rest, |b|).Some? {
      ParseIsPacked(slots, b + rest, |b|);
    }
  }

  /** An absent slot before a present one of its type: the value comes back in the wrong slot. */
  lemma ValueMovesForward()
    ensures var slots, vs := [Leaf(1), Leaf(1)], [Absent, Octets([7])];
      && Conforms(slots, vs) && Fits(slots, vs) && BuildSlots(slots, vs) == [0, 1, 0, 1, 7]
      && ParseSlots(slots, [0, 1, 0, 1, 7], 5) == Some(Parsed([Octets([7]), Absent], 5))
  {
    var b: octets := [0, 1, 0, 1, 7];
    assert BuildIe(Leaf(1), Octets([7])) == b;
    assert b[4..][..1] == [7] && AllAbsent(1) == [Absent];
    assert ParseIe(Leaf(1), b[4..], 1) == Some(Octets([7]));
    assert Drop(b, 5) == [] && [Leaf(1), Leaf(1)][1..] == [Leaf(1)];
    assert ParseSlots([Leaf(1)], [], 0) == Some(Parsed([Absent], 0));
    assert GetU16(b) == 1 && GetU16(b[2..]) == 1;
    assert [Octets([7])] + [Absent] == [Octets([7]), Absent];
    assert ParseSlots([Leaf(1), Leaf(1)], b, 5) == After([Octets([7])], 5, ParseSlots([Leaf(1)], [], 0));
  }

  // ----- Octets ------------------------------------------------------------

  /** An element: its type and the length of its body, high octet first, and the body. */
  lemma ElementLayout(ie: Ie, v: Value)
    requires ConformsIe(ie, v) && v != Absent
    ensures var b := BuildIe(ie, v);
      && |b| >= 4 && (b[0] as int) * 256 + b[1] == ie.tag
      && (b[2] as int) * 256 + b[3] == (|b| - 4) % 0x1_0000
      && b[4..] == if v.Octets? then v.bytes else BuildSlots(ie.slots, v.values)
  {
    var b := BuildIe(ie, v);
    hide BuildSlots;
    assert v.Octets? ==> b[4..] == v.bytes;
    assert v.Children? ==> b[4..] == BuildSlots(ie.slots, v.values);
  }

  /** A message cut short is never parsed: the parser runs into the end of memory. */
  lemma {:induction false} CutShort(slots: seq<Ie>, vs: seq<Value>, k: nat)
    requires Conforms(slots, vs) && Fits(slots, vs) && Packed(slots, vs) && k < |BuildSlots(slots, vs)|
    ensures var b := BuildSlots(slots, vs); ParseSlots(slots, b[..k], |b|) == None
    decreases slots
  {
    hide ParseSlots, ParseIe, BuildSlots, BuildIe, Conforms, ConformsIe, Fits, FitsIe, Packed, PackedIe, FirstTag,
         GetU16, Drop;
    var b := BuildSlots(slots, vs);
    NotEmpty(slots, vs);
    ConformsCount(slots, vs);
    FirstSlot(slots, vs);
    var tail := BuildSlots(slots[1..], vs[1..]);
    if k < 4 {
      ParseStuck(slots, b[..k], |b|);
    } else if vs[0] == Absent {
      BuildLeadsWithFirstTag(slots[1..], vs[1..]);
      ReadAhead(tail, []);
      ReadCut(tail, k);
      CutShort(slots[1..], vs[1..], k);
      ParseStep(slots, b[..k], |b|, Absent, 0);
    } else {
      CutElement(slots, vs, k);
    }
  }

  lemma NotEmpty(slots: seq<Ie>, vs: seq<Value>)
    requires Conforms(slots, vs) && BuildSlots(slots, vs) != []
    ensures slots != []
  {
  }

  lemma ReadCut(b: octets, k: nat)
    requires 4 <= k <= |b|
    ensures GetU16(b[..k]) == GetU16(b) && GetU16(b[..k][2..]) == GetU16(b[2..])
    ensures b[..k][4..] == b[4..k] && Drop(b[..k], 0) == b[..k]
  {
  }

  /** The cut lies in the first element or behind it. */
  lemma {:induction false} CutElement(slots: seq<Ie>, vs: seq<Value>, k: nat)
    requires Conforms(slots, vs) && Fits(slots, vs) && Packed(slots, vs) && 4 <= k < |BuildSlots(slots, vs)|
    requires slots != [] && |vs| == |slots| && vs[0] != Absent
    ensures var b := BuildSlots(slots, vs); ParseSlots(slots, b[..k], |b|) == None
    decreases slots, 0
  {
    hide ParseSlots, ParseIe, BuildSlots, BuildIe, Conforms, ConformsIe, Fits, FitsIe, Packed, PackedIe, FirstTag,
         GetU16, Drop;
    FirstSlot(slots, vs);
    var b, first := BuildSlots(slots, vs), BuildIe(slots[0], vs[0]);
    var tail := BuildSlots(slots[1..], vs[1..]);
    ReadCut(b, k);
    ParseOfBuiltElement(slots[0], vs[0], tail);
    if k < |first| {
      CutInside(slots[0], vs[0], k);
      assert b[..k] == first[..k];
      ParseStuck(slots, b[..k], |b|);
    } else {
      var cut := tail[..k - |first|];
      assert b[..k] == first + cut;
      ParseOfBuiltElement(slots[0], vs[0], cut);
      CutShort(slots[1..], vs[1..], k - |first|);
      ParseStep(slots, b[..k], |b|, vs[0], |first|);
    }
  }

  lemma {:induction false} CutInside(ie: Ie, v: Value, k: nat)
    requires ConformsIe(ie, v) && FitsIe(ie, v) && PackedIe(ie, v) && v != Absent && 4 <= k < |BuildIe(ie, v)|
    ensures var m := BuildIe(ie, v)[..k];
      GetU16(m) == ie.tag && ParseIe(ie, m[4..], GetU16(m[2..])) == None
    decreases ie
  {
    hide BuildSlots, ParseSlots, GetU16;
    var b := BuildIe(ie, v);
    assert b + [] == b;
    ParseOfBuiltElement(ie, v, []);
    ReadCut(b, k);
    if v.Octets? {
      assert |b[4..k]| < |v.bytes|;
    } else {
      var body := BuildSlots(ie.slots, v.values);
      assert b[4..k] == body[..k - 4];
      CutShort(ie.slots, v.values, k - 4);
    }
  }

  /** An element that claims more octets than its group has is read beyond the group. */
  lemma GroupOverrun()
    ensures ParseSlots([Group(1, [Leaf(2)])], [0, 1, 0, 4, 0, 2, 0, 1, 9], 8)
         == Some(Parsed([Children([Octets([9])])], 8))
  {
    var b: octets := [0, 1, 0, 4, 0, 2, 0, 1, 9];
    var inner := [Leaf(2)];
    assert b[4..] == [0, 2, 0, 1, 9] && b[4..][4..] == [9] && b[4..][4..][..1] == [9];
    assert ParseIe(Leaf(2), b[4..][4..], 1) == Some(Octets([9]));
    ParseStep(inner, b[4..], 4, Octets([9]), 5);
    ParseEnds([], Drop(b[4..], 5), -1);
    assert AllAbsent(0) == [] && inner[1..] == [] && [Octets([9])] + [] == [Octets([9])];
    assert ParseSlots(inner, b[4..], 4) == Some(Parsed([Octets([9])], 5));
    ParseStep([Group(1, inner)], b, 8, Children([Octets([9])]), 8);
    ParseEnds([], Drop(b, 8), 0);
    assert [Group(1, inner)][1..] == [];
    assert [Children([Octets([9])])] + [] == [Children([Octets([9])])];
  }

  // ----- Normal form -------------------------------------------------------

  /** Every element the parser meets lies inside the region it was given. */
  predicate Framed(slots: seq<Ie>, b: octets)
    decreases slots
  {
    slots == [] || b == [] ||
    (&& |b| >= 4
     && if GetU16(b) != slots[0].tag then Framed(slots[1..], b)
        else
          var length := GetU16(b[2..]);
          && 4 + length <= |b|
          && (slots[0].Group? ==> Framed(slots[0].slots, b[4..4 + length]))
          && Framed(slots[1..], b[4 + length..]))
  }

  /** The parser reaches the end of the region at every level. */
  predicate Consumed(slots: seq<Ie>, b: octets)
    requires Framed(slots, b)
    decreases slots
  {
    if slots == [] || b == [] then b == []
    else if GetU16(b) != slots[0].tag then Consumed(slots[1..], b)
    else
      var length := GetU16(b[2..]);
      && (slots[0].Group? ==> Consumed(slots[0].slots, b[4..4 + length]))
      && Consumed(slots[1..], b[4 + length..])
  }

  /**
   * On a framed region the parser reads nothing outside it, and building the result
   * gives at most as many octets, with equality exactly when all was consumed; then
   * the octets are the same.
   */
  ghost predicate FramedResult(slots: seq<Ie>, b: octets, r: Option<Parsed>)
    requires Framed(slots, b)
  {
    && r.Some? && r.value.used <= |b|
    && Conforms(slots, r.value.values) && Fits(slots, r.value.values)
    && var out := BuildSlots(slots, r.value.values);
    && |out| <= r.value.used
    && (Consumed(slots, b) <==> |out| == |b|)
    && (Consumed(slots, b) ==> out == b)
  }

  lemma {:induction false} FramedParse(slots: seq<Ie>, b: octets, rest: octets)
    requires Framed(slots, b)
    ensures FramedResult(slots, b, ParseSlots(slots, b + rest, |b|))
    decreases slots, 1
  {
    if slots == [] || b == [] {
      AllAbsentIsPacked(slots);
      BuildLeadsWithFirstTag(slots, AllAbsent(|slots|));
    } else {
      FramedStep(slots, b, rest);
    }
  }

  /** What is built from packed values is framed and consumed. */
  lemma BuiltIsFramed(slots: seq<Ie>, vs: seq<Value>)
    requires Conforms(slots, vs) && Fits(slots, vs) && Packed(slots, vs)
    ensures var b := BuildSlots(slots, vs); Framed(slots, b) && Consumed(slots, b)
  {
    var b := BuildSlots(slots, vs);
    BuiltFrame(slots, vs);
    FramedParse(slots, b, []);
    ParseOfBuild(slots, vs, []);
  }

  lemma {:induction false} BuiltFrame(slots: seq<Ie>, vs: seq<Value>)
    requires Conforms(slots, vs) && Fits(slots, vs) && Packed(slots, vs)
    ensures Framed(slots, BuildSlots(slots, vs))
    decreases slots
  {
    hide ParseSlots, ParseIe, BuildSlots, BuildIe, Conforms, ConformsIe, Fits, FitsIe, Packed, PackedIe, FirstTag,
         GetU16, Drop;
    var b := BuildSlots(slots, vs);
    ConformsCount(slots, vs);
    if slots != [] && b != [] {
      FirstSlot(slots, vs);
      var tail := BuildSlots(slots[1..], vs[1..]);
      BuiltFrame(slots[1..], vs[1..]);
      ReadAhead(tail, []);
      if vs[0] == Absent {
        BuildLeadsWithFirstTag(slots[1..], vs[1..]);
      } else {
        FramedFirst(slots[0], vs[0], tail);
      }
    }
  }

  lemma {:induction false} FramedFirst(ie: Ie, v: Value, tail: octets)
    requires ConformsIe(ie, v) && FitsIe(ie, v) && PackedIe(ie, v) && v != Absent
    ensures var b := BuildIe(ie, v) + tail;
      && |b| >= 4 && GetU16(b) == ie.tag
      && var length := GetU16(b[2..]);
      && 4 + length <= |b| && b[4 + length..] == tail
      && (ie.Group? ==> Framed(ie.slots, b[4..4 + length]))
    decreases ie
  {
    if v.Octets? {
      ReadElement(ie.tag, v.bytes, tail);
    } else {
      var body := BuildSlots(ie.slots, v.values);
      ReadElement(ie.tag, body, tail);
      BuiltFrame(ie.slots, v.values);
      assert (BuildIe(ie, v) + tail)[4..4 + |body|] == body;
    }
  }

  /** The size of the element that a framed region starts with; 0 when the slot is absent. */
  ghost function ElementSize(slots: seq<Ie>, b: octets): (n: nat)
    requires Framed(slots, b) && slots != [] && b != []
    ensures n <= |b|
  {
    if GetU16(b) == slots[0].tag then 4 + GetU16(b[2..]) as int else 0
  }

  /** `v` is the value of an element that takes the given octets. */
  ghost predicate ElementResult(ie: Ie, v: Value, b: octets)
    requires b == [] || (|b| >= 4 && (ie.Group? ==> Framed(ie.slots, b[4..])))
  {
    && ConformsIe(ie, v) && FitsIe(ie, v) && |BuildIe(ie, v)| <= |b|
    && var all := b == [] || (ie.Group? ==> Consumed(ie.slots, b[4..]));
    && (all <==> |BuildIe(ie, v)| == |b|) && (all ==> BuildIe(ie, v) == b)
  }

  lemma AbsentElement(ie: Ie)
    ensures ElementResult(ie, Absent, [])
  {
  }

  lemma {:induction false} FramedStep(slots: seq<Ie>, b: octets, rest: octets)
    requires Framed(slots, b) && slots != [] && b != []
    ensures FramedResult(slots, b, ParseSlots(slots, b + rest, |b|))
    decreases slots, 0
  {
    hide BuildSlots, BuildIe, Conforms, ConformsIe, Fits, FitsIe, Consumed, Packed, PackedIe;
    AbsentElement(slots[0]);
    assert GetU16(b + rest) == GetU16(b) && b[..0] == [];
    var n := ElementSize(slots, b);
    var v := Absent;
    if n != 0 {
      ReadFramed(b, rest);
      assert b[..n][4..] == b[4..n];
      FramedElement(slots[0], b[4..n], b[n..] + rest);
      v := ParseIe(slots[0], b[4..n] + (b[n..] + rest), n - 4).value;
      assert ElementResult(slots[0], v, b[..n]);
    }
    hide ParseSlots, ParseIe;
    assert Drop(b + rest, n) == b[n..] + rest;
    FramedParse(slots[1..], b[n..], rest);
    ParseStep(slots, b + rest, |b|, v, n);
    FramedCons(slots, b, v, ParseSlots(slots[1..], b[n..] + rest, |b| - n).value);
  }

  lemma FramedCons(slots: seq<Ie>, b: octets, v: Value, p: Parsed)
    requires Framed(slots, b) && slots != [] && b != []
    requires var n := ElementSize(slots, b);
      && (n != 0 ==> b[..n][4..] == b[4..n]) && ElementResult(slots[0], v, b[..n])
      && FramedResult(slots[1..], b[n..], Some(p))
    ensures FramedResult(slots, b, After([v], ElementSize(slots, b), Some(p)))
  {
    BuildCons(slots, v, p.values);
    hide BuildSlots, BuildIe, Fits, FitsIe, Conforms, ConformsIe, GetU16;
    var n := ElementSize(slots, b);
    var e, t := BuildIe(slots[0], v), BuildSlots(slots[1..], p.values);
    if n == 0 {
      assert b[0..] == b && b[..0] == [] && e + t == t;
    } else {
      assert b[n..] == b[4 + (n - 4)..];
      assert b[..n] + b[n..] == b;
    }
  }

  lemma BuildCons(slots: seq<Ie>, v: Value, vs: seq<Value>)
    requires slots != [] && ConformsIe(slots[0], v) && Conforms(slots[1..], vs)
    ensures Conforms(slots, [v] + vs)
    ensures BuildSlots(slots, [v] + vs) == BuildIe(slots[0], v) + BuildSlots(slots[1..], vs)
    ensures FitsIe(slots[0], v) && Fits(slots[1..], vs) ==> Fits(slots, [v] + vs)
  {
    assert ([v] + vs)[1..] == vs;
  }

  /** The header of an element inside its region, and the memory after it. */
  lemma ReadFramed(b: octets, rest: octets)
    requires |b| >= 4 && 4 + GetU16(b[2..]) as int <= |b|
    ensures var n := 4 + GetU16(b[2..]) as int;
      && |b + rest| >= 4 && GetU16((b + rest)[2..]) == n - 4
      && (b + rest)[4..] == b[4..n] + (b[n..] + rest)
      && PutU16(GetU16(b)) + PutU16(n - 4) + b[4..n] == b[..n]
  {
    assert (b + rest)[2..][..2] == b[2..4];
    assert b[..4] == PutU16(GetU16(b)) + PutU16(GetU16(b[2..]));
  }

  lemma {:induction false} FramedElement(ie: Ie, inner: octets, rest: octets)
    requires |inner| < 0x1_0000
    requires ie.Group? ==> Framed(ie.slots, inner)
    ensures var r := ParseIe(ie, inner + rest, |inner|);
      && r.Some? && r.value != Absent && ConformsIe(ie, r.value) && FitsIe(ie, r.value)
      && var out := BuildIe(ie, r.value);
      && |out| <= 4 + |inner|
      && ((ie.Group? ==> Consumed(ie.slots, inner)) <==> |out| == 4 + |inner|)
      && ((ie.Group? ==> Consumed(ie.slots, inner)) ==> out == PutU16(ie.tag) + PutU16(|inner|) + inner)
    decreases ie
  {
    if ie.Leaf? {
      assert (inner + rest)[..|inner|] == inner;
    } else {
      FramedParse(ie.slots, inner, rest);
      var vs := ParseSlots(ie.slots, inner + rest, |inner|).value.values;
      var body := BuildSlots(ie.slots, vs);
      assert |body| % 0x1_0000 == |body|;
    }
  }

  /** Parsing, building and parsing again gives the first parse result. */
  lemma ParseBuildParse(slots: seq<Ie>, b: octets, rest: octets, rest': octets)
    requires Framed(slots, b)
    ensures var r := ParseSlots(slots, b + rest, |b|);
      && r.Some? && Conforms(slots, r.value.values)
      && var out := BuildSlots(slots, r.value.values);
      ParseSlots(slots, out + rest', |out|) == Some(Parsed(r.value.values, |out|))
  {
    FramedParse(slots, b, rest);
    ParseIsPacked(slots, b + rest, |b|);
    ParseOfBuild(slots, ParseSlots(slots, b + rest, |b|).value.values, rest');
  }

  /** Building the parse result restores the octets exactly when all were consumed. */
  lemma BuildParseExact(slots: seq<Ie>, b: octets, rest: octets)
    requires Framed(slots, b)
    ensures var r := ParseSlots(slots, b + rest, |b|);
      && r.Some? && Conforms(slots, r.value.values)
      && (BuildSlots(slots, r.value.values) == b <==> Consumed(slots, b))
  {
    FramedParse(slots, b, rest);
  }

  // ----- The length field --------------------------------------------------

  function EncodedSize(slots: seq<Ie>, vs: seq<Value>): nat
    requires Conforms(slots, vs)
    decreases slots
  {
    if slots == [] then 0 else SizeIe(slots[0], vs[0]) + EncodedSize(slots[1..], vs[1..])
  }

  function SizeIe(ie: Ie, v: Value): nat
    requires ConformsIe(ie, v)
    decreases ie
  {
    match v
    case Absent => 0
    case Octets(bytes) => 4 + |bytes|
    case Children(vs) => 4 + EncodedSize(ie.slots, vs)
  }

  lemma {:induction false} BuiltSize(slots: seq<Ie>, vs: seq<Value>)
    requires Conforms(slots, vs)
    ensures |BuildSlots(slots, vs)| == EncodedSize(slots, vs)
    decreases slots
  {
    if slots != [] {
      if vs[0].Children? {
        BuiltSize(slots[0].slots, vs[0].values);
      }
      BuiltSize(slots[1..], vs[1..]);
    }
  }

  /**
   * The length field of a group is the total size of its encoded children exactly when
   * that total fits 16 bits.
   */
  lemma GroupLengthField(ie: Ie, vs: seq<Value>)
    requires ie.Group? && Conforms(ie.slots, vs)
    ensures var b := BuildIe(ie, Children(vs));
      && |b| == 4 + EncodedSize(ie.slots, vs) && GetU16(b) == ie.tag
      && (GetU16(b[2..]) == EncodedSize(ie.slots, vs) <==> EncodedSize(ie.slots, vs) < 0x1_0000)
  {
    BuiltSize(ie.slots, vs);
    var b := BuildIe(ie, Children(vs));
    assert b[2..][..2] == PutU16(EncodedSize(ie.slots, vs) % 0x1_0000);
  }
}
