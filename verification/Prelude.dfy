/** Shared vocabulary: optional values and network octets. */
module Prelude {

  datatype Option<+T> = None | Some(value: T)

  datatype Status = Ok | Error | Again

  type octet = x: int | 0 <= x < 256

  type octets = seq<octet>

  type u16 = x: int | 0 <= x < 0x1_0000

  type u32 = x: int | 0 <= x < 0x1_0000_0000

  type u64 = x: int | 0 <= x < 0x1_0000_0000_0000_0000

  /** A 16-bit number in network byte order (`htons`). */
  function PutU16(n: u16): (b: octets)
    ensures |b| == 2
  {
    [n / 256, n % 256]
  }

  /** The 16-bit number in network byte order at the start of `b` (`ntohs`). */
  function GetU16(b: octets): u16
    requires |b| >= 2
  {
    (b[0] as int) * 256 + b[1]
  }

  /** `b` without its first `n` octets; nothing when `b` is shorter. */
  function Drop(b: octets, n: nat): (r: octets)
    ensures n <= |b| ==> r == b[n..]
  {
    if n <= |b| then b[n..] else []
  }

  ghost predicate Distinct<T>(s: seq<T>) {
    forall i, j :: 0 <= i < j < |s| ==> s[i] != s[j]
  }

  /** The sequence without its element `i`. */
  ghost function Without<T>(s: seq<T>, i: nat): seq<T>
    requires i < |s|
  {
    s[..i] + s[i + 1..]
  }

  lemma WithoutMembers<T>(s: seq<T>, i: nat)
    requires i < |s| && Distinct(s)
    ensures Distinct(Without(s, i)) && forall x :: x in Without(s, i) <==> x in s && x != s[i]
  {
    assert s == s[..i] + [s[i]] + s[i + 1..];
  }

  lemma Associate<T>(a: seq<T>, b: seq<T>, c: seq<T>)
    ensures (a + b) + c == a + (b + c)
  {
  }
}
