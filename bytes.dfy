/**
 * Little-endian integers as byte strings: what Python's `struct` module with
 * the `<` prefix reads and writes, and what a C++ `memcpy` of an integer field
 * produces on a little-endian machine.
 */
module Bytes {
  import opened Arith

  type byte = x: int | 0 <= x < 256
  type int16 = x: int | -0x8000 <= x < 0x8000
  type word32 = x: int | 0 <= x < 0x1_0000_0000
  type uint64 = x: int | 0 <= x < 0x1_0000_0000_0000_0000

  function Pow256(n: nat): (r: nat)
    ensures r >= 1
  {
    if n == 0 then 1 else 256 * Pow256(n - 1)
  }

  /** The unsigned value of little-endian bytes (least significant first). */
  function LeValue(s: seq<byte>): nat
  {
    if s == [] then 0 else s[0] + 256 * LeValue(s[1..])
  }

  /** The n-byte little-endian store of v. */
  function LeBytes(v: nat, n: nat): (r: seq<byte>)
    ensures |r| == n
  {
    if n == 0 then [] else [v % 256] + LeBytes(v / 256, n - 1)
  }

  lemma {:induction false} LeValueBound(s: seq<byte>)
    ensures LeValue(s) < Pow256(|s|)
  {
    if s != [] {
      LeValueBound(s[1..]);
    }
  }

  /** Reading back an n-byte store gives the stored value when it fits. */
  lemma {:induction false} LeValueOfBytes(v: nat, n: nat)
    requires v < Pow256(n)
    ensures LeValue(LeBytes(v, n)) == v
  {
    if n > 0 {
      LeValueOfBytes(v / 256, n - 1);
      assert LeBytes(v, n)[1..] == LeBytes(v / 256, n - 1);
    }
  }

  /** Storing the value read from bytes gives the same bytes back. */
  lemma {:induction false} LeBytesOfValue(s: seq<byte>)
    ensures LeBytes(LeValue(s), |s|) == s
  {
    if s != [] {
      var rest := LeValue(s[1..]);
      assert LeValue(s) % 256 == s[0] && LeValue(s) / 256 == rest;
      LeBytesOfValue(s[1..]);
    }
  }

  /** The value of a concatenation: the second part is shifted past the first. */
  lemma {:induction false} LeValueAppend(a: seq<byte>, b: seq<byte>)
    ensures LeValue(a + b) == LeValue(a) + Pow256(|a|) * LeValue(b)
  {
    if a == [] {
      assert a + b == b;
    } else {
      assert (a + b)[1..] == a[1..] + b;
      assert (a + b)[0] == a[0];
      LeValueAppend(a[1..], b);
      ShiftDistributes(256, LeValue(a[1..]), Pow256(|a| - 1), LeValue(b));
    }
  }

  /** Two's-complement reading of a 16-bit unsigned value (`struct` code `h`). */
  function ToInt16(u: nat): (i: int16)
    requires u < 0x1_0000
    ensures i % 0x1_0000 == u
  {
    if u < 0x8000 then u else u - 0x1_0000
  }

  /** The 16-bit pattern a C++ `int16_t` holds. */
  function FromInt16(i: int16): (u: nat)
    ensures u < 0x1_0000 && ToInt16(u) == i
  {
    if i < 0 then i + 0x1_0000 else i
  }

  /** The bytes of successive reads, joined in order. */
  function Flatten(chunks: seq<seq<byte>>): (r: seq<byte>)
    ensures chunks == [] ==> r == []
  {
    if chunks == [] then [] else Flatten(chunks[..|chunks| - 1]) + chunks[|chunks| - 1]
  }

  lemma FlattenAppend(chunks: seq<seq<byte>>, c: seq<byte>)
    ensures Flatten(chunks + [c]) == Flatten(chunks) + c
  {
    assert (chunks + [c])[..|chunks|] == chunks;
  }

  lemma FlattenStep(chunks: seq<seq<byte>>, i: nat)
    requires i < |chunks|
    ensures Flatten(chunks[..i + 1]) == Flatten(chunks[..i]) + chunks[i]
  {
    assert chunks[..i + 1] == chunks[..i] + [chunks[i]];
    FlattenAppend(chunks[..i], chunks[i]);
  }
}
