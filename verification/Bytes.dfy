/** Bytes, and the fixed-width integers the formats below are made of.
    A shift-and-or of disjoint byte fields is written as the sum it equals. */
module Bytes {

  type byte = x: int | 0 <= x < 256

  const TWO32: nat := 0x1_0000_0000
  const TWO64: nat := 0x1_0000_0000_0000_0000

  type Word = w: nat | w < TWO64

  /** `b` stands in `s` at position `p`. */
  predicate HasAt(s: seq<byte>, p: nat, b: seq<byte>) {
    p + |b| <= |s| && forall i :: 0 <= i < |b| ==> s[p + i] == b[i]
  }

  function Be32(s: seq<byte>, p: nat): (v: nat)
    requires p + 4 <= |s|
    ensures v < TWO32
  {
    var a: int, b: int, c: int, d: int := s[p], s[p + 1], s[p + 2], s[p + 3];
    a * 0x100_0000 + b * 0x1_0000 + c * 0x100 + d
  }

  function Be64(s: seq<byte>, p: nat): (v: nat)
    requires p + 8 <= |s|
    ensures v < TWO64
  {
    Be32(s, p) * TWO32 + Be32(s, p + 4)
  }

  function Be32Bytes(v: nat): (b: seq<byte>)
    requires v < TWO32
    ensures |b| == 4 && Be32(b, 0) == v
  {
    var c := v / 0x100;
    var b := c / 0x100;
    [b / 0x100, b % 0x100, c % 0x100, v % 0x100]
  }

  function Zeros(n: nat): (b: seq<byte>)
    ensures |b| == n && forall i :: 0 <= i < n ==> b[i] == 0
  {
    seq(n, _ => 0)
  }

  /** Rounds up to a multiple of four. */
  function Align4(v: nat): (r: nat)
    ensures v <= r < v + 4 && r % 4 == 0
  {
    (v + 3) / 4 * 4
  }

  /** A NUL-terminated string, held without its terminator. */
  predicate IsCString(s: seq<byte>) {
    forall i :: 0 <= i < |s| ==> s[i] != 0
  }

  /** What stands at `p` reads as the value whose bytes stand there. */
  lemma Be32At(s: seq<byte>, p: nat, v: nat)
    requires v < TWO32 && HasAt(s, p, Be32Bytes(v))
    ensures Be32(s, p) == v
  {
    var b := Be32Bytes(v);
    assert s[p] == b[0] && s[p + 1] == b[1] && s[p + 2] == b[2] && s[p + 3] == b[3];
  }

  lemma HasAtConcat(s: seq<byte>, p: nat, a: seq<byte>, b: seq<byte>)
    requires HasAt(s, p, a + b)
    ensures HasAt(s, p, a) && HasAt(s, p + |a|, b)
  {
    assert forall i :: 0 <= i < |a| ==> (a + b)[i] == a[i];
    assert forall i :: 0 <= i < |b| ==> (a + b)[|a| + i] == b[i];
  }

  // ----- Text -----

  predicate IsAscii(s: string) {
    forall i :: 0 <= i < |s| ==> s[i] < 128 as char
  }

  function Ascii(s: string): seq<byte>
    requires IsAscii(s)
  {
    seq(|s|, i requires 0 <= i < |s| => s[i] as int)
  }

  // ----- Little-endian words -----

  /** The `n` bytes from `p`, the first the least significant. */
  function Le(s: seq<byte>, p: nat, n: nat): (v: nat)
    requires p + n <= |s|
    decreases n
  {
    if n == 0 then 0
    else
      var b: int := s[p];
      b + 0x100 * Le(s, p + 1, n - 1)
  }

  function LeBytes(v: nat, n: nat): (b: seq<byte>)
    ensures |b| == n
    decreases n
  {
    if n == 0 then [] else [v % 0x100] + LeBytes(v / 0x100, n - 1)
  }

  function Pow256(n: nat): (r: nat)
    ensures r >= 1
  {
    if n == 0 then 1 else 0x100 * Pow256(n - 1)
  }

  lemma {:induction false} LeBounded(s: seq<byte>, p: nat, n: nat)
    requires p + n <= |s|
    ensures Le(s, p, n) < Pow256(n)
    decreases n
  {
    if n > 0 {
      LeBounded(s, p + 1, n - 1);
    }
  }

  lemma {:induction false} LeRoundTrip(s: seq<byte>, p: nat, v: nat, n: nat)
    requires HasAt(s, p, LeBytes(v, n)) && v < Pow256(n)
    ensures Le(s, p, n) == v
    decreases n
  {
    if n > 0 {
      HasAtConcat(s, p, [v % 0x100], LeBytes(v / 0x100, n - 1));
      assert s[p] == [v % 0x100][0];
      LeRoundTrip(s, p + 1, v / 0x100, n - 1);
    }
  }

  lemma {:induction false} LeBytesOf(s: seq<byte>, p: nat, n: nat)
    requires p + n <= |s|
    ensures LeBytes(Le(s, p, n), n) == s[p..p + n]
    decreases n
  {
    if n > 0 {
      var b: int := s[p];
      LeBytesOf(s, p + 1, n - 1);
      assert Le(s, p, n) % 0x100 == b && Le(s, p, n) / 0x100 == Le(s, p + 1, n - 1);
      assert s[p..p + n] == [s[p]] + s[p + 1..p + 1 + (n - 1)];
    }
  }

  lemma Pow256Values()
    ensures Pow256(4) == TWO32 && Pow256(8) == TWO64
  {
    assert Pow256(4) == 0x100 * Pow256(3) && Pow256(3) == 0x100 * Pow256(2) && Pow256(2) == 0x100 * Pow256(1);
    assert Pow256(8) == 0x100 * Pow256(7) && Pow256(7) == 0x100 * Pow256(6);
    assert Pow256(6) == 0x100 * Pow256(5) && Pow256(5) == 0x100 * Pow256(4);
  }

  function Le32(s: seq<byte>, p: nat): (v: nat)
    requires p + 4 <= |s|
    ensures v < TWO32
  {
    LeBounded(s, p, 4);
    Pow256Values();
    Le(s, p, 4)
  }

  function Le64(s: seq<byte>, p: nat): (v: Word)
    requires p + 8 <= |s|
  {
    LeBounded(s, p, 8);
    Pow256Values();
    Le(s, p, 8)
  }

  lemma {:induction false} LeSlice(msg: seq<byte>, at: nat, part: seq<byte>, p: nat, n: nat)
    requires HasAt(msg, at, part) && p + n <= |part|
    ensures Le(msg, at + p, n) == Le(part, p, n)
    decreases n
  {
    if n > 0 {
      LeSlice(msg, at, part, p + 1, n - 1);
    }
  }
}
