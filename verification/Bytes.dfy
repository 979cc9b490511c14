/** Bytes, big-endian integers and the two ways a host file is accessed. */
module Bytes {

  type byte = x: int | 0 <= x < 0x100
  type uint16 = x: int | 0 <= x < 0x1_0000
  type uint32 = x: int | 0 <= x < 0x1_0000_0000

  function Min(a: int, b: int): int {
    if a <= b then a else b
  }

  function Max(a: int, b: int): int {
    if a <= b then b else a
  }

  /** The roundings the code does by masking, to sectors and to storage pages. */
  function RoundDown512(x: nat): nat {
    x / 512 * 512
  }

  function RoundUp4K(x: nat): nat {
    (x + 4095) / 4096 * 4096
  }

  function RoundDown4K(x: nat): nat {
    x / 4096 * 4096
  }

  lemma Sectors(a: nat, b: nat)
    requires a % 512 == 0 && b % 512 == 0
    ensures (a + b) % 512 == 0
    ensures b <= a ==> (a - b) % 512 == 0
  {
    var p, q := a / 512, b / 512;
    assert a == 512 * p && b == 512 * q;
  }

  lemma Pages(a: nat, b: nat)
    requires a % 4096 == 0 && b % 4096 == 0
    ensures (a + b) % 4096 == 0
  {
    var p, q := a / 4096, b / 4096;
    assert a == 4096 * p && b == 4096 * q;
  }

  lemma PageIsSectors(a: nat)
    requires a % 4096 == 0
    ensures a % 512 == 0
  {
    var p := a / 4096;
    assert a == 512 * (8 * p);
  }

  function Fill(n: nat, b: byte): (s: seq<byte>) {
    seq(n, i => b)
  }

  predicate AllZero(s: seq<byte>) {
    forall i :: 0 <= i < |s| ==> s[i] == 0
  }

  // ----- big-endian words -----

  function Be32(x: uint32): (s: seq<byte>)
    ensures |s| == 4
  {
    var hi, lo := x / 0x1_0000, x % 0x1_0000;
    [hi / 0x100, hi % 0x100, lo / 0x100, lo % 0x100]
  }

  function U32At(s: seq<byte>, at: nat): (x: uint32)
    requires at + 4 <= |s|
  {
    var a: int, b: int, c: int, d: int := s[at], s[at + 1], s[at + 2], s[at + 3];
    (a * 0x100 + b) * 0x1_0000 + (c * 0x100 + d)
  }

  function U64At(s: seq<byte>, at: nat): (x: nat)
    requires at + 8 <= |s|
  {
    U32At(s, at) * 0x1_0000_0000 + U32At(s, at + 4)
  }

  lemma Be32RoundTrip(x: uint32, s: seq<byte>, at: nat)
    requires at + 4 <= |s|
    requires s[at..at + 4] == Be32(x)
    ensures U32At(s, at) == x
  {
    var t := s[at..at + 4];
    assert s[at] == t[0] && s[at + 1] == t[1] && s[at + 2] == t[2] && s[at + 3] == t[3];
  }

  lemma U32AtShift(s: seq<byte>, at: nat, t: seq<byte>, to: nat)
    requires at + 4 <= |s| && to + 4 <= |t| && s[at..at + 4] == t[to..to + 4]
    ensures U32At(s, at) == U32At(t, to)
  {
    var p, q := s[at..at + 4], t[to..to + 4];
    assert p[0] == q[0] && p[1] == q[1] && p[2] == q[2] && p[3] == q[3];
  }

  lemma U32AtSame(s: seq<byte>, t: seq<byte>, at: nat)
    requires at + 4 <= |s| && at + 4 <= |t|
    requires forall k :: at <= k < at + 4 ==> s[k] == t[k]
    ensures U32At(s, at) == U32At(t, at)
  {
  }

  // ----- file contents -----

  /** The bytes a read of `n` at `pos` returns: fewer than `n` at the end of the file. */
  function ReadAt(data: seq<byte>, pos: nat, n: nat): (r: seq<byte>)
    ensures |r| <= n
  {
    if pos >= |data| then [] else data[pos..Min(pos + n, |data|)]
  }

  lemma ReadWhole(data: seq<byte>, pos: nat, n: nat)
    requires pos + n <= |data|
    ensures ReadAt(data, pos, n) == data[pos..pos + n]
  {
  }

  lemma ReadClipped(data: seq<byte>, pos: nat, n: nat, k: nat)
    requires pos < |data| && k == Min(n, |data| - pos)
    ensures ReadAt(data, pos, n) == data[pos..pos + k]
  {
  }

  /** The file after writing `buf` at `pos`; a gap before `pos` reads as zeros. */
  function WriteAt(data: seq<byte>, pos: nat, buf: seq<byte>): (r: seq<byte>)
    ensures buf == [] ==> r == data
    ensures buf != [] ==> |r| == Max(|data|, pos + |buf|)
    ensures forall i :: 0 <= i < |r| ==>
      r[i] == if pos <= i < pos + |buf| then buf[i - pos] else if i < |data| then data[i] else 0
  {
    if buf == [] then data
    else
      seq(Max(|data|, pos + |buf|), i =>
        if pos <= i < pos + |buf| then buf[i - pos] else if 0 <= i < |data| then data[i] else 0)
  }

  /** A write shows what was written, and nothing of it outside. */
  lemma WriteShows(data: seq<byte>, pos: nat, buf: seq<byte>)
    ensures pos + |buf| <= |WriteAt(data, pos, buf)| || buf == []
    ensures buf != [] ==> WriteAt(data, pos, buf)[pos..pos + |buf|] == buf
  {
    hide WriteAt;
  }

  lemma WriteKeeps(data: seq<byte>, pos: nat, buf: seq<byte>, p: nat, q: nat)
    requires p <= q <= |data| && (q <= pos || pos + |buf| <= p)
    ensures q <= |WriteAt(data, pos, buf)|
    ensures WriteAt(data, pos, buf)[p..q] == data[p..q]
  {
    hide WriteAt;
  }

  /** `v` with `t` laid over it from `at`; what falls past the end of `v` is dropped. */
  function Patch(v: seq<byte>, at: nat, t: seq<byte>): (r: seq<byte>)
    ensures |r| == |v|
    ensures forall i :: 0 <= i < |v| ==> r[i] == if at <= i < at + |t| then t[i - at] else v[i]
  {
    seq(|v|, i requires 0 <= i < |v| => if at <= i < at + |t| then t[i - at] else v[i])
  }

  lemma PatchTwice(v: seq<byte>, at: nat, s: seq<byte>, t: seq<byte>)
    ensures Patch(Patch(v, at, s), at + |s|, t) == Patch(v, at, s + t)
  {
  }

  /** Laying a block back over its zeroed copy restores it where the block has the old bytes. */
  lemma PatchBack(v: seq<byte>, at: nat, n: nat, t: seq<byte>)
    requires |t| == n
    requires forall i :: at <= i < at + n && i < |v| ==> t[i - at] == v[i]
    ensures Patch(Patch(v, at, Fill(n, 0)), at, t) == v
  {
  }

  lemma PatchPast(v: seq<byte>, at: nat, t: seq<byte>, k: nat)
    requires k <= |t| && |v| <= at + k
    ensures Patch(v, at, t[..k]) == Patch(v, at, t)
  {
  }

  lemma PatchNext(v: seq<byte>, at: nat, t: seq<byte>, k: nat, m: nat)
    requires k + m <= |t|
    ensures Patch(Patch(v, at, t[..k]), at + k, t[k..k + m]) == Patch(v, at, t[..k + m])
  {
    PatchTwice(v, at, t[..k], t[k..k + m]);
    assert t[..k] + t[k..k + m] == t[..k + m];
  }

  lemma PatchZeros(v: seq<byte>, at: nat, t: seq<byte>)
    requires AllZero(t)
    requires forall i :: at <= i < at + |t| && i < |v| ==> v[i] == 0
    ensures Patch(v, at, t) == v
  {
  }
}
