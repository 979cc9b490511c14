/** Reversing the bytes of each item of a buffer, in place and while copying. */
module ByteOrder {
  import opened Arithmetic
  import opened Bytes

  function Reversed(s: seq<byte>): (r: seq<byte>)
    ensures |r| == |s|
  {
    seq(|s|, i requires 0 <= i < |s| => s[|s| - 1 - i])
  }

  /** `count` items of `size` bytes, each reversed. */
  function SwapItems(s: seq<byte>, size: nat, count: nat): (r: seq<byte>)
    requires |s| == Items(size, count)
    ensures |r| == |s|
    decreases count
  {
    if count == 0 then []
    else
      LastItem(size, count);
      SwapItems(s[..Items(size, count - 1)], size, count - 1) + Reversed(s[Items(size, count - 1)..])
  }

  /** The length in bytes of `count` items. */
  function Items(size: nat, count: nat): nat {
    size * count
  }

  lemma LastItem(size: nat, count: nat)
    requires count > 0
    ensures Items(size, count - 1) + size == Items(size, count)
  {
  }

  /** The order of a buffer on the disk: items are little endian whatever the host is. */
  function DiskOrder(s: seq<byte>, littleEndian: bool, size: nat, count: nat): (r: seq<byte>)
    requires |s| == Items(size, count)
    ensures |r| == |s|
  {
    if littleEndian then s else SwapItems(s, size, count)
  }

  lemma {:induction false} SwapTwice(s: seq<byte>, size: nat, count: nat)
    requires |s| == Items(size, count)
    ensures SwapItems(SwapItems(s, size, count), size, count) == s
    decreases count
  {
    hide Items;
    if count > 0 {
      LastItem(size, count);
      var n := Items(size, count - 1);
      var front, last := s[..n], s[n..];
      var r := SwapItems(s, size, count);
      SwapTwice(front, size, count - 1);
      assert r[..n] == SwapItems(front, size, count - 1) && r[n..] == Reversed(last);
      assert Reversed(Reversed(last)) == last;
      assert front + last == s;
    }
  }

  /** Byte items have no order. */
  lemma {:induction false} SwapBytes(s: seq<byte>, count: nat)
    requires |s| == count
    ensures SwapItems(s, 1, count) == s
  {
    if count > 0 {
      SwapBytes(s[..count - 1], count - 1);
      assert Reversed(s[count - 1..]) == s[count - 1..];
      assert s[..count - 1] + s[count - 1..] == s;
    }
  }

  /** Reading back what was converted for the disk gives the original, on either kind of host. */
  lemma DiskOrderTwice(s: seq<byte>, littleEndian: bool, size: nat, count: nat)
    requires |s| == Items(size, count)
    ensures DiskOrder(DiskOrder(s, littleEndian, size, count), littleEndian, size, count) == s
  {
    SwapTwice(s, size, count);
  }

  // ----- byte by byte -----

  /** Where in its item of `size` bytes the byte of the same weight is, counted from the other end. */
  function Mirrored(i: nat, size: nat): (k: int)
    requires size > 0
  {
    i / size * size + size - 1 - i % size
  }

  lemma MirroredIs(i: nat, size: nat) returns (r: nat)
    requires size > 0
    ensures r < size && i == Times(Quotient(i, size), size) + r
    ensures Mirrored(i, size) == Times(Quotient(i, size), size) + size - 1 - r
  {
    DivBounds(i, size);
    r := i % size;
  }

  lemma WholeMultiple(n: nat, size: nat)
    requires size > 0 && n % size == 0
    ensures Times(Quotient(n, size), size) == n
  {
    DivBounds(n, size);
  }

  lemma MirroredInside(i: nat, size: nat, n: nat)
    requires size > 0 && i < n && n % size == 0
    ensures 0 <= Mirrored(i, size) < n
  {
    WholeMultiple(n, size);
    hide Times, Quotient, Mirrored;
    var r := MirroredIs(i, size);
    QuotientBelow(i, Quotient(n, size), size);
  }

  /** The byte of `s`, on a host of either kind, that belongs at place `i` of little-endian items. */
  function HostByte(s: seq<byte>, i: nat, littleEndian: bool, size: nat): byte
    requires size > 0 && i < |s| && |s| % size == 0
  {
    MirroredInside(i, size, |s|);
    if littleEndian then s[i] else s[i / size * size + size - 1 - i % size]
  }

  /** `r` has the items of `s` in little-endian order. */
  predicate LittleEndianItems(r: seq<byte>, s: seq<byte>, littleEndian: bool, size: nat)
    requires size > 0 && |s| % size == 0
  {
    |r| == |s| && forall i :: 0 <= i < |s| ==> r[i] == HostByte(s, i, littleEndian, size)
  }

  lemma ItemsDivide(size: nat, count: nat)
    requires size > 0
    ensures Items(size, count) % size == 0 && Items(size, count) / size == count
  {
    assert (count + 1) * size == count * size + size && size * count == count * size;
    DivUnique(size * count, count, size);
  }

  lemma ItemsTimes(size: nat, count: nat)
    ensures Items(size, count) == Times(count, size)
  {
  }

  /** In item `q` the places are counted from the other end of it. */
  lemma MirroredInItem(i: nat, size: nat, q: nat)
    requires Items(size, q) <= i < Items(size, q) + size
    ensures Mirrored(i, size) == 2 * Items(size, q) + size - 1 - i
  {
    ItemsTimes(size, q);
    hide Items, Times, Quotient, Mirrored;
    QuotientUnique(i, q, size, i - Items(size, q));
    var r := MirroredIs(i, size);
  }

  lemma {:induction false} SwapItemsAt(s: seq<byte>, size: nat, count: nat, i: nat)
    requires size > 0 && |s| == Items(size, count) && i < |s|
    ensures 0 <= Mirrored(i, size) < |s|
    ensures SwapItems(s, size, count)[i] == s[Mirrored(i, size)]
    decreases count
  {
    assert count > 0;
    LastItem(size, count);
    hide Items, Mirrored;
    var n := Items(size, count - 1);
    if i < n {
      SwapItemsAt(s[..n], size, count - 1, i);
    } else {
      MirroredInItem(i, size, count - 1);
    }
  }

  /** What is on the disk is little endian, whatever the host is. */
  lemma DiskOrderBytes(s: seq<byte>, littleEndian: bool, size: nat, count: nat)
    requires size > 0 && |s| == Items(size, count)
    ensures |s| % size == 0 && LittleEndianItems(DiskOrder(s, littleEndian, size, count), s, littleEndian, size)
  {
    ItemsDivide(size, count);
    hide SwapItems, Items;
    if !littleEndian {
      forall i | 0 <= i < |s|
        ensures SwapItems(s, size, count)[i] == HostByte(s, i, false, size)
      {
        SwapItemsAt(s, size, count, i);
      }
    }
  }

  /** One more item at the end of a run. */
  lemma SnocItem(s: seq<byte>, size: nat, j: nat, t: seq<byte>)
    requires |s| == Items(size, j) && |t| == size
    ensures |s + t| == Items(size, j + 1)
    ensures SwapItems(s + t, size, j + 1) == SwapItems(s, size, j) + Reversed(t)
  {
    LastItem(size, j + 1);
    assert (s + t)[..Items(size, j)] == s && (s + t)[Items(size, j)..] == t;
  }

  lemma ReversedIs(was: seq<byte>, now: seq<byte>, d: nat, size: nat)
    requires d + size <= |was| == |now|
    requires forall i :: d <= i < d + size ==> now[i] == was[2 * d + size - 1 - i]
    ensures now[d..d + size] == Reversed(was[d..d + size])
  {
  }

  /** `now` is `was` with the item at `d` reversed. */
  ghost predicate Turned(was: seq<byte>, now: seq<byte>, d: nat, size: nat) {
    && d + size <= |was| == |now| && now[d..d + size] == Reversed(was[d..d + size])
    && forall i :: 0 <= i < |was| && !(d <= i < d + size) ==> now[i] == was[i]
  }

  /** Reverses the item at `d` by exchanging bytes from both ends. */
  method SwapItem(a: array<byte>, d: nat, size: nat)
    requires d + size <= a.Length
    modifies a
    ensures Turned(old(a[..]), a[..], d, size)
  {
    ghost var was := a[..];
    var s, k := d, size - 1;
    while k >= (size + 1) / 2
      invariant d <= s && s - d == size - 1 - k && (size + 1) / 2 - 1 <= k < size
      invariant forall i :: 0 <= i < a.Length && !(d <= i < s) && !(d + k < i < d + size) ==> a[i] == was[i]
      invariant forall i :: d <= i < s ==> a[i] == was[2 * d + size - 1 - i]
      invariant forall i :: d + k < i < d + size ==> a[i] == was[2 * d + size - 1 - i]
    {
      var held := a[s];
      a[s] := a[d + k];
      s := s + 1;
      a[d + k] := held;
      k := k - 1;
    }
    ReversedIs(was, a[..], d, size);
  }

  /** Swaps `count` items in place. */
  method SwapInPlace(a: array<byte>, at: nat, littleEndian: bool, size: nat, count: nat)
    requires at + Items(size, count) <= a.Length
    modifies a
    ensures a[at..at + Items(size, count)] == DiskOrder(old(a[at..at + Items(size, count)]), littleEndian, size, count)
    ensures size > 0 ==>
      && Items(size, count) % size == 0
      && LittleEndianItems(a[at..at + Items(size, count)], old(a[at..at + Items(size, count)]), littleEndian, size)
    ensures forall i :: 0 <= i < a.Length && !(at <= i < at + Items(size, count)) ==> a[i] == old(a[i])
  {
    hide LittleEndianItems;
    if size > 0 {
      DiskOrderBytes(a[at..at + Items(size, count)], littleEndian, size, count);
    }
    if littleEndian || count == 0 || size == 1 {
      if size == 1 {
        SwapBytes(a[at..at + count], count);
      }
      return;
    }
    ghost var was := a[..];
    SwapAll(a, at, size, count);
    SwappedAll(was, a[..], at, at + Items(size, count), size, count);
    hide SwapItems, Items, Swapped;
    assert was[at..at + Items(size, count)] == old(a[at..at + Items(size, count)]);
  }

  method SwapAll(a: array<byte>, at: nat, size: nat, count: nat)
    requires at + Items(size, count) <= a.Length
    modifies a
    ensures Swapped(old(a[..]), a[..], at, at + Items(size, count), size, count)
  {
    ghost var was := a[..];
    assert Swapped(was, a[..], at, at, size, 0) && Items(size, 0) == 0;
    hide SwapItems, Items, Reversed, Swapped, Turned;
    var d, j := at, 0;
    while j < count
      invariant j <= count && d == at + Items(size, j)
      invariant Swapped(was, a[..], at, d, size, j)
    {
      NextItem(size, j, count);
      SwapNext(a, at, d, size, j, was);
      d := d + size;
      j := j + 1;
    }
  }

  lemma NextItem(size: nat, j: nat, count: nat)
    requires j < count
    ensures Items(size, j) + size == Items(size, j + 1) <= Items(size, count)
  {
    LastItem(size, j + 1);
    MonoItems(size, j + 1, count);
  }

  /** Reverses one more item behind those reversed. */
  method SwapNext(a: array<byte>, at: nat, d: nat, size: nat, ghost j: nat, ghost was: seq<byte>)
    requires d + size <= a.Length && Swapped(was, a[..], at, d, size, j)
    modifies a
    ensures Swapped(was, a[..], at, d + size, size, j + 1)
  {
    hide Swapped, Turned;
    ghost var before := a[..];
    SwapItem(a, d, size);
    SwapStep(was, before, a[..], at, d, size, j);
  }

  lemma SwappedAll(was: seq<byte>, now: seq<byte>, at: nat, d: nat, size: nat, j: nat)
    requires Swapped(was, now, at, d, size, j)
    ensures at <= d <= |was| == |now| && d - at == Items(size, j)
    ensures now[at..d] == SwapItems(was[at..d], size, j)
    ensures forall i :: 0 <= i < |was| && !(at <= i < d) ==> now[i] == was[i]
  {
    hide Items, SwapItems;
  }

  /** `now` is `was` with the `j` items from `at` to `d` reversed. */
  ghost predicate Swapped(was: seq<byte>, now: seq<byte>, at: nat, d: nat, size: nat, j: nat) {
    hide Items;
    && at <= d <= |was| == |now| && d - at == Items(size, j)
    && now[at..d] == SwapItems(was[at..d], size, j)
    && forall i :: 0 <= i < |was| && !(at <= i < d) ==> now[i] == was[i]
  }

  lemma SwappedFront(was: seq<byte>, before: seq<byte>, now: seq<byte>, at: nat, d: nat, size: nat, j: nat)
    requires Swapped(was, before, at, d, size, j) && Turned(before, now, d, size)
    ensures at <= d && d + size <= |was| == |now| && |was[at..d]| == Items(size, j)
    ensures now[at..d] == SwapItems(was[at..d], size, j) && now[d..d + size] == Reversed(was[d..d + size])
    ensures forall i :: 0 <= i < |was| && !(at <= i < d + size) ==> now[i] == was[i]
  {
    hide SwapItems, Items, Reversed;
    assert before[d..d + size] == was[d..d + size];
    assert now[at..d] == before[at..d];
  }

  /** The front of a run with one more item at its end. */
  lemma NextFront(now: seq<byte>, was: seq<byte>, at: nat, d: nat, size: nat, j: nat)
    requires at <= d && d + size <= |was| == |now| && |was[at..d]| == Items(size, j)
    requires now[at..d] == SwapItems(was[at..d], size, j) && now[d..d + size] == Reversed(was[d..d + size])
    ensures d + size - at == Items(size, j + 1)
    ensures now[at..d + size] == SwapItems(was[at..d + size], size, j + 1)
  {
    LastItem(size, j + 1);
    hide SwapItems, Items, Reversed;
    var item := was[d..d + size];
    SnocItem(was[at..d], size, j, item);
    assert was[at..d] + item == was[at..d + size];
    assert now[at..d + size] == now[at..d] + now[d..d + size];
  }

  lemma SwapStep(was: seq<byte>, before: seq<byte>, now: seq<byte>, at: nat, d: nat, size: nat, j: nat)
    requires Swapped(was, before, at, d, size, j) && Turned(before, now, d, size)
    ensures Swapped(was, now, at, d + size, size, j + 1)
  {
    hide Turned, SwapItems, Items, Reversed;
    SwappedFront(was, before, now, at, d, size, j);
    NextFront(now, was, at, d, size, j);
  }

  lemma MonoItems(size: nat, j: nat, count: nat)
    requires j <= count
    ensures Items(size, j) <= Items(size, count)
  {
  }

  /** Copies one item back to front. */
  method CopyItem(a: array<byte>, d: nat, s: seq<byte>)
    requires d + |s| <= a.Length
    modifies a
    ensures Laid(old(a[..]), a[..], d, s)
  {
    var k, from := |s|, 0;
    while k > 0
      invariant 0 <= k <= |s| && from == |s| - k
      invariant forall i :: 0 <= i < a.Length && !(d + k <= i < d + |s|) ==> a[i] == old(a[i])
      invariant forall i :: d + k <= i < d + |s| ==> a[i] == s[d + |s| - 1 - i]
    {
      k := k - 1;
      a[d + k] := s[from];
      from := from + 1;
    }
    assert a[..][d..d + |s|] == Reversed(s);
  }

  /** `now` is `was` with `s` reversed at `d`. */
  ghost predicate Laid(was: seq<byte>, now: seq<byte>, d: nat, s: seq<byte>) {
    && d + |s| <= |was| == |now| && now[d..d + |s|] == Reversed(s)
    && forall i :: 0 <= i < |was| && !(d <= i < d + |s|) ==> now[i] == was[i]
  }

  /** Copies `count` items to `a[at..]`, each reversed on a big-endian host. */
  method CopySwapped(a: array<byte>, at: nat, s: seq<byte>, littleEndian: bool, size: nat, count: nat)
    requires |s| == Items(size, count) && at + |s| <= a.Length
    modifies a
    ensures a[at..at + |s|] == DiskOrder(s, littleEndian, size, count)
    ensures size > 0 ==> |s| % size == 0 && LittleEndianItems(a[at..at + |s|], s, littleEndian, size)
    ensures forall i :: 0 <= i < a.Length && !(at <= i < at + |s|) ==> a[i] == old(a[i])
  {
    hide LittleEndianItems;
    if size > 0 {
      DiskOrderBytes(s, littleEndian, size, count);
    }
    if littleEndian || size == 1 {
      if size == 1 {
        SwapBytes(s, count);
      }
      forall i | 0 <= i < |s| {
        a[at + i] := s[i];
      }
      return;
    }
    CopyAll(a, at, s, size, count);
  }

  method CopyAll(a: array<byte>, at: nat, s: seq<byte>, size: nat, count: nat)
    requires |s| == Items(size, count) && at + |s| <= a.Length
    modifies a
    ensures a[at..at + |s|] == SwapItems(s, size, count)
    ensures forall i :: 0 <= i < a.Length && !(at <= i < at + |s|) ==> a[i] == old(a[i])
  {
    ghost var was := a[..];
    assert Copied(s, was, a[..], at, 0, size, 0);
    hide SwapItems, Items, Reversed, Copied, Laid;
    var from, j := 0, 0;
    while j < count
      invariant j <= count && from == Items(size, j) <= |s|
      invariant Copied(s, was, a[..], at, from, size, j)
    {
      LastItem(size, j + 1);
      MonoItems(size, j + 1, count);
      ghost var before := a[..];
      CopyItem(a, at + from, s[from..from + size]);
      CopyStep(s, was, before, a[..], at, from, size, j);
      from := from + size;
      j := j + 1;
    }
    CopiedAll(s, was, a[..], at, size, j);
  }

  /** The first `j` items of `s`, `from` bytes, are reversed at `at`; the rest is as it was. */
  ghost predicate Copied(s: seq<byte>, was: seq<byte>, now: seq<byte>, at: nat, from: nat, size: nat, j: nat) {
    && from == Items(size, j) <= |s| && at + from <= |was| == |now|
    && now[at..at + from] == SwapItems(s[..from], size, j)
    && forall i :: 0 <= i < |was| && !(at <= i < at + from) ==> now[i] == was[i]
  }

  lemma CopiedAll(s: seq<byte>, was: seq<byte>, now: seq<byte>, at: nat, size: nat, j: nat)
    requires Copied(s, was, now, at, |s|, size, j)
    ensures |now| == |was| >= at + |s| && |s| == Items(size, j) && now[at..at + |s|] == SwapItems(s, size, j)
    ensures forall i :: 0 <= i < |was| && !(at <= i < at + |s|) ==> now[i] == was[i]
  {
    hide Items, SwapItems;
    assert s[..|s|] == s;
  }

  lemma LaidBehind(before: seq<byte>, now: seq<byte>, at: nat, d: nat, item: seq<byte>)
    requires at <= d && d + |item| <= |before| && Laid(before, now, d, item)
    ensures |now| == |before| && now[at..d + |item|] == before[at..d] + Reversed(item)
    ensures forall i :: 0 <= i < |now| && !(d <= i < d + |item|) ==> now[i] == before[i]
  {
    hide Reversed;
    assert now[at..d] == before[at..d];
    assert now[at..d + |item|] == now[at..d] + now[d..d + |item|];
  }

  lemma NextCopied(s: seq<byte>, from: nat, size: nat, j: nat)
    requires from + size <= |s| && from == Items(size, j)
    ensures from + size == Items(size, j + 1)
    ensures SwapItems(s[..from + size], size, j + 1) == SwapItems(s[..from], size, j) + Reversed(s[from..from + size])
  {
    LastItem(size, j + 1);
    hide SwapItems, Items, Reversed;
    SnocItem(s[..from], size, j, s[from..from + size]);
    assert s[..from] + s[from..from + size] == s[..from + size];
  }

  lemma CopyStep(s: seq<byte>, was: seq<byte>, before: seq<byte>, now: seq<byte>, at: nat, from: nat, size: nat, j: nat)
    requires Copied(s, was, before, at, from, size, j) && from + size <= |s| && at + from + size <= |before|
    requires Laid(before, now, at + from, s[from..from + size])
    ensures Copied(s, was, now, at, from + size, size, j + 1)
  {
    hide SwapItems, Items, Reversed, Laid;
    NextCopied(s, from, size, j);
    LaidBehind(before, now, at, at + from, s[from..from + size]);
  }
}
