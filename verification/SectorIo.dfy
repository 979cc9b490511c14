/**
 * Sector transfers: to a raw container whose storage sectors are larger than the sectors of the
 * disk, where a partial storage sector takes a read-modify-write, and to a virtual hard disk.
 */
module SectorIo {
  import opened Arithmetic
  import opened Bytes
  import opened HostFiles
  import opened ByteOrder
  import opened VhdLayout
  import opened VhdFormat
  import opened VirtualDisks

  // ----- whole storage sectors around a byte range -----

  /** The code masks with `~(unit - 1)`, and with `unit - 1`, for a power of two `unit`. */
  function Floor(x: nat, unit: nat): nat
    requires unit > 0
  {
    x - x % unit
  }

  function LowBits(x: nat, unit: nat): nat
    requires unit > 0
  {
    x % unit
  }

  function Ceiling(x: nat, unit: nat): nat
    requires unit > 0
  {
    Floor(x + unit - 1, unit)
  }

  lemma FloorFacts(x: nat, u: nat)
    requires u > 0
    ensures Floor(x, u) <= x < Floor(x, u) + u
    ensures Floor(x, u) == x / u * u
    ensures LowBits(x, u) == x - Floor(x, u)
  {
    DivBounds(x, u);
  }

  lemma Difference(p: nat, q: nat, u: nat)
    requires p <= q
    ensures (q - p) * u == q * u - p * u >= 0
  {
    MulMono(p, q, u);
  }

  lemma FloorIs(x: nat, q: nat, u: nat)
    requires u > 0 && q * u <= x < q * u + u
    ensures Floor(x, u) == q * u
  {
    assert q * u + u == (q + 1) * u;
    DivUnique(x, q, u);
    FloorFacts(x, u);
  }

  /** The storage sectors that hold `n` bytes at `a`: from the one of `a` to behind the last byte. */
  lemma Cover(a: nat, n: nat, u: nat)
    requires u > 0
    ensures var first, last := Floor(a, u), Floor(a + n, u);
      && first <= a < first + u && first <= last <= a + n < last + u
      && first + Ceiling(a - first + n, u) == if last == a + n then last else last + u
  {
    FloorFacts(a, u);
    FloorFacts(a + n, u);
    var p, q := a / u, (a + n) / u;
    assert p <= q by {
      if q < p {
        StepUp(q, p, u);
        assert false;
      }
    }
    Difference(p, q, u);
    var first, last, run := p * u, q * u, (q - p) * u;
    hide Floor;
    if last == a + n {
      FloorIs(run + u - 1, q - p, u);
    } else {
      assert (q - p + 1) * u == run + u;
      FloorIs(a - first + n + u - 1, q - p + 1, u);
    }
  }

  /** A storage sector that starts inside a container of whole storage sectors lies inside it. */
  lemma WholeSectors(x: nat, length: nat, u: nat)
    requires u > 0 && length % u == 0 && x < length
    ensures Floor(x, u) + u <= length
  {
    FloorFacts(x, u);
    FloorFacts(length, u);
    var p, q := x / u, length / u;
    assert length == q * u;
    if q <= p {
      MulMono(q, p, u);
      assert false;
    } else {
      StepUp(p, q, u);
    }
  }

  /** Where the first and last storage sectors of a transfer inside a container end. */
  lemma EdgesInside(a: nat, n: nat, length: nat, u: nat)
    requires u > 0 && length % u == 0 && a + n <= length
    ensures a < length ==> Floor(a, u) + u <= length
    ensures a + n < length ==> Floor(a + n, u) + u <= length
    ensures a + n == length ==> Floor(a + n, u) == a + n
    ensures Floor(a, u) <= a && Floor(a, u) + Ceiling(a - Floor(a, u) + n, u) <= length
  {
    Cover(a, n, u);
    if a + n == length {
      FloorFacts(length, u);
    }
    hide Floor, Ceiling;
    if a < length {
      WholeSectors(a, length, u);
    }
    if a + n < length {
      WholeSectors(a + n, length, u);
    }
  }

  lemma Pow2At4G()
    ensures IsPow2(0x1_0000_0000)
  {
    Pow2At16M();
    assert IsPow2(0x100) by {
      assert IsPow2(0x4);
      Pow2Product(0x4, 0x4);
      Pow2Product(0x10, 0x10);
    }
    Pow2Product(0x100_0000, 0x100);
  }

  /** A product that wraps at 32 bits still has the right low bits. */
  lemma WrappedLowBits(x: nat, u: nat)
    requires IsPow2(u) && 0 < u < 0x1_0000_0000
    ensures LowBits(x % 0x1_0000_0000, u) == LowBits(x, u)
  {
    Pow2At4G();
    Pow2Divides(u, 0x1_0000_0000);
    var q, low := x / 0x1_0000_0000, x % 0x1_0000_0000;
    assert x == low + q * 0x1_0000_0000;
    hide IsPow2, LowBits;
    WholeQuotient(0x1_0000_0000, u);
    var m := 0x1_0000_0000 / u;
    Associate(q, m, u);
    SameLowBits(low, q * m, u);
  }

  lemma WholeQuotient(x: nat, u: nat)
    requires u > 0 && x % u == 0
    ensures x / u * u == x
  {
    DivBounds(x, u);
  }

  lemma Associate(a: nat, b: nat, c: nat)
    ensures a * (b * c) == a * b * c
  {
  }

  lemma NextMultiple(x: nat, u: nat)
    requires u > 0
    ensures LowBits(x + u, u) == LowBits(x, u)
  {
    DivBounds(x, u);
    var q := x / u;
    assert (q + 1) * u == q * u + u && (q + 2) * u == q * u + u + u;
    DivUnique(x + u, q + 1, u);
  }

  lemma {:induction false} SameLowBits(x: nat, k: nat, u: nat)
    requires u > 0
    ensures LowBits(x + k * u, u) == LowBits(x, u)
  {
    if k > 0 {
      SameLowBits(x, k - 1, u);
      assert (k - 1) * u + u == k * u && 0 <= (k - 1) * u;
      NextMultiple(x + (k - 1) * u, u);
    }
  }

  // ----- the raw container -----

  lemma ItemCount(n: nat, elementSize: nat)
    requires elementSize > 0 && n % elementSize == 0
    ensures Items(elementSize, n / elementSize) == n
  {
    DivBounds(n, elementSize);
  }

  /** What a buffer of whole items looks like on the disk. */
  function OnDiskOrder(s: seq<byte>, littleEndian: bool, elementSize: nat): (r: seq<byte>)
    requires elementSize > 0 && |s| % elementSize == 0
    ensures |r| == |s|
  {
    ItemCount(|s|, elementSize);
    DiskOrder(s, littleEndian, elementSize, |s| / elementSize)
  }

  lemma OnDiskBytes(s: seq<byte>, littleEndian: bool, elementSize: nat)
    requires elementSize > 0 && |s| % elementSize == 0
    ensures LittleEndianItems(OnDiskOrder(s, littleEndian, elementSize), s, littleEndian, elementSize)
  {
    ItemCount(|s|, elementSize);
    DiskOrderBytes(s, littleEndian, elementSize, |s| / elementSize);
  }

  lemma WrittenBytes(data: seq<byte>, a: nat, buf: seq<byte>, littleEndian: bool, elementSize: nat)
    requires elementSize > 0 && |buf| % elementSize == 0 && a + |buf| <= |data|
    ensures var now := WriteAt(data, a, OnDiskOrder(buf, littleEndian, elementSize));
      |now| == |data| && LittleEndianItems(now[a..a + |buf|], buf, littleEndian, elementSize)
  {
    OnDiskBytes(buf, littleEndian, elementSize);
    hide OnDiskOrder, LittleEndianItems;
    var conv := OnDiskOrder(buf, littleEndian, elementSize);
    assert WriteAt(data, a, conv)[a..a + |buf|] == conv;
  }

  lemma OnDiskOrderTwice(s: seq<byte>, littleEndian: bool, elementSize: nat)
    requires elementSize > 0 && |s| % elementSize == 0
    ensures OnDiskOrder(OnDiskOrder(s, littleEndian, elementSize), littleEndian, elementSize) == s
  {
    ItemCount(|s|, elementSize);
    DiskOrderTwice(s, littleEndian, elementSize, |s| / elementSize);
  }

  /** Swapping a longer run of items swaps its first items as they would be on their own. */
  lemma {:induction false} SwapPrefix(s: seq<byte>, size: nat, count: nat, m: nat)
    requires |s| == Items(size, count) && m <= count
    ensures Items(size, m) <= |s|
    ensures SwapItems(s, size, count)[..Items(size, m)] == SwapItems(s[..Items(size, m)], size, m)
    decreases count
  {
    MonoItems(size, m, count);
    hide Items;
    if m < count {
      LastItem(size, count);
      var n := Items(size, count - 1);
      SwapPrefix(s[..n], size, count - 1, m);
      assert s[..n][..Items(size, m)] == s[..Items(size, m)];
    } else {
      assert s[..Items(size, m)] == s;
    }
  }

  class RawDisk {
    const file: HostFile
    const sectorSize: nat
    const storageSector: nat
    const elementSize: nat
    const littleEndian: bool
    var highwater: nat

    constructor (file: HostFile, sectorSize: nat, storageSector: nat, elementSize: nat, littleEndian: bool)
      ensures this.file == file && this.sectorSize == sectorSize && this.storageSector == storageSector
      ensures this.elementSize == elementSize && this.littleEndian == littleEndian && highwater == 0
    {
      this.file := file;
      this.sectorSize := sectorSize;
      this.storageSector := storageSector;
      this.elementSize := elementSize;
      this.littleEndian := littleEndian;
      highwater := 0;
    }

    /** Sectors hold whole items; the container holds whole storage sectors of a power of two. */
    ghost predicate Valid()
      reads file
    {
      && 0 < elementSize && 0 < sectorSize < 0x1_0000_0000 && sectorSize % elementSize == 0
      && 0 < storageSector < 0x1_0000_0000 && IsPow2(storageSector)
      && |file.data| % storageSector == 0
    }

    /** A transfer inside the container whose temporary buffer has a 32-bit size. */
    ghost predicate Within(lba: nat, sects: nat)
      reads file
    {
      && lba + sects < 0x1_0000_0000
      && lba * sectorSize + sects * sectorSize <= |file.data|
      && sects * sectorSize + 2 * storageSector < 0x1_0000_0000
    }

    /** Whether a transfer is made of whole storage sectors. */
    predicate WholeTransfer(lba: nat, sects: nat)
      requires storageSector > 0
    {
      || LowBits(sectorSize, storageSector) == 0
      || (&& LowBits(lba * sectorSize % 0x1_0000_0000, storageSector) == 0
          && LowBits(sects * sectorSize % 0x1_0000_0000, storageSector) == 0)
    }

    /** The 32-bit products in that test wrap, and it still tests the alignment of the transfer. */
    lemma WholeTransferExact(lba: nat, sects: nat)
      requires Valid()
      ensures WholeTransfer(lba, sects) <==>
        || sectorSize % storageSector == 0
        || (lba * sectorSize % storageSector == 0 && sects * sectorSize % storageSector == 0)
    {
      WrappedLowBits(lba * sectorSize, storageSector);
      WrappedLowBits(sects * sectorSize, storageSector);
    }

    /** Reads one storage sector into `tbuf[at..]`; at the end of the container nothing arrives. */
    method ReadOne(tbuf: array<byte>, at: nat, pos: nat)
      requires at + storageSector <= tbuf.Length
      modifies tbuf
      ensures forall i :: 0 <= i < tbuf.Length && !(at <= i < at + storageSector) ==> tbuf[i] == old(tbuf[i])
      ensures pos + storageSector <= |file.data| ==>
        forall i :: at <= i < at + storageSector ==> tbuf[i] == file.data[pos + (i - at)]
    {
      var got := file.Read(tbuf, at, storageSector, pos);
      if pos + storageSector <= |file.data| {
        ReadWhole(file.data, pos, storageSector);
        ghost var s := file.data[pos..pos + storageSector];
        assert tbuf[at..at + storageSector] == s;
        assert forall i :: at <= i < at + storageSector ==> tbuf[i] == s[i - at];
      }
    }

    /** Reads the first and the last storage sector of a transfer into the temporary buffer. */
    method ReadEdges(tbuf: array<byte>, a: nat, n: nat)
      requires Valid() && a + n <= |file.data| && tbuf.Length == n + 2 * storageSector
      modifies tbuf
      ensures Floor(a, storageSector) <= a
      ensures Floor(a, storageSector) + Ceiling(a - Floor(a, storageSector) + n, storageSector) <= |file.data|
      ensures Ceiling(a - Floor(a, storageSector) + n, storageSector) <= tbuf.Length
      ensures EdgesRead(tbuf[..], file.data, Floor(a, storageSector), a - Floor(a, storageSector), n,
                        Ceiling(a - Floor(a, storageSector) + n, storageSector))
    {
      hide IsPow2, Floor, Ceiling;
      var u := storageSector;
      Cover(a, n, u);
      EdgesInside(a, n, |file.data|, u);
      var ssaddr, sladdr := Floor(a, u), Floor(a + n, u);
      if a - ssaddr != 0 {
        ReadOne(tbuf, 0, ssaddr);
      }
      ghost var first := tbuf[..];
      ReadOne(tbuf, sladdr - ssaddr, sladdr);
    }

    /** Read-modify-write of the storage sectors around `[a, a + |buf|)`. */
    method WritePartial(a: nat, buf: seq<byte>) returns (byteswritten: nat)
      requires Valid() && a + |buf| <= |file.data| && |buf| % elementSize == 0
      modifies file
      ensures file.data == WriteAt(old(file.data), a, OnDiskOrder(buf, littleEndian, elementSize))
      ensures |buf| <= byteswritten
    {
      hide IsPow2, Floor, Ceiling, DiskOrder, Items, WriteAt, LittleEndianItems;
      var n := |buf|;
      Cover(a, n, storageSector);
      var ssaddr := Floor(a, storageSector);
      var soffset := a - ssaddr;
      var tbuf := new byte[n + 2 * storageSector];
      ReadEdges(tbuf, a, n);
      ItemCount(n, elementSize);
      CopySwapped(tbuf, soffset, buf, littleEndian, elementSize, n / elementSize);
      byteswritten := Ceiling(soffset + n, storageSector);
      MergedWrite(file.data, ssaddr, soffset, OnDiskOrder(buf, littleEndian, elementSize), tbuf[..], byteswritten);
      assert tbuf[..][..byteswritten] == tbuf[..byteswritten];
      file.Write(tbuf[..byteswritten], ssaddr);
    }

    /** Writes whole storage sectors. */
    method WriteWhole(a: nat, buf: seq<byte>)
      requires elementSize > 0 && |buf| % elementSize == 0
      modifies file
      ensures file.data == WriteAt(old(file.data), a, OnDiskOrder(buf, littleEndian, elementSize))
    {
      hide OnDiskOrder, DiskOrder, WriteAt, LittleEndianItems;
      ItemCount(|buf|, elementSize);
      OnDiskOrderIs(buf, littleEndian, elementSize);
      var tbuf := new byte[|buf|];
      CopySwapped(tbuf, 0, buf, littleEndian, elementSize, |buf| / elementSize);
      assert tbuf[0..|buf|] == tbuf[..];
      file.Write(tbuf[..], a);
    }

    /**
     * Writes `sects` sectors at `lba`, through either path: the container changes exactly in the
     * bytes of those sectors, and all of them are reported.
     */
    method WriteSectors(lba: nat, buf: seq<byte>, sects: nat) returns (written: nat)
      requires Valid() && Within(lba, sects) && |buf| == sects * sectorSize && |buf| % elementSize == 0
      modifies file, this`highwater
      ensures file.data == WriteAt(old(file.data), lba * sectorSize, OnDiskOrder(buf, littleEndian, elementSize))
      ensures |file.data| == old(|file.data|) && Valid()
      ensures lba * sectorSize + |buf| <= |file.data|
      ensures LittleEndianItems(file.data[lba * sectorSize..lba * sectorSize + |buf|], buf, littleEndian, elementSize)
      ensures written == sects
      ensures highwater ==
        if sects > 0 then Max(old(highwater), lba * sectorSize + sects * sectorSize) else old(highwater)
    {
      hide IsPow2, LowBits, OnDiskOrder, LittleEndianItems;
      ghost var was := file.data;
      WrittenBytes(was, lba * sectorSize, buf, littleEndian, elementSize);
      if WholeTransfer(lba, sects) {
        WriteWhole(lba * sectorSize, buf);
        written := sects;
      } else {
        var bytes := WritePartial(lba * sectorSize, buf);
        QuotientAtLeast(bytes, sects, sectorSize);
        written := bytes / sectorSize;
        if written > sects {
          written := sects;
        }
      }
      assert |file.data| == |was|;
      if written > 0 {
        Raise(lba * sectorSize + written * sectorSize);
      }
    }

    /** Keeps track of the end of what has been written. */
    method Raise(end: nat)
      modifies this`highwater
      ensures highwater == Max(old(highwater), end)
    {
      if highwater < end {
        highwater := end;
      }
    }

    /** Reads the storage sectors around `[a, a + n)` into a temporary buffer. */
    method Fetch(a: nat, n: nat) returns (tbuf: array<byte>, soffset: nat, got: nat)
      requires Valid() && a + n <= |file.data|
      ensures fresh(tbuf) && soffset + n <= got <= tbuf.Length
      ensures tbuf[soffset..soffset + n] == file.data[a..a + n]
    {
      var u := storageSector;
      Cover(a, n, u);
      FloorFacts(n + 2 * u, u);
      hide IsPow2, Floor, Ceiling, ReadAt, RawDisk.Valid, LowBits;
      var ssaddr := Floor(a, u);
      soffset := a - ssaddr;
      tbuf := new byte[n + 2 * u];
      var want := Floor(n + 2 * u, u);
      got := file.Read(tbuf, 0, want, ssaddr);
      SliceOfRead(file.data, ssaddr, want, a, n);
      InnerSlice(tbuf[..], got, soffset, n);
    }

    /** Fetches and swaps. */
    method FetchSwapped(a: nat, n: nat) returns (tbuf: array<byte>, soffset: nat, bytes: nat)
      requires Valid() && a + n <= |file.data| && n % elementSize == 0
      ensures fresh(tbuf) && soffset + n <= tbuf.Length && n <= bytes
      ensures tbuf[soffset..soffset + n] == OnDiskOrder(file.data[a..a + n], littleEndian, elementSize)
    {
      hide IsPow2, OnDiskOrder;
      var got: nat;
      tbuf, soffset, got := Fetch(a, n);
      bytes := got - soffset;
      SwapFetched(tbuf, soffset, bytes, n, elementSize, littleEndian);
    }

    /** Copies the slice out of what was fetched and swapped. */
    method ReadPartial(buf: array<byte>, a: nat, n: nat) returns (bytes: nat)
      requires Valid() && a + n <= |file.data| && n % elementSize == 0 && n <= buf.Length
      modifies buf
      ensures buf[..n] == OnDiskOrder(file.data[a..a + n], littleEndian, elementSize)
      ensures n <= bytes
    {
      hide IsPow2, OnDiskOrder;
      var tbuf: array<byte>, soffset: nat;
      tbuf, soffset, bytes := FetchSwapped(a, n);
      forall i | 0 <= i < n {
        buf[i] := tbuf[soffset + i];
      }
      assert buf[..n] == tbuf[soffset..soffset + n];
    }

    /** Reads `sects` sectors at `lba`, through either path: exactly the bytes of those sectors. */
    method ReadSectors(buf: array<byte>, lba: nat, sects: nat) returns (got: nat)
      requires Valid() && Within(lba, sects)
      requires sects * sectorSize <= buf.Length && (sects * sectorSize) % elementSize == 0
      modifies buf
      ensures buf[..sects * sectorSize] ==
        OnDiskOrder(file.data[lba * sectorSize..lba * sectorSize + sects * sectorSize], littleEndian, elementSize)
      ensures LittleEndianItems(buf[..sects * sectorSize],
                                file.data[lba * sectorSize..lba * sectorSize + sects * sectorSize],
                                littleEndian, elementSize)
      ensures got == sects
    {
      hide IsPow2, LowBits, OnDiskOrder, DiskOrder, LittleEndianItems;
      var a, n := lba * sectorSize, sects * sectorSize;
      OnDiskBytes(file.data[a..a + n], littleEndian, elementSize);
      if WholeTransfer(lba, sects) {
        ReadWhole(file.data, a, n);
        var k := file.Read(buf, 0, n, a);
        assert buf[0..n] == file.data[a..a + n];
        ItemCount(n, elementSize);
        SwapInPlace(buf, 0, littleEndian, elementSize, n / elementSize);
        OnDiskOrderIs(file.data[a..a + n], littleEndian, elementSize);
        assert buf[..n] == buf[0..n];
        got := sects;
      } else {
        var bytes := ReadPartial(buf, a, n);
        QuotientAtLeast(bytes, sects, sectorSize);
        got := bytes / sectorSize;
        if got > sects {
          got := sects;
        }
      }
    }
  }

  lemma InnerSlice(t: seq<byte>, end: nat, at: nat, n: nat)
    requires at + n <= end <= |t|
    ensures t[0..end][at..at + n] == t[at..at + n]
  {
  }

  lemma SliceOfRead(data: seq<byte>, pos: nat, want: nat, a: nat, n: nat)
    requires pos <= a && a + n <= |data| && a + n <= pos + want
    ensures var r := ReadAt(data, pos, want);
      a - pos + n <= |r| && r[a - pos..a - pos + n] == data[a..a + n]
  {
    var r, from := ReadAt(data, pos, want), a - pos;
    if pos < |data| {
      var end := Min(pos + want, |data|);
      assert r == data[pos..end];
      assert data[pos..end][from..from + n] == data[a..a + n];
    }
  }

  lemma OnDiskOrderIs(s: seq<byte>, littleEndian: bool, elementSize: nat)
    requires elementSize > 0 && |s| % elementSize == 0
    ensures |s| == Items(elementSize, |s| / elementSize)
    ensures OnDiskOrder(s, littleEndian, elementSize) == DiskOrder(s, littleEndian, elementSize, |s| / elementSize)
  {
    ItemCount(|s|, elementSize);
  }

  /** The whole items at the start of a swapped run are the swapped start of the run. */
  lemma OrderPrefix(s: seq<byte>, littleEndian: bool, elementSize: nat, count: nat, n: nat)
    requires elementSize > 0 && |s| == Items(elementSize, count) && n <= |s| && n % elementSize == 0
    ensures DiskOrder(s, littleEndian, elementSize, count)[..n] == OnDiskOrder(s[..n], littleEndian, elementSize)
  {
    var m := n / elementSize;
    ItemCount(n, elementSize);
    if count < m {
      StepUp(count, m, elementSize);
      assert false;
    }
    SwapPrefix(s, elementSize, count, m);
  }

  /** Leftover bytes behind the last whole item do not shorten a run of whole items. */
  /** Swaps the whole items among `bytes` fetched bytes: the first `n` are among them. */
  method SwapFetched(tbuf: array<byte>, soffset: nat, bytes: nat, n: nat, elementSize: nat, littleEndian: bool)
    requires soffset + bytes <= tbuf.Length && n <= bytes && elementSize > 0 && n % elementSize == 0
    modifies tbuf
    ensures tbuf[soffset..soffset + n] == OnDiskOrder(old(tbuf[soffset..soffset + n]), littleEndian, elementSize)
  {
    hide DiskOrder, Items, OnDiskOrder, LittleEndianItems;
    WholeItems(bytes, n, elementSize);
    var count := bytes / elementSize;
    ghost var all := Items(elementSize, count);
    ghost var items := tbuf[soffset..soffset + all];
    assert items[..n] == tbuf[soffset..soffset + n];
    SwapInPlace(tbuf, soffset, littleEndian, elementSize, count);
    OrderPrefix(items, littleEndian, elementSize, count, n);
    assert tbuf[soffset..soffset + n] == tbuf[soffset..soffset + all][..n];
  }

  lemma WholeItems(got: nat, n: nat, elementSize: nat)
    requires elementSize > 0 && n % elementSize == 0 && n <= got
    ensures n <= Items(elementSize, got / elementSize) <= got
  {
    FloorFacts(got, elementSize);
    ItemCount(n, elementSize);
    var m, k := n / elementSize, got / elementSize;
    assert k * elementSize == elementSize * k && m * elementSize == elementSize * m;
    if k < m {
      StepUp(k, m, elementSize);
      assert false;
    }
    MulMono(m, k, elementSize);
  }

  lemma QuotientAtLeast(x: nat, k: nat, d: nat)
    requires d > 0 && k * d <= x
    ensures k <= x / d
  {
    var q := x / d;
    DivBounds(x, d);
    assert (q + 1) * d == q * d + d;
    if q < k {
      StepUp(q, k, d);
      assert false;
    }
  }

  /** The parts of the temporary buffer before and behind the `n` bytes at `soffset`. */
  ghost predicate EdgesRead(tbuf: seq<byte>, data: seq<byte>, first: nat, soffset: nat, n: nat, length: nat) {
    && length <= |tbuf| && first + length <= |data|
    && forall k :: 0 <= k < length && (k < soffset || soffset + n <= k) ==> tbuf[k] == data[first + k]
  }

  /** Writing back whole sectors with `t` laid over them is writing `t`. */
  lemma MergedWrite(data: seq<byte>, first: nat, soffset: nat, t: seq<byte>, tbuf: seq<byte>, length: nat)
    requires soffset + |t| <= length <= |tbuf| && tbuf[soffset..soffset + |t|] == t
    requires EdgesRead(tbuf, data, first, soffset, |t|, length)
    ensures WriteAt(data, first, tbuf[..length]) == WriteAt(data, first + soffset, t)
  {
    assert forall k :: soffset <= k < soffset + |t| ==> tbuf[k] == tbuf[soffset..soffset + |t|][k - soffset];
  }

  // ----- the virtual hard disk -----

  /** Writes sectors of a virtual disk in disk order. */
  method WriteVhdSectors(d: Vhd, lba: nat, buf: seq<byte>, sects: nat, sectorSize: nat, elementSize: nat,
                         littleEndian: bool)
    returns (status: Status, written: nat)
    requires d.Valid() && d.Roomy() && d.Serves() && 0 < sectorSize && 0 < elementSize
    requires |buf| == sects * sectorSize < 0x1_0000_0000 && |buf| % elementSize == 0
    requires lba * sectorSize + |buf| <= d.Size()
    modifies d.file, d.bat
    ensures d.Valid() && d.Roomy() && status == Ok && written == sects
    ensures d.View() == Patch(old(d.View()), lba * sectorSize, OnDiskOrder(buf, littleEndian, elementSize))
    ensures LittleEndianItems(d.View()[lba * sectorSize..lba * sectorSize + |buf|], buf, littleEndian, elementSize)
    ensures old(d.OnDisk()) ==> d.OnDisk()
  {
    hide Vhd.Valid, Vhd.View, Vhd.Roomy, Vhd.OnDisk, Vhd.AllMarked, Vhd.Serves, OnDiskOrder, LittleEndianItems;
    PatchedBytes(d.View(), lba * sectorSize, buf, littleEndian, elementSize);
    var tbuf := ToDiskOrder(buf, elementSize, littleEndian);
    status, written := WriteBytes(d, lba * sectorSize, tbuf, sectorSize, sects);
  }

  lemma PatchedBytes(v: seq<byte>, a: nat, buf: seq<byte>, littleEndian: bool, elementSize: nat)
    requires elementSize > 0 && |buf| % elementSize == 0 && a + |buf| <= |v|
    ensures var now := Patch(v, a, OnDiskOrder(buf, littleEndian, elementSize));
      |now| == |v| && LittleEndianItems(now[a..a + |buf|], buf, littleEndian, elementSize)
  {
    OnDiskBytes(buf, littleEndian, elementSize);
    hide OnDiskOrder, LittleEndianItems;
    var conv := OnDiskOrder(buf, littleEndian, elementSize);
    assert Patch(v, a, conv)[a..a + |buf|] == conv;
  }

  method ToDiskOrder(buf: seq<byte>, elementSize: nat, littleEndian: bool) returns (r: seq<byte>)
    requires 0 < elementSize && |buf| % elementSize == 0
    ensures r == OnDiskOrder(buf, littleEndian, elementSize)
  {
    hide OnDiskOrder, DiskOrder, LittleEndianItems;
    OnDiskOrderIs(buf, littleEndian, elementSize);
    var tbuf := new byte[|buf|];
    CopySwapped(tbuf, 0, buf, littleEndian, elementSize, |buf| / elementSize);
    assert tbuf[0..|buf|] == tbuf[..];
    r := tbuf[..];
  }

  method WriteBytes(d: Vhd, off: nat, tbuf: seq<byte>, sectorSize: nat, sects: nat)
    returns (status: Status, written: nat)
    requires d.Valid() && d.Roomy() && d.Serves() && 0 < sectorSize
    requires |tbuf| == sects * sectorSize < 0x1_0000_0000 && off + |tbuf| <= d.Size()
    modifies d.file, d.bat
    ensures d.Valid() && d.Roomy() && status == Ok && written == sects
    ensures d.View() == Patch(old(d.View()), off, tbuf)
    ensures old(d.OnDisk()) ==> d.OnDisk()
  {
    hide Vhd.Valid, Vhd.View, Vhd.Roomy, Vhd.OnDisk, Vhd.AllMarked, Vhd.Serves;
    InsideTable(d, off, |tbuf|);
    hide Vhd.InTable;
    var bytes;
    status, bytes := d.Write(tbuf, off);
    assert (sects + 1) * sectorSize == sects * sectorSize + sectorSize;
    DivUnique(bytes, sects, sectorSize);
    written := bytes / sectorSize;
  }

  /** Reads sectors of a virtual disk into the order of the host. */
  method ReadVhdSectors(d: Vhd, buf: array<byte>, lba: nat, sects: nat, sectorSize: nat, elementSize: nat,
                        littleEndian: bool)
    returns (status: Status, got: nat)
    requires d.Valid() && d.Serves() && 0 < sectorSize && 0 < elementSize && buf !in d.Repr
    requires sects * sectorSize == buf.Length < 0x1_0000_0000 && buf.Length % elementSize == 0
    requires lba * sectorSize + buf.Length <= d.Size()
    modifies buf
    ensures status == Ok && got == sects
    ensures buf[..] ==
      OnDiskOrder(d.View()[lba * sectorSize..lba * sectorSize + sects * sectorSize], littleEndian, elementSize)
    ensures LittleEndianItems(buf[..], d.View()[lba * sectorSize..lba * sectorSize + sects * sectorSize],
                              littleEndian, elementSize)
  {
    hide Vhd.Valid, Vhd.View, Vhd.Serves, OnDiskOrder, DiskOrder, LittleEndianItems;
    var off, n := lba * sectorSize, buf.Length;
    InsideTable(d, off, n);
    hide Vhd.InTable;
    var bytes;
    status, bytes := d.Read(buf, 0, n, off);
    ghost var slice := d.View()[off..off + n];
    OnDiskBytes(slice, littleEndian, elementSize);
    assert buf[..] == slice;
    assert (sects + 1) * sectorSize == sects * sectorSize + sectorSize;
    DivUnique(bytes, sects, sectorSize);
    got := bytes / sectorSize;
    OnDiskOrderIs(slice, littleEndian, elementSize);
    ItemCount(n, elementSize);
    assert buf[0..n] == buf[..];
    SwapInPlace(buf, 0, littleEndian, elementSize, n / elementSize);
    assert buf[0..n] == buf[..];
  }

  /** What was written to sectors of a virtual disk is read back, on either kind of host. */
  method VhdRoundTrip(d: Vhd, lba: nat, buf: seq<byte>, sects: nat, sectorSize: nat, elementSize: nat,
                      littleEndian: bool)
    returns (back: array<byte>)
    requires d.Valid() && d.Roomy() && d.Serves() && 0 < sectorSize && 0 < elementSize
    requires |buf| == sects * sectorSize < 0x1_0000_0000 && |buf| % elementSize == 0
    requires lba * sectorSize + |buf| <= d.Size()
    modifies d.file, d.bat
    ensures back[..] == buf
  {
    hide Vhd.Valid, Vhd.View, Vhd.Serves, Vhd.Roomy, Vhd.OnDisk, OnDiskOrder, LittleEndianItems, Patch;
    var s, w := WriteVhdSectors(d, lba, buf, sects, sectorSize, elementSize, littleEndian);
    back := new byte[|buf|];
    var t, g := ReadVhdSectors(d, back, lba, sects, sectorSize, elementSize, littleEndian);
    ghost var off, conv := lba * sectorSize, OnDiskOrder(buf, littleEndian, elementSize);
    assert d.View()[off..off + |buf|] == conv;
    OnDiskOrderTwice(buf, littleEndian, elementSize);
  }

  lemma InsideTable(d: Vhd, off: nat, n: nat)
    requires d.Valid() && off + n <= d.Size()
    ensures d.InTable(off, n)
  {
    hide IsPow2, Capacity, CurrentSize, DiskType, TableOffset, MaxTableEntries, BlockSize, Placed;
    if !d.IsFixed() {
      CoversDisk(d.Stored());
    }
  }
}
