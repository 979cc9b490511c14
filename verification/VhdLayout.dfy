/**
 * Where a dynamic or differencing disk keeps its blocks. The lemmas are about values: a store is
 * the geometry, the block allocation table and the bytes of the file at one moment, and a view is
 * the flat disk that the store shows when its free blocks show `base`.
 */
module VhdLayout {
  import opened Arithmetic
  import opened Bytes

  const FOOTER_SIZE: nat := 512
  const HEADER_SIZE: nat := 1024
  const FREE: uint32 := 0xFFFF_FFFF

  datatype Geometry = Geometry(size: nat, blockSize: nat, entries: nat, tableOffset: nat)

  datatype Store = Store(geo: Geometry, bat: seq<uint32>, data: seq<byte>)

  // ----- sizes -----

  function BitmapBytes(blockSize: nat): nat {
    (7 + blockSize / 512) / 8
  }

  function BitmapSectors(blockSize: nat): nat {
    (BitmapBytes(blockSize) + 511) / 512
  }

  /** The padded size in bytes of a table of `entries` words. */
  function TableSize(entries: nat): nat {
    512 * ((4 * entries + 511) / 512)
  }

  function BatEnd(g: Geometry): nat {
    g.tableOffset + TableSize(g.entries)
  }

  function BitmapSize(g: Geometry): nat {
    BitmapSectors(g.blockSize) * 512
  }

  /** The number of bytes the table can address. */
  function Capacity(g: Geometry): nat {
    g.entries * g.blockSize
  }

  /** The most one allocation can lengthen the file by. */
  function Growth(g: Geometry): nat {
    g.blockSize + BitmapSize(g) + 3584
  }

  /** File offset of the data of the block whose table entry is `entry`. */
  function DataStart(g: Geometry, entry: uint32): nat {
    512 * (entry + BitmapSectors(g.blockSize))
  }

  /**
   * What both creators establish: a block bitmap fills whole sectors, the table starts on a sector
   * boundary behind the two headers, has one entry for each block, and the file of a completely
   * allocated disk is still addressable by 32-bit sector numbers below the free mark.
   */
  predicate GeometryOk(g: Geometry) {
    && 0 < g.blockSize < 0x1_0000_0000
    && g.blockSize % 0x20_0000 == 0
    && g.entries < 0x1_0000_0000
    && g.size % 512 == 0
    && g.tableOffset % 512 == 0
    && FOOTER_SIZE + HEADER_SIZE <= g.tableOffset
    && Covers(g)
    && Addressable(g)
  }

  predicate Covers(g: Geometry)
    requires g.blockSize > 0
  {
    g.entries == (g.size + g.blockSize - 1) / g.blockSize
  }

  predicate Addressable(g: Geometry) {
    BatEnd(g) + g.entries * Growth(g) <= 512 * FREE
  }

  // ----- arithmetic -----

  /** The block an offset is in, where that block starts, and how far into it the offset is. */
  function BlockOf(off: nat, blockSize: nat): nat
    requires blockSize > 0
  {
    off / blockSize
  }

  function BlockStart(b: nat, blockSize: nat): nat {
    b * blockSize
  }

  function Within(off: nat, blockSize: nat): nat
    requires blockSize > 0
  {
    off % blockSize
  }

  lemma BlockOfFacts(off: nat, d: nat)
    requires d > 0
    ensures BlockStart(BlockOf(off, d), d) + Within(off, d) == off && Within(off, d) < d
  {
    DivBounds(off, d);
  }

  lemma BlockIs(off: nat, b: nat, d: nat)
    requires d > 0 && BlockStart(b, d) <= off < BlockStart(b, d) + d
    ensures BlockOf(off, d) == b && Within(off, d) == off - BlockStart(b, d)
  {
    assert b * d + d == (b + 1) * d;
    DivUnique(off, b, d);
  }

  lemma BlockInTable(g: Geometry, i: nat)
    requires GeometryOk(g) && i < g.size
    ensures BlockOf(i, g.blockSize) < g.entries
  {
    hide Addressable;
    var d := g.blockSize;
    DivBounds(i, d);
    DivBounds(g.size + d - 1, d);
    if g.entries <= i / d {
      MulMono(g.entries, i / d, d);
      assert false;
    }
  }

  /** The 32-bit block number of an offset. */
  function BlockNumber(off: nat, blockSize: nat): uint32
    requires blockSize > 0
  {
    off / blockSize % 0x1_0000_0000
  }

  /**
   * How much of a transfer of `n` bytes at `off` falls into its first block. The end of the block
   * is a 32-bit product, so it and the difference wrap.
   */
  function BytesInBlock(off: nat, n: nat, blockSize: nat): nat
    requires blockSize > 0
  {
    var b := BlockNumber(off, blockSize);
    if b != (off + n) / blockSize then
      ((b + 1) * blockSize % 0x1_0000_0000 - off) % 0x1_0000_0000
    else n
  }

  lemma WrappedDifference(x: nat, y: nat)
    requires 0 <= x - y < 0x1_0000_0000
    ensures (x % 0x1_0000_0000 - y) % 0x1_0000_0000 == x - y
  {
    var q := x / 0x1_0000_0000;
    var r, z := x % 0x1_0000_0000 - y, x - y;
    assert r == z - 0x1_0000_0000 * q;
    var k := r / 0x1_0000_0000;
    assert 0x1_0000_0000 * (k + q) == z - r % 0x1_0000_0000;
  }

  /** The wrapped product still gives the bytes up to the end of the block, beyond 4 GB too. */
  lemma BytesInBlockExact(off: nat, n: nat, d: nat)
    requires 0 < d < 0x1_0000_0000 && BlockOf(off, d) < 0x1_0000_0000 && n > 0
    ensures BlockNumber(off, d) == BlockOf(off, d)
    ensures BytesInBlock(off, n, d) == Min(n, BlockStart(BlockOf(off, d), d) + d - off)
    ensures 0 < BytesInBlock(off, n, d) <= n
  {
    var b := off / d;
    DivBounds(off, d);
    DivBounds(off + n, d);
    assert (b + 1) * d == b * d + d;
    if b == (off + n) / d {
      assert off + n < b * d + d;
    } else {
      if off + n < b * d + d {
        DivUnique(off + n, b, d);
        assert false;
      }
      WrappedDifference((b + 1) * d, off);
    }
  }

  /** Every block of the table starts inside the disk, and the table covers the disk. */
  lemma BlockStarts(g: Geometry, b: nat)
    requires GeometryOk(g) && b < g.entries
    ensures BlockStart(b, g.blockSize) < g.size <= Capacity(g)
    ensures BlockStart(b, g.blockSize) + g.blockSize <= Capacity(g)
  {
    hide Addressable;
    var d := g.blockSize;
    DivBounds(g.size + d - 1, d);
    MulMono(b + 1, g.entries, d);
  }

  lemma BitmapOf(blockSize: nat)
    requires 0 < blockSize && blockSize % 0x20_0000 == 0
    ensures BitmapSectors(blockSize) * 512 == BitmapBytes(blockSize) == blockSize / 4096
    ensures 1 <= BitmapSectors(blockSize)
  {
    var k := blockSize / 0x20_0000;
    assert blockSize == 0x20_0000 * k;
    assert blockSize / 512 == 4096 * k;
    assert BitmapBytes(blockSize) == 512 * k;
  }

  lemma BitmapFacts(g: Geometry)
    requires GeometryOk(g)
    ensures BitmapSize(g) == BitmapBytes(g.blockSize) == g.blockSize / 4096
    ensures 512 <= BitmapSize(g) && BitmapSize(g) % 512 == 0
  {
    hide Covers, Addressable, BitmapSectors, BitmapBytes;
    BitmapOf(g.blockSize);
  }

  /** A power-of-two bitmap is either no longer than the alignment or a multiple of it. */
  lemma BitmapAligned(g: Geometry)
    requires GeometryOk(g) && IsPow2(g.blockSize)
    ensures BitmapSize(g) <= 4096 || BitmapSize(g) % 4096 == 0
  {
    hide GeometryOk, BitmapSize, IsPow2;
    BitmapFacts(g);
    if BitmapSize(g) > 4096 {
      var m := 0x100_0000;
      Pow2At16M();
      assert m <= g.blockSize;
      Pow2Divides(m, g.blockSize);
      assert g.blockSize / 4096 % 4096 == 0;
    }
  }

  // ----- placement -----

  predicate BlockFits(g: Geometry, entry: uint32, length: nat) {
    && BatEnd(g) <= 512 * entry
    && DataStart(g, entry) + g.blockSize + FOOTER_SIZE <= length
    && DataStart(g, entry) % 4096 == 0
  }

  predicate Apart(g: Geometry, e: uint32, f: uint32) {
    || DataStart(g, e) + g.blockSize <= 512 * f
    || DataStart(g, f) + g.blockSize <= 512 * e
  }

  /**
   * Every allocated block, its bitmap included, lies behind the table and before the trailing
   * footer with its data on a 4096 boundary, and no two of them overlap.
   */
  predicate Placed(st: Store) {
    var g, bat := st.geo, st.bat;
    && GeometryOk(g)
    && |bat| * 4 == TableSize(g.entries) && g.entries <= |bat|
    && BatEnd(g) + FOOTER_SIZE <= |st.data|
    && |st.data| % 512 == 0
    && (forall b :: 0 <= b < g.entries && bat[b] != FREE ==> BlockFits(g, bat[b], |st.data|))
    && (forall b, c :: 0 <= b < c < g.entries && bat[b] != FREE && bat[c] != FREE ==>
          Apart(g, bat[b], bat[c]))
  }

  function Used(bat: seq<uint32>, n: nat): (k: nat)
    requires n <= |bat|
    ensures k <= n
  {
    if n == 0 then 0 else Used(bat, n - 1) + if bat[n - 1] == FREE then 0 else 1
  }

  lemma {:induction false} UsedUpdate(bat: seq<uint32>, n: nat, b: nat, e: uint32)
    requires n <= |bat| && b < |bat| && bat[b] == FREE && e != FREE
    ensures Used(bat[b := e], n) == Used(bat, n) + if b < n then 1 else 0
  {
    if n > 0 {
      UsedUpdate(bat, n - 1, b, e);
    }
  }

  /** Each allocation lengthened the file by at most `Growth`. */
  predicate Bounded(st: Store)
    requires Placed(st)
  {
    |st.data| <= BatEnd(st.geo) + FOOTER_SIZE + Used(st.bat, st.geo.entries) * Growth(st.geo)
  }

  // ----- the flat view -----

  ghost function ByteAt(st: Store, base: seq<byte>, i: nat): (r: byte)
    requires Placed(st) && |base| == st.geo.size && i < st.geo.size
  {
    hide Covers, Addressable, BitmapSectors, TableSize, Apart, BlockOf, BlockStart, Within;
    BlockInTable(st.geo, i);
    BlockOfFacts(i, st.geo.blockSize);
    var e := st.bat[BlockOf(i, st.geo.blockSize)];
    if e == FREE then base[i] else st.data[DataStart(st.geo, e) + Within(i, st.geo.blockSize)]
  }

  ghost function View(st: Store, base: seq<byte>): (v: seq<byte>)
    requires Placed(st) && |base| == st.geo.size
  {
    seq(st.geo.size, i requires 0 <= i < st.geo.size => ByteAt(st, base, i))
  }

  /** A run of bytes inside one allocated block. */
  predicate InBlock(st: Store, off: nat, n: nat)
    requires Placed(st)
  {
    hide Covers, Addressable, BitmapSectors, TableSize, Apart, BlockFits, BlockOf, BlockStart;
    && BlockOf(off, st.geo.blockSize) < st.geo.entries
    && st.bat[BlockOf(off, st.geo.blockSize)] != FREE
    && off + n <= BlockStart(BlockOf(off, st.geo.blockSize), st.geo.blockSize) + st.geo.blockSize
  }

  /** Where in the file the byte `off` of an allocated block is. */
  function FileOffset(st: Store, off: nat): nat
    requires Placed(st) && InBlock(st, off, 0)
  {
    hide Covers, Addressable, BitmapSectors, TableSize, Apart, BlockFits, BlockOf, BlockStart;
    DataStart(st.geo, st.bat[BlockOf(off, st.geo.blockSize)]) + Within(off, st.geo.blockSize)
  }

  lemma RunFits(st: Store, off: nat, n: nat)
    requires Placed(st) && InBlock(st, off, n)
    ensures InBlock(st, off, 0)
    ensures BatEnd(st.geo) <= FileOffset(st, off)
    ensures FileOffset(st, off) + n + FOOTER_SIZE <= |st.data|
  {
    hide Covers, Addressable, BitmapSectors, TableSize, Apart, BlockOf, BlockStart, Within;
    BlockOfFacts(off, st.geo.blockSize);
    assert BlockFits(st.geo, st.bat[BlockOf(off, st.geo.blockSize)], |st.data|);
  }

  lemma OverwritePlaced(st: Store, off: nat, buf: seq<byte>)
    requires Placed(st) && InBlock(st, off, |buf|) && InBlock(st, off, 0)
    ensures Placed(st.(data := WriteAt(st.data, FileOffset(st, off), buf)))
    ensures |WriteAt(st.data, FileOffset(st, off), buf)| == |st.data|
  {
    hide Covers, Addressable, BitmapSectors, TableSize, Apart, FileOffset, DataStart;
    RunFits(st, off, |buf|);
  }

  lemma OverwriteByte(st: Store, st': Store, base: seq<byte>, off: nat, buf: seq<byte>, i: nat)
    requires Placed(st) && InBlock(st, off, |buf|) && InBlock(st, off, 0)
    requires st' == st.(data := WriteAt(st.data, FileOffset(st, off), buf))
    requires Placed(st')
    requires |base| == st.geo.size && i < st.geo.size
    ensures ByteAt(st', base, i) ==
            if off <= i < off + |buf| then buf[i - off] else ByteAt(st, base, i)
  {
    hide Covers, Addressable, BitmapSectors, TableSize, BlockOf, BlockStart, Within;
    var g, d := st.geo, st.geo.blockSize;
    var b, c := BlockOf(off, d), BlockOf(i, d);
    BlockInTable(g, i);
    BlockOfFacts(off, d);
    BlockOfFacts(i, d);
    RunFits(st, off, |buf|);
    assert BlockFits(g, st.bat[b], |st.data|);
    if c != b {
      if off <= i < off + |buf| {
        BlockIs(i, b, d);
        assert false;
      }
      if st.bat[c] != FREE {
        assert BlockFits(g, st.bat[c], |st.data|);
        assert Apart(g, st.bat[b], st.bat[c]) || Apart(g, st.bat[c], st.bat[b]);
      }
    }
  }

  /** Overwriting part of an allocated block patches the view in that place only. */
  lemma OverwriteView(st: Store, base: seq<byte>, off: nat, buf: seq<byte>)
    requires Placed(st) && InBlock(st, off, |buf|) && InBlock(st, off, 0) && |base| == st.geo.size
    ensures var st' := st.(data := WriteAt(st.data, FileOffset(st, off), buf));
      Placed(st') && View(st', base) == Patch(View(st, base), off, buf)
  {
    hide Placed, InBlock, FileOffset, ByteAt;
    OverwritePlaced(st, off, buf);
    var st' := st.(data := WriteAt(st.data, FileOffset(st, off), buf));
    forall i: nat | i < st.geo.size
      ensures ByteAt(st', base, i) ==
              if off <= i < off + |buf| then buf[i - off] else ByteAt(st, base, i)
    {
      OverwriteByte(st, st', base, off, buf, i);
    }
  }

  /** `m` bytes at `off` that lie in one block of the table. */
  predicate Piece(st: Store, off: nat, m: nat)
    requires Placed(st)
  {
    hide Covers, Addressable, BitmapSectors, TableSize, Apart, BlockFits, BlockOf, BlockStart, InBlock;
    var d := st.geo.blockSize;
    var b := BlockOf(off, d);
    && 0 < d && b < st.geo.entries <= |st.bat|
    && 0 < m && off + m <= BlockStart(b, d) + d
    && (st.bat[b] != FREE ==> InBlock(st, off, m) && InBlock(st, off, 0))
  }

  lemma TableEdge(n: nat, d: nat, off: nat)
    requires 0 < d && off <= n * d && n < 0x1_0000_0000
    ensures BlockNumber(off, d) == BlockOf(off, d) <= n
    ensures BlockOf(off, d) == n <==> off == n * d
  {
    var q := off / d;
    DivBounds(off, d);
    if n < q {
      MulMono(n + 1, q, d);
      assert false;
    }
    if off == n * d {
      DivUnique(off, n, d);
    }
  }

  /** Only an offset behind the last block has no entry in the table. */
  lemma BehindTable(st: Store, off: nat)
    requires Placed(st) && off <= Capacity(st.geo)
    ensures 0 < st.geo.blockSize
    ensures BlockNumber(off, st.geo.blockSize) >= st.geo.entries <==> off == Capacity(st.geo)
  {
    hide Addressable, Covers, BitmapSectors, Apart, BlockFits, TableSize, BatEnd, BlockNumber, BlockOf;
    TableEdge(st.geo.entries, st.geo.blockSize, off);
  }

  lemma CoversDisk(st: Store)
    requires Placed(st)
    ensures st.geo.size <= Capacity(st.geo) && 0 < st.geo.blockSize
  {
    hide BitmapSectors, Apart, BlockFits, TableSize;
    DivBounds(st.geo.size + st.geo.blockSize - 1, st.geo.blockSize);
  }

  lemma BlockBounds(st: Store, b: nat)
    requires Placed(st) && b < st.geo.entries
    ensures BlockStart(b, st.geo.blockSize) < st.geo.size
    ensures BlockStart(b, st.geo.blockSize) + st.geo.blockSize <= Capacity(st.geo)
    ensures 0 < st.geo.blockSize < 0x1_0000_0000
  {
    hide BitmapSectors, Apart, BlockFits, TableSize;
    BlockStarts(st.geo, b);
  }

  /** The bytes of a transfer inside the table that go to its first block are such a piece. */
  lemma FirstPiece(st: Store, off: nat, n: nat)
    requires Placed(st) && 0 < n && off < Capacity(st.geo)
    ensures var d := st.geo.blockSize;
      var m := BytesInBlock(off, n, d);
      && BlockNumber(off, d) == BlockOf(off, d)
      && m <= n && Piece(st, off, m) && off + m <= Capacity(st.geo)
      && (m < n ==> off + m == BlockStart(BlockOf(off, d), d) + d)
  {
    hide Covers, Addressable, BitmapSectors, TableSize, Apart, BlockFits, BlockNumber, BytesInBlock, BlockOf,
      BlockStart;
    var g, d := st.geo, st.geo.blockSize;
    TableEdge(g.entries, d, off);
    hide Capacity;
    BlockBounds(st, BlockOf(off, d));
    BytesInBlockExact(off, n, d);
    BlockOfFacts(off, d);
  }

  /** A free block shows what lies under it. */
  lemma FreeShowsBase(st: Store, base: seq<byte>, b: nat)
    requires Placed(st) && |base| == st.geo.size
    requires b < st.geo.entries && st.bat[b] == FREE
    ensures var d := st.geo.blockSize;
      forall i :: BlockStart(b, d) <= i < BlockStart(b, d) + d && i < st.geo.size ==>
        View(st, base)[i] == base[i]
  {
    hide Covers, Addressable, BitmapSectors, TableSize, Apart, BlockFits, BlockOf, BlockStart, Within;
    var d := st.geo.blockSize;
    forall i | BlockStart(b, d) <= i < BlockStart(b, d) + d && i < st.geo.size
      ensures View(st, base)[i] == base[i]
    {
      BlockIs(i, b, d);
    }
  }

  /** A run inside an allocated block shows the bytes of the file there. */
  lemma BlockShowsFile(st: Store, base: seq<byte>, off: nat, n: nat)
    requires Placed(st) && InBlock(st, off, n) && InBlock(st, off, 0) && |base| == st.geo.size
    ensures FileOffset(st, off) + n <= |st.data|
    ensures forall i :: off <= i < off + n && i < st.geo.size ==>
      View(st, base)[i] == st.data[FileOffset(st, off) + i - off]
  {
    hide Covers, Addressable, BitmapSectors, TableSize, Apart, BlockOf, BlockStart, Within;
    var d := st.geo.blockSize;
    RunFits(st, off, n);
    BlockOfFacts(off, d);
    forall i | off <= i < off + n && i < st.geo.size
      ensures View(st, base)[i] == st.data[FileOffset(st, off) + i - off]
    {
      BlockIs(i, BlockOf(off, d), d);
    }
  }

  // ----- allocation -----

  lemma RoundUpAbove(x: nat)
    ensures x <= RoundUp4K(x)
  {
  }

  /** Where the bitmap of a new block goes in a file of this length: both alignment branches. */
  function NewBlockAt(g: Geometry, length: nat): nat
    requires FOOTER_SIZE <= length
  {
    var end := length - FOOTER_SIZE;
    if end % 4096 == 0 then end + Max(4096, BitmapSize(g)) - BitmapSize(g)
    else
      RoundUpAbove(end + BitmapSize(g));
      RoundUp4K(end + BitmapSize(g)) - BitmapSize(g)
  }

  lemma RoundSectors(x: nat)
    requires x % 512 == 0
    ensures RoundUp4K(x) % 4096 == 0
    ensures x <= RoundUp4K(x) <= x + 3584
  {
  }

  /** The block lies behind everything there is, its data is aligned, the growth is bounded. */
  lemma NewBlockFacts(g: Geometry, length: nat)
    requires GeometryOk(g) && IsPow2(g.blockSize)
    requires FOOTER_SIZE <= length && length % 512 == 0
    ensures var s := NewBlockAt(g, length);
      && s % 512 == 0
      && length - FOOTER_SIZE <= s
      && (s + BitmapSize(g)) % 4096 == 0
      && s + BitmapSize(g) + g.blockSize + FOOTER_SIZE <= length + Growth(g)
  {
    hide IsPow2, Covers, Addressable, BitmapSize, RoundUp4K;
    BitmapFacts(g);
    BitmapAligned(g);
    var m, end := BitmapSize(g), length - FOOTER_SIZE;
    Sectors(length, FOOTER_SIZE);
    if end % 4096 == 0 {
      Pages(end, Max(4096, m));
      PageIsSectors(end + Max(4096, m));
      Sectors(end + Max(4096, m), m);
    } else {
      Sectors(end, m);
      RoundSectors(end + m);
      PageIsSectors(RoundUp4K(end + m));
      Sectors(RoundUp4K(end + m), m);
    }
  }

  /** The sector number of a new block never reaches the free mark, so 32 bits hold it. */
  lemma NewEntryFits(st: Store, b: nat)
    requires Placed(st) && Bounded(st) && IsPow2(st.geo.blockSize)
    requires b < st.geo.entries && st.bat[b] == FREE
    ensures NewBlockAt(st.geo, |st.data|) / 512 < FREE
  {
    hide IsPow2, Covers, BitmapSectors, NewBlockAt, Used, Apart, BlockFits, Growth, BatEnd;
    var g := st.geo;
    NewBlockFacts(g, |st.data|);
    UsedUpdate(st.bat, g.entries, b, 0);
    var k := Used(st.bat, g.entries);
    assert k + 1 <= g.entries;
    MulMono(k + 1, g.entries, Growth(g));
    assert (k + 1) * Growth(g) == k * Growth(g) + Growth(g);
  }

  /** `st` with block `b` placed at `s` and the file lengthened to hold it. */
  predicate Extends(st: Store, b: nat, st': Store)
    requires Placed(st)
  {
    var g, s := st.geo, NewBlockAt(st.geo, |st.data|);
    && b < g.entries && st.bat[b] == FREE
    && s / 512 < FREE && |st.data| <= s + FOOTER_SIZE
    && st'.geo == g
    && st'.bat == st.bat[b := s / 512]
    && |st'.data| == s + BitmapSize(g) + g.blockSize + FOOTER_SIZE
  }

  /** The old blocks keep their bytes and the data of the new block is zero. */
  predicate KeepsBlocks(st: Store, st': Store)
    requires FOOTER_SIZE <= |st.data| <= |st'.data|
    requires NewBlockAt(st.geo, |st.data|) + BitmapSize(st.geo) + st.geo.blockSize <= |st'.data|
  {
    var at := NewBlockAt(st.geo, |st.data|) + BitmapSize(st.geo);
    && (forall k :: BatEnd(st.geo) <= k < |st.data| - FOOTER_SIZE ==> st'.data[k] == st.data[k])
    && (forall k :: at <= k < at + st.geo.blockSize ==> st'.data[k] == 0)
  }

  /** The new block fits the longer file and keeps clear of every block there was. */
  lemma NewBlockApart(st: Store, b: nat, st': Store, e: uint32)
    requires Placed(st) && IsPow2(st.geo.blockSize) && Extends(st, b, st')
    requires e == NewBlockAt(st.geo, |st.data|) / 512
    ensures |st'.data| % 512 == 0
    ensures BlockFits(st.geo, e, |st'.data|)
    ensures forall c :: 0 <= c < st.geo.entries && st.bat[c] != FREE ==>
      && BlockFits(st.geo, st.bat[c], |st'.data|)
      && Apart(st.geo, st.bat[c], e) && Apart(st.geo, e, st.bat[c])
  {
    hide IsPow2, Covers, Addressable, BitmapSectors, NewBlockAt, BatEnd, TableSize;
    var g, s := st.geo, NewBlockAt(st.geo, |st.data|);
    NewBlockFacts(g, |st.data|);
    BitmapFacts(g);
    assert 512 * e == s && DataStart(g, e) == s + BitmapSize(g);
    PageIsSectors(s + BitmapSize(g));
    Sectors(g.blockSize, FOOTER_SIZE);
    Sectors(s + BitmapSize(g), g.blockSize + FOOTER_SIZE);
    forall c | 0 <= c < g.entries && st.bat[c] != FREE
      ensures BlockFits(g, st.bat[c], |st'.data|) && Apart(g, st.bat[c], e) && Apart(g, e, st.bat[c])
    {
      assert BlockFits(g, st.bat[c], |st.data|);
    }
  }

  lemma AllocateBounded(st: Store, b: nat, st': Store)
    requires Placed(st) && Bounded(st) && IsPow2(st.geo.blockSize) && Extends(st, b, st')
    requires Placed(st')
    ensures Bounded(st')
    ensures Used(st'.bat, st.geo.entries) == Used(st.bat, st.geo.entries) + 1
  {
    hide IsPow2, Covers, Addressable, BitmapSectors, NewBlockAt, BatEnd, Growth, Used, Apart, BlockFits;
    var g := st.geo;
    NewBlockFacts(g, |st.data|);
    UsedUpdate(st.bat, g.entries, b, NewBlockAt(g, |st.data|) / 512);
    var k := Used(st.bat, g.entries);
    assert (k + 1) * Growth(g) == k * Growth(g) + Growth(g);
  }

  lemma AllocatePlaced(st: Store, b: nat, st': Store)
    requires Placed(st) && Bounded(st) && IsPow2(st.geo.blockSize) && Extends(st, b, st')
    ensures Placed(st') && Bounded(st')
    ensures Used(st'.bat, st.geo.entries) == Used(st.bat, st.geo.entries) + 1
  {
    assert Placed(st') by {
      hide IsPow2, Covers, Addressable, BitmapSize, NewBlockAt, BatEnd, Apart, BlockFits, Bounded;
      NewBlockApart(st, b, st', NewBlockAt(st.geo, |st.data|) / 512);
      NewBlockFacts(st.geo, |st.data|);
    }
    AllocateBounded(st, b, st');
  }

  lemma AllocateByte(st: Store, b: nat, st': Store, base: seq<byte>, i: nat)
    requires Placed(st) && Extends(st, b, st') && Placed(st') && |base| == st.geo.size
    requires KeepsBlocks(st, st') && NewBlockAt(st.geo, |st.data|) % 512 == 0
    requires i < st.geo.size
    ensures ByteAt(st', base, i) ==
            if BlockStart(b, st.geo.blockSize) <= i < BlockStart(b, st.geo.blockSize) + st.geo.blockSize
            then 0 else ByteAt(st, base, i)
  {
    hide Covers, Addressable, BitmapSectors, NewBlockAt, BatEnd, Apart, BlockOf, BlockStart, Within;
    var g, d := st.geo, st.geo.blockSize;
    BlockInTable(g, i);
    BlockOfFacts(i, d);
    if BlockStart(b, d) <= i < BlockStart(b, d) + d {
      BlockIs(i, b, d);
      assert DataStart(g, st'.bat[b]) == NewBlockAt(g, |st.data|) + BitmapSize(g);
    } else if st.bat[BlockOf(i, d)] != FREE {
      assert BlockFits(g, st.bat[BlockOf(i, d)], |st.data|);
    }
  }

  /** A new zeroed block shows zeros; everything else shows what it showed. */
  lemma AllocateView(st: Store, b: nat, st': Store, base: seq<byte>)
    requires Placed(st) && Extends(st, b, st') && Placed(st') && |base| == st.geo.size
    requires KeepsBlocks(st, st') && NewBlockAt(st.geo, |st.data|) % 512 == 0
    ensures View(st', base) ==
            Patch(View(st, base), BlockStart(b, st.geo.blockSize), Fill(st.geo.blockSize, 0))
  {
    hide Placed, KeepsBlocks, NewBlockAt, ByteAt, BlockStart;
    var d := st.geo.blockSize;
    forall i: nat | i < st.geo.size
      ensures ByteAt(st', base, i) ==
              if BlockStart(b, d) <= i < BlockStart(b, d) + d then 0 else ByteAt(st, base, i)
    {
      AllocateByte(st, b, st', base, i);
    }
  }

  // ----- tables that agree, fresh tables, merged tables -----

  /** The padding of the table is never looked at. */
  lemma SameTable(st: Store, st': Store, base: seq<byte>)
    requires Placed(st) && |base| == st.geo.size
    requires st'.geo == st.geo && st'.data == st.data && |st'.bat| == |st.bat|
    requires forall b :: 0 <= b < st.geo.entries ==> b < |st.bat| && st'.bat[b] == st.bat[b]
    ensures Placed(st') && View(st', base) == View(st, base)
    ensures Bounded(st) ==> Bounded(st')
  {
    assert Placed(st') by {
      hide Covers, Addressable, BitmapSectors, TableSize, Apart, BlockFits;
    }
    assert st.geo.entries <= |st.bat|;
    hide Covers, Addressable, BitmapSectors, TableSize, Apart, BlockFits, BlockOf, Within;
    forall i: nat | i < st.geo.size
      ensures ByteAt(st', base, i) == ByteAt(st, base, i)
    {
      BlockInTable(st.geo, i);
    }
    SameUsed(st.bat, st'.bat, st.geo.entries);
  }

  lemma {:induction false} SameUsed(bat: seq<uint32>, bat': seq<uint32>, n: nat)
    requires n <= |bat| == |bat'|
    requires forall b :: 0 <= b < n ==> bat[b] == bat'[b]
    ensures Used(bat, n) == Used(bat', n)
  {
    if n > 0 {
      SameUsed(bat, bat', n - 1);
    }
  }

  lemma {:induction false} NoneUsed(bat: seq<uint32>, n: nat)
    requires n <= |bat|
    requires forall b :: 0 <= b < n ==> bat[b] == FREE
    ensures Used(bat, n) == 0
  {
    if n > 0 {
      NoneUsed(bat, n - 1);
    }
  }

  /** A disk without allocated blocks shows what lies under it. */
  lemma UnallocatedView(st: Store, base: seq<byte>)
    requires Placed(st) && |base| == st.geo.size
    requires st.geo.entries <= |st.bat| && forall b :: 0 <= b < st.geo.entries ==> st.bat[b] == FREE
    ensures View(st, base) == base
  {
    hide Covers, Addressable, BitmapSectors, TableSize, Apart, BlockFits, BlockOf, Within;
    forall i: nat | i < st.geo.size
      ensures ByteAt(st, base, i) == base[i]
    {
      BlockInTable(st.geo, i);
    }
  }

  lemma UnallocatedPlaced(st: Store)
    requires GeometryOk(st.geo) && 4 * |st.bat| == TableSize(st.geo.entries)
    requires st.geo.entries <= |st.bat| && forall b :: 0 <= b < st.geo.entries ==> st.bat[b] == FREE
    requires |st.data| == BatEnd(st.geo) + FOOTER_SIZE
    ensures Placed(st) && Bounded(st)
  {
    hide Covers, Addressable, BitmapSectors, Apart, BlockFits;
    NoneUsed(st.bat, st.geo.entries);
    Sectors(st.geo.tableOffset, TableSize(st.geo.entries));
    Sectors(BatEnd(st.geo), FOOTER_SIZE);
  }

  lemma FreePlaced(st: Store, b: nat)
    requires Placed(st) && b < |st.bat|
    ensures Placed(st.(bat := st.bat[b := FREE]))
  {
    hide Covers, Addressable, BitmapSectors, TableSize, Apart, BlockFits, BlockStart, View;
  }

  /** Freeing a block whose bytes the parent has received leaves the view unchanged. */
  lemma MergeView(st: Store, base: seq<byte>, b: nat, data: seq<byte>)
    requires Placed(st) && |base| == st.geo.size && b < st.geo.entries <= |st.bat|
    requires BlockStart(b, st.geo.blockSize) < st.geo.size
    requires |data| == Min(st.geo.blockSize, st.geo.size - BlockStart(b, st.geo.blockSize))
    requires forall k :: 0 <= k < |data| ==> data[k] == View(st, base)[BlockStart(b, st.geo.blockSize) + k]
    ensures var st' := st.(bat := st.bat[b := FREE]);
      && Placed(st')
      && View(st', Patch(base, BlockStart(b, st.geo.blockSize), data)) == View(st, base)
  {
    var d := st.geo.blockSize;
    var st' := st.(bat := st.bat[b := FREE]);
    FreePlaced(st, b);
    var start := BlockStart(b, d);
    var base' := Patch(base, start, data);
    forall i: nat | i < st.geo.size
      ensures ByteAt(st', base', i) == ByteAt(st, base, i)
    {
      MergeByte(st, base, b, data, i);
    }
  }

  lemma MergeByte(st: Store, base: seq<byte>, b: nat, data: seq<byte>, i: nat)
    requires Placed(st) && |base| == st.geo.size && b < st.geo.entries <= |st.bat| && i < st.geo.size
    requires BlockStart(b, st.geo.blockSize) < st.geo.size
    requires |data| == Min(st.geo.blockSize, st.geo.size - BlockStart(b, st.geo.blockSize))
    requires forall k :: 0 <= k < |data| ==> data[k] == View(st, base)[BlockStart(b, st.geo.blockSize) + k]
    requires Placed(st.(bat := st.bat[b := FREE]))
    ensures ByteAt(st.(bat := st.bat[b := FREE]), Patch(base, BlockStart(b, st.geo.blockSize), data), i) ==
            ByteAt(st, base, i)
  {
    hide Covers, Addressable, BitmapSectors, TableSize, Apart, BlockFits, BlockOf, BlockStart, Within;
    var d := st.geo.blockSize;
    BlockInTable(st.geo, i);
    BlockOfFacts(i, d);
    var start := BlockStart(b, d);
    if start <= i < start + d {
      BlockIs(i, b, d);
      assert data[i - start] == View(st, base)[start + (i - start)];
    } else {
      assert BlockOf(i, d) != b;
    }
  }

  // ----- the capacity bound -----

  /**
   * A disk of up to 2040 GB stays addressable whatever the order of its allocations, for every
   * block size that is a multiple of the default, with the table at either place the creators put it.
   */
  lemma CapacityBound(size: nat, blockSize: nat, tableOffset: nat)
    requires size % 512 == 0 && size <= 0x4000_0000 * 2040
    requires 0 < blockSize < 0x1_0000_0000 && blockSize % 0x20_0000 == 0
    requires tableOffset % 512 == 0 && FOOTER_SIZE + HEADER_SIZE <= tableOffset <= 4096
    ensures GeometryOk(Geometry(size, blockSize, (size + blockSize - 1) / blockSize, tableOffset))
  {
    var n := (size + blockSize - 1) / blockSize;
    var g := Geometry(size, blockSize, n, tableOffset);
    EntryBound(size, blockSize);
    BitmapOf(blockSize);
    hide BitmapSectors;
    var m := blockSize / 4096;
    assert blockSize == 4096 * m by { assert blockSize == 0x20_0000 * (blockSize / 0x20_0000); }
    GrowthSum(n, m);
    assert TableSize(n) <= 4 * n + 511;
  }

  lemma EntryBound(size: nat, blockSize: nat)
    requires size <= 0x4000_0000 * 2040 && 0x20_0000 <= blockSize
    ensures var n := (size + blockSize - 1) / blockSize;
      n <= 1044480 && n * blockSize < size + blockSize
  {
    var n := (size + blockSize - 1) / blockSize;
    DivBounds(size + blockSize - 1, blockSize);
    assert (n - 1) * blockSize == n * blockSize - blockSize < size;
    assert 1044480 * 0x20_0000 <= 1044480 * blockSize;
    if n > 1044480 {
      MulMono(1044480, n - 1, blockSize);
      assert false;
    }
  }

  lemma GrowthSum(n: nat, m: nat)
    ensures n * (4096 * m + m + 3584) == n * (4096 * m) + n * m + n * 3584
    ensures n * (4096 * m) == 4096 * (n * m)
  {
  }
}
