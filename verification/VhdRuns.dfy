/** Whole runs of a disk: sequences of writes, the reopen that follows, and merging into a parent. */
module VirtualDiskRuns {
  import opened Arithmetic
  import opened Bytes
  import opened HostFiles
  import opened VhdLayout
  import opened VhdTable
  import opened VhdFormat
  import opened VirtualDisks
  import opened VirtualDiskFiles

  datatype WriteOp = WriteOp(off: nat, buf: seq<byte>)

  /** The flat disk after a sequence of writes. */
  function AfterWrites(v: seq<byte>, ops: seq<WriteOp>): (r: seq<byte>)
    ensures |r| == |v|
  {
    if ops == [] then v
    else Patch(AfterWrites(v, ops[..|ops| - 1]), ops[|ops| - 1].off, ops[|ops| - 1].buf)
  }

  predicate Inside(ops: seq<WriteOp>, size: nat) {
    forall op :: op in ops ==> op.off < size && op.off + |op.buf| <= size && |op.buf| < 0x1_0000_0000
  }

  lemma NoWrites(v: seq<byte>)
    ensures AfterWrites(v, []) == v
  {
  }

  lemma OneMoreWrite(v: seq<byte>, ops: seq<WriteOp>, i: nat)
    requires i < |ops|
    ensures AfterWrites(v, ops[..i + 1]) == Patch(AfterWrites(v, ops[..i]), ops[i].off, ops[i].buf)
  {
    assert ops[..i + 1][..i] == ops[..i];
  }

  /** Any run of writes behaves as on a flat array, and leaves the file fit to be opened again. */
  method RunWrites(d: Vhd, ops: seq<WriteOp>)
    requires d.Valid() && d.Roomy() && d.Serves() && Inside(ops, d.Size())
    modifies d.file, d.bat
    ensures d.Valid() && d.Roomy()
    ensures d.View() == AfterWrites(old(d.View()), ops)
    ensures old(d.OnDisk()) ==> d.OnDisk()
    ensures old(d.AllMarked()) ==> d.AllMarked()
  {
    hide Vhd.Valid, Vhd.View, Vhd.Roomy, Vhd.OnDisk, Vhd.AllMarked, Vhd.InTable, AfterWrites;
    var i := 0;
    assert AfterWrites(d.View(), ops[..0]) == d.View() by { NoWrites(d.View()); }
    while i < |ops|
      invariant i <= |ops| && d.Valid() && d.Roomy()
      invariant d.View() == AfterWrites(old(d.View()), ops[..i])
      invariant old(d.OnDisk()) ==> d.OnDisk()
      invariant old(d.AllMarked()) ==> d.AllMarked()
    {
      assert ops[i] in ops;
      var status, n := d.Write(ops[i].buf, ops[i].off);
      OneMoreWrite(old(d.View()), ops, i);
      i := i + 1;
    }
    assert ops[..i] == ops;
  }

  /** A session: writes, close, open. The new handle shows what the writes made of the disk. */
  method Session(d: Vhd, ops: seq<WriteOp>, stamp: uint32, errno: int) returns (e: Vhd?)
    requires d.Valid() && d.Roomy() && d.Serves() && d.OnDisk() && Proper(d) && KnowsParent(d, stamp)
    requires Inside(ops, d.Size())
    modifies d.file, d.bat
    ensures e != null && fresh(e) && fresh(e.bat) && e.OwnRepr() && SameDisk(d, e) && e.Size() == d.Size()
    ensures e.Valid() && e.Roomy() && e.Serves() && e.OnDisk() && Proper(e) && KnowsParent(e, stamp)
    ensures e.View() == AfterWrites(old(d.View()), ops)
    ensures old(d.AllMarked()) ==> e.AllMarked()
  {
    hide Proper, KnowsParent, Vhd.Valid, Vhd.View, Vhd.Roomy, Vhd.OnDisk, Vhd.AllMarked, Vhd.Serves,
      AfterWrites, Inside;
    RunWrites(d, ops);
    e := Reopen(d, stamp, errno);
    SameDiskSame(d, e, stamp);
  }

  /** The writes of all sessions, one after the other. */
  function AllWrites(sessions: seq<seq<WriteOp>>): seq<WriteOp> {
    if sessions == [] then [] else AllWrites(sessions[..|sessions| - 1]) + sessions[|sessions| - 1]
  }

  lemma {:induction false} WritesAppend(v: seq<byte>, a: seq<WriteOp>, b: seq<WriteOp>)
    ensures AfterWrites(v, a + b) == AfterWrites(AfterWrites(v, a), b)
    decreases |b|
  {
    hide Patch;
    if b == [] {
      assert a + b == a;
    } else {
      assert (a + b)[..|a + b| - 1] == a + b[..|b| - 1];
      WritesAppend(v, a, b[..|b| - 1]);
    }
  }

  lemma OneMoreSession(v: seq<byte>, sessions: seq<seq<WriteOp>>, i: nat)
    requires i < |sessions|
    ensures AfterWrites(v, AllWrites(sessions[..i + 1])) ==
            AfterWrites(AfterWrites(v, AllWrites(sessions[..i])), sessions[i])
  {
    assert sessions[..i + 1][..i] == sessions[..i];
    WritesAppend(v, AllWrites(sessions[..i]), sessions[i]);
  }

  /** Any number of sessions: the last handle shows what all their writes made of the disk. */
  method RunSessions(d: Vhd, sessions: seq<seq<WriteOp>>, stamp: uint32, errno: int) returns (e: Vhd)
    requires d.Valid() && d.Roomy() && d.Serves() && d.OnDisk() && Proper(d) && KnowsParent(d, stamp)
    requires forall ops :: ops in sessions ==> Inside(ops, d.Size())
    modifies d.file, d.bat
    ensures SameDisk(d, e) && e.Size() == d.Size() && (e == d || (fresh(e) && fresh(e.bat) && e.OwnRepr()))
    ensures e.Valid() && e.Roomy() && e.Serves() && e.OnDisk() && Proper(e) && KnowsParent(e, stamp)
    ensures e.View() == AfterWrites(old(d.View()), AllWrites(sessions))
    ensures old(d.AllMarked()) ==> e.AllMarked()
  {
    hide Proper, KnowsParent, Vhd.Valid, Vhd.View, Vhd.Roomy, Vhd.OnDisk, Vhd.AllMarked, Vhd.Serves, AfterWrites,
      AllWrites, Inside;
    ghost var view := d.View();
    e := d;
    NoSessions(view);
    var i := 0;
    while i < |sessions|
      invariant i <= |sessions| && (e == d || (fresh(e) && fresh(e.bat) && e.OwnRepr()))
      invariant SameDisk(d, e) && e.Size() == d.Size()
      invariant e.Valid() && e.Roomy() && e.Serves() && e.OnDisk() && Proper(e) && KnowsParent(e, stamp)
      invariant e.View() == AfterWrites(view, AllWrites(sessions[..i]))
      invariant old(d.AllMarked()) ==> e.AllMarked()
    {
      assert sessions[i] in sessions;
      OneMoreSession(view, sessions, i);
      e := Session(e, sessions[i], stamp, errno);
      i := i + 1;
    }
    assert sessions[..i] == sessions;
  }

  lemma NoSessions(v: seq<byte>)
    ensures AfterWrites(v, AllWrites([])) == v
  {
  }

  // ----- merging -----

  /** The sectors of block `b` that lie on the disk: the last block may be clipped. */
  function BlockSectors(b: nat, perBlock: nat, sectors: nat): nat
  {
    if b * perBlock + perBlock > sectors then (sectors - b * perBlock) % 0x1_0000_0000 else perBlock
  }

  lemma BlockSectorsExact(st: Store, b: nat)
    requires Placed(st) && b < st.geo.entries
    ensures var d, size := st.geo.blockSize, st.geo.size;
      var k := BlockSectors(b, d / 512, size / 512);
      && 512 * (d / 512 * b) == BlockStart(b, d) < size
      && 512 * k == Min(d, size - BlockStart(b, d)) <= d
      && d / 512 * b < 0x1_0000_0000
  {
    BlockBounds(st, b);
    AddressableSize(st);
    assert st.geo.blockSize % 0x20_0000 == 0 && st.geo.size % 512 == 0 by {
      hide Covers, Addressable, BitmapSectors, Apart, BlockFits, TableSize;
    }
    hide Placed;
    ClippedBlock(st.geo.blockSize, st.geo.size, b);
  }

  lemma ClippedBlock(blockSize: nat, size: nat, b: nat)
    requires 0 < blockSize < 0x1_0000_0000 && blockSize % 0x20_0000 == 0 && size % 512 == 0
    requires BlockStart(b, blockSize) < size < 0x200_0000_0000
    ensures var k := BlockSectors(b, blockSize / 512, size / 512);
      && 512 * (blockSize / 512 * b) == BlockStart(b, blockSize)
      && 512 * k == Min(blockSize, size - BlockStart(b, blockSize))
      && blockSize / 512 * b < 0x1_0000_0000
  {
    var p, s := blockSize / 512, size / 512;
    assert blockSize == 512 * p by { assert blockSize == 0x20_0000 * (blockSize / 0x20_0000); }
    var q := b * p;
    assert BlockStart(b, blockSize) == 512 * q by { Scaled(b, p); }
    assert p * b == q;
    hide BlockStart;
    assert 0 < s - q < 0x1_0000_0000;
    assert BlockSectors(b, p, s) == if q + p > s then s - q else p;
  }

  lemma Scaled(b: nat, p: nat)
    ensures b * (512 * p) == 512 * (b * p)
  {
  }

  lemma AddressableSize(st: Store)
    requires Placed(st)
    ensures st.geo.size < 0x200_0000_0000
  {
    hide BitmapSectors, Apart, BlockFits, TableSize;
    CoversDisk(st);
    var g := st.geo;
    assert g.entries * g.blockSize <= g.entries * Growth(g) by {
      assert g.blockSize <= Growth(g);
      MulMono(g.blockSize, Growth(g), g.entries);
    }
  }

  /** The buffer for a block, whose size is a 32-bit product, has room for a block. */
  predicate BufferHolds(blockSize: nat) {
    blockSize <= blockSize * 512 % 0x1_0000_0000
  }

  /** Of the block sizes that reading and writing serve, only those below 8 MB fit the buffer. */
  lemma SmallBlocksFit(blockSize: nat)
    requires IsPow2(blockSize) && blockSize < 0x1_0000_0000
    ensures BufferHolds(blockSize) <==> blockSize < 0x80_0000
  {
    hide IsPow2;
    Pow2At8M();
    if blockSize >= 0x80_0000 {
      Pow2Divides(0x80_0000, blockSize);
      NoRoom(blockSize);
    }
  }

  lemma NoRoom(blockSize: nat)
    requires blockSize % 0x80_0000 == 0
    ensures blockSize * 512 % 0x1_0000_0000 == 0
  {
    var q := blockSize / 0x80_0000;
    assert blockSize == 0x80_0000 * q;
    assert blockSize * 512 == 0x1_0000_0000 * q;
  }

  lemma Pow2At8M()
    ensures IsPow2(0x80_0000)
  {
    Pow2At16M();
  }

  /**
   * Merges a differencing disk into its parent, block by block. Every step leaves what the child
   * shows unchanged, so at the end the parent shows what the child showed at the beginning.
   */
  method Merge(child: Vhd) returns (status: Status)
    requires child.Valid() && Proper(child) && child.parent != null && child.parent.Roomy()
    requires BufferHolds(child.Geo().blockSize)
    modifies child.bat, child.parent.file, child.parent.bat
    ensures status == Ok
    ensures child.Valid() && child.View() == old(child.View())
    ensures child.parent.Valid() && child.parent.Roomy() && child.parent.View() == old(child.View())
    ensures old(child.parent.OnDisk()) ==> child.parent.OnDisk()
    ensures old(child.parent.AllMarked()) ==> child.parent.AllMarked()
  {
    hide IsPow2, Capacity, CurrentSize, DiskType, TableOffset, MaxTableEntries, BlockSize, Placed,
      VhdLayout.View, Proper, BlockStart;
    var parent := child.parent;
    var n := MaxTableEntries(child.header);
    InFile(child.Stored());
    var b := 0;
    status := Ok;
    while b < n && status == Ok
      invariant b <= n && status == Ok && child.Valid() && parent.Roomy()
      invariant n <= child.bat.Length
      invariant child.View() == old(child.View())
      invariant forall c :: 0 <= c < b ==> child.bat[c] == FREE
      invariant old(parent.OnDisk()) ==> parent.OnDisk()
      invariant old(parent.AllMarked()) ==> parent.AllMarked()
    {
      if child.bat[b] != FREE {
        status := MergeBlock(child, b);
      }
      b := b + 1;
    }
    UnallocatedView(child.Stored(), child.Base());
  }

  /** A whole block, or the start of one, as the file has it. */
  lemma BlockRun(st: Store, base: seq<byte>, b: nat, n: nat)
    requires Placed(st) && |base| == st.geo.size && b < st.geo.entries <= |st.bat|
    requires st.bat[b] != FREE && 0 < n <= st.geo.blockSize
    requires BlockStart(b, st.geo.blockSize) + n <= st.geo.size
    ensures DataStart(st.geo, st.bat[b]) + n <= |st.data|
    ensures |View(st, base)| == st.geo.size
    ensures st.data[DataStart(st.geo, st.bat[b])..DataStart(st.geo, st.bat[b]) + n] ==
            View(st, base)[BlockStart(b, st.geo.blockSize)..BlockStart(b, st.geo.blockSize) + n]
  {
    hide Covers, Addressable, BitmapSectors, TableSize, Apart, BlockOf, BlockStart, Within;
    var off := BlockStart(b, st.geo.blockSize);
    BlockIs(off, b, st.geo.blockSize);
    BlockShowsFile(st, base, off, n);
    var v, at := View(st, base), FileOffset(st, off);
    assert forall i :: off <= i < off + n ==> v[i] == st.data[at + i - off];
    assert st.data[at..at + n] == v[off..off + n];
  }

  /** The bytes of an allocated block that lie on the disk. */
  method ReadBlock(child: Vhd, b: nat) returns (data: seq<byte>)
    requires child.Valid() && !child.IsFixed()
    requires BufferHolds(child.Geo().blockSize)
    requires b < child.Geo().entries <= child.bat.Length && child.bat[b] != FREE
    ensures var at, d := BlockStart(b, child.Geo().blockSize), child.Geo().blockSize;
      && at < child.Size() && |data| == Min(d, child.Size() - at) && |data| < 0x1_0000_0000
      && data == ReadAt(child.View(), at, d)
  {
    hide IsPow2, Capacity, CurrentSize, DiskType, TableOffset, MaxTableEntries, BlockSize, Placed,
      VhdLayout.View, BlockStart, BitmapSectors, ReadAt, BlockSectors;
    ghost var st := child.Stored();
    var bs := BlockSize(child.header);
    BlockBounds(st, b);
    BlockSectorsExact(st, b);
    var k := BlockSectors(b, bs / 512, CurrentSize(child.footer) / 512);
    var blockData := new byte[bs * 512 % 0x1_0000_0000];
    BlockRun(st, child.Base(), b, 512 * k);
    var from := 512 * (child.bat[b] + BitmapSectors(bs));
    ReadWhole(st.data, from, 512 * k);
    var got := child.file.Read(blockData, 0, 512 * k, from);
    data := blockData[..512 * k];
    ReadClipped(child.View(), BlockStart(b, child.Geo().blockSize), child.Geo().blockSize, 512 * k);
  }

  /** The parent serves, and its table covers whatever that of the child covers. */
  lemma ParentServes(child: Vhd, off: nat, n: nat)
    requires child.Valid() && child.parent != null && off + n <= Capacity(child.Geo())
    ensures child.parent.Serves() && child.parent.InTable(off, n) && child.parent.Size() == child.Size()
    ensures child.Base() == child.parent.View()
  {
    hide IsPow2, Capacity, CurrentSize, DiskType, GeometryOf, Placed, Vhd.View;
  }

  /** Writes the block into the parent. */
  method PutInParent(child: Vhd, b: nat) returns (status: Status, ghost data: seq<byte>)
    requires child.Valid() && child.parent != null && child.parent.Roomy() && !child.IsFixed()
    requires BufferHolds(child.Geo().blockSize)
    requires b < child.Geo().entries <= child.bat.Length && child.bat[b] != FREE
    modifies child.parent.file, child.parent.bat
    ensures status == Ok && child.Valid() && child.parent.Roomy() && child.Stored() == old(child.Stored())
    ensures var at, d := BlockStart(b, child.Geo().blockSize), child.Geo().blockSize;
      && at < child.Size() && |data| == Min(d, child.Size() - at)
      && data == ReadAt(old(child.View()), at, d)
      && child.Base() == Patch(old(child.Base()), at, data)
    ensures old(child.parent.OnDisk()) ==> child.parent.OnDisk()
    ensures old(child.parent.AllMarked()) ==> child.parent.AllMarked()
  {
    hide IsPow2, Capacity, CurrentSize, DiskType, TableOffset, MaxTableEntries, BlockSize, Placed, VhdLayout.View,
      BlockStart, Vhd.Roomy, Vhd.OnDisk, Vhd.AllMarked, Vhd.Serves, Vhd.InTable, Vhd.View, Vhd.Base;
    ghost var at := BlockStart(b, child.Geo().blockSize);
    BlockBounds(child.Stored(), b);
    BlockSectorsExact(child.Stored(), b);
    var block := ReadBlock(child, b);
    data := block;
    var perBlock := BlockSize(child.header) / 512;
    assert 512 * (perBlock * b) == at;
    ParentServes(child, at, |block|);
    var w: nat;
    status, w := child.parent.Write(block, 512 * (perBlock * b));
    ParentServes(child, at, |block|);
  }

  /** One step: the block goes into the parent, then its entry is freed. */
  method MergeBlock(child: Vhd, b: nat) returns (status: Status)
    requires child.Valid() && child.parent != null && child.parent.Roomy() && !child.IsFixed()
    requires BufferHolds(child.Geo().blockSize)
    requires b < child.Geo().entries <= child.bat.Length && child.bat[b] != FREE
    modifies child.bat, child.parent.file, child.parent.bat
    ensures status == Ok
    ensures child.Valid() && child.parent.Roomy()
    ensures child.bat[b] == FREE
    ensures forall c :: 0 <= c < child.bat.Length && c != b ==> child.bat[c] == old(child.bat[c])
    ensures child.View() == old(child.View())
    ensures old(child.parent.OnDisk()) ==> child.parent.OnDisk()
    ensures old(child.parent.AllMarked()) ==> child.parent.AllMarked()
  {
    hide IsPow2, Capacity, CurrentSize, DiskType, TableOffset, MaxTableEntries, BlockSize, Placed,
      VhdLayout.View, BlockStart, Vhd.Roomy, Vhd.OnDisk, Vhd.AllMarked;
    ghost var st, base := child.Stored(), child.Base();
    ghost var data;
    status, data := PutInParent(child, b);
    if status != Ok {
      return;
    }
    child.bat[b] := FREE;
    MergeView(st, base, b, data);
  }
}
