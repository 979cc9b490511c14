/** The life of a virtual disk from its creation, through a child of it, to the merge of the two. */
module VirtualDiskLife {
  import opened Arithmetic
  import opened Bytes
  import opened HostFiles
  import opened VhdLayout
  import opened VhdFormat
  import opened VhdImages
  import opened VirtualDisks
  import opened VirtualDiskFiles
  import opened VirtualDiskRuns

  lemma {:induction false} WritesOfBoth(a: seq<seq<WriteOp>>, b: seq<seq<WriteOp>>)
    ensures AllWrites(a + b) == AllWrites(a) + AllWrites(b)
    decreases |b|
  {
    if b == [] {
      assert a + b == a;
    } else {
      assert (a + b)[..|a + b| - 1] == a + b[..|b| - 1];
      WritesOfBoth(a, b[..|b| - 1]);
    }
  }

  lemma DefaultBlock()
    ensures IsPow2(DEFAULT_BLOCK) && BufferHolds(DEFAULT_BLOCK)
  {
    Pow2At16M();
    assert IsPow2(0x80_0000);
    assert IsPow2(0x20_0000);
  }

  /** A block size to create disks with: none for the default, or one that all operations serve. */
  predicate GoodBlock(blockSize: nat) {
    blockSize == 0 || (IsPow2(blockSize) && blockSize % 0x20_0000 == 0 && BufferHolds(blockSize))
  }

  /** A new disk that has been through sessions of writes. */
  method NewDisk(file: HostFile, sectors: uint32, blockSize: uint32, fixed: bool, who: Identity,
                 sessions: seq<seq<WriteOp>>, errno: int) returns (d: Vhd)
    requires file.data == [] && |who.id| == 16 && GoodBlock(blockSize) && sectors * 512 <= SIZE_LIMIT
    requires forall ops :: ops in sessions ==> Inside(ops, sectors * 512)
    modifies file
    ensures fresh(d) && fresh(d.bat) && d.OwnRepr() && d.file == file && d.parent == null
    ensures d.Valid() && d.Roomy() && d.Serves() && d.OnDisk() && Proper(d) && d.Size() == sectors * 512
    ensures !d.IsFixed() ==> BufferHolds(d.Geo().blockSize)
    ensures d.View() == AfterWrites(Fill(sectors * 512, 0), AllWrites(sessions))
  {
    DefaultBlock();
    hide Proper, Vhd.Valid, Vhd.View, Vhd.Roomy, Vhd.OnDisk, Vhd.AllMarked, AfterWrites, AllWrites, Inside,
      GeometryOk, GeometryOf, BufferHolds, IsPow2, CurrentSize, DiskType;
    var c := CreateDisk(file, sectors, blockSize, fixed, who, errno);
    d := RunSessions(c, sessions, 0, errno);
  }

  /** A new child of `parent` that has been through sessions of writes. */
  method NewChild(file: HostFile, parent: Vhd, lineage: Lineage, paths: seq<seq<byte>>, who: Identity,
                  sessions: seq<seq<WriteOp>>, errno: int) returns (d: Vhd)
    requires file.data == [] && |who.id| == 16 && file !in parent.Repr
    requires 1 <= |paths| <= 2 && forall p :: p in paths ==> |p| == 512
    requires parent.Valid() && parent.Serves() && parent.Size() % 512 == 0 && parent.Size() <= SIZE_LIMIT
    requires !parent.IsFixed() ==> BufferHolds(parent.Geo().blockSize)
    requires forall ops :: ops in sessions ==> Inside(ops, parent.Size())
    modifies file
    ensures fresh(d) && fresh(d.bat) && d.file == file && d.parent == parent
    ensures d.Valid() && Proper(d) && !d.IsFixed() && BufferHolds(d.Geo().blockSize)
    ensures d.View() == AfterWrites(parent.View(), AllWrites(sessions))
  {
    DefaultBlock();
    hide Proper, Vhd.Valid, Vhd.View, Vhd.Roomy, Vhd.OnDisk, Vhd.AllMarked, AfterWrites, AllWrites, Inside,
      GeometryOk, GeometryOf, BufferHolds, IsPow2, CurrentSize, DiskType, FreshImage, ChildTableOffset;
    var c := CreateDifferencing(file, parent, lineage, paths, who, errno);
    d := RunSessions(c, sessions, lineage.stamp, errno);
  }

  /**
   * The life of a disk: it is created and written to in any number of sessions; a child is created
   * and written to in any number of sessions; the child is merged back. The disk, opened again,
   * shows what all the writes would have made of a flat array of zeros.
   */
  method Lifecycle(file: HostFile, sectors: uint32, blockSize: uint32, fixed: bool, who: Identity,
                   first: seq<seq<WriteOp>>, childFile: HostFile, lineage: Lineage, paths: seq<seq<byte>>,
                   childWho: Identity, second: seq<seq<WriteOp>>, errno: int) returns (d: Vhd?)
    requires file != childFile && file.data == [] && childFile.data == []
    requires |who.id| == 16 && |childWho.id| == 16 && GoodBlock(blockSize) && sectors * 512 <= SIZE_LIMIT
    requires 1 <= |paths| <= 2 && forall p :: p in paths ==> |p| == 512
    requires forall ops :: ops in first + second ==> Inside(ops, sectors * 512)
    modifies file, childFile
    ensures d != null && d.Valid() && d.OnDisk() && d.file == file && d.Size() == sectors * 512
    ensures d.View() == AfterWrites(Fill(sectors * 512, 0), AllWrites(first + second))
  {
    hide Proper, Vhd.View, Vhd.Roomy, Vhd.OnDisk, Vhd.AllMarked, AfterWrites, AllWrites, Inside,
      GeometryOk, GeometryOf, BufferHolds, IsPow2, CurrentSize, DiskType, GoodBlock, Placed;
    ghost var zeros := Fill(sectors * 512, 0);
    var parent := NewDisk(file, sectors, blockSize, fixed, who, first, errno);
    assert parent.Repr == {parent, file, parent.bat};
    var child := NewChild(childFile, parent, lineage, paths, childWho, second, errno);
    WritesOfBoth(first, second);
    WritesAppend(zeros, AllWrites(first), AllWrites(second));
    var status := Merge(child);
    d := Reopen(parent, 0, errno);
    SameDiskSame(parent, d, 0);
  }
}
