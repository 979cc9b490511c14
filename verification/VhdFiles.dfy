/** Opening and creating virtual hard disk files. */
module VirtualDiskFiles {
  import opened Arithmetic
  import opened Bytes
  import opened HostFiles
  import opened Options
  import opened VhdLayout
  import opened VhdTable
  import opened VhdFormat
  import opened VhdBytes
  import opened VhdImages
  import opened VirtualDisks

  // ----- opening -----

  /** Checks the checksum, the cookie and the disk type of a footer. */
  method CheckFooter(f: Footer) returns (ok: bool)
    ensures ok <==> FooterAccepted(f)
  {
    hide Checksum, U32At, Unsummed;
    var sum := ComputeChecksum(Unsummed(f, FOOTER_SUM));
    if sum != U32At(f, FOOTER_SUM) || f[..8] != CONECTIX {
      return false;
    }
    return DiskType(f) == DYNAMIC || DiskType(f) == DIFFERENCING || DiskType(f) == FIXED;
  }

  /** Checks the checksum and the cookie of a dynamic header. */
  method CheckHeader(h: Header) returns (ok: bool)
    ensures ok <==> HeaderAccepted(h)
  {
    hide Checksum, U32At, Unsummed;
    var sum := ComputeChecksum(Unsummed(h, HEADER_SUM));
    return sum == U32At(h, HEADER_SUM) && h[..8] == CXSPARSE;
  }

  /** Reads footer, header and table of a file and checks them. */
  method GetVhdFooter(file: HostFile, errno: int) returns (p: Parsed)
    ensures p == Parse(file.data, errno)
    ensures p.Rejected? <==> !Readable(file.data, errno)
  {
    hide FooterAccepted, HeaderAccepted, Readable, ReadTable, PaddedRead, DataOffset;
    ParsesBytes(file.data, errno);
    if |file.data| < FOOTER_SIZE {
      return Rejected;
    }
    var f := file.data[|file.data| - FOOTER_SIZE..];
    var ok := CheckFooter(f);
    if !ok {
      return Rejected;
    }
    if (DiskType(f) == DYNAMIC || DiskType(f) == DIFFERENCING) && file.data[..FOOTER_SIZE] != f {
      return Rejected;
    }
    if DiskType(f) == FIXED {
      return NoTable(f, Fill(1024, 0));
    }
    FooterTypes(f);
    var h := PaddedRead(file.data, DataOffset(f), HEADER_SIZE);
    ok := CheckHeader(h);
    if !ok {
      return if errno == 0 then NoTable(f, h) else Rejected;
    }
    return WithTable(f, h, ReadTable(file.data, h));
  }

  lemma FooterTypes(f: Footer)
    ensures FooterAccepted(f) ==> DiskType(f) in {FIXED, DYNAMIC, DIFFERENCING}
  {
  }

  function FooterOf(d: Vhd?): Option<Footer> {
    if d == null then None else Some(d.footer)
  }

  /**
   * A handle on `file`, or nothing when the file is rejected or busy, or its parent is missing or
   * not the one it was created for. `parent` is what the locators lead to, `stamp` its time of last
   * change.
   */
  method OpenDisk(file: HostFile, parent: Vhd?, stamp: uint32, errno: int) returns (d: Vhd?)
    ensures d != null <==> Opens(file.data, FooterOf(parent), stamp, errno)
    ensures d != null <==> Openable(file.data, FooterOf(parent), stamp, errno)
    ensures d != null ==>
      && d.footer == LastBytes(file.data)
      && (Number(d.footer[60..64]) != 2 ==> d.header == HeaderBytes(file.data))
    ensures d != null ==> var p := Parse(file.data, errno);
      && fresh(d) && fresh(d.bat) && d.file == file && d.footer == p.footer && d.header == p.header
      && d.parent == (if DiskType(p.footer) == DIFFERENCING then parent else null)
      && d.OwnRepr()
      && (p.WithTable? ==> d.bat[..] == p.bat)
  {
    OpensBytes(file.data, FooterOf(parent), stamp, errno);
    ParsesBytes(file.data, errno);
    hide Parse, SavedState, DiskType, UniqueId, ParentId, ParentStamp, Number, Openable, Readable, LastBytes,
      HeaderBytes, HeaderInOrder, Vhd.OwnRepr;
    var p := GetVhdFooter(file, errno);
    if p.Rejected? {
      return null;
    }
    if DiskType(p.footer) == DIFFERENCING {
      if p.NoTable? || parent == null {
        return null;
      }
      if ParentId(p.header) != UniqueId(parent.footer) || ParentStamp(p.header) != stamp {
        return null;
      }
    }
    if SavedState(p.footer) {
      return null;
    }
    d := NewHandle(file, p, if DiskType(p.footer) == DIFFERENCING then parent else null);
  }

  /** A handle with what has been parsed. */
  method NewHandle(file: HostFile, p: Parsed, parent: Vhd?) returns (d: Vhd)
    requires !p.Rejected?
    ensures fresh(d) && fresh(d.bat) && d.file == file && d.footer == p.footer && d.header == p.header
    ensures d.parent == parent && d.OwnRepr() && (p.WithTable? ==> d.bat[..] == p.bat)
  {
    var bat: array<uint32>;
    if p.WithTable? {
      bat := new uint32[|p.bat|](i requires 0 <= i < |p.bat| => p.bat[i]);
    } else {
      bat := new uint32[0];
    }
    d := new Vhd(p.footer, p.header, file, bat, parent);
  }

  /** Footer, header and parent are as the creators leave them. */
  predicate Proper(d: Vhd) {
    && !SavedState(d.footer)
    && (d.parent != null <==> DiskType(d.footer) == DIFFERENCING)
    && if d.IsFixed() then FooterAccepted(d.footer) else Acceptable(d.footer, d.header)
  }

  /** The parent, if there is one, has last been changed at `stamp` and is the one recorded. */
  predicate KnowsParent(d: Vhd, stamp: uint32) {
    d.parent != null ==> Recognises(d.header, d.parent.footer, stamp)
  }

  /** Two handles on the same disk: what is in their headers is equal. */
  predicate SameDisk(d: Vhd, e: Vhd) {
    && e.file == d.file && e.parent == d.parent && e.footer == d.footer
    && (d.IsFixed() || e.header == d.header)
  }

  lemma SameDiskSame(d: Vhd, e: Vhd, stamp: uint32)
    requires SameDisk(d, e) && Proper(d)
    ensures e.Size() == d.Size() && e.IsFixed() == d.IsFixed() && (d.IsFixed() || e.Geo() == d.Geo())
    ensures Proper(e) && (d.Serves() ==> e.Serves()) && (KnowsParent(d, stamp) ==> KnowsParent(e, stamp))
  {
    hide FooterAccepted, Acceptable, SavedState, IsPow2, CurrentSize, GeometryOf, Recognises;
  }

  /**
   * Closing a disk and opening its file again shows the same contents. It succeeds if and only if
   * the parent is unchanged.
   */
  method Reopen(d: Vhd, stamp: uint32, errno: int) returns (e: Vhd?)
    requires d.Valid() && d.OnDisk() && Proper(d)
    ensures e != null <==> KnowsParent(d, stamp)
    ensures e != null ==>
      && fresh(e) && fresh(e.bat) && e.OwnRepr() && SameDisk(d, e)
      && e.Valid() && e.View() == d.View()
      && e.OnDisk() && Proper(e)
      && (d.Roomy() ==> e.Roomy()) && (d.AllMarked() ==> e.AllMarked())
  {
    hide IsPow2, Capacity, CurrentSize, DiskType, TableOffset, MaxTableEntries, BlockSize, Placed,
      VhdLayout.View, Mirrored, Framed, FooterAccepted, HeaderAccepted, ReadTable, SavedState, Bounded, DataOffset,
      Recognises, Marked;
    e := OpenDisk(d.file, d.parent, stamp, errno);
    if d.IsFixed() {
      assert d.file.data[|d.file.data| - FOOTER_SIZE..] == d.footer;
    } else {
      ParseFramed(d.file.data, d.footer, d.header, errno);
      if e != null {
        ReopenedTable(d.Stored(), d.header, e.Stored());
        SameTable(d.Stored(), e.Stored(), d.Base());
        MirroredSame(d.Stored(), e.Stored());
        if Marked(d.Stored()) {
          MarkedSame(d.Stored(), e.Stored());
        }
      }
    }
  }

  lemma MarkedSame(st: Store, st': Store)
    requires Placed(st) && Marked(st) && Placed(st')
    requires st' == st.(bat := st'.bat)
    requires forall b :: 0 <= b < st.geo.entries ==> b < |st.bat| && st'.bat[b] == st.bat[b]
    ensures Marked(st')
  {
    hide Placed, BlockMarked, BitmapSize;
  }

  /** What a disk shows is what the format says of its file. */
  lemma ShowsFile(d: Vhd, i: nat)
    requires d.Valid() && d.OnDisk() && !d.IsFixed() && i < d.Size()
    ensures var below := if d.parent == null then Fill(d.Size(), 0) else d.parent.View();
      ShownByte(d.file.data, below, i) == Some(d.View()[i])
  {
    hide IsPow2, Capacity, Number, U32At, U64At, Mirrored, VhdLayout.View, Placed, ShownByte;
    var data, h := d.file.data, d.header;
    assert h[16..24] == data[528..536] && h[32..36] == data[544..548] by {
      assert data[512..1536] == h;
    }
    HeaderReads(h);
    hide HeaderAccepted, HeaderInOrder, TableOffset, MaxTableEntries, BlockSize, CurrentSize, DiskType, ParentId,
      ParentStamp;
    StoreShowsBytes(d.Stored(), d.Base(), i);
  }

  lemma ReopenedTable(st: Store, h: Header, st': Store)
    requires Placed(st) && Mirrored(st) && 1024 == |h|
    requires st.geo.entries == MaxTableEntries(h) && st.geo.tableOffset == TableOffset(h)
    requires st' == st.(bat := ReadTable(st.data, h))
    ensures |st'.bat| == |st.bat|
    ensures forall b :: 0 <= b < st.geo.entries ==> b < |st.bat| && st'.bat[b] == st.bat[b]
  {
    InFile(st);
    assert 4 * |st.bat| == TableSize(st.geo.entries) by {
      hide Covers, Addressable, BitmapSectors, TableSize, Apart, BlockFits;
    }
    hide Placed, ReadTable, U32At, TableOffset, MaxTableEntries;
    forall b | 0 <= b < st.geo.entries
      ensures st'.bat[b] == st.bat[b]
    {
      ReadTableWord(st.data, h, b);
    }
  }

  // ----- creating -----

  /** A table without any allocated block, padded with zeros to the sector. */
  function FreeTable(n: nat): (bat: seq<uint32>)
    ensures 4 * |bat| == TableSize(n) && n <= |bat|
    ensures forall b :: 0 <= b < n ==> bat[b] == FREE
  {
    TableHolds(n);
    seq(128 * ((4 * n + 511) / 512), b => if 0 <= b < n then FREE else 0)
  }

  /** A file as both creators leave it: headers, a table of free entries, the trailing footer. */
  predicate FreshImage(data: seq<byte>, f: Footer, h: Header) {
    hide U32At, TableOffset, MaxTableEntries;
    var t, n := TableOffset(h), MaxTableEntries(h);
    TableHolds(n);
    && Framed(data, f, h)
    && |data| == t + TableSize(n) + FOOTER_SIZE
    && forall b :: 0 <= b < n ==> U32At(data, t + 4 * b) == FREE
  }

  /** Table bytes of a table whose first `n` entries are free, in place in the file. */
  lemma FreeWritten(data: seq<byte>, t: nat, bat: seq<uint32>, n: nat)
    requires n <= |bat| && t + 4 * |bat| <= |data|
    requires data[t..t + 4 * |bat|] == TableBytes(bat)
    requires forall b :: 0 <= b < n ==> bat[b] == FREE
    ensures forall b :: 0 <= b < n ==> U32At(data, t + 4 * b) == FREE
  {
    hide U32At, TableBytes;
    var m := 4 * |bat|;
    var table := data[t..t + m];
    assert forall k :: t <= k < t + m ==> data[k] == table[k - t];
    forall b | 0 <= b < n
      ensures U32At(data, t + 4 * b) == FREE
    {
      WordWritten(data, t, bat, 0, m, b);
    }
  }

  lemma FreshStore(data: seq<byte>, f: Footer, h: Header)
    requires FreshImage(data, f, h) && GeometryOk(GeometryOf(f, h))
    ensures var st := Store(GeometryOf(f, h), FreeTable(MaxTableEntries(h)), data);
      Placed(st) && Bounded(st) && Mirrored(st)
  {
    hide U32At, TableOffset, MaxTableEntries, CurrentSize, BlockSize, FreeTable, BitmapSectors, Covers,
      Addressable, Framed, TableSize;
    UnallocatedPlaced(Store(GeometryOf(f, h), FreeTable(MaxTableEntries(h)), data));
  }

  lemma FreshFramed(data: seq<byte>, f: Footer, h: Header)
    requires FreshImage(data, f, h)
    ensures Framed(data, f, h)
    ensures |data| == TableOffset(h) + TableSize(MaxTableEntries(h)) + FOOTER_SIZE
  {
    hide Framed;
  }

  lemma NothingMarked(st: Store)
    requires Placed(st) && st.geo.entries <= |st.bat|
    requires forall b :: 0 <= b < st.geo.entries ==> st.bat[b] == FREE
    ensures Marked(st)
  {
    hide Placed;
  }

  /** Opens a file that has just been created. */
  method OpenFresh(file: HostFile, f: Footer, h: Header, parent: Vhd?, stamp: uint32, errno: int) returns (d: Vhd?)
    requires FreshImage(file.data, f, h) && GeometryOk(GeometryOf(f, h))
    requires Acceptable(f, h) && !SavedState(f)
    requires (parent != null) <==> (DiskType(f) == DIFFERENCING)
    requires parent != null ==> Recognises(h, parent.footer, stamp)
    requires parent != null ==>
      && parent.Valid() && file !in parent.Repr && parent.Size() == CurrentSize(f)
      && (parent.IsFixed() ||
          (IsPow2(parent.Geo().blockSize) && Capacity(GeometryOf(f, h)) <= Capacity(parent.Geo())))
    ensures d != null && fresh(d) && fresh(d.bat) && d.OwnRepr() && d.file == file && d.footer == f && d.header == h
    ensures d.parent == parent && MaxTableEntries(h) <= d.bat.Length
    ensures 4 * d.bat.Length == TableSize(MaxTableEntries(h))
    ensures |file.data| == TableOffset(h) + TableSize(MaxTableEntries(h)) + FOOTER_SIZE
    ensures forall b :: 0 <= b < MaxTableEntries(h) ==> d.bat[b] == FREE
    ensures d.Valid() && d.Roomy() && d.OnDisk() && d.AllMarked() && Proper(d)
    ensures d.View() == d.Base() && !d.IsFixed()
  {
    hide IsPow2, Capacity, CurrentSize, DiskType, TableOffset, MaxTableEntries, BlockSize, Placed,
      VhdLayout.View, Mirrored, FooterAccepted, HeaderAccepted, ReadTable, SavedState, Bounded, DataOffset,
      FreeTable, Marked, GeometryOk, U32At, TableBytes, TableSize, Framed, FreshImage, Recognises;
    FreshFramed(file.data, f, h);
    ghost var base := if parent == null then Fill(CurrentSize(f), 0) else parent.View();
    d := OpenDisk(file, parent, stamp, errno);
    ParseFramed(file.data, f, h, errno);
    FreshStore(file.data, f, h);
    ghost var st := Store(GeometryOf(f, h), FreeTable(MaxTableEntries(h)), file.data);
    ReopenedTable(st, h, d.Stored());
    SameTable(st, d.Stored(), base);
    UnallocatedView(d.Stored(), base);
    MirroredSame(st, d.Stored());
    NothingMarked(d.Stored());
  }

  const SIZE_LIMIT: nat := 0x4000_0000 * 2040
  const DEFAULT_BLOCK: nat := 0x20_0000

  function EntriesFor(size: nat, blockSize: nat): uint32
    requires blockSize > 0
  {
    (size + blockSize - 1) / blockSize % 0x1_0000_0000
  }

  lemma EntriesExact(size: nat, blockSize: nat)
    requires size <= SIZE_LIMIT && 0x20_0000 <= blockSize
    ensures EntriesFor(size, blockSize) == (size + blockSize - 1) / blockSize
  {
    EntryBound(size, blockSize);
  }

  /** Sealed images with these fields are accepted, and give this geometry. */
  lemma ReadBack(f: Footer, h: Header, size: nat, diskType: uint32, tableOffset: nat, n: nat, blockSize: nat)
    requires FooterIs(f, FOOTER_SIZE, size, diskType) && Sealed(f, FOOTER_SUM)
    requires HeaderIs(h, tableOffset, n, blockSize) && Sealed(h, HEADER_SUM)
    requires diskType == DYNAMIC || diskType == DIFFERENCING
    ensures Acceptable(f, h) && !SavedState(f)
    ensures DiskType(f) == diskType && CurrentSize(f) == size && TableOffset(h) == tableOffset
    ensures GeometryOf(f, h) == Geometry(size, blockSize, n, tableOffset)
  {
    hide Sealed, U32At, U64At;
  }

  /** The four writes that lay out a dynamic disk. */
  method WriteFresh(file: HostFile, f: Footer, h: Header)
    requires file.data == [] && TableOffset(h) == FOOTER_SIZE + HEADER_SIZE
    modifies file
    ensures FreshImage(file.data, f, h)
  {
    hide TableOffset, MaxTableEntries, TableBytes, FreeTable, TableSize, WriteAt;
    var bat := FreeTable(MaxTableEntries(h));
    var table := TableBytes(bat);
    file.Write(f, 0);
    file.Write(h, FOOTER_SIZE);
    file.Write(table, TableOffset(h));
    ghost var before := file.data;
    assert before[FOOTER_SIZE + HEADER_SIZE..] == table;
    assert before[..FOOTER_SIZE] == f && before[FOOTER_SIZE..FOOTER_SIZE + HEADER_SIZE] == h;
    file.Write(f, TableOffset(h) + |table|);
    assert file.data == before + f;
    assert file.data[TableOffset(h)..TableOffset(h) + |table|] == table;
    FreeWritten(file.data, TableOffset(h), bat, MaxTableEntries(h));
  }

  /**
   * Creates a disk of `sectors` sectors in an empty file. It fails for more than 2040 GB; otherwise
   * the new disk has that size and reads as zeros.
   */
  method CreateDisk(file: HostFile, sectors: uint32, blockSize: uint32, fixed: bool, who: Identity, errno: int)
    returns (d: Vhd?)
    requires file.data == [] && |who.id| == 16 && blockSize % 0x20_0000 == 0
    modifies file
    ensures d == null <==> sectors * 512 > SIZE_LIMIT
    ensures d != null ==>
      && fresh(d) && fresh(d.bat) && d.OwnRepr() && d.file == file && d.parent == null
      && d.Valid() && d.Roomy() && d.OnDisk() && d.AllMarked() && Proper(d)
      && d.Size() == sectors * 512 && d.View() == Fill(sectors * 512, 0) && d.IsFixed() == fixed
      && UniqueId(d.footer) == who.id
    ensures d != null && !fixed ==>
      && d.Geo().blockSize == (if blockSize == 0 then DEFAULT_BLOCK else blockSize)
      && d.Geo().tableOffset == FOOTER_SIZE + HEADER_SIZE
      && |file.data| == FOOTER_SIZE + HEADER_SIZE + TableSize(d.Geo().entries) + FOOTER_SIZE
      && 4 * d.bat.Length == TableSize(d.Geo().entries) && d.Geo().entries <= d.bat.Length
      && (forall b :: 0 <= b < d.Geo().entries ==> d.bat[b] == FREE)
      && GeometryOk(d.Geo())
  {
    var size: nat := sectors * 512;
    if size > SIZE_LIMIT {
      return null;
    }
    if fixed {
      d := CreateFixed(file, size, who, errno);
    } else {
      d := CreateDynamic(file, size, if blockSize == 0 then DEFAULT_BLOCK else blockSize, who, errno);
    }
  }

  method CreateFixed(file: HostFile, size: nat, who: Identity, errno: int) returns (d: Vhd?)
    requires file.data == [] && |who.id| == 16 && size <= SIZE_LIMIT
    modifies file
    ensures d != null
    ensures fresh(d) && fresh(d.bat) && d.OwnRepr() && d.file == file && d.parent == null
    ensures d.Valid() && d.Roomy() && d.OnDisk() && d.AllMarked() && Proper(d)
    ensures d.Size() == size && d.View() == Fill(size, 0) && d.IsFixed() && UniqueId(d.footer) == who.id
  {
    hide Checksum, Be32, U32At, U64At, NewFooter, Sealed, WriteAt;
    var f := NewFooter(size, 0xFFFF_FFFF_FFFF_FFFF, FIXED, who);
    NewFooterFacts(size, 0xFFFF_FFFF_FFFF_FFFF, FIXED, who);
    NewFooterBytes(size, 0xFFFF_FFFF_FFFF_FFFF, FIXED, who);
    file.Write(f, size);
    assert file.data[|file.data| - FOOTER_SIZE..] == f;
    d := OpenDisk(file, null, 0, errno);
    assert file.data[..size] == Fill(size, 0);
  }

  method CreateDynamic(file: HostFile, size: nat, blockSize: uint32, who: Identity, errno: int) returns (d: Vhd?)
    requires file.data == [] && |who.id| == 16 && size <= SIZE_LIMIT && size % 512 == 0
    requires 0 < blockSize && blockSize % 0x20_0000 == 0
    modifies file
    ensures d != null
    ensures fresh(d) && fresh(d.bat) && d.OwnRepr() && d.file == file && d.parent == null
    ensures d.Valid() && d.Roomy() && d.OnDisk() && d.AllMarked() && Proper(d)
    ensures d.Size() == size && d.View() == Fill(size, 0) && !d.IsFixed() && UniqueId(d.footer) == who.id
    ensures d.Geo() == Geometry(size, blockSize, EntriesFor(size, blockSize), FOOTER_SIZE + HEADER_SIZE)
    ensures |file.data| == FOOTER_SIZE + HEADER_SIZE + TableSize(d.Geo().entries) + FOOTER_SIZE
    ensures 4 * d.bat.Length == TableSize(d.Geo().entries) && d.Geo().entries <= d.bat.Length
    ensures forall b :: 0 <= b < d.Geo().entries ==> d.bat[b] == FREE
  {
    var n := EntriesFor(size, blockSize);
    EntriesExact(size, blockSize);
    CapacityBound(size, blockSize, FOOTER_SIZE + HEADER_SIZE);
    hide Checksum, Be32, U32At, U64At, NewFooter, NewHeader, Sealed, EntriesFor, GeometryOk, FreshImage;
    var f := NewFooter(size, FOOTER_SIZE, DYNAMIC, who);
    NewFooterFacts(size, FOOTER_SIZE, DYNAMIC, who);
    NewFooterBytes(size, FOOTER_SIZE, DYNAMIC, who);
    assert UniqueId(f) == who.id;
    hide UniqueId;
    var h := NewHeader(FOOTER_SIZE + HEADER_SIZE, n, blockSize);
    NewHeaderFacts(FOOTER_SIZE + HEADER_SIZE, n, blockSize);
    ReadBack(f, h, size, DYNAMIC, FOOTER_SIZE + HEADER_SIZE, n, blockSize);
    hide FooterIs, HeaderIs, Acceptable, SavedState, DiskType, TableOffset, MaxTableEntries, BlockSize,
      CurrentSize, TableSize, Proper;
    WriteFresh(file, f, h);
    d := OpenFresh(file, f, h, null, 0, errno);
  }

  // ----- differencing disks -----

  /** Where the child keeps its table: behind its locator sectors, on a storage page. */
  function ChildTableOffset(locators: nat): nat {
    RoundUp4K(FOOTER_SIZE + HEADER_SIZE + locators * 512)
  }

  /** The locator sectors are between the header and the table, each in its place. */
  predicate PathsAt(data: seq<byte>, tableOffset: nat, paths: seq<seq<byte>>) {
    forall k :: 0 <= k < |paths| ==>
      && FOOTER_SIZE + HEADER_SIZE + k * 512 + 512 <= tableOffset <= |data|
      && data[FOOTER_SIZE + HEADER_SIZE + k * 512..FOOTER_SIZE + HEADER_SIZE + k * 512 + 512] == paths[k]
  }

  /**
   * The writes that turn a new dynamic disk into a child: both headers, the moved table, the
   * trailing footer, then the locator sectors between header and table.
   */
  method WriteChild(file: HostFile, bat: seq<uint32>, f: Footer, h: Header, paths: seq<seq<byte>>)
    requires 1 <= |paths| <= 2 && forall p :: p in paths ==> |p| == 512
    requires MaxTableEntries(h) <= |bat| && 4 * |bat| == TableSize(MaxTableEntries(h))
    requires forall b :: 0 <= b < MaxTableEntries(h) ==> bat[b] == FREE
    requires |file.data| == FOOTER_SIZE + HEADER_SIZE + 4 * |bat| + FOOTER_SIZE
    requires TableOffset(h) == ChildTableOffset(|paths|)
    modifies file
    ensures FreshImage(file.data, f, h)
    ensures PathsAt(file.data, TableOffset(h), paths)
  {
    hide TableOffset, MaxTableEntries, TableBytes, TableSize, WriteAt, U32At, Framed;
    var t := TableOffset(h);
    assert t == 4096;
    var table := TableBytes(bat);
    file.Write(f, 0);
    file.Write(h, FOOTER_SIZE);
    file.Write(table, t);
    file.Write(f, t + |table|);
    ChildHeaders(old(file.data), f, h, table);
    WritePaths(file, paths);
    FreeWritten(file.data, t, bat, MaxTableEntries(h));
  }

  /** A child file up to its locators: headers, table at 4096, trailing footer. */
  predicate ChildBody(data: seq<byte>, f: Footer, h: Header, table: seq<byte>) {
    && |data| == 4096 + |table| + FOOTER_SIZE
    && Framed(data, f, h)
    && data[4096..4096 + |table|] == table
  }

  lemma ChildHeaders(data: seq<byte>, f: Footer, h: Header, table: seq<byte>)
    requires |data| == FOOTER_SIZE + HEADER_SIZE + |table| + FOOTER_SIZE
    ensures ChildBody(WriteAt(WriteAt(WriteAt(WriteAt(data, 0, f), FOOTER_SIZE, h), 4096, table),
                              4096 + |table|, f), f, h, table)
  {
    hide WriteAt;
    var d1 := WriteAt(data, 0, f);
    var d2 := WriteAt(d1, FOOTER_SIZE, h);
    var d3 := WriteAt(d2, 4096, table);
    var d4 := WriteAt(d3, 4096 + |table|, f);
    WriteShows(data, 0, f);
    WriteShows(d1, FOOTER_SIZE, h);
    WriteKeeps(d1, FOOTER_SIZE, h, 0, FOOTER_SIZE);
    WriteKeeps(d2, 4096, table, 0, FOOTER_SIZE);
    WriteKeeps(d2, 4096, table, FOOTER_SIZE, FOOTER_SIZE + HEADER_SIZE);
    WriteShows(d2, 4096, table);
    WriteKeeps(d3, 4096 + |table|, f, 0, FOOTER_SIZE);
    WriteKeeps(d3, 4096 + |table|, f, FOOTER_SIZE, FOOTER_SIZE + HEADER_SIZE);
    if table != [] {
      WriteKeeps(d3, 4096 + |table|, f, 4096, 4096 + |table|);
    }
    WriteShows(d3, 4096 + |table|, f);
    assert d4[|d4| - FOOTER_SIZE..] == d4[4096 + |table|..4096 + |table| + FOOTER_SIZE];
  }

  /** Writes the locator sectors, which lie between header and table. */
  method WritePaths(file: HostFile, paths: seq<seq<byte>>)
    requires 1 <= |paths| <= 2 && forall p :: p in paths ==> |p| == 512
    requires 4096 + FOOTER_SIZE <= |file.data|
    modifies file
    ensures forall f: Footer, h: Header, table: seq<byte> ::
      old(ChildBody(file.data, f, h, table)) ==> ChildBody(file.data, f, h, table)
    ensures |file.data| == old(|file.data|)
    ensures forall k :: 0 <= k < |paths| ==> file.data[1536 + k * 512..2048 + k * 512] == paths[k]
  {
    hide WriteAt;
    for k := 0 to |paths|
      invariant |file.data| == old(|file.data|)
      invariant forall i :: 0 <= i < 1536 || 2560 <= i < |file.data| ==> file.data[i] == old(file.data[i])
      invariant forall j :: 0 <= j < k ==> file.data[1536 + j * 512..2048 + j * 512] == paths[j]
    {
      ghost var before := file.data;
      file.Write(paths[k], 1536 + k * 512);
      WriteShows(before, 1536 + k * 512, paths[k]);
      if k == 1 {
        WriteKeeps(before, 2048, paths[1], 1536, 2048);
      }
    }
    forall f: Footer, h: Header, table: seq<byte> | old(ChildBody(file.data, f, h, table))
      ensures ChildBody(file.data, f, h, table)
    {
      SameEnds(old(file.data), file.data, f, h, table);
    }
  }

  lemma SameEnds(data: seq<byte>, data': seq<byte>, f: Footer, h: Header, table: seq<byte>)
    requires ChildBody(data, f, h, table) && |data'| == |data|
    requires forall i :: 0 <= i < 1536 || 2560 <= i < |data| ==> data'[i] == data[i]
    ensures ChildBody(data', f, h, table)
  {
    assert data'[..FOOTER_SIZE] == data[..FOOTER_SIZE];
    assert data'[FOOTER_SIZE..FOOTER_SIZE + HEADER_SIZE] == data[FOOTER_SIZE..FOOTER_SIZE + HEADER_SIZE];
    assert data'[4096..4096 + |table|] == data[4096..4096 + |table|];
    assert data'[|data| - FOOTER_SIZE..] == data[|data| - FOOTER_SIZE..];
  }

  /** A proper dynamic disk has the fields its handle says. */
  lemma ProperFields(d: Vhd)
    requires Proper(d) && !d.IsFixed()
    ensures FooterIs(d.footer, FOOTER_SIZE, d.Size(), DiskType(d.footer))
    ensures HeaderIs(d.header, d.Geo().tableOffset, d.Geo().entries, d.Geo().blockSize)
    ensures d.parent == null ==> DiskType(d.footer) == DYNAMIC
  {
    hide U32At, U64At, Sealed;
  }

  /**
   * `d` is a new child of `parent`: it reads exactly as the parent does, and header, locator sectors,
   * table and footer have disjoint places in its file.
   */
  ghost predicate IsChild(d: Vhd, file: HostFile, parent: Vhd, stamp: uint32, paths: seq<seq<byte>>)
    reads d, d.Repr, file, parent, parent.Repr
  {
    hide TableSize, CurrentSize, IsPow2, Placed, FreshImage, PathsAt, ChildTableOffset, DiskType, TableOffset,
      MaxTableEntries, BlockSize;
    && d.file == file && d.parent == parent && parent.Valid()
    && d.Valid() && d.Roomy() && d.OnDisk() && d.AllMarked() && Proper(d) && d.OwnRepr()
    && !d.IsFixed() && KnowsParent(d, stamp)
    && d.View() == parent.View()
    && FreshImage(file.data, d.footer, d.header)
    && d.Geo().tableOffset == ChildTableOffset(|paths|)
    && PathsAt(file.data, d.Geo().tableOffset, paths)
  }

  /**
   * Creates a child of `parent` in an empty file. The block size is the parent's, or the default
   * under a fixed parent.
   */
  method CreateDifferencing(file: HostFile, parent: Vhd, lineage: Lineage, paths: seq<seq<byte>>,
                            who: Identity, errno: int) returns (d: Vhd?)
    requires file.data == [] && |who.id| == 16 && file !in parent.Repr
    requires 1 <= |paths| <= 2 && forall p :: p in paths ==> |p| == 512
    requires parent.Valid() && parent.Serves()
    requires parent.Size() % 512 == 0 && parent.Size() < 0x200_0000_0000
    modifies file
    ensures d == null <==> parent.Size() > SIZE_LIMIT
    ensures d != null ==>
      && fresh(d) && fresh(d.bat) && IsChild(d, file, parent, lineage.stamp, paths)
      && d.Geo().blockSize == (if parent.IsFixed() then DEFAULT_BLOCK else parent.Geo().blockSize)
  {
    hide Checksum, Be32, U32At, U64At, Sealed, GeometryOk, FreshImage, IsPow2, ChildTableOffset, IsChild,
      MaxTableEntries, BlockSize, TableOffset, CurrentSize, TableSize, VhdLayout.View, Acceptable, FooterAccepted,
      Vhd.Roomy, Vhd.OnDisk, Vhd.AllMarked, VhdBytes.Number;
    ParentBlocks(parent);
    var blockSize := if parent.IsFixed() then 0 else BlockSize(parent.header);
    var c := CreateDisk(file, parent.Size() / 512 % 0x1_0000_0000, blockSize, false, who, errno);
    if c == null {
      return null;
    }
    d := MakeChild(file, c, parent, lineage, paths, errno);
  }

  /** Rewrites the headers of the new dynamic disk `c` for `parent` and opens the result. */
  method MakeChild(file: HostFile, c: Vhd, parent: Vhd, lineage: Lineage, paths: seq<seq<byte>>, errno: int)
    returns (d: Vhd?)
    requires file == c.file && file !in parent.Repr && parent.Valid() && parent.Serves()
    requires 1 <= |paths| <= 2 && forall p :: p in paths ==> |p| == 512
    requires Proper(c) && !c.IsFixed() && c.parent == null && c.Size() == parent.Size() <= SIZE_LIMIT
    requires GeometryOk(c.Geo()) && (parent.IsFixed() || c.Geo().blockSize == parent.Geo().blockSize)
    requires |file.data| == FOOTER_SIZE + HEADER_SIZE + TableSize(c.Geo().entries) + FOOTER_SIZE
    requires 4 * c.bat.Length == TableSize(c.Geo().entries) && c.Geo().entries <= c.bat.Length
    requires forall b :: 0 <= b < c.Geo().entries ==> c.bat[b] == FREE
    modifies file
    ensures d != null && fresh(d) && fresh(d.bat) && IsChild(d, file, parent, lineage.stamp, paths)
    ensures d.Geo() == c.Geo().(tableOffset := ChildTableOffset(|paths|))
  {
    MovedTable(c.Geo(), parent);
    hide Checksum, Be32, U32At, U64At, Sealed, GeometryOk, FreshImage, ChildHeader, ChildFooter, IsPow2, Capacity,
      ChildTableOffset, MaxTableEntries, BlockSize, TableOffset, CurrentSize, TableSize, VhdLayout.View, Acceptable,
      FooterAccepted, HeaderIs, FooterIs, Proper, DiskType, SavedState, PathsAt, Recognises, Placed;
    var f, h := RewriteHeaders(file, c, parent.footer, lineage, paths);
    d := OpenFresh(file, f, h, parent, lineage.stamp, errno);
  }

  method RewriteHeaders(file: HostFile, c: Vhd, parentFooter: Footer, lineage: Lineage, paths: seq<seq<byte>>)
    returns (f: Footer, h: Header)
    requires file == c.file && Proper(c) && !c.IsFixed() && c.parent == null
    requires 1 <= |paths| <= 2 && forall p :: p in paths ==> |p| == 512
    requires |file.data| == FOOTER_SIZE + HEADER_SIZE + TableSize(c.Geo().entries) + FOOTER_SIZE
    requires 4 * c.bat.Length == TableSize(c.Geo().entries) && c.Geo().entries <= c.bat.Length
    requires forall b :: 0 <= b < c.Geo().entries ==> c.bat[b] == FREE
    modifies file
    ensures FreshImage(file.data, f, h) && Acceptable(f, h) && !SavedState(f)
    ensures DiskType(f) == DIFFERENCING && CurrentSize(f) == c.Size()
    ensures Recognises(h, parentFooter, lineage.stamp)
    ensures GeometryOf(f, h) == c.Geo().(tableOffset := 4096)
    ensures 4096 == ChildTableOffset(|paths|) && PathsAt(file.data, 4096, paths)
  {
    ProperFields(c);
    var t := ChildTableOffset(|paths|);
    assert t == 4096;
    hide Checksum, Be32, U32At, U64At, Sealed, FreshImage, ChildHeader, ChildFooter, ChildTableOffset,
      MaxTableEntries, BlockSize, TableOffset, CurrentSize, TableSize, Acceptable, FooterAccepted, HeaderIs,
      FooterIs, Proper, DiskType, SavedState;
    var n, bs := c.Geo().entries, c.Geo().blockSize;
    f := ChildFooter(c.footer, parentFooter);
    h := ChildHeader(c.header, t, parentFooter, lineage);
    ChildFooterFacts(c.footer, parentFooter, FOOTER_SIZE, c.Size(), DiskType(c.footer));
    ChildHeaderFacts(c.header, t, parentFooter, lineage, c.Geo().tableOffset, n, bs);
    ReadBack(f, h, c.Size(), DIFFERENCING, t, n, bs);
    WriteChild(file, c.bat[..], f, h, paths);
  }

  /** Moving the table to a storage page keeps the geometry sound and as large as the parent's. */
  lemma MovedTable(g: Geometry, parent: Vhd)
    requires GeometryOk(g) && g.size <= SIZE_LIMIT && parent.Valid() && g.size == parent.Size()
    requires parent.IsFixed() || g.blockSize == parent.Geo().blockSize
    ensures GeometryOk(g.(tableOffset := 4096))
    ensures parent.IsFixed() || Capacity(g.(tableOffset := 4096)) <= Capacity(parent.Geo())
  {
    assert !parent.IsFixed() ==> Covers(parent.Geo()) && parent.Geo().blockSize > 0 by {
      hide U32At, U64At, Covers, Addressable, BitmapSectors, TableSize, Apart, BlockFits;
    }
    hide U32At, U64At, Addressable, BitmapSectors, TableSize, Placed;
    CapacityBound(g.size, g.blockSize, 4096);
  }

  lemma ParentBlocks(parent: Vhd)
    requires parent.Valid()
    ensures !parent.IsFixed() ==> 0 < BlockSize(parent.header) && BlockSize(parent.header) % 0x20_0000 == 0
  {
    hide U32At, U64At, Covers, Addressable, BitmapSectors, TableSize, Apart, BlockFits;
  }
}
