/**
 * Keeping the block allocation table on disk: after an allocation only a window of the table
 * around the changed entry is written.
 */
module VhdTable {
  import opened Arithmetic
  import opened Bytes
  import opened VhdLayout

  /** A run of bytes of the in-memory table. */
  datatype Window = Window(start: nat, size: nat)

  /** The aligned window written for entry `b` of a table of `padded` bytes at `tableOffset`. */
  function UpdateWindow(tableOffset: nat, padded: nat, b: nat): (w: Window)
    requires 4 * b < padded
  {
    var aligned := RoundDown4K(4 * b + tableOffset) - tableOffset;
    var start := if aligned < 0 then 0 else aligned;
    var size := if aligned < 0 then RoundDown512(4 * b + 512) else 4096;
    Window(start, if start + size > padded then padded - start else size)
  }

  lemma WordsOnPage(y: nat)
    ensures 4 * (y / 1024 * 1024) == RoundDown4K(4 * y) && RoundDown4K(4 * y) <= 4 * y
    ensures 4 * y + 4 <= RoundDown4K(4 * y) + 4096
  {
    var q := y / 1024;
    assert 1024 * q <= y <= 1024 * q + 1023;
    assert 4 * y / 4096 == q;
  }

  lemma WordsInSector(y: nat)
    ensures 4 * (y / 128 * 128) + 512 == RoundDown512(4 * y + 512)
    ensures 4 * y + 4 <= RoundDown512(4 * y + 512)
  {
    var q := y / 128;
    assert 128 * q <= y <= 128 * q + 127;
    assert (4 * y + 512) / 512 == q + 1;
  }

  /** The window in words, for a table of `padded` words that starts at word `t` of the file. */
  lemma WindowInWords(t: nat, padded: nat, b: nat)
    requires b < padded && padded % 128 == 0
    ensures var page, sector := (b + t) / 1024 * 1024, b / 128 * 128;
      var start := if page < t then 0 else page - t;
      var size := Min(if page < t then sector + 128 else 1024, padded - start);
      && UpdateWindow(4 * t, 4 * padded, b) == Window(4 * start, 4 * size)
      && start <= b < start + size <= padded
  {
    hide RoundDown4K, RoundDown512;
    WordsOnPage(b + t);
    WordsInSector(b);
    assert 4 * b + 4 * t == 4 * (b + t);
  }

  /** The window covers the entry, starts and ends on an entry and stays inside the padded table. */
  lemma WindowCovers(tableOffset: nat, padded: nat, b: nat)
    requires tableOffset % 512 == 0 && padded % 512 == 0 && 4 * b + 4 <= padded
    ensures var w := UpdateWindow(tableOffset, padded, b);
      && w.start <= 4 * b && 4 * b + 4 <= w.start + w.size <= padded
      && w.start % 4 == 0 && w.size % 4 == 0
  {
    hide UpdateWindow;
    var t, p := tableOffset / 512, padded / 512;
    assert tableOffset == 4 * (128 * t) && padded == 4 * (128 * p);
    assert 128 * p % 128 == 0;
    WindowInWords(128 * t, 128 * p, b);
  }

  function TableBytes(bat: seq<uint32>): (s: seq<byte>)
    ensures |s| == 4 * |bat|
  {
    seq(4 * |bat|, i requires 0 <= i < 4 * |bat| => Be32(bat[i / 4])[i % 4])
  }

  lemma TableWord(bat: seq<uint32>, b: nat)
    requires b < |bat|
    ensures TableBytes(bat)[4 * b..4 * b + 4] == Be32(bat[b])
  {
    var w := TableBytes(bat)[4 * b..4 * b + 4];
    assert forall k {:trigger w[k]} :: 0 <= k < 4 ==> (4 * b + k) / 4 == b && (4 * b + k) % 4 == k;
  }

  /** The table in the file is the table in memory. */
  predicate Mirrored(st: Store)
    requires Placed(st)
  {
    hide Placed;
    InFile(st);
    forall b :: 0 <= b < st.geo.entries ==>
      U32At(st.data, st.geo.tableOffset + 4 * b) == st.bat[b]
  }

  lemma InFile(st: Store)
    requires Placed(st)
    ensures st.geo.tableOffset + 4 * st.geo.entries <= |st.data| && st.geo.entries <= |st.bat|
  {
    hide BitmapSectors, Covers, Addressable, Apart, BlockFits;
  }

  lemma MirroredSame(st: Store, st': Store)
    requires Placed(st) && Placed(st') && Mirrored(st)
    requires st'.geo == st.geo && st'.data == st.data
    requires forall b :: 0 <= b < st.geo.entries ==> b < |st.bat| && b < |st'.bat| && st'.bat[b] == st.bat[b]
    ensures Mirrored(st')
  {
    hide Placed, U32At;
    InFile(st);
    InFile(st');
  }

  /** A file with the table bytes of `bat` in `[T + lo, T + hi)` holds the entries in there. */
  lemma WordWritten(data: seq<byte>, tableOffset: nat, bat: seq<uint32>, lo: nat, hi: nat, b: nat)
    requires lo <= 4 * b && 4 * b + 4 <= hi <= 4 * |bat|
    requires tableOffset + hi <= |data|
    requires forall k :: tableOffset + lo <= k < tableOffset + hi ==>
      data[k] == TableBytes(bat)[k - tableOffset]
    ensures U32At(data, tableOffset + 4 * b) == bat[b]
  {
    hide TableBytes, U32At, Be32;
    var at := tableOffset + 4 * b;
    TableWord(bat, b);
    assert data[at..at + 4] == TableBytes(bat)[4 * b..4 * b + 4];
    Be32RoundTrip(bat[b], data, at);
  }

  /** A word that is not inside a window of words is wholly outside. */
  lemma WordApart(w: Window, b: nat, c: nat)
    requires w.start % 4 == 0 && w.size % 4 == 0 && w.start <= 4 * b && 4 * b + 4 <= w.start + w.size
    requires !(w.start <= 4 * c && 4 * c + 4 <= w.start + w.size)
    ensures c != b && (4 * c + 4 <= w.start || w.start + w.size <= 4 * c)
  {
    var p, q := w.start / 4, w.size / 4;
    assert w.start == 4 * p && w.size == 4 * q;
  }

  /** Writing the window after changing one entry keeps the whole table mirrored. */
  lemma WindowMirrors(st: Store, b: nat, st': Store)
    requires Placed(st) && Mirrored(st) && Placed(st') && st'.geo == st.geo
    requires b < st.geo.entries && |st'.bat| == |st.bat|
    requires forall c :: 0 <= c < |st.bat| && c != b ==> st'.bat[c] == st.bat[c]
    requires st.geo.entries <= |st.bat|
    requires var g := st.geo; var w := UpdateWindow(g.tableOffset, 4 * |st.bat|, b);
      && w.start + w.size <= 4 * |st.bat| && g.tableOffset + 4 * |st.bat| <= |st.data| <= |st'.data|
      && forall k :: g.tableOffset <= k < g.tableOffset + 4 * |st.bat| ==>
        st'.data[k] == if g.tableOffset + w.start <= k < g.tableOffset + w.start + w.size
                       then TableBytes(st'.bat)[k - g.tableOffset] else st.data[k]
    requires 4 * |st.bat| % 512 == 0 && st.geo.tableOffset % 512 == 0
    ensures Mirrored(st')
  {
    hide Placed, UpdateWindow, TableBytes, U32At;
    var g := st.geo;
    WindowCovers(g.tableOffset, 4 * |st.bat|, b);
    var w := UpdateWindow(g.tableOffset, 4 * |st.bat|, b);
    InFile(st);
    InFile(st');
    forall c | 0 <= c < g.entries
      ensures U32At(st'.data, g.tableOffset + 4 * c) == st'.bat[c]
    {
      var at := g.tableOffset + 4 * c;
      if w.start <= 4 * c && 4 * c + 4 <= w.start + w.size {
        WordWritten(st'.data, g.tableOffset, st'.bat, w.start, w.start + w.size, c);
      } else {
        WordApart(w, b, c);
        U32AtSame(st.data, st'.data, at);
      }
    }
  }

  // ----- one allocation, as bytes of the file -----

  /** The file starts with both headers and ends with the footer. */
  predicate Framed(data: seq<byte>, footer: seq<byte>, header: seq<byte>) {
    && FOOTER_SIZE + HEADER_SIZE + FOOTER_SIZE <= |data|
    && data[..FOOTER_SIZE] == footer
    && data[FOOTER_SIZE..FOOTER_SIZE + HEADER_SIZE] == header
    && data[|data| - FOOTER_SIZE..] == footer
  }

  /** The sector bitmaps of all allocated blocks are all ones. */
  predicate Marked(st: Store)
    requires Placed(st)
  {
    hide Covers, Addressable, BitmapSectors, TableSize, Apart, BlockFits;
    forall b :: 0 <= b < st.geo.entries && st.bat[b] != FREE ==>
      BlockMarked(st.data, st.bat[b], BitmapSize(st.geo))
  }

  predicate BlockMarked(data: seq<byte>, entry: uint32, m: nat) {
    && 512 * entry + m <= |data|
    && forall k :: 512 * entry <= k < 512 * entry + m ==> data[k] == 0xFF
  }

  /** What is written for a new block: `pad` bytes in front of the bitmap, the bitmap, zeroed data. */
  function BlockImage(pad: nat, m: nat, n: nat): (s: seq<byte>)
    ensures |s| == pad + m + n
    ensures forall i :: 0 <= i < |s| ==> s[i] == if pad <= i < pad + m then 0xFF else 0
  {
    seq(pad + m + n, i => if pad <= i < pad + m then 0xFF else 0)
  }

  /** The padding that aligns the data when the old footer starts on a storage page. */
  function PadFor(g: Geometry, length: nat): nat
    requires FOOTER_SIZE <= length
  {
    if (length - FOOTER_SIZE) % 4096 == 0 then Max(4096, BitmapSize(g)) - BitmapSize(g) else 0
  }

  predicate CanAllocate(st: Store, b: nat)
    requires Placed(st)
  {
    hide Covers, Addressable, BitmapSectors, TableSize, Apart, BlockFits, IsPow2, Bounded;
    Bounded(st) && IsPow2(st.geo.blockSize) && b < st.geo.entries && st.bat[b] == FREE
  }

  function WindowFor(st: Store, b: nat): Window
    requires b < |st.bat|
  {
    UpdateWindow(st.geo.tableOffset, 4 * |st.bat|, b)
  }

  lemma AllocationFacts(st: Store, b: nat)
    requires Placed(st) && CanAllocate(st, b)
    ensures var g := st.geo; var s := NewBlockAt(g, |st.data|);
      && g.entries <= |st.bat| && BatEnd(g) == g.tableOffset + 4 * |st.bat|
      && 1536 <= g.tableOffset && BatEnd(g) + 512 <= |st.data|
      && s / 512 < FREE && s % 512 == 0 && |st.data| - 512 <= s
      && 4 * b + 4 <= 4 * |st.bat|
      && 4 * |st.bat| % 512 == 0 && g.tableOffset % 512 == 0
    ensures WindowFor(st, b).start + WindowFor(st, b).size <= 4 * |st.bat| && 0 < WindowFor(st, b).size
    ensures |st.data| + PadFor(st.geo, |st.data|) <= NewBlockAt(st.geo, |st.data|) + FOOTER_SIZE
  {
    hide IsPow2, Covers, Addressable, BitmapSectors, Apart, BlockFits, Bounded, UpdateWindow, RoundUp4K;
    var g := st.geo;
    NewBlockFacts(g, |st.data|);
    NewEntryFits(st, b);
    WindowCovers(g.tableOffset, 4 * |st.bat|, b);
  }

  /**
   * The three writes of an allocation: a block whose `m` bytes of bitmap start at `s` and whose
   * data is `n` bytes long, the footer behind it, and the window `w` of the table at `t`.
   */
  function ThreeWrites(data: seq<byte>, pad: nat, s: nat, m: nat, n: nat, footer: seq<byte>,
                       t: nat, table: seq<byte>, w: Window): seq<byte>
    requires pad <= s && w.start + w.size <= |table|
  {
    var d1 := WriteAt(data, s - pad, BlockImage(pad, m, n));
    var d2 := WriteAt(d1, s + m + n, footer);
    WriteAt(d2, t + w.start, table[w.start..w.start + w.size])
  }

  /** Byte by byte, what those writes leave in the file. */
  predicate Written(data: seq<byte>, s: nat, m: nat, n: nat, footer: seq<byte>,
                    t: nat, table: seq<byte>, w: Window, d: seq<byte>) {
    && |footer| == FOOTER_SIZE <= |data| <= s + FOOTER_SIZE
    && w.start + w.size <= |table| && t + |table| + FOOTER_SIZE <= |data|
    && |d| == s + m + n + FOOTER_SIZE
    && (forall k :: t + w.start <= k < t + w.start + w.size ==> d[k] == table[k - t])
    && (forall k :: 0 <= k < |data| - FOOTER_SIZE && (k < t + w.start || t + w.start + w.size <= k) ==>
          d[k] == data[k])
    && (forall k :: s <= k < s + m ==> d[k] == 0xFF)
    && (forall k :: s + m <= k < s + m + n ==> d[k] == 0)
    && d[s + m + n..] == footer
  }

  lemma WritesWritten(data: seq<byte>, pad: nat, s: nat, m: nat, n: nat, footer: seq<byte>,
                      t: nat, table: seq<byte>, w: Window)
    requires |footer| == FOOTER_SIZE <= |data| && |data| + pad <= s + FOOTER_SIZE && m > 0
    requires 0 < w.size && w.start + w.size <= |table| && t + |table| + FOOTER_SIZE <= |data|
    ensures Written(data, s, m, n, footer, t, table, w,
                    ThreeWrites(data, pad, s, m, n, footer, t, table, w))
  {
    var image := BlockImage(pad, m, n);
    hide BlockImage, WriteAt;
    var d1 := WriteAt(data, s - pad, image);
    var d2 := WriteAt(d1, s + m + n, footer);
    var d3 := WriteAt(d2, t + w.start, table[w.start..w.start + w.size]);
    assert |d2| == |d3| == s + m + n + FOOTER_SIZE;
    assert d3[s + m + n..] == footer;
  }

  /** `st'` is `st` after the writes that allocate block `b`. */
  predicate IsAllocation(st: Store, b: nat, footer: seq<byte>, st': Store)
    requires Placed(st) && CanAllocate(st, b)
  {
    AllocationFacts(st, b);
    hide Placed, CanAllocate, NewBlockAt, WindowFor, BitmapSize, BatEnd, Written;
    var g, s := st.geo, NewBlockAt(st.geo, |st.data|);
    && st'.geo == g
    && st'.bat == st.bat[b := s / 512]
    && Written(st.data, s, BitmapSize(g), g.blockSize, footer, g.tableOffset,
               TableBytes(st'.bat), WindowFor(st, b), st'.data)
  }

  /** The three writes allocate the block. */
  lemma AllocationDone(st: Store, b: nat, footer: seq<byte>, st': Store)
    requires Placed(st) && CanAllocate(st, b) && |footer| == FOOTER_SIZE
    requires |st'.bat| == |st.bat| && st.geo == st'.geo && b < |st.bat|
    requires 512 <= |st.data| && NewBlockAt(st.geo, |st.data|) / 512 < FREE
    requires st'.bat == st.bat[b := NewBlockAt(st.geo, |st.data|) / 512]
    requires PadFor(st.geo, |st.data|) <= NewBlockAt(st.geo, |st.data|)
    requires WindowFor(st, b).start + WindowFor(st, b).size <= 4 * |st.bat|
    requires st'.data == ThreeWrites(st.data, PadFor(st.geo, |st.data|), NewBlockAt(st.geo, |st.data|),
                                     BitmapSize(st.geo), st.geo.blockSize, footer,
                                     st.geo.tableOffset, TableBytes(st'.bat), WindowFor(st, b))
    ensures IsAllocation(st, b, footer, st') && Placed(st') && Bounded(st')
  {
    AllocationFacts(st, b);
    BitmapFacts(st.geo);
    assert IsAllocation(st, b, footer, st') by {
      hide Placed, CanAllocate, NewBlockAt, WindowFor, BitmapSize, BatEnd, Written, ThreeWrites, TableBytes, PadFor;
      WritesWritten(st.data, PadFor(st.geo, |st.data|), NewBlockAt(st.geo, |st.data|), BitmapSize(st.geo),
                    st.geo.blockSize, footer, st.geo.tableOffset, TableBytes(st'.bat), WindowFor(st, b));
    }
    hide Placed, NewBlockAt, WindowFor, BitmapSize, BatEnd, Written, ThreeWrites, TableBytes, PadFor, Bounded,
      IsPow2, Extends, IsAllocation, KeepsBlocks;
    AllocationExtends(st, b, footer, st');
    AllocatePlaced(st, b, st');
  }

  lemma AllocationExtends(st: Store, b: nat, footer: seq<byte>, st': Store)
    requires Placed(st) && CanAllocate(st, b) && IsAllocation(st, b, footer, st')
    ensures Extends(st, b, st') && KeepsBlocks(st, st')
  {
    AllocationFacts(st, b);
    hide Bounded, IsPow2, GeometryOk, Apart, BlockFits, NewBlockAt, WindowFor, BitmapSize, BatEnd, TableBytes,
      TableSize;
  }

  /** The table in the file follows the table in memory through an allocation. */
  lemma AllocationMirrors(st: Store, b: nat, footer: seq<byte>, st': Store)
    requires Placed(st) && CanAllocate(st, b) && IsAllocation(st, b, footer, st')
    requires Placed(st') && Mirrored(st)
    ensures Mirrored(st')
  {
    AllocationFacts(st, b);
    assert b < st.geo.entries;
    hide Placed, CanAllocate, NewBlockAt, BitmapSize, BatEnd, TableBytes, Mirrored, UpdateWindow;
    WindowMirrors(st, b, st');
  }

  lemma AllocationFrames(st: Store, b: nat, footer: seq<byte>, header: seq<byte>, st': Store)
    requires Placed(st) && CanAllocate(st, b) && IsAllocation(st, b, footer, st')
    requires Framed(st.data, footer, header)
    ensures Framed(st'.data, footer, header)
  {
    AllocationFacts(st, b);
    hide Placed, CanAllocate, NewBlockAt, BitmapSize, BatEnd, TableBytes, WindowFor;
  }

  lemma AllocationMarks(st: Store, b: nat, footer: seq<byte>, st': Store)
    requires Placed(st) && CanAllocate(st, b) && IsAllocation(st, b, footer, st')
    requires Placed(st') && Marked(st)
    ensures Marked(st')
  {
    AllocationFacts(st, b);
    hide Bounded, IsPow2, GeometryOk, Apart, BitmapSectors, NewBlockAt, WindowFor, BatEnd, TableBytes, TableSize;
    forall c | 0 <= c < st.geo.entries && st'.bat[c] != FREE
      ensures BlockMarked(st'.data, st'.bat[c], BitmapSize(st.geo))
    {
      if c != b {
        assert BlockMarked(st.data, st.bat[c], BitmapSize(st.geo));
        assert BlockFits(st.geo, st.bat[c], |st.data|);
      }
    }
  }

  // ----- overwriting block data leaves the rest of the file alone -----

  lemma FrameKept(data: seq<byte>, at: nat, buf: seq<byte>, footer: seq<byte>, header: seq<byte>)
    requires Framed(data, footer, header)
    requires FOOTER_SIZE + HEADER_SIZE <= at && at + |buf| + FOOTER_SIZE <= |data|
    ensures Framed(WriteAt(data, at, buf), footer, header)
  {
    hide WriteAt;
  }

  lemma MirrorKept(st: Store, at: nat, buf: seq<byte>, st': Store)
    requires Placed(st) && BatEnd(st.geo) <= at && at + |buf| <= |st.data|
    requires st' == st.(data := WriteAt(st.data, at, buf)) && Placed(st')
    ensures Mirrored(st) ==> Mirrored(st')
  {
    assert st.geo.tableOffset + 4 * |st.bat| == BatEnd(st.geo) && st.geo.entries <= |st.bat| by {
      hide BitmapSectors, Covers, Addressable, Apart, BlockFits;
    }
    hide Placed, WriteAt, U32At, BatEnd;
    if Mirrored(st) {
      forall b | 0 <= b < st.geo.entries
        ensures U32At(st'.data, st.geo.tableOffset + 4 * b) == st.bat[b]
      {
        var p := st.geo.tableOffset + 4 * b;
        assert p + 4 <= at;
        U32AtSame(st.data, st'.data, p);
      }
    }
  }

  lemma OverwriteKeeps(st: Store, off: nat, buf: seq<byte>, footer: seq<byte>, header: seq<byte>, st': Store)
    requires Placed(st) && InBlock(st, off, |buf|) && InBlock(st, off, 0)
    requires st' == st.(data := WriteAt(st.data, FileOffset(st, off), buf)) && Placed(st')
    ensures Bounded(st) ==> Bounded(st')
    ensures Mirrored(st) ==> Mirrored(st')
    ensures Framed(st.data, footer, header) ==> Framed(st'.data, footer, header)
  {
    assert FOOTER_SIZE + HEADER_SIZE <= BatEnd(st.geo) by {
      hide BitmapSectors, Covers, Addressable, Apart, BlockFits;
    }
    hide Placed, InBlock, FileOffset, BatEnd, Framed, Mirrored, WriteAt, Growth;
    RunFits(st, off, |buf|);
    MirrorKept(st, FileOffset(st, off), buf, st');
    if Framed(st.data, footer, header) {
      FrameKept(st.data, FileOffset(st, off), buf, footer, header);
    }
  }

  lemma OverwriteMarks(st: Store, off: nat, buf: seq<byte>, st': Store)
    requires Placed(st) && InBlock(st, off, |buf|) && InBlock(st, off, 0)
    requires st' == st.(data := WriteAt(st.data, FileOffset(st, off), buf)) && Placed(st')
    requires Marked(st)
    ensures Marked(st')
  {
    hide Covers, Addressable, BitmapSectors, TableSize, BlockOf, BlockStart, Within;
    var g := st.geo;
    var b := BlockOf(off, g.blockSize);
    RunFits(st, off, |buf|);
    BlockOfFacts(off, g.blockSize);
    assert BlockFits(g, st.bat[b], |st.data|);
    forall c | 0 <= c < g.entries && st.bat[c] != FREE
      ensures BlockMarked(st'.data, st.bat[c], BitmapSize(g))
    {
      assert BlockMarked(st.data, st.bat[c], BitmapSize(g));
      if c != b {
        assert Apart(g, st.bat[b], st.bat[c]) || Apart(g, st.bat[c], st.bat[b]);
        assert BlockFits(g, st.bat[c], |st.data|);
      }
    }
  }

  /** Everything an allocation does and keeps. */
  lemma AllocationEffects(st: Store, b: nat, footer: seq<byte>, header: seq<byte>, st': Store, base: seq<byte>)
    requires Placed(st) && CanAllocate(st, b) && IsAllocation(st, b, footer, st') && Placed(st')
    requires |base| == st.geo.size
    ensures |st'.bat| == |st.bat| && b < |st.bat| && st'.bat == st.bat[b := st'.bat[b]] && st'.bat[b] != FREE
    ensures st.geo.entries <= |st.bat| && st'.geo == st.geo && |st.data| <= |st'.data|
    ensures Bounded(st') && Used(st'.bat, st.geo.entries) == Used(st.bat, st.geo.entries) + 1
    ensures View(st', base) == Patch(View(st, base), BlockStart(b, st.geo.blockSize), Fill(st.geo.blockSize, 0))
    ensures Mirrored(st) ==> Mirrored(st')
    ensures Framed(st.data, footer, header) ==> Framed(st'.data, footer, header)
    ensures Marked(st) ==> Marked(st')
  {
    AllocationFacts(st, b);
    AllocationExtends(st, b, footer, st');
    assert Bounded(st) && IsPow2(st.geo.blockSize);
    assert |st.data| <= |st'.data| by { hide Placed, NewBlockAt, Bounded, IsPow2; }
    hide Placed, CanAllocate, NewBlockAt, Bounded, IsPow2, KeepsBlocks, Mirrored, Framed, Marked, Used, View,
      BlockStart, Written;
    AllocateBounded(st, b, st');
    AllocateView(st, b, st', base);
    if Mirrored(st) { AllocationMirrors(st, b, footer, st'); }
    if Framed(st.data, footer, header) { AllocationFrames(st, b, footer, header, st'); }
    if Marked(st) { AllocationMarks(st, b, footer, st'); }
  }
}
