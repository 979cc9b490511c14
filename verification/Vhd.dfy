/** An open virtual hard disk: fixed, dynamic, or differencing with a parent. */
module VirtualDisks {
  import opened Arithmetic
  import opened Bytes
  import opened HostFiles
  import opened VhdLayout
  import opened VhdTable
  import opened VhdFormat

  datatype Status = Ok | IoError | Eof

  class Vhd {
    const footer: Footer
    const header: Header
    const file: HostFile
    const bat: array<uint32>
    const parent: Vhd?
    ghost const Repr: set<object>

    constructor (footer: Footer, header: Header, file: HostFile, bat: array<uint32>, parent: Vhd?)
      ensures this.footer == footer && this.header == header && this.file == file
      ensures this.bat == bat && this.parent == parent
      ensures Repr == {this, file, bat} + if parent == null then {} else parent.Repr
    {
      this.footer := footer;
      this.header := header;
      this.file := file;
      this.bat := bat;
      this.parent := parent;
      Repr := {this, file, bat} + if parent == null then {} else parent.Repr;
    }

    /** The footprint is what the constructor made it. */
    ghost predicate OwnRepr() {
      Repr == {this, file, bat} + if parent == null then {} else parent.Repr
    }

    function Size(): nat {
      CurrentSize(footer)
    }

    predicate IsFixed() {
      DiskType(footer) == FIXED
    }

    function Geo(): Geometry {
      GeometryOf(footer, header)
    }

    function Stored(): Store
      reads file, bat
    {
      Store(Geo(), bat[..], file.data)
    }

    /** A parent that can stand under this disk: same size, and its own table covers our blocks. */
    predicate Underlies(p: Vhd) {
      && p.Size() == Size()
      && (p.IsFixed() || (IsPow2(p.Geo().blockSize) && Capacity(Geo()) <= Capacity(p.Geo())))
    }

    ghost predicate Valid()
      reads this, Repr
      decreases Repr
    {
      hide IsPow2, Capacity, CurrentSize, DiskType, GeometryOf;
      && this in Repr && file in Repr && bat in Repr
      && (parent != null ==>
            && parent in Repr && parent.Repr <= Repr
            && this !in parent.Repr && file !in parent.Repr && bat !in parent.Repr
            && parent.Valid()
            && !IsFixed() && Underlies(parent))
      && if IsFixed() then Size() + FOOTER_SIZE <= |file.data| else Placed(Stored())
    }

    /** The flat disk a guest sees. */
    ghost function View(): (v: seq<byte>)
      requires Valid()
      reads this, Repr
      ensures |v| == Size()
      decreases Repr, 1
    {
      hide IsPow2, Capacity, CurrentSize, DiskType, Placed;
      if IsFixed() then file.data[..Size()] else VhdLayout.View(Stored(), Base())
    }

    /** What shows through free blocks: the parent, or zeros. */
    ghost function Base(): (v: seq<byte>)
      requires Valid()
      reads this, Repr
      ensures |v| == Size()
      decreases Repr, 0
    {
      hide IsPow2, Capacity, CurrentSize, DiskType, GeometryOf, Placed;
      if parent == null then Fill(Size(), 0) else parent.View()
    }

    /** What `ReadVirtualDisk` demands: it indexes the table without a check. */
    predicate InTable(off: nat, n: nat) {
      IsFixed() || off + n <= Capacity(Geo())
    }

    predicate Serves() {
      IsFixed() || IsPow2(Geo().blockSize)
    }

    /** One turn of the read loop: a run of bytes inside one block. */
    method ReadPiece(buf: array<byte>, at: nat, n: nat, pos: nat, b: nat)
      returns (status: Status, got: nat)
      requires Valid() && !IsFixed() && buf !in Repr && n < 0x1_0000_0000 && at + n <= buf.Length
      requires Piece(Stored(), pos, n) && InTable(pos, n) && b == BlockOf(pos, Geo().blockSize)
      modifies buf
      ensures got <= n
      ensures status == Ok ==> 0 < got && (pos + n <= Size() ==> got == n)
      ensures status != Ok ==> Size() <= pos && got == 0
      ensures forall k :: 0 <= k < buf.Length && !(at <= k < at + n) ==> buf[k] == old(buf[k])
      ensures forall j :: at <= j < at + got && pos + j - at < Size() ==> buf[j] == View()[pos + j - at]
      decreases Repr, 0
    {
      hide IsPow2, Capacity, CurrentSize, DiskType, TableOffset, MaxTableEntries, BlockSize, Placed, InBlock,
        BitmapSectors, BlockNumber, BlockOf, BlockStart, VhdLayout.View;
      ghost var view := View();
      BlockOfFacts(pos, BlockSize(header));
      if bat[b] == FREE {
        FreeShowsBase(Stored(), Base(), b);
        if parent == null {
          forall k | 0 <= k < n {
            buf[at + k] := 0;
          }
          return Ok, n;
        } else {
          status, got := parent.Read(buf, at, n, pos);
        }
      } else {
        BlockShowsFile(Stored(), Base(), pos, n);
        var from := DataStart(Geo(), bat[b]) + pos % BlockSize(header);
        assert from == FileOffset(Stored(), pos);
        got := file.Read(buf, at, n, from);
        assert forall j :: at <= j < at + got ==> buf[j] == buf[at..at + got][j - at];
        status := Ok;
      }
      assert forall j :: at <= j < at + got && pos + j - at < Size() ==> buf[j] == view[pos + j - at];
    }

    /**
     * Reads `n` bytes at `off` into `buf[at..]`. A transfer that ends inside the disk arrives
     * complete; one that runs past its end, as the copy of a last partial block does, delivers at
     * least what is inside.
     */
    method Read(buf: array<byte>, at: nat, n: nat, off: nat) returns (status: Status, got: nat)
      requires Valid() && buf !in Repr && n < 0x1_0000_0000 && at + n <= buf.Length
      requires off < Size() ==> InTable(off, n)
      modifies buf
      ensures got <= n
      ensures forall k :: 0 <= k < buf.Length && !(at <= k < at + n) ==> buf[k] == old(buf[k])
      ensures n == 0 ==> status == Ok && got == 0
      ensures n > 0 && (Size() <= off || !Serves()) ==> status == IoError && got == 0
      ensures n > 0 && off < Size() && Serves() ==> status == Ok && Min(n, Size() - off) <= got
      ensures forall j :: at <= j < at + got && off + j - at < Size() ==> buf[j] == View()[off + j - at]
      decreases Repr, 1
    {
      hide IsPow2, Capacity, CurrentSize, DiskType, TableOffset, MaxTableEntries, BlockSize, Placed, InBlock,
        BitmapSectors, BlockNumber, BytesInBlock, BlockOf, BlockStart, VhdLayout.View;
      if n == 0 {
        return Ok, 0;
      }
      if off >= Size() {
        return IoError, 0;
      }
      if IsFixed() {
        got := file.Read(buf, at, n, off);
        assert forall j :: at <= j < at + got ==> buf[j] == buf[at..at + got][j - at];
        return Ok, got;
      }
      var bs := BlockSize(header);
      Pow2Positive(bs);
      if bs == 0 || !IsPow2(bs) {
        return IoError, 0;
      }
      var r := Ok;
      got := 0;
      while got < n && r == Ok
        invariant got <= n && Valid()
        invariant forall k :: 0 <= k < buf.Length && !(at <= k < at + n) ==> buf[k] == old(buf[k])
        invariant forall j :: at <= j < at + got && off + j - at < Size() ==>
          buf[j] == View()[off + j - at]
        invariant r != Ok ==> Size() <= off + got
        decreases n - got, if r == Ok then 1 else 0
      {
        FirstPiece(Stored(), off + got, n - got);
        var b := BlockNumber(off + got, bs);
        var want := BytesInBlock(off + got, n - got, bs);
        var m;
        r, m := ReadPiece(buf, at + got, want, off + got, b);
        got := got + m;
      }
      status := Ok;
    }

    // ----- writing -----

    /** The length of the file still leaves room for every free block. */
    ghost predicate Roomy()
      requires Valid()
      reads this, Repr
    {
      hide IsPow2, Capacity, CurrentSize, DiskType, Placed, Bounded, GeometryOf;
      IsFixed() || Bounded(Stored())
    }

    /** The file holds what a later open needs: both footers, the header and the table. */
    ghost predicate OnDisk()
      requires Valid()
      reads this, Repr
    {
      hide IsPow2, Capacity, CurrentSize, DiskType, Placed, Mirrored, Framed, GeometryOf;
      if IsFixed() then file.data[Size()..] == footer
      else Mirrored(Stored()) && Framed(file.data, footer, header)
    }

    /** Readers that do consult the sector bitmaps find every sector of an allocated block marked. */
    ghost predicate AllMarked()
      requires Valid()
      reads this, Repr
    {
      hide IsPow2, Capacity, CurrentSize, DiskType, Placed, Marked, GeometryOf;
      IsFixed() || Marked(Stored())
    }

    ghost function FreeBlocks(): nat
      requires Valid()
      reads this, Repr
    {
      hide IsPow2, Capacity, CurrentSize, DiskType, Used, GeometryOf;
      if IsFixed() then 0 else Geo().entries - Used(bat[..], Geo().entries)
    }

    /** Writes bitmap and zeroed data of a new block behind what the file holds. */
    method PlaceBlock() returns (at: nat)
      requires GeometryOk(Geo()) && FOOTER_SIZE <= |file.data|
      modifies file
      ensures at == NewBlockAt(Geo(), old(|file.data|))
      ensures var pad := PadFor(Geo(), old(|file.data|));
        pad <= at && file.data ==
        WriteAt(old(file.data), at - pad, BlockImage(pad, BitmapSize(Geo()), Geo().blockSize))
    {
      hide IsPow2, Capacity, CurrentSize, TableOffset, MaxTableEntries, BlockSize, Covers, Addressable,
        BitmapSectors, BitmapBytes, RoundUp4K, BlockImage, WriteAt;
      BitmapFacts(Geo());
      var bs := BlockSize(header);
      var m := BitmapSectors(bs) * 512;
      var bytes := BitmapBytes(bs);
      var bufferSize := if m > 4096 then m else 4096;
      at := |file.data| - FOOTER_SIZE;
      if at % 4096 == 0 {
        var mark := if bufferSize > m then bufferSize - bytes else 0;
        file.Write(BlockImage(mark, bytes, bufferSize - mark - bytes + bs), at);
        at := at + bufferSize;
      } else {
        RoundUpAbove(at + m);
        at := RoundUp4K(at + m) - m;
        file.Write(BlockImage(0, bytes, m - bytes + bs), at);
        at := at + m;
      }
      at := at - m;
    }

    /** Gives block `b` a place in the file: the block, the moved footer, the changed table window. */
    method AppendBlock(b: nat)
      requires Valid() && !IsFixed() && CanAllocate(Stored(), b)
      modifies file, bat
      ensures Valid() && IsAllocation(old(Stored()), b, footer, Stored())
    {
      hide IsPow2, Capacity, CurrentSize, DiskType, TableOffset, MaxTableEntries, BlockSize, CanAllocate,
        BitmapSectors, Bounded, BlockFits, Apart, Covers, Addressable, Written, BlockImage, WriteAt,
        UpdateWindow, TableBytes, NewBlockAt, PadFor;
      ghost var st := Stored();
      AllocationFacts(st, b);
      BitmapFacts(Geo());
      var bs := BlockSize(header);
      var m := BitmapSectors(bs) * 512;
      var at := PlaceBlock();
      bat[b] := at / 512 % 0x1_0000_0000;
      file.Write(footer, at + m + bs);
      var w := UpdateWindow(TableOffset(header), TableSize(MaxTableEntries(header)), b);
      var table := TableBytes(bat[..]);
      file.Write(table[w.start..w.start + w.size], TableOffset(header) + w.start);
      AllocationDone(st, b, footer, Stored());
    }

    /** A new block shows zeros; nothing else of the view, and nothing a later open needs, changes. */
    method Allocate(b: nat)
      requires Valid() && !IsFixed() && CanAllocate(Stored(), b)
      modifies file, bat
      ensures Valid() && Roomy() && FreeBlocks() < old(FreeBlocks())
      ensures bat[b] != FREE && forall c :: 0 <= c < bat.Length && c != b ==> bat[c] == old(bat[c])
      ensures View() == Patch(old(View()), BlockStart(b, Geo().blockSize), Fill(Geo().blockSize, 0))
      ensures old(OnDisk()) ==> OnDisk()
      ensures old(AllMarked()) ==> AllMarked()
    {
      hide IsPow2, Capacity, CurrentSize, DiskType, TableOffset, MaxTableEntries, BlockSize, CanAllocate,
        Placed, IsAllocation, VhdLayout.View, Mirrored, Framed, Marked, Used, BlockStart, Bounded;
      ghost var st, base := Stored(), Base();
      AppendBlock(b);
      AllocationEffects(st, b, footer, header, Stored(), base);
    }

    /** The scan that lets a write of zeros to a free block of a parentless disk do nothing. */
    static method BufferIsZeros(buf: seq<byte>) returns (zeros: bool)
      ensures zeros == AllZero(buf)
    {
      for i := 0 to |buf|
        invariant forall k :: 0 <= k < i ==> buf[k] == 0
      {
        if buf[i] != 0 {
          return false;
        }
      }
      return true;
    }

    /**
     * One turn of the write loop, for bytes inside one block. Either all of them are written, or
     * none is and the block has been allocated with the contents it had before.
     */
    method WritePiece(buf: seq<byte>, pos: nat, b: nat) returns (status: Status, moved: nat)
      requires Valid() && !IsFixed() && Serves() && Roomy() && |buf| < 0x1_0000_0000
      requires Piece(Stored(), pos, |buf|) && b == BlockOf(pos, Geo().blockSize)
      modifies file, bat
      ensures Valid() && Roomy() && status == Ok
      ensures moved == |buf| || moved == 0
      ensures View() == Patch(old(View()), pos, buf[..moved])
      ensures FreeBlocks() <= old(FreeBlocks()) - if moved == 0 then 1 else 0
      ensures old(OnDisk()) ==> OnDisk()
      ensures old(AllMarked()) ==> AllMarked()
      decreases FreeBlocks(), 1
    {
      hide IsPow2, Capacity, CurrentSize, DiskType, TableOffset, MaxTableEntries, BlockSize, Placed, InBlock,
        VhdLayout.View, Mirrored, Framed, Marked, Used, BlockStart, BlockOf, Bounded;
      ghost var st, base, view := Stored(), Base(), View();
      status, moved := Ok, 0;
      if bat[b] == FREE {
        FreeShowsBase(st, base, b);
        BlockOfFacts(pos, BlockSize(header));
        var zeros := BufferIsZeros(buf);
        if parent == null && zeros {
          PatchZeros(view, pos, buf);
          moved := |buf|;
        } else {
          Allocate(b);
          if parent != null {
            status := CopyUp(b, pos, view);
          }
        }
      } else {
        var at := DataStart(Geo(), bat[b]) + pos % BlockSize(header);
        OverwriteView(st, base, pos, buf);
        OverwriteKeeps(st, pos, buf, footer, header, st.(data := WriteAt(st.data, FileOffset(st, pos), buf)));
        if Marked(st) {
          OverwriteMarks(st, pos, buf, st.(data := WriteAt(st.data, FileOffset(st, pos), buf)));
        }
        file.Write(buf, at);
        moved := |buf|;
      }
    }

    /** Fills the block just allocated with what the parent has there. */
    method CopyUp(b: nat, pos: nat, ghost view: seq<byte>) returns (status: Status)
      requires Valid() && !IsFixed() && Serves() && Roomy() && parent != null
      requires b < Geo().entries && b == BlockOf(pos, Geo().blockSize)
      requires |view| == Size()
      requires View() == Patch(view, BlockStart(b, Geo().blockSize), Fill(Geo().blockSize, 0))
      requires var d := Geo().blockSize;
        forall i :: BlockStart(b, d) <= i < BlockStart(b, d) + d && i < Size() ==>
          view[i] == parent.View()[i]
      modifies file, bat
      ensures Valid() && Roomy() && status == Ok
      ensures View() == view
      ensures FreeBlocks() <= old(FreeBlocks())
      ensures old(OnDisk()) ==> OnDisk()
      ensures old(AllMarked()) ==> AllMarked()
      decreases FreeBlocks(), 3
    {
      hide IsPow2, CurrentSize, DiskType, TableOffset, MaxTableEntries, BlockSize, Placed, Capacity,
        VhdLayout.View, Mirrored, Framed, Marked, Used, Bounded;
      BlockBounds(Stored(), b);
      var bs := BlockSize(header);
      var block := new byte[bs];
      var start := pos / bs * bs;
      assert start == BlockStart(b, bs);
      hide BlockStart, BlockOf;
      var s, got := parent.Read(block, 0, bs, start);
      if s != Ok {
        return IoError;
      }
      assert forall i :: start <= i < start + bs && i < Size() ==> block[..][i - start] == view[i];
      var t, w := Write(block[..], start);
      if t != Ok {
        return IoError;
      }
      PatchBack(view, start, bs, block[..]);
      status := Ok;
    }

    /** What a write that starts on a fixed disk leaves of the disk and of the footer behind it. */
    static lemma FooterOverrun(data: seq<byte>, size: nat, footer: Footer, off: nat, buf: seq<byte>)
      requires off < size && size + FOOTER_SIZE <= |data|
      ensures var now := WriteAt(data, off, buf);
        && |data| <= |now| && now[..size] == Patch(data[..size], off, buf)
        && (data[size..] == footer && off + |buf| <= size ==> now[size..] == footer)
        && (data[size..] == footer && size < off + |buf| ==> (now[size..] == footer <==> buf[size - off..] <= footer))
    {
      var now := WriteAt(data, off, buf);
      assert now[..size] == Patch(data[..size], off, buf);
      if data[size..] == footer {
        if off + |buf| <= size {
          assert now[size..] == data[size..];
        } else {
          var over := buf[size - off..];
          assert |now| == Max(|data|, off + |buf|);
          assert now[size..size + |over|] == over;
          assert now[size..][..|over|] == over;
          if over <= footer {
            assert now[size..] == over + data[size + |over|..];
            assert data[size + |over|..] == footer[|over|..];
            assert footer == over + footer[|over|..];
          }
        }
      }
    }

    /**
     * Writes `buf` at `off`. The view changes exactly there, whatever mixture of zeros, new blocks
     * and blocks copied up from the parent that takes. A transfer that runs past the last block of
     * the table ends with `Eof`, and reports no bytes although those inside have been written. One
     * that runs past the end of a fixed disk goes over its footer.
     */
    method Write(buf: seq<byte>, off: nat) returns (status: Status, written: nat)
      requires Valid() && Roomy() && |buf| < 0x1_0000_0000
      modifies file, bat
      ensures Valid() && Roomy()
      ensures buf != [] && (Size() <= off || !Serves()) ==>
        status == IoError && written == 0 && View() == old(View())
      ensures buf == [] || (off < Size() && Serves()) ==>
        && View() == Patch(old(View()), off, buf)
        && (if buf == [] || InTable(off, |buf|) then status == Ok && written == |buf|
            else status == Eof && written == 0)
      ensures FreeBlocks() <= old(FreeBlocks())
      ensures old(OnDisk()) && (IsFixed() ==> off + |buf| <= Size()) ==> OnDisk()
      ensures old(OnDisk()) && IsFixed() && off < Size() < off + |buf| ==>
        (OnDisk() <==> buf[Size() - off..] <= footer)
      ensures old(AllMarked()) ==> AllMarked()
      decreases FreeBlocks(), 2
    {
      hide IsPow2, CurrentSize, DiskType, TableOffset, MaxTableEntries, BlockSize, InBlock, Piece,
        VhdLayout.View, Mirrored, Framed, Marked, Used, Bounded, Placed, Capacity,
        BytesInBlock, BlockNumber, BlockOf, BlockStart;
      ghost var view := View();
      if buf == [] {
        return Ok, 0;
      }
      if off >= Size() {
        return IoError, 0;
      }
      if IsFixed() {
        FooterOverrun(file.data, Size(), footer, off, buf);
        file.Write(buf, off);
        return Ok, |buf|;
      }
      var bs := BlockSize(header);
      Pow2Positive(bs);
      if bs == 0 || !IsPow2(bs) {
        return IoError, 0;
      }
      var done := 0;
      var r := Ok;
      CoversDisk(Stored());
      while done < |buf| && r == Ok
        invariant Valid() && Roomy() && r == Ok && done <= |buf| && off + done <= Capacity(Geo())
        invariant View() == Patch(view, off, buf[..done])
        invariant FreeBlocks() <= old(FreeBlocks())
        invariant old(OnDisk()) ==> OnDisk()
        invariant old(AllMarked()) ==> AllMarked()
        decreases FreeBlocks(), |buf| - done
      {
        BehindTable(Stored(), off + done);
        var b := BlockNumber(off + done, bs);
        if b >= MaxTableEntries(header) {
          PatchPast(view, off, buf, done);
          return Eof, 0;
        }
        FirstPiece(Stored(), off + done, |buf| - done);
        var want := BytesInBlock(off + done, |buf| - done, bs);
        var moved;
        r, moved := WritePiece(buf[done..done + want], off + done, b);
        PatchNext(view, off, buf, done, moved);
        assert buf[done..done + want][..moved] == buf[done..done + moved];
        done := done + moved;
      }
      assert buf[..done] == buf;
      return r, done;
    }
  }
}
