/**
 * What a virtual hard disk file says, byte by byte, in the terms of the Virtual Hard Disk Image
 * Format Specification 1.0: numbers are big endian, checksums are plain sums.
 */
module VhdBytes {
  import opened Bytes
  import opened Options
  import opened VhdLayout
  import opened VhdTable
  import opened VhdFormat

  /** The number that big-endian bytes stand for. */
  function Number(s: seq<byte>): nat {
    if s == [] then 0 else Number(s[..|s| - 1]) * 0x100 + s[|s| - 1]
  }

  function Sum(s: seq<byte>): nat {
    if s == [] then 0 else Sum(s[..|s| - 1]) + s[|s| - 1]
  }

  /** `n` bytes from `pos` on, zeros behind the end of the file. */
  function BytesAt(data: seq<byte>, pos: nat, n: nat): (r: seq<byte>)
    ensures |r| == n
  {
    seq(n, i requires 0 <= i < n => if pos + i < |data| then data[pos + i] else 0)
  }

  /** A footer with its checksum, its cookie and one of the disk types. */
  predicate FooterInOrder(f: Footer) {
    && Number(f[64..68]) == 0xFFFF_FFFF - (Sum(f[..64]) + Sum(f[68..])) % 0x1_0000_0000
    && f[..8] == [0x63, 0x6F, 0x6E, 0x65, 0x63, 0x74, 0x69, 0x78]
    && 2 <= Number(f[60..64]) <= 4
  }

  /** A dynamic header with its checksum and its cookie. */
  predicate HeaderInOrder(h: Header) {
    && Number(h[36..40]) == 0xFFFF_FFFF - (Sum(h[..36]) + Sum(h[40..])) % 0x1_0000_0000
    && h[..8] == [0x63, 0x78, 0x73, 0x70, 0x61, 0x72, 0x73, 0x65]
  }

  /** The footer is the last of the file. */
  function LastBytes(data: seq<byte>): (f: Footer)
    requires |data| >= 512
  {
    data[|data| - 512..]
  }

  /** The header is where the footer says. */
  function HeaderBytes(data: seq<byte>): (h: Header)
    requires |data| >= 512
  {
    BytesAt(data, Number(LastBytes(data)[16..24]), 1024)
  }

  /** The file is not taken for corrupt. */
  predicate Readable(data: seq<byte>, errno: int) {
    && |data| >= 512 && FooterInOrder(LastBytes(data))
    && (Number(LastBytes(data)[60..64]) != 2 ==>
          && data[..512] == LastBytes(data)
          && (HeaderInOrder(HeaderBytes(data)) || errno == 0))
  }

  /** The file opens: it is readable, not in a saved state, and a child finds its parent unchanged. */
  predicate Openable(data: seq<byte>, parent: Option<Footer>, stamp: uint32, errno: int) {
    && Readable(data, errno)
    && LastBytes(data)[84] == 0
    && (Number(LastBytes(data)[60..64]) == 4 ==>
          && HeaderInOrder(HeaderBytes(data)) && parent.Some?
          && HeaderBytes(data)[40..56] == parent.value[68..84]
          && Number(HeaderBytes(data)[56..60]) == stamp)
  }

  // ----- the fields as the code reads them -----

  lemma NumberNext(s: seq<byte>, b: byte)
    ensures Number(s + [b]) == Number(s) * 0x100 + b
  {
    assert (s + [b])[..|s|] == s;
  }

  lemma FourBytes(a: byte, b: byte, c: byte, d: byte)
    ensures var x: int, y: int, z: int, w: int := a, b, c, d;
      Number([a, b, c, d]) == (x * 0x100 + y) * 0x1_0000 + (z * 0x100 + w)
  {
    NumberNext([], a);
    NumberNext([a], b);
    NumberNext([a, b], c);
    NumberNext([a, b, c], d);
    assert [] + [a] == [a] && [a] + [b] == [a, b] && [a, b] + [c] == [a, b, c] && [a, b, c] + [d] == [a, b, c, d];
  }

  lemma WordIsNumber(s: seq<byte>, at: nat)
    requires at + 4 <= |s|
    ensures U32At(s, at) == Number(s[at..at + 4])
  {
    FourBytes(s[at], s[at + 1], s[at + 2], s[at + 3]);
    assert s[at..at + 4] == [s[at], s[at + 1], s[at + 2], s[at + 3]];
  }

  lemma {:induction false} NumberConcat(s: seq<byte>, t: seq<byte>)
    requires |t| == 4
    ensures Number(s + t) == Number(s) * 0x1_0000_0000 + Number(t)
  {
    var t1, t2, t3 := t[..1], t[..2], t[..3];
    NumberNext(s, t[0]);
    NumberNext(s + t1, t[1]);
    NumberNext(s + t2, t[2]);
    NumberNext(s + t3, t[3]);
    assert s + [t[0]] == s + t1 && s + t1 + [t[1]] == s + t2 && s + t2 + [t[2]] == s + t3 && s + t3 + [t[3]] == s + t;
    FourBytes(t[0], t[1], t[2], t[3]);
    assert t == [t[0], t[1], t[2], t[3]];
  }

  lemma LongIsNumber(s: seq<byte>, at: nat)
    requires at + 8 <= |s|
    ensures U64At(s, at) == Number(s[at..at + 8])
  {
    WordIsNumber(s, at);
    WordIsNumber(s, at + 4);
    hide U32At, Number;
    NumberConcat(s[at..at + 4], s[at + 4..at + 4 + 4]);
    assert s[at..at + 4] + s[at + 4..at + 4 + 4] == s[at..at + 8];
  }

  lemma {:induction false} SumOfIs(s: seq<byte>, n: nat)
    requires n <= |s|
    ensures SumOf(s, n) == Sum(s[..n])
  {
    if n > 0 {
      SumOfIs(s, n - 1);
      assert s[..n][..n - 1] == s[..n - 1];
    }
  }

  lemma {:induction false} SumConcat(s: seq<byte>, t: seq<byte>)
    ensures Sum(s + t) == Sum(s) + Sum(t)
    decreases |t|
  {
    if t == [] {
      assert s + t == s;
    } else {
      SumConcat(s, t[..|t| - 1]);
      assert (s + t)[..|s + t| - 1] == s + t[..|t| - 1];
    }
  }

  lemma FourZeros()
    ensures Sum([0, 0, 0, 0]) == 0
  {
    SumConcat([0], [0]);
    SumConcat([0, 0], [0, 0]);
    assert [0] + [0] == [0, 0] && [0, 0] + [0, 0] == [0, 0, 0, 0];
    assert [0][..0] == [];
    assert Sum([0]) == 0;
  }

  lemma UnsummedSum(s: seq<byte>, at: nat)
    requires at + 4 <= |s|
    ensures SumOf(Unsummed(s, at), |Unsummed(s, at)|) == Sum(s[..at]) + Sum(s[at + 4..])
  {
    var u := Unsummed(s, at);
    var front, zeros, back := s[..at], [0, 0, 0, 0], s[at + 4..];
    assert u == front + zeros + back && u[..|u|] == u;
    FourZeros();
    hide Sum, Unsummed;
    SumOfIs(u, |u|);
    SumConcat(front + zeros, back);
    SumConcat(front, zeros);
  }

  /** The checksum of the code is that of the other bytes. */
  lemma ChecksumIs(s: seq<byte>, at: nat)
    requires at + 4 <= |s|
    ensures Sealed(s, at) <==>
      Number(s[at..at + 4]) == 0xFFFF_FFFF - (Sum(s[..at]) + Sum(s[at + 4..])) % 0x1_0000_0000
  {
    hide Sum, Unsummed, U32At, Number, SumOf;
    WordIsNumber(s, at);
    UnsummedSum(s, at);
  }

  lemma FooterReads(f: Footer)
    ensures FooterAccepted(f) <==> FooterInOrder(f)
    ensures DiskType(f) == Number(f[60..64]) && DataOffset(f) == Number(f[16..24])
    ensures CurrentSize(f) == Number(f[48..56])
    ensures SavedState(f) <==> f[84] != 0
    ensures UniqueId(f) == f[68..84]
  {
    WordIsNumber(f, 60);
    LongIsNumber(f, 16);
    LongIsNumber(f, 48);
    ChecksumIs(f, 64);
    hide U32At, U64At, Number, Sealed, Sum;
  }

  lemma HeaderReads(h: Header)
    ensures HeaderAccepted(h) <==> HeaderInOrder(h)
    ensures TableOffset(h) == Number(h[16..24]) && MaxTableEntries(h) == Number(h[28..32])
    ensures BlockSize(h) == Number(h[32..36])
    ensures ParentId(h) == h[40..56] && ParentStamp(h) == Number(h[56..60])
  {
    WordIsNumber(h, 28);
    WordIsNumber(h, 32);
    WordIsNumber(h, 56);
    LongIsNumber(h, 16);
    ChecksumIs(h, 36);
    hide U32At, U64At, Number, Sealed, Sum;
  }

  lemma PaddedIsBytes(data: seq<byte>, pos: nat, n: nat)
    ensures PaddedRead(data, pos, n) == BytesAt(data, pos, n)
  {
  }

  /** Parsing refuses exactly the files that are not in order, and takes the others apart. */
  lemma ParsesBytes(data: seq<byte>, errno: int)
    ensures Parse(data, errno).Rejected? <==> !Readable(data, errno)
    ensures Readable(data, errno) ==>
      && Parse(data, errno).footer == LastBytes(data)
      && (Parse(data, errno).WithTable? <==> Number(LastBytes(data)[60..64]) != 2 && HeaderInOrder(HeaderBytes(data)))
      && (Number(LastBytes(data)[60..64]) != 2 ==> Parse(data, errno).header == HeaderBytes(data))
      && (Parse(data, errno).WithTable? ==> Parse(data, errno).bat == ReadTable(data, HeaderBytes(data)))
  {
    if |data| >= 512 {
      var f := LastBytes(data);
      FooterReads(f);
      PaddedIsBytes(data, DataOffset(f), 1024);
      HeaderReads(HeaderBytes(data));
      hide FooterAccepted, HeaderAccepted, FooterInOrder, HeaderInOrder, DiskType, DataOffset, ReadTable, PaddedRead,
        BytesAt, Number;
    }
  }

  /** A file opens exactly when its bytes are in order. */
  lemma OpensBytes(data: seq<byte>, parent: Option<Footer>, stamp: uint32, errno: int)
    ensures Opens(data, parent, stamp, errno) <==> Openable(data, parent, stamp, errno)
  {
    ParsesBytes(data, errno);
    if Readable(data, errno) {
      FooterReads(LastBytes(data));
      HeaderReads(HeaderBytes(data));
      if parent.Some? {
        FooterReads(parent.value);
      }
    }
    hide Parse, Readable, FooterInOrder, HeaderInOrder, FooterAccepted, HeaderAccepted, DiskType, SavedState, UniqueId,
      ParentId, ParentStamp, Number, HeaderBytes, LastBytes;
  }

  /** The table read is that in the file, as far as it has entries. */
  lemma TableBytesRead(data: seq<byte>, h: Header, b: nat)
    requires b < Number(h[28..32]) && Number(h[16..24]) + 4 * Number(h[28..32]) <= |data|
    ensures Number(h[16..24]) + 4 * b + 4 <= |data| && b < |ReadTable(data, h)|
    ensures ReadTable(data, h)[b] == Number(data[Number(h[16..24]) + 4 * b..Number(h[16..24]) + 4 * b + 4])
  {
    HeaderReads(h);
    hide Number, U32At, TableOffset, MaxTableEntries, BlockSize, ParentId, ParentStamp, HeaderAccepted, HeaderInOrder,
      ReadTable;
    ReadTableWord(data, h, b);
    WordIsNumber(data, Number(h[16..24]) + 4 * b);
  }

  // ----- a byte of the disk -----

  /**
   * The byte at `i` of a dynamic disk whose free blocks show `below`: the header is behind the copy
   * of the footer, the table where the header says; an entry is the sector of a block, which begins
   * with a bit for each of its sectors.
   */
  function ShownByte(data: seq<byte>, below: seq<byte>, i: nat): Option<byte> {
    if |data| < 1536 then None
    else
      var blockSize, table := Number(data[544..548]), Number(data[528..536]);
      if blockSize == 0 || table + 4 * (i / blockSize) + 4 > |data| then None
      else
        var entry := table + 4 * (i / blockSize);
        var sector := Number(data[entry..entry + 4]);
        var at := 512 * sector + blockSize / 512 / 8 + i % blockSize;
        if sector == 0xFFFF_FFFF then if i < |below| then Some(below[i]) else None
        else if at < |data| then Some(data[at]) else None
  }

  /** What a store shows, in the words of its table. */
  lemma StoreShows(st: Store, base: seq<byte>, i: nat)
    requires Placed(st) && Mirrored(st) && |base| == st.geo.size && i < st.geo.size
    ensures 0 < st.geo.blockSize
    ensures var b, at := BlockOf(i, st.geo.blockSize), st.geo.tableOffset + 4 * BlockOf(i, st.geo.blockSize);
      && b < |st.bat| && at + 4 <= |st.data| && U32At(st.data, at) == st.bat[b]
      && if st.bat[b] == FREE then View(st, base)[i] == base[i]
         else
           var from := 512 * st.bat[b] + BitmapSize(st.geo) + Within(i, st.geo.blockSize);
           from < |st.data| && View(st, base)[i] == st.data[from]
  {
    BlockInTable(st.geo, i);
    InFile(st);
    hide Covers, Addressable, BitmapSectors, TableSize, Apart, BlockOf, Within;
    BlockOfFacts(i, st.geo.blockSize);
  }

  lemma BitmapBits(st: Store)
    requires Placed(st)
    ensures BitmapSize(st.geo) == st.geo.blockSize / 512 / 8
  {
    hide Covers, Addressable, TableSize, Apart, BlockFits;
    BitmapOf(st.geo.blockSize);
  }

  lemma StoreShowsBytes(st: Store, base: seq<byte>, i: nat)
    requires Placed(st) && Mirrored(st) && |base| == st.geo.size && i < st.geo.size && 1536 <= |st.data|
    requires st.geo.blockSize == Number(st.data[544..548]) && st.geo.tableOffset == Number(st.data[528..536])
    ensures ShownByte(st.data, base, i) == Some(View(st, base)[i])
  {
    hide Placed, Mirrored, View, Number, U32At, BitmapSize;
    StoreShows(st, base, i);
    BitmapBits(st);
    WordIsNumber(st.data, st.geo.tableOffset + 4 * BlockOf(i, st.geo.blockSize));
  }
}
