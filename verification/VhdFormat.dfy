/**
 * The footer and the dynamic header of a virtual hard disk, as the byte images they are, and what
 * opening a file makes of them. Field positions follow the sections "Hard Disk Footer Format" and
 * "Dynamic Disk Header Format" of the Virtual Hard Disk Image Format Specification 1.0.
 */
module VhdFormat {
  import opened Bytes
  import opened Options
  import opened VhdLayout
  import opened VhdTable

  const FIXED: uint32 := 2
  const DYNAMIC: uint32 := 3
  const DIFFERENCING: uint32 := 4

  const FOOTER_SUM: nat := 64
  const HEADER_SUM: nat := 36

  type Footer = s: seq<byte> | |s| == 512 witness Fill(512, 0)
  type Header = s: seq<byte> | |s| == 1024 witness Fill(1024, 0)

  function DataOffset(f: Footer): nat {
    U64At(f, 16)
  }

  function CurrentSize(f: Footer): nat {
    U64At(f, 48)
  }

  function DiskType(f: Footer): uint32 {
    U32At(f, 60)
  }

  predicate SavedState(f: Footer) {
    f[84] != 0
  }

  function UniqueId(f: Footer): seq<byte> {
    f[68..84]
  }

  function TableOffset(h: Header): nat {
    U64At(h, 16)
  }

  function MaxTableEntries(h: Header): (n: nat)
    ensures n < 0x1_0000_0000
  {
    U32At(h, 28)
  }

  function BlockSize(h: Header): (n: nat)
    ensures n < 0x1_0000_0000
  {
    U32At(h, 32)
  }

  /** The id of the parent, and its time of last change, that a child was created for. */
  function ParentId(h: Header): seq<byte> {
    h[40..56]
  }

  function ParentStamp(h: Header): uint32 {
    U32At(h, 56)
  }

  function GeometryOf(f: Footer, h: Header): Geometry {
    Geometry(CurrentSize(f), BlockSize(h), MaxTableEntries(h), TableOffset(h))
  }

  const CONECTIX: seq<byte> := [0x63, 0x6F, 0x6E, 0x65, 0x63, 0x74, 0x69, 0x78]
  const CXSPARSE: seq<byte> := [0x63, 0x78, 0x73, 0x70, 0x61, 0x72, 0x73, 0x65]

  // ----- checksums -----

  function SumOf(s: seq<byte>, n: nat): (t: nat)
    requires n <= |s|
  {
    if n == 0 then 0 else SumOf(s, n - 1) + s[n - 1]
  }

  /** The one's complement of the 32-bit sum of all bytes. */
  function Checksum(s: seq<byte>): uint32 {
    0xFFFF_FFFF - SumOf(s, |s|) % 0x1_0000_0000
  }

  method ComputeChecksum(s: seq<byte>) returns (c: uint32)
    ensures c == Checksum(s)
  {
    var sum: uint32 := 0;
    for i := 0 to |s|
      invariant sum == SumOf(s, i) % 0x1_0000_0000
    {
      sum := (sum + s[i]) % 0x1_0000_0000;
    }
    c := 0xFFFF_FFFF - sum;
  }

  /** `s` with four zero bytes where its checksum goes. */
  function Unsummed(s: seq<byte>, at: nat): (r: seq<byte>) {
    Patch(s, at, Fill(4, 0))
  }

  /** `s` with the checksum of all its other bytes at `at`. */
  function Seal(s: seq<byte>, at: nat): (r: seq<byte>)
    ensures |r| == |s|
  {
    Patch(s, at, Be32(Checksum(Unsummed(s, at))))
  }

  predicate Sealed(s: seq<byte>, at: nat)
    requires at + 4 <= |s|
  {
    U32At(s, at) == Checksum(Unsummed(s, at))
  }

  /** What the writer seals the reader accepts. */
  lemma SealIsSealed(s: seq<byte>, at: nat)
    requires at + 4 <= |s|
    ensures Sealed(Seal(s, at), at)
  {
    hide Checksum, Be32;
    var sum := Checksum(Unsummed(s, at));
    var r := Seal(s, at);
    assert Unsummed(r, at) == Unsummed(s, at);
    assert r[at..at + 4] == Be32(sum);
    Be32RoundTrip(sum, r, at);
  }

  // ----- opening -----

  /** The checks of a footer on its own. */
  predicate FooterAccepted(f: Footer) {
    && Sealed(f, FOOTER_SUM)
    && f[..8] == CONECTIX
    && DiskType(f) in {FIXED, DYNAMIC, DIFFERENCING}
  }

  predicate HeaderAccepted(h: Header) {
    Sealed(h, HEADER_SUM) && h[..8] == CXSPARSE
  }

  /** What a read of `n` bytes leaves in a zeroed buffer. */
  function PaddedRead(data: seq<byte>, pos: nat, n: nat): (r: seq<byte>)
    ensures |r| == n
  {
    var r := ReadAt(data, pos, n);
    r + Fill(n - |r|, 0)
  }

  datatype Parsed =
    | Rejected
    | NoTable(footer: Footer, header: Header)
    | WithTable(footer: Footer, header: Header, bat: seq<uint32>)

  /** The table in memory: the words of the file, then zeros up to the sector. */
  function ReadTable(data: seq<byte>, h: Header): (bat: seq<uint32>)
    ensures 4 * |bat| == TableSize(MaxTableEntries(h))
  {
    hide U32At, TableOffset;
    var n := MaxTableEntries(h);
    var words := PaddedRead(data, TableOffset(h), 4 * n);
    seq(128 * ((4 * n + 511) / 512), b requires 0 <= b => if b < n then U32At(words, 4 * b) else 0)
  }

  /**
   * What `GetVHDFooter` returns for a file. A dynamic header that fails its own checks is reported
   * as `errno`, whatever that is at the time: when it is zero the open succeeds without a table.
   */
  function Parse(data: seq<byte>, errno: int): Parsed {
    if |data| < FOOTER_SIZE then Rejected
    else
      var f := data[|data| - FOOTER_SIZE..];
      if !FooterAccepted(f) then Rejected
      else if DiskType(f) == FIXED then NoTable(f, Fill(1024, 0))
      else if data[..FOOTER_SIZE] != f then Rejected
      else
        var h := PaddedRead(data, DataOffset(f), HEADER_SIZE);
        if HeaderAccepted(h) then WithTable(f, h, ReadTable(data, h))
        else if errno != 0 then Rejected
        else NoTable(f, h)
  }

  /** The parent is the one, and as it was, when the child was created. */
  predicate Recognises(h: Header, parent: Footer, stamp: uint32) {
    ParentId(h) == UniqueId(parent) && ParentStamp(h) == stamp
  }

  /**
   * The file opens, given the footer and the time of last change of the disk its parent locators
   * lead to. They are looked at only behind a dynamic header that passed its checks.
   */
  predicate Opens(data: seq<byte>, parent: Option<Footer>, stamp: uint32, errno: int) {
    var p := Parse(data, errno);
    && !p.Rejected? && !SavedState(p.footer)
    && (DiskType(p.footer) == DIFFERENCING ==>
          p.WithTable? && parent.Some? && Recognises(p.header, parent.value, stamp))
  }

  /**
   * A disk with a bad dynamic header is parsed without a table exactly when `errno` is clear; of
   * such disks only those without a parent open.
   */
  lemma BadHeaderAccepted(data: seq<byte>, parent: Option<Footer>, stamp: uint32, errno: int)
    requires |data| >= FOOTER_SIZE && FooterAccepted(data[|data| - FOOTER_SIZE..])
    requires DiskType(data[|data| - FOOTER_SIZE..]) != FIXED && !SavedState(data[|data| - FOOTER_SIZE..])
    requires data[..FOOTER_SIZE] == data[|data| - FOOTER_SIZE..]
    ensures var bad := !HeaderAccepted(PaddedRead(data, DataOffset(data[..FOOTER_SIZE]), HEADER_SIZE));
      && (Parse(data, errno).NoTable? <==> errno == 0 && bad)
      && (bad ==> (Opens(data, parent, stamp, errno) <==>
                     errno == 0 && DiskType(data[..FOOTER_SIZE]) == DYNAMIC))
  {
    hide HeaderAccepted, ReadTable, DataOffset, DiskType, PaddedRead, Recognises, Sealed, SavedState;
  }

  /** Footer and header that `Parse` takes, with the header where both creators put it. */
  predicate Acceptable(f: Footer, h: Header) {
    && FooterAccepted(f) && HeaderAccepted(h)
    && DiskType(f) != FIXED && DataOffset(f) == FOOTER_SIZE
  }

  /** A framed file is parsed back into the footer, header and table it was written with. */
  lemma ParseFramed(data: seq<byte>, f: Footer, h: Header, errno: int)
    requires Framed(data, f, h) && Acceptable(f, h)
    ensures Parse(data, errno) == WithTable(f, h, ReadTable(data, h))
  {
    hide FooterAccepted, HeaderAccepted, ReadTable, DataOffset, DiskType;
    assert PaddedRead(data, FOOTER_SIZE, HEADER_SIZE) == h;
  }

  lemma TableHolds(n: nat)
    ensures 4 * n <= TableSize(n) && TableSize(n) % 512 == 0
  {
    var q := (4 * n + 511) / 512;
  }

  lemma ReadTableWord(data: seq<byte>, h: Header, b: nat)
    requires b < MaxTableEntries(h) && TableOffset(h) + 4 * MaxTableEntries(h) <= |data|
    ensures b < |ReadTable(data, h)| && ReadTable(data, h)[b] == U32At(data, TableOffset(h) + 4 * b)
  {
    hide TableOffset, U32At, TableSize;
    var n := MaxTableEntries(h);
    TableHolds(n);
    var words := PaddedRead(data, TableOffset(h), 4 * n);
    U32AtShift(words, 4 * b, data, TableOffset(h) + 4 * b);
  }
}
