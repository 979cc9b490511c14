/** The footers and headers that creating a disk writes, field by field. */
module VhdImages {
  import opened Arithmetic
  import opened Bytes
  import opened VhdLayout
  import opened VhdFormat
  import opened VhdBytes

  type uint64 = x: int | 0 <= x < 0x1_0000_0000_0000_0000

  function Be64(x: uint64): (s: seq<byte>)
    ensures |s| == 8
  {
    Be32(x / 0x1_0000_0000) + Be32(x % 0x1_0000_0000)
  }

  function Put32(s: seq<byte>, at: nat, x: uint32): seq<byte> {
    Patch(s, at, Be32(x))
  }

  function Put64(s: seq<byte>, at: nat, x: uint64): seq<byte> {
    Patch(s, at, Be64(x))
  }

  lemma Put32Get(s: seq<byte>, at: nat, x: uint32)
    requires at + 4 <= |s|
    ensures U32At(Put32(s, at, x), at) == x
  {
    hide Be32, U32At;
    var r := Put32(s, at, x);
    assert r[at..at + 4] == Be32(x);
    Be32RoundTrip(x, r, at);
  }

  lemma Put64Get(s: seq<byte>, at: nat, x: uint64)
    requires at + 8 <= |s|
    ensures U64At(Put64(s, at, x), at) == x
  {
    var hi, lo := x / 0x1_0000_0000, x % 0x1_0000_0000;
    var r := Put64(s, at, x);
    assert U32At(r, at) == hi && U32At(r, at + 4) == lo by {
      hide Be32, U32At;
      assert r[at..at + 4] == Be32(hi);
      assert r[at + 4..at + 4 + 4] == Be32(lo);
      Be32RoundTrip(hi, r, at);
      Be32RoundTrip(lo, r, at + 4);
    }
  }

  /** A field write leaves a word outside it alone. */
  lemma PatchKeeps32(s: seq<byte>, at: nat, t: seq<byte>, p: nat)
    requires p + 4 <= |s| && (p + 4 <= at || at + |t| <= p)
    ensures U32At(Patch(s, at, t), p) == U32At(s, p)
  {
    hide U32At;
    U32AtSame(Patch(s, at, t), s, p);
  }

  lemma PatchKeeps64(s: seq<byte>, at: nat, t: seq<byte>, p: nat)
    requires p + 8 <= |s| && (p + 8 <= at || at + |t| <= p)
    ensures U64At(Patch(s, at, t), p) == U64At(s, p)
  {
    hide U32At;
    PatchKeeps32(s, at, t, p);
    PatchKeeps32(s, at, t, p + 4);
  }

  lemma PatchKeepsPrefix(s: seq<byte>, at: nat, t: seq<byte>, n: nat)
    requires n <= |s| && n <= at
    ensures Patch(s, at, t)[..n] == s[..n]
  {
  }

  // ----- footers -----

  /** The fields of a footer that the disk code reads back. */
  predicate FooterIs(f: seq<byte>, dataOffset: nat, size: nat, diskType: uint32) {
    && |f| == 512
    && f[..8] == CONECTIX
    && U64At(f, 16) == dataOffset
    && U64At(f, 48) == size
    && U32At(f, 60) == diskType
    && f[84] == 0
  }

  /** Clear of the cookie, the data offset, the current size, the disk type, the saved state. */
  predicate FreeInFooter(at: nat, n: nat) {
    || (8 <= at && at + n <= 16)
    || (24 <= at && at + n <= 48)
    || (56 <= at && at + n <= 60)
    || (64 <= at && at + n <= 84)
    || 85 <= at
  }

  lemma PatchFooter(f: seq<byte>, at: nat, t: seq<byte>, dataOffset: nat, size: nat, diskType: uint32)
    requires FooterIs(f, dataOffset, size, diskType) && FreeInFooter(at, |t|)
    ensures FooterIs(Patch(f, at, t), dataOffset, size, diskType)
  {
    hide U32At, U64At;
    PatchKeepsPrefix(f, at, t, 8);
    PatchKeeps64(f, at, t, 16);
    PatchKeeps64(f, at, t, 48);
    PatchKeeps32(f, at, t, 60);
  }

  function FooterFields(dataOffset: uint64, size: uint64, diskType: uint32): seq<byte> {
    Put32(Put64(Put64(Patch(Fill(512, 0), 0, CONECTIX), 16, dataOffset), 48, size), 60, diskType)
  }

  lemma FooterFieldsFacts(dataOffset: uint64, size: uint64, diskType: uint32)
    ensures FooterIs(FooterFields(dataOffset, size, diskType), dataOffset, size, diskType)
  {
    hide U32At, U64At, Be32, Be64;
    var a := Patch(Fill(512, 0), 0, CONECTIX);
    assert a[..8] == CONECTIX;
    var b := Put64(a, 16, dataOffset);
    var c := Put64(b, 48, size);
    var d := Put32(c, 60, diskType);
    PatchKeepsPrefix(a, 16, Be64(dataOffset), 8);
    PatchKeepsPrefix(b, 48, Be64(size), 8);
    PatchKeepsPrefix(c, 60, Be32(diskType), 8);
    Put64Get(a, 16, dataOffset);
    PatchKeeps64(b, 48, Be64(size), 16);
    PatchKeeps64(c, 60, Be32(diskType), 16);
    Put64Get(b, 48, size);
    PatchKeeps64(c, 60, Be32(diskType), 48);
    Put32Get(c, 60, diskType);
  }

  /** What distinguishes one new disk from another: time stamp and unique id. */
  datatype Identity = Identity(stamp: uint32, id: seq<byte>)

  const SIMH: seq<byte> := [0x73, 0x69, 0x6D, 0x68]
  const WI2K: seq<byte> := [0x57, 0x69, 0x32, 0x6B]

  function NewFooter(size: uint64, dataOffset: uint64, diskType: uint32, who: Identity): Footer
    requires |who.id| == 16
  {
    var f1 := Put32(Put32(FooterFields(dataOffset, size, diskType), 8, 2), 12, 0x1_0000);
    var f2 := Patch(Put32(f1, 24, who.stamp), 28, SIMH + Be32(0x4_0000) + WI2K);
    var f3 := Put32(Put64(f2, 40, size), 56, DiskGeometry(size / 512));
    Seal(Patch(f3, 68, who.id), FOOTER_SUM)
  }

  lemma NewFooterFacts(size: uint64, dataOffset: uint64, diskType: uint32, who: Identity)
    requires |who.id| == 16
    ensures FooterIs(NewFooter(size, dataOffset, diskType, who), dataOffset, size, diskType)
    ensures Sealed(NewFooter(size, dataOffset, diskType, who), FOOTER_SUM)
  {
    FooterFieldsFacts(dataOffset, size, diskType);
    var f0 := FooterFields(dataOffset, size, diskType);
    assert |f0| == 512;
    hide FooterIs, FooterFields, Checksum, Be32, Be64, DiskGeometry, Sealed;
    PatchFooter(f0, 8, Be32(2), dataOffset, size, diskType);
    var f1 := Put32(f0, 8, 2);
    PatchFooter(f1, 12, Be32(0x1_0000), dataOffset, size, diskType);
    var f2 := Put32(f1, 12, 0x1_0000);
    PatchFooter(f2, 24, Be32(who.stamp), dataOffset, size, diskType);
    var f3 := Put32(f2, 24, who.stamp);
    PatchFooter(f3, 28, SIMH + Be32(0x4_0000) + WI2K, dataOffset, size, diskType);
    var f4 := Patch(f3, 28, SIMH + Be32(0x4_0000) + WI2K);
    PatchFooter(f4, 40, Be64(size), dataOffset, size, diskType);
    var f5 := Put64(f4, 40, size);
    PatchFooter(f5, 56, Be32(DiskGeometry(size / 512)), dataOffset, size, diskType);
    var f6 := Put32(f5, 56, DiskGeometry(size / 512));
    PatchFooter(f6, 68, who.id, dataOffset, size, diskType);
    var f7 := Patch(f6, 68, who.id);
    PatchFooter(f7, FOOTER_SUM, Be32(Checksum(Unsummed(f7, FOOTER_SUM))), dataOffset, size, diskType);
    SealIsSealed(f7, FOOTER_SUM);
  }

  lemma KeepsField(s: seq<byte>, at: nat, t: seq<byte>, p: nat, q: nat)
    requires p <= q <= |s| && (q <= at || at + |t| <= p)
    ensures Patch(s, at, t)[p..q] == s[p..q]
  {
  }

  lemma ShowsField(s: seq<byte>, at: nat, t: seq<byte>)
    requires at + |t| <= |s|
    ensures Patch(s, at, t)[at..at + |t|] == t
  {
  }

  lemma Be32Number(x: uint32)
    ensures Number(Be32(x)) == x
  {
    var s := Be32(x);
    Be32RoundTrip(x, s, 0);
    WordIsNumber(s, 0);
  }

  lemma Be64Number(x: uint64)
    ensures Number(Be64(x)) == x
  {
    var hi, lo := x / 0x1_0000_0000, x % 0x1_0000_0000;
    Be32Number(hi);
    Be32Number(lo);
    NumberConcat(Be32(hi), Be32(lo));
  }

  /** The other fields of a new footer: features, versions, creator, time, sizes, geometry and id. */
  lemma NewFooterBytes(size: uint64, dataOffset: uint64, diskType: uint32, who: Identity)
    requires |who.id| == 16
    ensures var f := NewFooter(size, dataOffset, diskType, who);
      && f[8..12] == Be32(2) && f[12..16] == Be32(0x1_0000) && f[24..28] == Be32(who.stamp)
      && f[28..40] == SIMH + Be32(0x4_0000) + WI2K && f[40..48] == Be64(size)
      && f[56..60] == Be32(DiskGeometry(size / 512)) && f[68..84] == who.id
  {
    var f0 := FooterFields(dataOffset, size, diskType);
    assert |f0| == 512;
    var made := SIMH + Be32(0x4_0000) + WI2K;
    assert |made| == 12;
    hide FooterFields, Checksum, Be32, Be64, DiskGeometry;
    var f1 := Put32(f0, 8, 2);
    var f2 := Put32(f1, 12, 0x1_0000);
    var f3 := Put32(f2, 24, who.stamp);
    var f4 := Patch(f3, 28, made);
    var f5 := Put64(f4, 40, size);
    var f6 := Put32(f5, 56, DiskGeometry(size / 512));
    var f7 := Patch(f6, 68, who.id);
    var sum := Be32(Checksum(Unsummed(f7, FOOTER_SUM)));
    var f := Patch(f7, FOOTER_SUM, sum);
    assert f == NewFooter(size, dataOffset, diskType, who);
    ShowsField(f0, 8, Be32(2));
    ShowsField(f1, 12, Be32(0x1_0000));
    ShowsField(f2, 24, Be32(who.stamp));
    ShowsField(f3, 28, made);
    ShowsField(f4, 40, Be64(size));
    ShowsField(f5, 56, Be32(DiskGeometry(size / 512)));
    ShowsField(f6, 68, who.id);
    hide Patch;
    KeepsField(f1, 12, Be32(0x1_0000), 8, 12);
    KeepsField(f2, 24, Be32(who.stamp), 8, 16);
    KeepsField(f3, 28, made, 8, 28);
    KeepsField(f4, 40, Be64(size), 8, 40);
    KeepsField(f5, 56, Be32(DiskGeometry(size / 512)), 8, 48);
    KeepsField(f6, 68, who.id, 8, 60);
    KeepsField(f7, 64, sum, 8, 60);
    KeepsField(f7, 64, sum, 68, 84);
  }

  // ----- the geometry field -----

  datatype Chs = Chs(cylinders: nat, heads: nat, sectors: nat)

  /** The calculation of the section "Appendix: CHS Calculation", with cylinders rounded up. */
  function ChsOf(total: nat): Chs {
    var t := Min(total, 65535 * 16 * 255);
    if t >= 65535 * 16 * 63 then Chs((t + 4079) / 4080, 16, 255)
    else
      var by17 := t / 17;
      var heads := Max(4, (by17 + 1023) / 1024);
      if by17 < heads * 1024 && heads <= 16 then Chs((t + 17 * heads - 1) / (17 * heads), heads, 17)
      else if t / 31 < 16 * 1024 then Chs((t + 495) / 496, 16, 31)
      else Chs((t + 1007) / 1008, 16, 63)
  }

  /** The geometry fits its 16, 8 and 8 bits and addresses every sector it can. */
  lemma ChsCovers(total: nat)
    ensures var c := ChsOf(total);
      && c.cylinders < 0x1_0000 && 0 < c.heads <= 16 && 0 < c.sectors < 0x100
      && Min(total, 65535 * 16 * 255) <= c.cylinders * c.heads * c.sectors
  {
  }

  /** Of the cylinders none is more than needed; the sectors of a track are one of four numbers. */
  lemma ChsExact(total: nat)
    ensures var c, t := ChsOf(total), Min(total, 65535 * 16 * 255);
      && t <= c.cylinders * (c.heads * c.sectors) < t + c.heads * c.sectors
      && (c.sectors == 255 <==> t >= 65535 * 16 * 63)
      && c.sectors in {17, 31, 63, 255} && 4 <= c.heads <= 16 && (c.sectors != 17 ==> c.heads == 16)
      && (c.sectors == 17 ==> t / 17 < c.heads * 1024)
      && (c.sectors == 31 ==> t / 31 < 16 * 1024)
  {
    var c, t := ChsOf(total), Min(total, 65535 * 16 * 255);
    RoundedUp(t, c.heads * c.sectors);
  }

  lemma RoundedUp(t: nat, d: nat)
    ensures d > 0 ==> t <= (t + d - 1) / d * d < t + d
  {
    if d > 0 {
      DivBounds(t + d - 1, d);
    }
  }

  function DiskGeometry(total: nat): uint32 {
    ChsCovers(total);
    hide ChsOf;
    var c := ChsOf(total);
    c.cylinders * 0x1_0000 + c.heads * 0x100 + c.sectors
  }

  /** The child's copy of its footer: a differencing disk of the drive type of its parent. */
  function ChildFooter(f: Footer, parent: Footer): Footer {
    var g := Put32(f, 60, DIFFERENCING);
    Seal(Patch(Patch(g, 96, parent[96..112]), 112, parent[112..120]), FOOTER_SUM)
  }

  /** Type, checksum and the description of the drive are new, and nothing else. */
  lemma ChildFooterBytes(f: Footer, parent: Footer)
    ensures var c := ChildFooter(f, parent);
      && c[96..120] == parent[96..120]
      && forall i :: 0 <= i < 512 && !(60 <= i < 68) && !(96 <= i < 120) ==> c[i] == f[i]
  {
    hide Checksum, Be32;
    assert parent[96..112] + parent[112..120] == parent[96..120];
  }

  lemma ChildFooterFacts(f: Footer, parent: Footer, dataOffset: nat, size: nat, diskType: uint32)
    requires FooterIs(f, dataOffset, size, diskType)
    ensures FooterIs(ChildFooter(f, parent), dataOffset, size, DIFFERENCING)
    ensures Sealed(ChildFooter(f, parent), FOOTER_SUM)
  {
    hide Checksum, Be32, Sealed, U32At, U64At;
    var g := Put32(f, 60, DIFFERENCING);
    assert FooterIs(g, dataOffset, size, DIFFERENCING) by {
      PatchKeepsPrefix(f, 60, Be32(DIFFERENCING), 8);
      PatchKeeps64(f, 60, Be32(DIFFERENCING), 16);
      PatchKeeps64(f, 60, Be32(DIFFERENCING), 48);
      Put32Get(f, 60, DIFFERENCING);
    }
    hide FooterIs;
    PatchFooter(g, 96, parent[96..112], dataOffset, size, DIFFERENCING);
    var h := Patch(g, 96, parent[96..112]);
    PatchFooter(h, 112, parent[112..120], dataOffset, size, DIFFERENCING);
    var i := Patch(h, 112, parent[112..120]);
    PatchFooter(i, FOOTER_SUM, Be32(Checksum(Unsummed(i, FOOTER_SUM))), dataOffset, size, DIFFERENCING);
    SealIsSealed(i, FOOTER_SUM);
  }

  // ----- dynamic headers -----

  predicate HeaderIs(h: seq<byte>, tableOffset: nat, entries: nat, blockSize: nat) {
    && |h| == 1024
    && h[..8] == CXSPARSE
    && U64At(h, 16) == tableOffset
    && U32At(h, 28) == entries
    && U32At(h, 32) == blockSize
  }

  /** Clear of the cookie, the table offset, the number of entries and the block size. */
  predicate FreeInHeader(at: nat, n: nat) {
    (8 <= at && at + n <= 16) || (24 <= at && at + n <= 28) || 36 <= at
  }

  lemma PatchHeader(h: seq<byte>, at: nat, t: seq<byte>, tableOffset: nat, entries: nat, blockSize: nat)
    requires HeaderIs(h, tableOffset, entries, blockSize) && FreeInHeader(at, |t|)
    ensures HeaderIs(Patch(h, at, t), tableOffset, entries, blockSize)
  {
    hide U32At, U64At;
    PatchKeepsPrefix(h, at, t, 8);
    PatchKeeps64(h, at, t, 16);
    PatchKeeps32(h, at, t, 28);
    PatchKeeps32(h, at, t, 32);
  }

  function HeaderFields(tableOffset: uint64, entries: uint32, blockSize: uint32): seq<byte> {
    Put32(Put32(Put64(Patch(Fill(1024, 0), 0, CXSPARSE), 16, tableOffset), 28, entries), 32, blockSize)
  }

  lemma HeaderFieldsFacts(tableOffset: uint64, entries: uint32, blockSize: uint32)
    ensures HeaderIs(HeaderFields(tableOffset, entries, blockSize), tableOffset, entries, blockSize)
  {
    hide U32At, U64At, Be32, Be64;
    var a := Patch(Fill(1024, 0), 0, CXSPARSE);
    assert a[..8] == CXSPARSE;
    var b := Put64(a, 16, tableOffset);
    var c := Put32(b, 28, entries);
    PatchKeepsPrefix(a, 16, Be64(tableOffset), 8);
    PatchKeepsPrefix(b, 28, Be32(entries), 8);
    PatchKeepsPrefix(c, 32, Be32(blockSize), 8);
    Put64Get(a, 16, tableOffset);
    PatchKeeps64(b, 28, Be32(entries), 16);
    PatchKeeps64(c, 32, Be32(blockSize), 16);
    Put32Get(b, 28, entries);
    PatchKeeps32(c, 32, Be32(blockSize), 28);
    Put32Get(c, 32, blockSize);
  }

  function NewHeader(tableOffset: uint64, entries: uint32, blockSize: uint32): Header {
    var h := HeaderFields(tableOffset, entries, blockSize);
    Seal(Put32(Patch(h, 8, Fill(8, 0xFF)), 24, 0x1_0000), HEADER_SUM)
  }

  lemma NewHeaderFacts(tableOffset: uint64, entries: uint32, blockSize: uint32)
    ensures HeaderIs(NewHeader(tableOffset, entries, blockSize), tableOffset, entries, blockSize)
    ensures Sealed(NewHeader(tableOffset, entries, blockSize), HEADER_SUM)
  {
    HeaderFieldsFacts(tableOffset, entries, blockSize);
    var h0 := HeaderFields(tableOffset, entries, blockSize);
    assert |h0| == 1024;
    hide HeaderIs, HeaderFields, Checksum, Be32, Sealed;
    PatchHeader(h0, 8, Fill(8, 0xFF), tableOffset, entries, blockSize);
    var h1 := Patch(h0, 8, Fill(8, 0xFF));
    PatchHeader(h1, 24, Be32(0x1_0000), tableOffset, entries, blockSize);
    var h2 := Put32(h1, 24, 0x1_0000);
    PatchHeader(h2, HEADER_SUM, Be32(Checksum(Unsummed(h2, HEADER_SUM))), tableOffset, entries, blockSize);
    SealIsSealed(h2, HEADER_SUM);
  }

  /** The other fields of a new header: no offset of data, and the version. */
  lemma NewHeaderBytes(tableOffset: uint64, entries: uint32, blockSize: uint32)
    ensures var h := NewHeader(tableOffset, entries, blockSize);
      h[8..16] == Fill(8, 0xFF) && h[24..28] == Be32(0x1_0000)
  {
    var h0 := HeaderFields(tableOffset, entries, blockSize);
    assert |h0| == 1024;
    hide HeaderFields, Checksum, Be32;
    var h1 := Patch(h0, 8, Fill(8, 0xFF));
    var h2 := Put32(h1, 24, 0x1_0000);
    var sum := Be32(Checksum(Unsummed(h2, HEADER_SUM)));
    assert Patch(h2, HEADER_SUM, sum) == NewHeader(tableOffset, entries, blockSize);
    ShowsField(h0, 8, Fill(8, 0xFF));
    ShowsField(h1, 24, Be32(0x1_0000));
    hide Patch;
    KeepsField(h1, 24, Be32(0x1_0000), 8, 16);
    KeepsField(h2, 36, sum, 8, 28);
  }

  lemma MoveTable(h: seq<byte>, tableOffset: uint64, t: nat, entries: nat, blockSize: nat)
    requires HeaderIs(h, t, entries, blockSize)
    ensures HeaderIs(Put64(h, 16, tableOffset), tableOffset, entries, blockSize)
  {
    hide U32At, U64At, Be64;
    PatchKeepsPrefix(h, 16, Be64(tableOffset), 8);
    Put64Get(h, 16, tableOffset);
    PatchKeeps32(h, 16, Be64(tableOffset), 28);
    PatchKeeps32(h, 16, Be64(tableOffset), 32);
  }

  /** What the child keeps of its parent, and the names under which it will look for it. */
  datatype Lineage = Lineage(stamp: uint32, unicodeName: seq<byte>, locators: seq<byte>)

  function ChildHeader(h: Header, tableOffset: uint64, parent: Footer, p: Lineage): Header {
    var g := Patch(Patch(Put32(h, 56, p.stamp), 40, UniqueId(parent)), 64, p.unicodeName);
    Seal(Put64(Patch(g, 576, p.locators), 16, tableOffset), HEADER_SUM)
  }

  /** Behind what is known of the parent are its name and the locators. */
  lemma ChildHeaderBytes(h: Header, tableOffset: uint64, parent: Footer, p: Lineage)
    requires |p.unicodeName| == 512 && |p.locators| == 192
    ensures var c := ChildHeader(h, tableOffset, parent, p);
      c[64..576] == p.unicodeName && c[576..768] == p.locators && c[768..] == h[768..]
  {
    hide Checksum, Be32, Be64;
    var h2 := Patch(Put32(h, 56, p.stamp), 40, UniqueId(parent));
    var h3 := Patch(h2, 64, p.unicodeName);
    var h4 := Patch(h3, 576, p.locators);
    var h5 := Put64(h4, 16, tableOffset);
    var sum := Be32(Checksum(Unsummed(h5, HEADER_SUM)));
    assert Patch(h5, HEADER_SUM, sum) == ChildHeader(h, tableOffset, parent, p);
    ShowsField(h2, 64, p.unicodeName);
    ShowsField(h3, 576, p.locators);
    assert h4[768..] == h[768..];
    hide Patch;
    KeepsField(h3, 576, p.locators, 64, 576);
    KeepsField(h4, 16, Be64(tableOffset), 64, 1024);
    KeepsField(h5, 36, sum, 64, 1024);
    assert h4[64..1024][704..] == h4[768..] && h4[64..1024][..512] == h4[64..576];
    assert h4[64..1024][512..704] == h4[576..768];
    var c := Patch(h5, HEADER_SUM, sum);
    assert c[64..1024][704..] == c[768..] && c[64..1024][..512] == c[64..576] && c[64..1024][512..704] == c[576..768];
  }

  lemma ChildHeaderKnows(h: Header, tableOffset: uint64, parent: Footer, p: Lineage)
    ensures Recognises(ChildHeader(h, tableOffset, parent, p), parent, p.stamp)
  {
    hide Checksum, Be32, Be64, U32At;
    var h1 := Put32(h, 56, p.stamp);
    Put32Get(h, 56, p.stamp);
    var h2 := Patch(h1, 40, UniqueId(parent));
    PatchKeeps32(h1, 40, UniqueId(parent), 56);
    assert h2[40..56] == UniqueId(parent);
    var h3 := Patch(h2, 64, p.unicodeName);
    PatchKeeps32(h2, 64, p.unicodeName, 56);
    assert h3[40..56] == h2[40..56];
    var h4 := Patch(h3, 576, p.locators);
    PatchKeeps32(h3, 576, p.locators, 56);
    assert h4[40..56] == h3[40..56];
    var h5 := Put64(h4, 16, tableOffset);
    PatchKeeps32(h4, 16, Be64(tableOffset), 56);
    assert h5[40..56] == h4[40..56];
    var sum := Be32(Checksum(Unsummed(h5, HEADER_SUM)));
    PatchKeeps32(h5, HEADER_SUM, sum, 56);
    assert Patch(h5, HEADER_SUM, sum)[40..56] == h5[40..56];
  }

  lemma ChildHeaderFacts(h: Header, tableOffset: uint64, parent: Footer, p: Lineage,
                         t: nat, entries: nat, blockSize: nat)
    requires HeaderIs(h, t, entries, blockSize)
    ensures HeaderIs(ChildHeader(h, tableOffset, parent, p), tableOffset, entries, blockSize)
    ensures Sealed(ChildHeader(h, tableOffset, parent, p), HEADER_SUM)
    ensures Recognises(ChildHeader(h, tableOffset, parent, p), parent, p.stamp)
  {
    ChildHeaderKnows(h, tableOffset, parent, p);
    hide Recognises;
    hide Checksum, Be32, Be64, Sealed, U32At, U64At, HeaderIs;
    PatchHeader(h, 56, Be32(p.stamp), t, entries, blockSize);
    var h1 := Put32(h, 56, p.stamp);
    PatchHeader(h1, 40, UniqueId(parent), t, entries, blockSize);
    var h2 := Patch(h1, 40, UniqueId(parent));
    PatchHeader(h2, 64, p.unicodeName, t, entries, blockSize);
    var h3 := Patch(h2, 64, p.unicodeName);
    PatchHeader(h3, 576, p.locators, t, entries, blockSize);
    var h4 := Patch(h3, 576, p.locators);
    var h5 := Put64(h4, 16, tableOffset);
    MoveTable(h4, tableOffset, t, entries, blockSize);
    PatchHeader(h5, HEADER_SUM, Be32(Checksum(Unsummed(h5, HEADER_SUM))), tableOffset, entries, blockSize);
    SealIsSealed(h5, HEADER_SUM);
  }
}
