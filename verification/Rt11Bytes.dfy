/**
 * What the bytes of a disk say of the RT-11 file system on it. Numbers have two bytes, the low one
 * first.
 */
module Rt11Bytes {
  import opened Bytes
  import opened Options

  type Block = s: seq<byte> | |s| == 512 witness Fill(512, 0)
  type Segment = s: seq<byte> | |s| == 1024 witness Fill(1024, 0)

  /** A disk: any block may hold anything, or fail to be read. */
  type Media = nat -> Option<Block>

  function Pair(s: seq<byte>, at: nat): (n: nat)
    requires at + 2 <= |s|
    ensures n < 0x1_0000
  {
    var low: int, high: int := s[at], s[at + 1];
    low + 0x100 * high
  }

  // ----- the entries of a segment -----

  /** The entries begin behind a header of ten bytes and have 14 bytes and as many as the header adds. */
  function EntryAt(seg: Segment, i: nat): (at: nat)
    ensures at >= 10
  {
    10 + i * (14 + Pair(seg, 6))
  }

  predicate Fits(seg: Segment, i: nat) {
    EntryAt(seg, i + 1) <= 1024
  }

  lemma EntryFits(seg: Segment, i: nat)
    ensures EntryAt(seg, i + 1) == EntryAt(seg, i) + 14 + Pair(seg, 6)
  {
    hide Pair;
    var size := 14 + Pair(seg, 6);
    assert (i + 1) * size == i * size + size;
  }

  /** The status of the entry has bit 11 set: it only marks the end. */
  predicate EndMark(seg: Segment, i: nat)
    requires Fits(seg, i)
  {
    EntryFits(seg, i);
    seg[EntryAt(seg, i) + 1] / 8 % 2 == 1
  }

  /** The length in blocks of what the entry stands for is its fifth number. */
  function Length(seg: Segment, i: nat): nat
    requires Fits(seg, i)
  {
    EntryFits(seg, i);
    Pair(seg, EntryAt(seg, i) + 8)
  }

  /** The segment has `n` entries in front of an end mark or of the end of the segment. */
  ghost predicate HasEntries(seg: Segment, n: nat) {
    && (forall i: nat :: i < n ==> Fits(seg, i) && !EndMark(seg, i))
    && (Fits(seg, n) ==> EndMark(seg, n))
  }

  /** What the first `n` entries stand for, together. */
  ghost function Lengths(seg: Segment, n: nat): nat
    requires forall i: nat :: i < n ==> Fits(seg, i)
  {
    if n == 0 then 0 else Lengths(seg, n - 1) + Length(seg, n - 1)
  }

  /** The entries take up the blocks from the start block in the header up to block `end`. */
  ghost predicate EndsAt(seg: Segment, end: nat) {
    exists n: nat :: HasEntries(seg, n) && end == Pair(seg, 8) + Lengths(seg, n)
  }

  // ----- directories -----

  /** Segment `s` of the directory that begins at block `at`: two blocks. */
  function SegmentOf(media: Media, at: nat, s: nat): Option<Segment>
    requires s >= 1
  {
    var block := at + 2 * (s - 1);
    match (media(block), media(block + 1))
    case (Some(a), Some(b)) => Some(Joined(a, b))
    case _ => None
  }

  function Joined(a: Block, b: Block): Segment {
    a + b
  }

  /** The highest segment in use, as the first one has it. */
  function InUse(media: Media, at: nat): nat
    requires SegmentOf(media, at, 1).Some?
  {
    Pair(SegmentOf(media, at, 1).value, 4)
  }

  /** The segment that segment `s` links to, or 0. */
  function NextOf(media: Media, at: nat, s: nat): nat
    requires s >= 1 && SegmentOf(media, at, s).Some?
  {
    Pair(SegmentOf(media, at, s).value, 2)
  }

  /** Segment `s` links to segment `next`, which is in use. */
  predicate Follows(media: Media, at: nat, s: nat, next: nat)
    requires SegmentOf(media, at, 1).Some? && s >= 1 && SegmentOf(media, at, s).Some?
  {
    next <= InUse(media, at) && next == NextOf(media, at, s)
  }

  /** From the first segment on the links lead along `segs`, whose entries end at the blocks `ends`. */
  ghost predicate Chain(media: Media, at: nat, segs: seq<nat>, ends: seq<nat>) {
    && 0 < |segs| == |ends| && segs[0] == 1
    && (forall i :: 0 <= i < |segs| ==>
          && 1 <= segs[i] <= 31 && SegmentOf(media, at, segs[i]).Some?
          && EndsAt(SegmentOf(media, at, segs[i]).value, ends[i]) && ends[i] < 0x1_0000)
    && InUse(media, at) <= 31
    && (forall i :: 0 < i < |segs| ==> Follows(media, at, segs[i - 1], segs[i]))
    && (forall i, j :: 0 <= i < j < |segs| ==> segs[i] != segs[j])
  }

  /** What the last segment of the chain links to. */
  ghost function LinkBehind(media: Media, at: nat, segs: seq<nat>, ends: seq<nat>): nat
    requires Chain(media, at, segs, ends)
  {
    NextOf(media, at, segs[|segs| - 1])
  }

  /** The chain ends, with `highest` the highest block its entries end at. */
  ghost predicate DirectoryTo(media: Media, at: nat, highest: nat) {
    exists segs, ends ::
      && Chain(media, at, segs, ends) && LinkBehind(media, at, segs, ends) == 0
      && highest in ends && forall end :: end in ends ==> end <= highest
  }

  /** A segment that is reached cannot be read. */
  ghost predicate BreaksOff(media: Media, at: nat) {
    || SegmentOf(media, at, 1).None?
    || (exists segs, ends ::
          Chain(media, at, segs, ends) && LinksNowhere(media, at, segs, LinkBehind(media, at, segs, ends)))
  }

  /** The link leads to a segment in use that was not reached before and cannot be read. */
  predicate LinksNowhere(media: Media, at: nat, segs: seq<nat>, next: nat)
    requires SegmentOf(media, at, 1).Some?
  {
    1 <= next <= InUse(media, at) && next !in segs && SegmentOf(media, at, next).None?
  }

  // ----- partitions -----

  /** Three characters in radix 50: letters from 1 on, digits from 30 on. */
  function Radix50(a: nat, b: nat, c: nat): nat {
    (a * 40 + b) * 40 + c
  }

  /** The home block is that of a disk with one partition: RT-11 version V3A or V04, or VMS EXCHANGE. */
  predicate SoleHome(home: Block, part: nat) {
    || (part == 0 && home[496..508] == [0x44, 0x45, 0x43, 0x52, 0x54, 0x31, 0x31, 0x41, 0x20, 0x20, 0x20, 0x20]
        && (Pair(home, 470) == Radix50(22, 33, 1) || Pair(home, 470) == Radix50(22, 30, 34)))
    || home[496..508] == [0x44, 0x45, 0x43, 0x56, 0x4D, 0x53, 0x45, 0x58, 0x43, 0x48, 0x4E, 0x47]
  }

  /** The home block is that of one of several partitions: RT-11 version V05. */
  predicate SharedHome(home: Block) {
    && home[496..508] == [0x44, 0x45, 0x43, 0x52, 0x54, 0x31, 0x31, 0x41, 0x20, 0x20, 0x20, 0x20]
    && Pair(home, 470) == Radix50(22, 30, 35)
  }

  /** The home block of a partition: its second block. Partitions have 65536 blocks. */
  function HomeOf(media: Media, part: nat): Option<Block> {
    media(65536 * part + 1)
  }

  /** The first block of the directory of a partition. */
  function DirectoryOf(media: Media, part: nat): nat
    requires HomeOf(media, part).Some?
  {
    65536 * part + Pair(HomeOf(media, part).value, 468)
  }

  /** The partition holds a file system whose files end at its block `highest`. */
  ghost predicate FileSystem(media: Media, part: nat, sole: bool, highest: nat) {
    && HomeOf(media, part).Some?
    && (if sole then SoleHome(HomeOf(media, part).value, part) else SharedHome(HomeOf(media, part).value))
    && DirectoryTo(media, DirectoryOf(media, part), highest)
  }

  /** Something of the partition that is needed cannot be read. */
  ghost predicate CannotRead(media: Media, part: nat) {
    || HomeOf(media, part).None?
    || ((SoleHome(HomeOf(media, part).value, part) || SharedHome(HomeOf(media, part).value))
        && BreaksOff(media, DirectoryOf(media, part)))
  }

  /** A disk of one partition with a directory of one segment, whose `n` entries end at block `end`. */
  ghost predicate OneSegment(media: Media, seg: Segment, n: nat, end: nat) {
    && HomeOf(media, 0).Some? && SoleHome(HomeOf(media, 0).value, 0)
    && SegmentOf(media, DirectoryOf(media, 0), 1) == Some(seg)
    && Pair(seg, 2) == 0 && Pair(seg, 4) <= 31 && HasEntries(seg, n)
    && end == Pair(seg, 8) + Lengths(seg, n) && end < 0x1_0000
  }

  lemma OneSegmentIsFileSystem(media: Media, seg: Segment, n: nat, end: nat)
    requires OneSegment(media, seg, n, end)
    ensures FileSystem(media, 0, true, end)
  {
    hide Pair, SoleHome, SegmentOf, Lengths, Fits, EndMark;
    var at := DirectoryOf(media, 0);
    assert EndsAt(seg, end);
    hide EndsAt;
    assert Chain(media, at, [1], [end]);
    assert DirectoryTo(media, at, end);
  }
}
