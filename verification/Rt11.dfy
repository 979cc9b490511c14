/** Finding the size of an RT-11 file system from whatever a disk contains. */
module Rt11 {
  import opened Bytes
  import opened Options
  import opened Rt11Bytes

  function Word(s: seq<byte>, at: nat): uint16
    requires at + 2 <= |s|
  {
    var lo: int, hi: int := s[at], s[at + 1];
    lo + 0x100 * hi
  }

  const MAX_SEGMENT: nat := 31
  const EOS: nat := 0x800

  function FirstDirectory(home: Block): uint16 { Word(home, 468) }

  function SystemVersion(home: Block): uint16 { Word(home, 470) }

  function SystemId(home: Block): seq<byte> { home[496..508] }

  function NextSegment(seg: Segment): uint16 { Word(seg, 2) }

  function HighestSegment(seg: Segment): uint16 { Word(seg, 4) }

  function ExtraBytes(seg: Segment): uint16 { Word(seg, 6) }

  function StartBlock(seg: Segment): uint16 { Word(seg, 8) }

  /** Directory segment `seg` of the partition that starts at block `start`: two blocks. */
  function ReadSegment(media: Media, start: nat, firstDir: nat, seg: nat): Option<Segment>
    requires seg >= 1
  {
    var at := start + firstDir + (seg - 1) * 2;
    if media(at).None? || media(at + 1).None? then None
    else
      var seg: Segment := media(at).value + media(at + 1).value;
      Some(seg)
  }

  // ----- one segment -----

  /** The block behind the last entry of a segment, or nothing when 16 bits overflow on the way. */
  function EntriesEnd(seg: Segment, offset: nat, size: nat, block: uint16): Option<uint16>
    requires size >= 14
    decreases 1024 - offset
  {
    if 1024 - offset < size || (Word(seg, offset) / EOS) % 2 == 1 then Some(block)
    else if block + Word(seg, offset + 8) >= 0x1_0000 then None
    else EntriesEnd(seg, offset + size, size, block + Word(seg, offset + 8))
  }

  function SegmentEnd(seg: Segment): Option<uint16> {
    EntriesEnd(seg, 10, 14 + ExtraBytes(seg), StartBlock(seg))
  }

  /** The entries never lead backwards. */
  lemma {:induction false} EntriesForward(seg: Segment, offset: nat, size: nat, block: uint16)
    requires size >= 14
    ensures EntriesEnd(seg, offset, size, block).Some? ==> block <= EntriesEnd(seg, offset, size, block).value
    decreases 1024 - offset
  {
    hide Word;
    if !(1024 - offset < size || (Word(seg, offset) / EOS) % 2 == 1) && block + Word(seg, offset + 8) < 0x1_0000 {
      EntriesForward(seg, offset + size, size, block + Word(seg, offset + 8));
    }
  }

  method ScanSegment(seg: Segment) returns (end: Option<uint16>)
    ensures end == SegmentEnd(seg)
  {
    hide Word;
    var size := 14 + ExtraBytes(seg);
    var offset, block: nat := 10, StartBlock(seg);
    while 1024 - offset >= size
      invariant 10 <= offset && block < 0x1_0000
      invariant EntriesEnd(seg, offset, size, block) == SegmentEnd(seg)
      decreases 1024 - offset
    {
      if (Word(seg, offset) / EOS) % 2 == 1 {
        break;
      }
      if (block + Word(seg, offset + 8)) % 0x1_0000 < block {
        return None;
      }
      assert block + Word(seg, offset + 8) < 0x1_0000;
      block := block + Word(seg, offset + 8);
      offset := offset + size;
    }
    end := Some(block);
  }

  // ----- the chain of segments -----

  datatype Walk = Unreadable | Damaged | Ends(highest: uint16)

  function UpTo(n: nat): (r: set<nat>)
    ensures forall s :: s in r <==> 1 <= s <= n
  {
    if n == 0 then {} else UpTo(n - 1) + {n}
  }

  function AllSegments(): set<nat> {
    UpTo(MAX_SEGMENT)
  }

  /** A partition: its disk, its first block and the first block of its directory. */
  datatype Partition = Partition(media: Media, start: nat, firstDir: nat) {
    function Read(seg: nat): Option<Segment>
      requires seg >= 1
    {
      ReadSegment(media, start, firstDir, seg)
    }
  }

  /**
   * The walk from segment `seg`, having seen `seen`: it fails on a segment seen before, on one that
   * cannot be read, on one that overflows, and on a link beyond the highest segment in use, which
   * the first segment tells.
   */
  function WalkFrom(p: Partition, seg: nat, seen: set<nat>, last: nat, highest: uint16): Walk
    requires 1 <= seg <= MAX_SEGMENT && last <= MAX_SEGMENT
    decreases AllSegments() - seen
  {
    if seg in seen then Damaged
    else
      var r := p.Read(seg);
      if r.None? then Unreadable
      else
        var last' := if seg == 1 then HighestSegment(r.value) else last;
        if last' > MAX_SEGMENT then Damaged
        else
          var end := SegmentEnd(r.value);
          if end.None? then Damaged
          else
            var highest' := if end.value > highest then end.value else highest;
            var next := NextSegment(r.value);
            if next > last' then Damaged
            else if next == 0 then Ends(highest')
            else
              assert seg in AllSegments();
              WalkFrom(p, next, seen + {seg}, last', highest')
  }

  /** The walk as the code runs it, with a table of the segments seen. */
  method WalkDirectory(p: Partition) returns (w: Walk)
    ensures w == WalkFrom(p, 1, {}, 0, 0)
  {
    hide Word, ReadSegment, EntriesEnd, SegmentEnd;
    var seen := new nat[MAX_SEGMENT + 1](_ => 0);
    ghost var visited: set<nat> := {};
    var seg, last: nat, highest: uint16 := 1, 0, 0;
    while true
      invariant 1 <= seg <= MAX_SEGMENT && last <= MAX_SEGMENT
      invariant visited <= AllSegments()
      invariant forall s: nat :: s <= MAX_SEGMENT ==> (seen[s] != 0 <==> s in visited)
      invariant WalkFrom(p, 1, {}, 0, 0) == WalkFrom(p, seg, visited, last, highest)
      decreases AllSegments() - visited
    {
      seen[seg] := seen[seg] + 1;
      if seen[seg] - 1 != 0 {
        return Damaged;
      }
      var r := p.Read(seg);
      if r.None? {
        return Unreadable;
      }
      if seg == 1 {
        last := HighestSegment(r.value);
      }
      if last > MAX_SEGMENT {
        return Damaged;
      }
      var end := ScanSegment(r.value);
      if end.None? {
        return Damaged;
      }
      if end.value > highest {
        highest := end.value;
      }
      assert seg in AllSegments();
      visited := visited + {seg};
      var next := NextSegment(r.value);
      if next > last {
        return Damaged;
      }
      if next == 0 {
        return Ends(highest);
      }
      seg := next;
    }
  }

  // ----- the same in bytes -----

  lemma WordIsPair(s: seq<byte>, at: nat)
    requires at + 2 <= |s|
    ensures Word(s, at) == Pair(s, at)
  {
  }

  /** Bit 11 of a word is bit 3 of its second byte. */
  lemma EndBit(seg: Segment, i: nat)
    requires Fits(seg, i)
    ensures EntryAt(seg, i) + 14 <= 1024
    ensures (Word(seg, EntryAt(seg, i)) / EOS) % 2 == 1 <==> EndMark(seg, i)
  {
    EntryFits(seg, i);
    var at := EntryAt(seg, i);
    hide EntryAt;
    var low: int, high: int := seg[at], seg[at + 1];
    assert (low + 0x100 * high) / 0x800 == high / 8;
  }

  /** How the scan goes on from the `i`-th entry. */
  lemma EntryStep(seg: Segment, i: nat, block: uint16)
    ensures var size, at := 14 + ExtraBytes(seg), EntryAt(seg, i);
      EntriesEnd(seg, at, size, block) ==
        if !Fits(seg, i) || EndMark(seg, i) then Some(block)
        else if block + Length(seg, i) >= 0x1_0000 then None
        else EntriesEnd(seg, EntryAt(seg, i + 1), size, block + Length(seg, i))
  {
    EntryFits(seg, i);
    WordIsPair(seg, 6);
    hide Word, EntryAt, Pair;
    if Fits(seg, i) {
      EndBit(seg, i);
      WordIsPair(seg, EntryAt(seg, i) + 8);
    }
    hide EndMark;
  }

  lemma {:induction false} LengthsGrow(seg: Segment, k: nat, n: nat)
    requires k <= n && forall i: nat :: i < n ==> Fits(seg, i)
    ensures Lengths(seg, k) <= Lengths(seg, n)
  {
    hide Length, Fits;
    if k < n {
      LengthsGrow(seg, k, n - 1);
    }
  }

  lemma {:induction false} EntriesAddUp(seg: Segment, n: nat, k: nat)
    requires k <= n && HasEntries(seg, n) && Pair(seg, 8) + Lengths(seg, k) < 0x1_0000
    ensures var end := Pair(seg, 8) + Lengths(seg, n);
      EntriesEnd(seg, EntryAt(seg, k), 14 + ExtraBytes(seg), Pair(seg, 8) + Lengths(seg, k)) ==
        if end < 0x1_0000 then Some(end) else None
    decreases n - k
  {
    hide Pair, Fits, Length, EntriesEnd, EntryAt, EndMark, ExtraBytes;
    EntryStep(seg, k, Pair(seg, 8) + Lengths(seg, k));
    if k < n {
      LengthsGrow(seg, k + 1, n);
      if Pair(seg, 8) + Lengths(seg, k + 1) < 0x1_0000 {
        EntriesAddUp(seg, n, k + 1);
      }
    }
  }

  /** The entries of a segment are counted from its front. */
  lemma {:induction false} EntriesCounted(seg: Segment, k: nat) returns (n: nat)
    requires forall i: nat :: i < k ==> Fits(seg, i) && !EndMark(seg, i)
    ensures HasEntries(seg, n)
    decreases 1024 - EntryAt(seg, k)
  {
    EntryFits(seg, k);
    if Fits(seg, k) && !EndMark(seg, k) {
      hide EndMark, EntryAt;
      n := EntriesCounted(seg, k + 1);
    } else {
      n := k;
    }
  }

  /**
   * The end of a segment with `n` entries is its start block and all the lengths up to there, or
   * nothing if that takes more than 16 bits.
   */
  lemma SegmentEndBytes(seg: Segment, n: nat)
    requires HasEntries(seg, n)
    ensures var end := Pair(seg, 8) + Lengths(seg, n);
      SegmentEnd(seg) == if end < 0x1_0000 then Some(end) else None
  {
    WordIsPair(seg, 8);
    hide HasEntries, Word, Pair, EntriesEnd, Lengths;
    assert EntryAt(seg, 0) == 10;
    LengthsOfNone(seg);
    EntriesAddUp(seg, n, 0);
  }

  lemma LengthsOfNone(seg: Segment)
    ensures Lengths(seg, 0) == 0
  {
  }

  /** The scan of a segment finds the one block its entries end at. */
  lemma SegmentEnds(seg: Segment, end: nat)
    ensures SegmentEnd(seg) == Some(end) <==> EndsAt(seg, end) && end < 0x1_0000
  {
    hide Pair, Word, Lengths, SegmentEnd, Fits, EndMark;
    if EndsAt(seg, end) {
      var n: nat :| HasEntries(seg, n) && end == Pair(seg, 8) + Lengths(seg, n);
      SegmentEndBytes(seg, n);
    }
    var n := EntriesFrom(seg);
    SegmentEndBytes(seg, n);
  }

  lemma EntriesFrom(seg: Segment) returns (n: nat)
    ensures HasEntries(seg, n)
  {
    n := EntriesCounted(seg, 0);
  }

  // ----- what a walk that ends has found -----

  /** The segments `segs` are linked from the first on, all different, in use and sound. */
  ghost predicate Linked(p: Partition, segs: seq<nat>) {
    && 0 < |segs| && segs[0] == 1
    && (forall i :: 0 <= i < |segs| ==>
          1 <= segs[i] <= MAX_SEGMENT && p.Read(segs[i]).Some? && SegmentEnd(p.Read(segs[i]).value).Some?)
    && HighestSegment(p.Read(1).value) <= MAX_SEGMENT
    && (forall i :: 0 < i < |segs| ==>
          segs[i] <= HighestSegment(p.Read(1).value) && segs[i] == NextSegment(p.Read(segs[i - 1]).value))
    && (forall i, j :: 0 <= i < j < |segs| ==> segs[i] != segs[j])
  }

  /** A complete directory: linked segments the last of which links no further. */
  ghost predicate Directory(p: Partition, segs: seq<nat>) {
    Linked(p, segs) && NextSegment(p.Read(segs[|segs| - 1]).value) == 0
  }

  /** The highest block behind the entries of the first `n` segments. */
  ghost function MaxEnd(p: Partition, segs: seq<nat>, n: nat): uint16
    requires Linked(p, segs) && n <= |segs|
  {
    hide Word, ReadSegment, EntriesEnd, SegmentEnd;
    if n == 0 then 0
    else
      var end := SegmentEnd(p.Read(segs[n - 1]).value).value;
      if end > MaxEnd(p, segs, n - 1) then end else MaxEnd(p, segs, n - 1)
  }

  ghost function Elements(segs: seq<nat>, n: nat): set<nat>
    requires n <= |segs|
  {
    set i | 0 <= i < n :: segs[i]
  }

  lemma {:induction false} DirectoryWalks(p: Partition, segs: seq<nat>, i: nat)
    requires Directory(p, segs) && i < |segs|
    ensures WalkFrom(p, segs[i], Elements(segs, i), if i == 0 then 0 else HighestSegment(p.Read(1).value),
                     MaxEnd(p, segs, i)) == Ends(MaxEnd(p, segs, |segs|))
    decreases |segs| - i
  {
    hide Word, ReadSegment, EntriesEnd, SegmentEnd;
    assert segs[i] !in Elements(segs, i);
    assert Elements(segs, i) + {segs[i]} == Elements(segs, i + 1);
    if i + 1 < |segs| {
      assert segs[i + 1] == NextSegment(p.Read(segs[i]).value);
      DirectoryWalks(p, segs, i + 1);
    }
  }

  lemma SameMax(p: Partition, segs: seq<nat>, longer: seq<nat>, n: nat)
    requires Linked(p, segs) && Linked(p, longer) && segs <= longer && n <= |segs|
    ensures MaxEnd(p, longer, n) == MaxEnd(p, segs, n)
  {
    hide Linked, Word, ReadSegment, EntriesEnd, SegmentEnd;
    if n > 0 {
      SameMax(p, segs, longer, n - 1);
    }
  }

  ghost function WalkAt(p: Partition, segs: seq<nat>, i: nat): Walk
    requires Linked(p, segs) && i < |segs|
  {
    hide Word, ReadSegment, EntriesEnd, SegmentEnd, WalkFrom;
    WalkFrom(p, segs[i], Elements(segs, i), if i == 0 then 0 else HighestSegment(p.Read(1).value), MaxEnd(p, segs, i))
  }

  lemma WalkHead(p: Partition, seg: nat, seen: set<nat>, last: nat, highest: uint16)
    requires 1 <= seg <= MAX_SEGMENT && last <= MAX_SEGMENT
    requires WalkFrom(p, seg, seen, last, highest).Ends?
    ensures seg !in seen && p.Read(seg).Some? && SegmentEnd(p.Read(seg).value).Some?
  {
    hide Word, ReadSegment, EntriesEnd, SegmentEnd;
  }

  /** What the walk found at the end of linked segments lets it go on to the next. */
  lemma WalkNext(p: Partition, segs: seq<nat>)
    requires Linked(p, segs) && WalkAt(p, segs, |segs| - 1).Ends?
    ensures var next := NextSegment(p.Read(segs[|segs| - 1]).value);
      next != 0 ==>
        && next !in Elements(segs, |segs|) && 1 <= next <= HighestSegment(p.Read(1).value)
        && p.Read(next).Some? && SegmentEnd(p.Read(next).value).Some?
        && WalkFrom(p, next, Elements(segs, |segs|), HighestSegment(p.Read(1).value), MaxEnd(p, segs, |segs|)).Ends?
  {
    hide Word, ReadSegment, EntriesEnd, SegmentEnd;
    var n := |segs| - 1;
    assert segs[n] !in Elements(segs, n);
    assert Elements(segs, n) + {segs[n]} == Elements(segs, n + 1);
    assert segs[0] in Elements(segs, n + 1);
    var next := NextSegment(p.Read(segs[n]).value);
    if next != 0 {
      WalkHead(p, next, Elements(segs, n + 1), HighestSegment(p.Read(1).value), MaxEnd(p, segs, n + 1));
    }
  }

  lemma LinkNext(p: Partition, segs: seq<nat>, next: nat)
    requires Linked(p, segs) && next == NextSegment(p.Read(segs[|segs| - 1]).value)
    requires next !in Elements(segs, |segs|) && 1 <= next <= HighestSegment(p.Read(1).value)
    requires p.Read(next).Some? && SegmentEnd(p.Read(next).value).Some?
    ensures Linked(p, segs + [next])
    ensures Elements(segs + [next], |segs|) == Elements(segs, |segs|)
    ensures MaxEnd(p, segs + [next], |segs|) == MaxEnd(p, segs, |segs|)
  {
    hide Word, ReadSegment, EntriesEnd, SegmentEnd, NextSegment, HighestSegment, Partition.Read, MaxEnd;
    var longer := segs + [next];
    assert forall i :: 0 <= i < |segs| ==> segs[i] in Elements(segs, |segs|);
    assert Linked(p, longer);
    assert forall i :: 0 <= i < |segs| ==> longer[i] == segs[i];
    SameMax(p, segs, longer, |segs|);
  }

  /** A walk that goes on from linked segments and ends has linked the rest of a directory. */
  lemma {:induction false} WalkExtends(p: Partition, segs: seq<nat>) returns (all: seq<nat>)
    requires Linked(p, segs) && WalkAt(p, segs, |segs| - 1).Ends?
    ensures Directory(p, all)
    decreases AllSegments() - Elements(segs, |segs| - 1)
  {
    hide Word, ReadSegment, EntriesEnd, SegmentEnd, WalkFrom, MaxEnd, NextSegment;
    var n := |segs| - 1;
    var next := NextSegment(p.Read(segs[n]).value);
    if next == 0 {
      return segs;
    }
    WalkNext(p, segs);
    LinkNext(p, segs, next);
    assert segs[n] in Elements(segs, n + 1) && segs[n] !in Elements(segs, n) && segs[n] in AllSegments();
    assert Elements(segs, n) <= Elements(segs, n + 1);
    all := WalkExtends(p, segs + [next]);
  }

  /**
   * On any disk contents the walk succeeds if and only if the segments form a complete directory,
   * and then it finds the highest block behind any of their entries.
   */
  lemma WalkFindsDirectory(p: Partition)
    ensures WalkFrom(p, 1, {}, 0, 0).Ends? <==> exists segs :: Directory(p, segs)
    ensures forall segs :: Directory(p, segs) ==>
      WalkFrom(p, 1, {}, 0, 0) == Ends(MaxEnd(p, segs, |segs|))
  {
    forall segs | Directory(p, segs)
      ensures WalkFrom(p, 1, {}, 0, 0) == Ends(MaxEnd(p, segs, |segs|))
    {
      DirectoryWalks(p, segs, 0);
      assert Elements(segs, 0) == {};
    }
    if WalkFrom(p, 1, {}, 0, 0).Ends? {
      hide Word, ReadSegment, EntriesEnd, SegmentEnd;
      assert Linked(p, [1]) && Elements([1], 0) == {};
      var segs := WalkExtends(p, [1]);
    }
  }

  // ----- where a walk breaks off -----

  /** What the last of linked segments links to. */
  ghost function LastLink(p: Partition, segs: seq<nat>): uint16
    requires Linked(p, segs)
  {
    NextSegment(p.Read(segs[|segs| - 1]).value)
  }

  /** Along linked segments the walk goes on from each of them. */
  lemma {:induction false} LinkedWalks(p: Partition, segs: seq<nat>, i: nat)
    requires Linked(p, segs) && i < |segs|
    ensures WalkFrom(p, 1, {}, 0, 0) == WalkAt(p, segs, i)
  {
    hide Word, ReadSegment, EntriesEnd, SegmentEnd;
    if i == 0 {
      assert Elements(segs, 0) == {};
    } else {
      LinkedWalks(p, segs, i - 1);
      assert segs[i - 1] !in Elements(segs, i - 1);
      assert Elements(segs, i - 1) + {segs[i - 1]} == Elements(segs, i);
      assert segs[i] == NextSegment(p.Read(segs[i - 1]).value);
    }
  }

  /** The segment behind linked ones can be linked to them. */
  ghost predicate Extends(p: Partition, segs: seq<nat>)
    requires Linked(p, segs)
  {
    var next := LastLink(p, segs);
    && 1 <= next <= HighestSegment(p.Read(1).value) && next !in segs
    && p.Read(next).Some? && SegmentEnd(p.Read(next).value).Some?
  }

  /** Linked segments go as far as there is one to link. */
  lemma {:induction false} Furthest(p: Partition, segs: seq<nat>) returns (all: seq<nat>)
    requires Linked(p, segs)
    ensures Linked(p, all) && !Extends(p, all)
    decreases AllSegments() - Elements(segs, |segs| - 1)
  {
    hide Word, ReadSegment, EntriesEnd, SegmentEnd, MaxEnd, NextSegment;
    if !Extends(p, segs) {
      return segs;
    }
    var n := |segs| - 1;
    var next := NextSegment(p.Read(segs[n]).value);
    LinkNext(p, segs, next);
    assert segs[n] in Elements(segs, n + 1) && segs[n] !in Elements(segs, n) && segs[n] in AllSegments();
    assert Elements(segs, n) <= Elements(segs, n + 1);
    all := Furthest(p, segs + [next]);
  }

  /** What becomes of the walk behind the last of linked segments. */
  lemma WalkBehind(p: Partition, segs: seq<nat>)
    requires Linked(p, segs)
    ensures var next, last := LastLink(p, segs), HighestSegment(p.Read(1).value);
      WalkFrom(p, 1, {}, 0, 0) ==
        if next > last then Damaged
        else if next == 0 then Ends(MaxEnd(p, segs, |segs|))
        else WalkFrom(p, next, Elements(segs, |segs|), last, MaxEnd(p, segs, |segs|))
  {
    hide Word, ReadSegment, EntriesEnd, SegmentEnd;
    var n := |segs| - 1;
    LinkedWalks(p, segs, n);
    assert segs[n] !in Elements(segs, n);
    assert Elements(segs, n) + {segs[n]} == Elements(segs, n + 1);
  }

  lemma WalkStops(p: Partition, seg: nat, seen: set<nat>, last: nat, highest: uint16)
    requires 1 <= seg <= MAX_SEGMENT && last <= MAX_SEGMENT
    ensures seg in seen ==> WalkFrom(p, seg, seen, last, highest) == Damaged
    ensures seg !in seen && p.Read(seg).None? ==> WalkFrom(p, seg, seen, last, highest) == Unreadable
    ensures p.Read(seg).Some? && SegmentEnd(p.Read(seg).value).None? ==>
      WalkFrom(p, seg, seen, last, highest) == Damaged
  {
    hide Word, ReadSegment, EntriesEnd, SegmentEnd;
  }

  /** The segment behind linked ones is one to read, but cannot be read. */
  ghost predicate Lacks(p: Partition, segs: seq<nat>)
    requires Linked(p, segs)
  {
    var next := LastLink(p, segs);
    1 <= next <= HighestSegment(p.Read(1).value) && next !in segs && p.Read(next).None?
  }

  /** The walk fails for a segment that cannot be read if and only if it is led to one. */
  lemma WalkUnreadable(p: Partition)
    ensures WalkFrom(p, 1, {}, 0, 0) == Walk.Unreadable <==>
      p.Read(1).None? || exists segs :: Linked(p, segs) && Lacks(p, segs)
  {
    hide Word, ReadSegment, EntriesEnd, SegmentEnd;
    forall segs | Linked(p, segs) && !Extends(p, segs)
      ensures WalkFrom(p, 1, {}, 0, 0) == Walk.Unreadable <==> Lacks(p, segs)
    {
      WalkBehind(p, segs);
      var next, last := LastLink(p, segs), HighestSegment(p.Read(1).value);
      assert forall s :: s in segs <==> s in Elements(segs, |segs|);
      if 1 <= next <= last {
        WalkStops(p, next, Elements(segs, |segs|), last, MaxEnd(p, segs, |segs|));
      }
    }
    forall segs | Linked(p, segs) && Lacks(p, segs)
      ensures !Extends(p, segs)
    {
    }
    if p.Read(1).Some? && SegmentEnd(p.Read(1).value).Some? && HighestSegment(p.Read(1).value) <= MAX_SEGMENT {
      assert Linked(p, [1]);
      var all := Furthest(p, [1]);
    }
  }

  // ----- a walk in bytes -----

  lemma ReadIsSegment(p: Partition, seg: nat)
    requires seg >= 1
    ensures p.Read(seg) == SegmentOf(p.media, p.start + p.firstDir, seg)
  {
  }

  lemma HeaderIsPairs(seg: Segment)
    ensures NextSegment(seg) == Pair(seg, 2) && HighestSegment(seg) == Pair(seg, 4)
  {
    WordIsPair(seg, 2);
    WordIsPair(seg, 4);
  }

  lemma {:induction false} ChainLinks(p: Partition, segs: seq<nat>, ends: seq<nat>)
    requires Chain(p.media, p.start + p.firstDir, segs, ends)
    ensures Linked(p, segs)
    ensures forall i :: 0 <= i < |segs| ==> SegmentEnd(p.Read(segs[i]).value) == Some(ends[i])
  {
    hide Word, Pair, ReadSegment, EntriesEnd, SegmentEnd, EndsAt, SegmentOf, Partition.Read, NextSegment,
      HighestSegment;
    var at := p.start + p.firstDir;
    ReadIsSegment(p, 1);
    HeaderIsPairs(p.Read(1).value);
    forall i | 0 <= i < |segs|
      ensures p.Read(segs[i]) == SegmentOf(p.media, at, segs[i]) && p.Read(segs[i]).Some?
      ensures SegmentEnd(p.Read(segs[i]).value) == Some(ends[i])
      ensures NextSegment(p.Read(segs[i]).value) == NextOf(p.media, at, segs[i])
    {
      ReadIsSegment(p, segs[i]);
      SegmentEnds(p.Read(segs[i]).value, ends[i]);
      HeaderIsPairs(p.Read(segs[i]).value);
    }
    forall i | 0 < i < |segs|
      ensures segs[i] <= InUse(p.media, at) && segs[i] == NextSegment(p.Read(segs[i - 1]).value)
    {
      assert Follows(p.media, at, segs[i - 1], segs[i]);
    }
  }

  lemma LinkedChains(p: Partition, segs: seq<nat>) returns (ends: seq<nat>)
    requires Linked(p, segs)
    ensures Chain(p.media, p.start + p.firstDir, segs, ends)
  {
    hide Word, Pair, ReadSegment, EntriesEnd, SegmentEnd, EndsAt, SegmentOf, Partition.Read, NextSegment,
      HighestSegment;
    var at := p.start + p.firstDir;
    ends := seq(|segs|, i requires 0 <= i < |segs| => SegmentEnd(p.Read(segs[i]).value).value);
    ReadIsSegment(p, 1);
    HeaderIsPairs(p.Read(1).value);
    forall i | 0 <= i < |segs|
      ensures p.Read(segs[i]) == SegmentOf(p.media, at, segs[i])
      ensures EndsAt(p.Read(segs[i]).value, ends[i]) && ends[i] < 0x1_0000
      ensures NextSegment(p.Read(segs[i]).value) == NextOf(p.media, at, segs[i])
    {
      ReadIsSegment(p, segs[i]);
      SegmentEnds(p.Read(segs[i]).value, ends[i]);
      HeaderIsPairs(p.Read(segs[i]).value);
    }
  }

  lemma {:induction false} MaxOfEnds(p: Partition, segs: seq<nat>, ends: seq<nat>, n: nat)
    requires Linked(p, segs) && |ends| == |segs| && n <= |segs|
    requires forall i :: 0 <= i < |segs| ==> SegmentEnd(p.Read(segs[i]).value) == Some(ends[i])
    ensures n > 0 ==> MaxEnd(p, segs, n) in ends[..n]
    ensures forall i :: 0 <= i < n ==> ends[i] <= MaxEnd(p, segs, n)
  {
    hide Word, ReadSegment, EntriesEnd, SegmentEnd, Partition.Read;
    if n > 0 {
      MaxOfEnds(p, segs, ends, n - 1);
      assert ends[..n] == ends[..n - 1] + [ends[n - 1]];
    }
  }

  /** The walk ends at a block if and only if the bytes are those of a directory that leads to there. */
  lemma WalkEnds(p: Partition, highest: uint16)
    ensures WalkFrom(p, 1, {}, 0, 0) == Ends(highest) <==> DirectoryTo(p.media, p.start + p.firstDir, highest)
  {
    hide Word, Pair, ReadSegment, EntriesEnd, SegmentEnd, EndsAt, SegmentOf, Partition.Read, WalkFrom, MaxEnd;
    var at := p.start + p.firstDir;
    WalkFindsDirectory(p);
    forall segs, ends | Chain(p.media, at, segs, ends)
      ensures Linked(p, segs) && |segs| == |ends| > 0
      ensures MaxEnd(p, segs, |segs|) in ends && forall end :: end in ends ==> end <= MaxEnd(p, segs, |segs|)
      ensures LinkBehind(p.media, at, segs, ends) == LastLink(p, segs)
    {
      ChainLinks(p, segs, ends);
      LinksAlike(p, segs, ends);
      MaxOfEnds(p, segs, ends, |segs|);
      assert ends[..|segs|] == ends;
    }
    if WalkFrom(p, 1, {}, 0, 0) == Ends(highest) {
      var segs :| Directory(p, segs);
      var ends := LinkedChains(p, segs);
      assert Chain(p.media, at, segs, ends);
    }
    if DirectoryTo(p.media, at, highest) {
      var segs, ends :|
        && Chain(p.media, at, segs, ends) && LinkBehind(p.media, at, segs, ends) == 0
        && highest in ends && forall end :: end in ends ==> end <= highest;
      assert Directory(p, segs);
    }
  }

  lemma LinksAlike(p: Partition, segs: seq<nat>, ends: seq<nat>)
    requires Linked(p, segs) && Chain(p.media, p.start + p.firstDir, segs, ends)
    ensures LinkBehind(p.media, p.start + p.firstDir, segs, ends) == LastLink(p, segs)
  {
    hide Word, Pair, ReadSegment, EndsAt, SegmentEnd, SegmentOf, Partition.Read, NextSegment;
    ReadIsSegment(p, segs[|segs| - 1]);
    HeaderIsPairs(p.Read(segs[|segs| - 1]).value);
  }

  /** The walk finds a segment it cannot read if and only if the directory leads to one. */
  lemma WalkBreaksOff(p: Partition)
    ensures WalkFrom(p, 1, {}, 0, 0) == Walk.Unreadable <==> BreaksOff(p.media, p.start + p.firstDir)
  {
    hide Word, Pair, ReadSegment, EntriesEnd, SegmentEnd, EndsAt, SegmentOf, Partition.Read, WalkFrom, MaxEnd;
    var at := p.start + p.firstDir;
    WalkUnreadable(p);
    ReadIsSegment(p, 1);
    forall segs, ends | Chain(p.media, at, segs, ends)
      ensures Linked(p, segs)
      ensures Lacks(p, segs) <==> LinksNowhere(p.media, at, segs, LinkBehind(p.media, at, segs, ends))
    {
      ChainLacks(p, segs, ends);
    }
    forall segs | Linked(p, segs)
      ensures exists ends :: Chain(p.media, at, segs, ends)
    {
      var ends := LinkedChains(p, segs);
    }
  }

  lemma ChainLacks(p: Partition, segs: seq<nat>, ends: seq<nat>)
    requires Chain(p.media, p.start + p.firstDir, segs, ends)
    ensures Linked(p, segs)
    ensures var at := p.start + p.firstDir;
      Lacks(p, segs) <==> LinksNowhere(p.media, at, segs, LinkBehind(p.media, at, segs, ends))
  {
    hide Word, Pair, ReadSegment, EntriesEnd, SegmentEnd, EndsAt, SegmentOf, Partition.Read, MaxEnd, NextSegment,
      HighestSegment;
    ChainLinks(p, segs, ends);
    LinksAlike(p, segs, ends);
    ReadIsSegment(p, 1);
    HeaderIsPairs(p.Read(1).value);
    var next := LastLink(p, segs);
    if next >= 1 {
      ReadIsSegment(p, next);
    }
  }

  // ----- partitions -----

  datatype Kind = NoPartition | Single | Multi

  const RT11_ID: seq<byte> := [0x44, 0x45, 0x43, 0x52, 0x54, 0x31, 0x31, 0x41, 0x20, 0x20, 0x20, 0x20]
  const VMS_ID: seq<byte> := [0x44, 0x45, 0x43, 0x56, 0x4D, 0x53, 0x45, 0x58, 0x43, 0x48, 0x4E, 0x47]

  function KindOf(home: Block, part: nat): Kind {
    if SystemId(home) == RT11_ID && part == 0 && SystemVersion(home) in {36521, 36434} then Single
    else if SystemId(home) == RT11_ID && SystemVersion(home) == 36435 then Multi
    else if SystemId(home) == VMS_ID then Single
    else NoPartition
  }

  /** What a partition turns out to be. */
  datatype Found = Stuck | Nothing | Size(kind: Kind, highest: uint16)

  function Look(media: Media, part: nat): Found {
    hide Word, WalkFrom;
    var home := media(part * 0x1_0000 + 1);
    if home.None? then Stuck
    else
      var kind := KindOf(home.value, part);
      if kind == NoPartition then Nothing
      else
        match WalkFrom(Partition(media, part * 0x1_0000, FirstDirectory(home.value)), 1, {}, 0, 0)
        case Unreadable => Stuck
        case Damaged => Nothing
        case Ends(h) => Size(kind, h)
  }

  /** The kinds by their bytes. */
  lemma KindBytes(home: Block, part: nat)
    ensures KindOf(home, part) == Single <==> SoleHome(home, part)
    ensures KindOf(home, part) == Multi <==> SharedHome(home)
    ensures FirstDirectory(home) == Pair(home, 468)
  {
    WordIsPair(home, 468);
    WordIsPair(home, 470);
    hide Word, Pair;
    assert RT11_ID[6] != VMS_ID[6];
  }

  /** What a partition turns out to be is what its bytes say. */
  lemma LookBytes(media: Media, part: nat, sole: bool, h: nat)
    ensures FileSystem(media, part, sole, h) <==>
      Look(media, part).Size? && Look(media, part).highest == h && (sole <==> Look(media, part).kind == Single)
  {
    hide KindOf, SoleHome, SharedHome, FirstDirectory, Pair, WalkFrom, DirectoryTo;
    var home := media(part * 0x1_0000 + 1);
    if home.Some? {
      KindBytes(home.value, part);
      var p := Partition(media, part * 0x1_0000, FirstDirectory(home.value));
      assert DirectoryOf(media, part) == p.start + p.firstDir;
      WalkEndsAt(p, h);
    }
  }

  lemma StuckBytes(media: Media, part: nat)
    ensures Look(media, part).Stuck? <==> CannotRead(media, part)
  {
    var home := media(part * 0x1_0000 + 1);
    if home.Some? {
      KindBytes(home.value, part);
      var p := Partition(media, part * 0x1_0000, FirstDirectory(home.value));
      hide WalkFrom, KindOf, SoleHome, SharedHome, FirstDirectory, Pair, BreaksOff;
      assert DirectoryOf(media, part) == p.start + p.firstDir;
      WalkBreaksOff(p);
    }
  }

  lemma WalkEndsAt(p: Partition, h: nat)
    ensures DirectoryTo(p.media, p.start + p.firstDir, h) <==>
      WalkFrom(p, 1, {}, 0, 0).Ends? && WalkFrom(p, 1, {}, 0, 0).highest == h
  {
    hide WalkFrom, DirectoryTo;
    DirectoryFits(p.media, p.start + p.firstDir, h);
    if h < 0x1_0000 {
      WalkEnds(p, h);
    }
  }

  lemma DirectoryFits(media: Media, at: nat, h: nat)
    ensures DirectoryTo(media, at, h) ==> h < 0x1_0000
  {
    hide InUse, EndsAt;
  }

  /** Partition `q` is the last sound one the scan of partitions `0..stop` comes to. */
  ghost predicate LastSound(media: Media, q: nat, stop: nat) {
    && q < stop && Look(media, q).Size?
    && forall r :: q < r < stop ==> !Look(media, r).Size?
  }

  /** A partition behind which the scan does not go. */
  predicate EndsScan(f: Found) {
    f.Stuck? || (f.Size? && f.kind == Single)
  }

  /** Reads the home block of a partition and walks its directory. */
  method LookAt(media: Media, part: nat) returns (f: Found)
    ensures f == Look(media, part)
  {
    hide Word, WalkFrom;
    var home := media(part * 0x1_0000 + 1);
    if home.None? {
      return Stuck;
    }
    var kind := KindOf(home.value, part);
    if kind == NoPartition {
      return Nothing;
    }
    var w := WalkDirectory(Partition(media, part * 0x1_0000, FirstDirectory(home.value)));
    match w
    case Unreadable => f := Stuck;
    case Damaged => f := Nothing;
    case Ends(h) => f := Size(kind, h);
  }

  /** The scan of the partitions. */
  method ScanPartitions(media: Media, diskette: bool) returns (size: int, stop: nat, q: nat)
    ensures 1 <= stop <= 256
    ensures size == -1 ==> forall r :: 0 <= r < stop ==> !Look(media, r).Size?
    ensures size != -1 ==>
      LastSound(media, q, stop) && size == (q * 0x1_0000 + Look(media, q).highest) * 512
    ensures forall r :: 0 <= r < stop - 1 ==> !EndsScan(Look(media, r))
    ensures stop == 256 || (diskette && stop == 1) || EndsScan(Look(media, stop - 1))
  {
    hide Look;
    size, stop, q := -1, 0, 0;
    while stop < 256
      invariant stop <= 256 && (diskette ==> stop <= 1)
      invariant size == -1 ==> forall r :: 0 <= r < stop ==> !Look(media, r).Size?
      invariant size != -1 ==>
        LastSound(media, q, stop) && size == (q * 0x1_0000 + Look(media, q).highest) * 512
      invariant forall r :: 0 <= r < stop ==> !EndsScan(Look(media, r))
    {
      var part := stop;
      if part != 0 && diskette {
        break;
      }
      stop := part + 1;
      var f := LookAt(media, part);
      if f.Stuck? {
        return;
      }
      if f.Size? {
        var highest: int := f.highest;
        size := (part * 0x1_0000 + highest) * 512;
        q := part;
        if f.kind == Single {
          return;
        }
      }
    }
  }

  ghost predicate NoFileSystem(media: Media, part: nat) {
    forall sole, h: nat :: !FileSystem(media, part, sole, h)
  }

  /** Partition `q` holds the last file system of those in partitions `0..stop`, to its block `highest`. */
  ghost predicate LastFileSystem(media: Media, q: nat, sole: bool, highest: nat, stop: nat) {
    && q < stop && FileSystem(media, q, sole, highest)
    && forall r :: q < r < stop ==> NoFileSystem(media, r)
  }

  /** Behind the partition the scan does not go: it cannot be read, or has its disk to itself. */
  ghost predicate Final(media: Media, part: nat) {
    CannotRead(media, part) || exists h: nat :: FileSystem(media, part, true, h)
  }

  lemma FinalEndsScan(media: Media, part: nat)
    ensures EndsScan(Look(media, part)) <==> Final(media, part)
  {
    hide Look, FileSystem, CannotRead;
    StuckBytes(media, part);
    forall h: nat
      ensures FileSystem(media, part, true, h) <==>
        Look(media, part).Size? && Look(media, part).highest == h && Look(media, part).kind == Single
    {
      LookBytes(media, part, true, h);
    }
    if Look(media, part).Size? && Look(media, part).kind == Single {
      assert FileSystem(media, part, true, Look(media, part).highest);
    }
  }

  lemma NothingFound(media: Media, part: nat)
    requires !Look(media, part).Size?
    ensures NoFileSystem(media, part)
  {
    hide Look, FileSystem;
    forall sole, h: nat
      ensures !FileSystem(media, part, sole, h)
    {
      LookBytes(media, part, sole, h);
    }
  }

  lemma LastInBytes(media: Media, q: nat, stop: nat)
    requires LastSound(media, q, stop)
    ensures LastFileSystem(media, q, Look(media, q).kind == Single, Look(media, q).highest, stop)
  {
    hide FileSystem, Look;
    LookBytes(media, q, Look(media, q).kind == Single, Look(media, q).highest);
    forall r: nat | q < r < stop
      ensures NoFileSystem(media, r)
    {
      NothingFound(media, r);
    }
  }

  /** A disk of one partition is found by its first segment. */
  lemma OneSegmentFound(media: Media, seg: Segment, n: nat, end: nat)
    requires OneSegment(media, seg, n, end)
    ensures Look(media, 0).Size? && Look(media, 0).kind == Single && Look(media, 0).highest == end
  {
    hide FileSystem, Look, OneSegment;
    OneSegmentIsFileSystem(media, seg, n, end);
    LookBytes(media, 0, true, end);
  }

  lemma FoundFirst(media: Media, q: nat, stop: nat, size: int)
    requires Look(media, 0).Size? && Look(media, 0).kind == Single && 1 <= stop
    requires forall r :: 0 <= r < stop - 1 ==> !EndsScan(Look(media, r))
    requires size == -1 ==> forall r :: 0 <= r < stop ==> !Look(media, r).Size?
    requires size != -1 ==> LastSound(media, q, stop) && size == (q * 0x1_0000 + Look(media, q).highest) * 512
    ensures size == Look(media, 0).highest * 512
  {
    hide Look;
    assert EndsScan(Look(media, 0));
    assert stop == 1;
  }

  /**
   * The size in bytes of the file system, or -1: it ends where the entries of the last sound
   * partition `q` end. The scan stops behind the first partition that cannot be read or that has
   * its disk to itself, or after 256 partitions; diskettes have one. On a disk of one partition
   * with a directory of one segment it is the start block and the lengths of all entries.
   */
  method FileSystemSize(media: Media, diskette: bool) returns (size: int, stop: nat, q: nat)
    ensures 1 <= stop <= 256
    ensures size == -1 ==> forall r :: 0 <= r < stop ==> NoFileSystem(media, r)
    ensures size != -1 ==>
      exists sole, h: nat :: LastFileSystem(media, q, sole, h, stop) && size == (q * 0x1_0000 + h) * 512
    ensures forall r :: 0 <= r < stop - 1 ==> !Final(media, r)
    ensures stop == 256 || (diskette && stop == 1) || Final(media, stop - 1)
    ensures forall seg: Segment, n: nat, end: nat :: OneSegment(media, seg, n, end) ==> size == end * 512
  {
    hide Look, FileSystem, Final, LastFileSystem, NoFileSystem, OneSegment;
    size, stop, q := ScanPartitions(media, diskette);
    forall r: nat
      ensures EndsScan(Look(media, r)) <==> Final(media, r)
      ensures !Look(media, r).Size? ==> NoFileSystem(media, r)
    {
      FinalEndsScan(media, r);
      if !Look(media, r).Size? {
        NothingFound(media, r);
      }
    }
    if size != -1 {
      LastInBytes(media, q, stop);
      assert LastFileSystem(media, q, Look(media, q).kind == Single, Look(media, q).highest, stop);
    }
    forall seg: Segment, n: nat, end: nat | OneSegment(media, seg, n, end)
      ensures size == end * 512
    {
      OneSegmentFound(media, seg, n, end);
      FoundFirst(media, q, stop, size);
    }
  }
}
