/** The coverage test of a drive: random runs of sectors until each of them holds its own number. */
module SectorCoverage {
  import opened Arithmetic
  import opened Bytes

  // ----- the bitmap of sectors written -----

  function Mask(k: nat): (m: bv32)
    requires k < 32
  {
    (1 as bv32) << (k as bv5)
  }

  lemma MaskApart(k: nat, l: nat)
    requires k < 32 && l < 32
    ensures Mask(k) != 0
    ensures k != l ==> Mask(k) & Mask(l) == 0
  {
    var a, b := k as bv5, l as bv5;
    assert (1 as bv32) << a != 0;
    assert a != b ==> ((1 as bv32) << a) & ((1 as bv32) << b) == 0;
    assert a as int == k && b as int == l;
  }

  predicate IsSet(words: seq<bv32>, n: nat)
    requires n / 32 < |words|
  {
    words[n / 32] & Mask(n % 32) != 0
  }

  function WithMask(word: bv32, k: nat): bv32
    requires k < 32
  {
    word | Mask(k)
  }

  function WithBit(words: seq<bv32>, n: nat): (r: seq<bv32>)
    requires n / 32 < |words|
    ensures |r| == |words|
  {
    words[n / 32 := WithMask(words[n / 32], n % 32)]
  }

  lemma SetShows(words: seq<bv32>, n: nat, m: nat)
    requires n / 32 < |words| && m / 32 < |words|
    ensures IsSet(WithBit(words, n), m) <==> m == n || IsSet(words, m)
  {
    MaskApart(n % 32, m % 32);
    var w, a, b := words[n / 32], Mask(n % 32), Mask(m % 32);
    hide Mask;
    assert (w | a) & b == (w & b) | (a & b);
    assert a & a == a;
  }

  predicate Covers(words: seq<bv32>, total: nat) {
    total <= 32 * |words|
  }

  ghost function SetBits(words: seq<bv32>, total: nat): set<nat>
    requires Covers(words, total)
  {
    set n: nat | n < total && IsSet(words, n)
  }

  ghost function Below(total: nat): (s: set<nat>)
    ensures forall n: nat :: n in s <==> n < total
    ensures |s| == total
  {
    if total == 0 then {} else Below(total - 1) + {total - 1}
  }

  lemma {:induction false} Subset(a: set<nat>, b: set<nat>)
    requires a <= b
    ensures |a| <= |b|
  {
    if a != {} {
      var x :| x in a;
      Subset(a - {x}, b - {x});
    }
  }

  lemma SetOne(words: seq<bv32>, total: nat, n: nat)
    requires Covers(words, total) && n < total && !IsSet(words, n)
    ensures |SetBits(WithBit(words, n), total)| == |SetBits(words, total)| + 1
  {
    hide IsSet, WithBit;
    forall m: nat | m < total
      ensures IsSet(WithBit(words, n), m) <==> m == n || IsSet(words, m)
    {
      SetShows(words, n, m);
    }
    assert SetBits(WithBit(words, n), total) == SetBits(words, total) + {n};
  }

  lemma SomeUnset(words: seq<bv32>, total: nat) returns (u: nat)
    requires Covers(words, total) && |SetBits(words, total)| < total
    ensures u < total && !IsSet(words, u)
  {
    hide IsSet;
    if Below(total) <= SetBits(words, total) {
      Subset(Below(total), SetBits(words, total));
      assert false;
    }
    u :| u in Below(total) && u !in SetBits(words, total);
  }

  lemma AtMostAll(words: seq<bv32>, total: nat)
    requires Covers(words, total)
    ensures |SetBits(words, total)| <= total
  {
    Subset(SetBits(words, total), Below(total));
  }

  lemma AllSet(words: seq<bv32>, total: nat)
    requires Covers(words, total) && |SetBits(words, total)| == total
    ensures forall n: nat :: n < total ==> IsSet(words, n)
  {
    hide IsSet;
    if n: nat :| n < total && !IsSet(words, n) {
      assert SetBits(words, total) <= Below(total) - {n};
      Subset(SetBits(words, total), Below(total) - {n});
      assert false;
    }
  }

  // ----- sectors and their numbers -----

  /** Where the `n`-th sector begins, in units of a 32-bit number. */
  function At(n: nat, per: nat): nat {
    n * per
  }

  lemma AtNext(n: nat, m: nat, per: nat)
    requires n < m
    ensures At(n + 1, per) == At(n, per) + per && At(n + 1, per) <= At(m, per)
  {
    MulMono(n + 1, m, per);
  }

  lemma AtAdd(n: nat, m: nat, per: nat)
    ensures At(n + m, per) == At(n, per) + At(m, per)
  {
  }

  /** Every number in the sector is its own. */
  predicate Shows(disk: seq<uint32>, per: nat, lba: nat)
    requires At(lba, per) + per <= |disk|
  {
    forall i :: At(lba, per) <= i < At(lba, per) + per ==> disk[i] == lba
  }

  /** The numbers for a run of `count` sectors from `start`, one behind the other. */
  ghost predicate Numbered(data: seq<uint32>, per: nat, start: nat, count: nat)
    requires At(count, per) <= |data|
  {
    forall s: nat, i :: s < count && At(s, per) <= i < At(s, per) + per && i < |data| ==> data[i] == start + s
  }

  /** The sector of a run that the `i`-th number belongs to. */
  function SectorOf(i: nat, per: nat): nat
    requires 0 < per
  {
    i / per
  }

  lemma InRun(i: nat, count: nat, per: nat)
    requires 0 < per && i < At(count, per)
    ensures SectorOf(i, per) < count
  {
    DivBounds(i, per);
    if i / per >= count {
      MulMono(count, i / per, per);
      assert false;
    }
  }

  lemma Quotients(data: seq<uint32>, per: nat, start: nat, count: nat)
    requires 0 < per && At(count, per) <= |data|
    requires forall i :: 0 <= i < At(count, per) ==> data[i] == start + SectorOf(i, per)
    ensures Numbered(data, per, start, count)
  {
    forall s: nat, i | s < count && At(s, per) <= i < At(s, per) + per && i < |data|
      ensures data[i] == start + s
    {
      AtNext(s, count, per);
      DivUnique(i, s, per);
    }
  }

  /** A run of sectors written over a disk. */
  function Stored(disk: seq<uint32>, data: seq<uint32>, at: nat, count: nat): (r: seq<uint32>)
    requires at + count <= |disk| && count <= |data|
    ensures |r| == |disk|
  {
    disk[..at] + data[..count] + disk[at + count..]
  }

  lemma NumberedShows(disk: seq<uint32>, data: seq<uint32>, per: nat, start: nat, count: nat, s: nat,
                      at: nat, size: nat)
    requires size == At(count, per) <= |data| && at + size <= |disk| && Numbered(data, per, start, count)
    requires s < count && At(s, per) + per <= size && At(start + s, per) == at + At(s, per)
    ensures Shows(Stored(disk, data, at, size), per, start + s)
  {
    hide At;
    var now, from := Stored(disk, data, at, size), At(s, per);
    forall i | at + from <= i < at + from + per
      ensures now[i] == start + s
    {
      assert now[i] == data[i - at];
    }
  }

  /** Of a numbered run, every sector shows its number, and the others are as they were. */
  lemma StoredShows(disk: seq<uint32>, data: seq<uint32>, per: nat, start: nat, count: nat, total: nat, lba: nat)
    requires start + count <= total && At(total, per) == |disk| && At(count, per) <= |data| && lba < total
    requires Numbered(data, per, start, count)
    ensures At(start, per) + At(count, per) <= |disk| && At(lba, per) + per <= |disk|
    ensures var now := Stored(disk, data, At(start, per), At(count, per));
      if start <= lba < start + count then Shows(now, per, lba)
      else Shows(now, per, lba) <==> Shows(disk, per, lba)
  {
    AtAdd(start, count, per);
    AtAdd(start + count, total - start - count, per);
    AtNext(lba, total, per);
    var at, size := At(start, per), At(count, per);
    var now := Stored(disk, data, at, size);
    if start <= lba < start + count {
      AtAdd(start, lba - start, per);
      AtNext(lba - start, count, per);
      hide At, Numbered, Stored;
      NumberedShows(disk, data, per, start, count, lba - start, at, size);
    } else if lba < start {
      AtNext(lba, start, per);
      hide At;
      assert forall i :: 0 <= i < at ==> now[i] == disk[i];
    } else {
      AtAdd(start + count, lba - start - count, per);
      hide At;
      assert forall i :: at + size <= i < |disk| ==> now[i] == disk[i];
    }
  }

  /** The sectors of a run, in order. */
  ghost function Run(start: nat, end: nat): (r: seq<nat>)
    requires start <= end
    ensures |r| == end - start
    ensures forall i :: 0 <= i < |r| ==> r[i] == start + i
  {
    seq(end - start, i requires 0 <= i < end - start => start + i)
  }

  /** Sectors written in this order, none of them twice. */
  ghost predicate NoneTwice(log: seq<nat>) {
    forall i, j :: 0 <= i < j < |log| ==> log[i] != log[j]
  }

  /** The sectors written are those whose bit is set, and each of them shows its number. */
  ghost predicate Tracks(words: seq<bv32>, total: nat, log: seq<nat>)
    requires Covers(words, total)
  {
    && NoneTwice(log)
    && (forall n :: n in log ==> n < total)
    && (forall n: nat :: n < total ==> (IsSet(words, n) <==> n in log))
  }

  ghost predicate SetShow(disk: seq<uint32>, per: nat, total: nat, words: seq<bv32>)
    requires Covers(words, total) && At(total, per) == |disk|
  {
    forall n: nat :: n < total && IsSet(words, n) ==> At(n, per) + per <= |disk| && Shows(disk, per, n)
  }

  /** `now` has the bits of `words` and those from `start` to `end`, which `words` has not. */
  ghost predicate Claimed(words: seq<bv32>, now: seq<bv32>, total: nat, start: nat, end: nat)
    requires Covers(words, total) && |now| == |words|
  {
    && start <= end <= total
    && (forall n :: start <= n < end ==> !IsSet(words, n))
    && (forall n: nat :: n < total ==> (IsSet(now, n) <==> IsSet(words, n) || start <= n < end))
    && |SetBits(now, total)| == |SetBits(words, total)| + (end - start)
  }

  lemma ClaimOne(words: seq<bv32>, now: seq<bv32>, total: nat, start: nat, end: nat)
    requires Covers(words, total) && |now| == |words| && Claimed(words, now, total, start, end)
    requires end < total && !IsSet(now, end)
    ensures Claimed(words, WithBit(now, end), total, start, end + 1)
  {
    hide IsSet, WithBit, SetBits;
    SetOne(now, total, end);
    forall n: nat | n < total
      ensures IsSet(WithBit(now, end), n) <==> n == end || IsSet(now, n)
    {
      SetShows(now, end, n);
    }
  }

  lemma ClaimedCounts(words: seq<bv32>, now: seq<bv32>, total: nat, start: nat, end: nat)
    requires Covers(words, total) && |now| == |words| && Claimed(words, now, total, start, end)
    ensures |SetBits(now, total)| == |SetBits(words, total)| + (end - start)
  {
  }

  lemma TracksRun(words: seq<bv32>, now: seq<bv32>, total: nat, start: nat, end: nat, log: seq<nat>)
    requires Covers(words, total) && |now| == |words| && Claimed(words, now, total, start, end)
    requires Tracks(words, total, log)
    ensures Tracks(now, total, log + Run(start, end))
  {
    hide IsSet, SetBits, Run;
    var run := Run(start, end);
    forall n: nat | n < total
      ensures IsSet(now, n) <==> n in log + run
    {
      if start <= n < end {
        assert run[n - start] == n;
      }
    }
    forall i, j | 0 <= i < j < |log + run|
      ensures (log + run)[i] != (log + run)[j]
    {
      if i < |log| <= j {
        assert log[i] in log && !IsSet(words, run[j - |log|]);
      }
    }
  }

  lemma ShowsRun(disk: seq<uint32>, data: seq<uint32>, per: nat, total: nat, words: seq<bv32>, now: seq<bv32>,
                 start: nat, end: nat)
    requires Covers(words, total) && |now| == |words| && Claimed(words, now, total, start, end)
    requires At(total, per) == |disk| && SetShow(disk, per, total, words)
    requires At(end - start, per) <= |data| && Numbered(data, per, start, end - start)
    ensures At(start, per) + At(end - start, per) <= |disk|
    ensures SetShow(Stored(disk, data, At(start, per), At(end - start, per)), per, total, now)
  {
    hide IsSet, SetBits, Shows, At, Stored, Numbered;
    if total == 0 {
      RunFitsDisk(start, end, total, per);
    } else {
      StoredShows(disk, data, per, start, end - start, total, 0);
    }
    forall n: nat | n < total && IsSet(now, n)
      ensures At(n, per) + per <= |disk|
      ensures Shows(Stored(disk, data, At(start, per), At(end - start, per)), per, n)
    {
      StoredShows(disk, data, per, start, end - start, total, n);
    }
  }

  lemma RunFitsDisk(start: nat, end: nat, total: nat, per: nat)
    requires start <= end <= total
    ensures At(start, per) + At(end - start, per) <= At(total, per)
  {
    AtAdd(start, end - start, per);
    AtAdd(end, total - end, per);
  }

  lemma NextRound(n: nat, size: nat)
    requires n < size
    ensures (1 + n) % size == if n + 1 == size then 0 else n + 1
  {
  }

  /** A random number below `n`. */
  function Draw(r: nat, n: nat): (k: nat)
    requires n > 0
    ensures k < n
  {
    r % n
  }

  lemma SectorRead(disk: seq<uint32>, data: seq<uint32>, per: nat, start: nat, count: nat, s: nat)
    requires s < count && At(count, per) <= |data| && At(start, per) + At(count, per) <= |disk|
    requires data[..At(count, per)] == disk[At(start, per)..At(start, per) + At(count, per)]
    ensures At(s, per) + per <= |data| && At(start + s, per) + per <= |disk|
    ensures Shows(disk, per, start + s) <==>
      forall i :: At(s, per) <= i < At(s, per) + per ==> data[i] == start + s
  {
    AtAdd(start, s, per);
    AtNext(s, count, per);
    var at, from, size := At(start, per), At(s, per), At(count, per);
    assert At(start + s, per) == at + from;
    hide At;
    if forall i :: from <= i < from + per ==> data[i] == start + s {
      forall i | at + from <= i < at + from + per
        ensures disk[i] == start + s
      {
        assert disk[i] == data[..size][i - at];
      }
    }
    if forall i :: at + from <= i < at + from + per ==> disk[i] == start + s {
      forall i | from <= i < from + per
        ensures data[i] == start + s
      {
        assert data[i] == disk[at..at + size][i];
      }
    }
  }

  // ----- the test -----

  class Coverage {
    const total: uint32
    const per: nat
    const maxSectors: nat
    var setBits: nat
    const bitmap: array<bv32>
    const data: array<uint32>

    ghost predicate Valid()
      reads this, bitmap
    {
      && (bitmap as object) != data
      && 0 < per && 2 <= maxSectors && At(maxSectors, per) <= data.Length
      && Covers(bitmap[..], total) && setBits == |SetBits(bitmap[..], total)|
    }

    /** `per` numbers to a sector, and transfers of at most a megabyte. */
    constructor (total: uint32, per: nat)
      requires 0 < per && 2 * per <= 0x4_0000
      ensures Valid() && this.total == total && this.per == per && fresh(bitmap) && fresh(data)
      ensures setBits == 0 && Tracks(bitmap[..], total, [])
    {
      this.total, this.per, maxSectors := total, per, 0x4_0000 / per;
      setBits := 0;
      var size: int := total;
      bitmap := new bv32[(size + 32) / 32](_ => 0);
      data := new uint32[0x4_0000];
      new;
      DivBounds(0x4_0000, per);
      if maxSectors < 2 {
        MulMono(maxSectors + 1, 2, per);
        assert false;
      }
      assert forall n: nat :: n < size ==> !IsSet(bitmap[..], n);
      assert SetBits(bitmap[..], total) == {};
    }

    /** The first unset sector from `start` on, or else the first of all. */
    method FindUnset(start: nat) returns (lba: nat)
      requires Valid() && start < total && setBits < total
      ensures lba < total && !IsSet(bitmap[..], lba)
      ensures forall n :: start <= n < total && !IsSet(bitmap[..], n) ==> start <= lba <= n
    {
      hide SetBits, IsSet;
      ghost var u := SomeUnset(bitmap[..], total);
      ghost var words := bitmap[..];
      var size: int := total;
      lba := start;
      while IsSet(bitmap[..], lba)
        invariant lba < size
        invariant forall n :: start <= n < size && !IsSet(words, n) ==> start <= lba <= n
        decreases if lba <= u then u - lba else u + size - lba
      {
        assert lba != u;
        NextRound(lba, size);
        lba := (1 + lba) % size;
      }
    }

    /** Sets the bits from `start` up to `end` or the first one that is set already. */
    method Claim(start: nat, limit: nat) returns (end: nat)
      requires Valid() && start < limit <= total && !IsSet(bitmap[..], start)
      modifies this`setBits, bitmap
      ensures Valid() && start < end <= limit
      ensures Claimed(old(bitmap[..]), bitmap[..], total, start, end)
      ensures end == limit || IsSet(old(bitmap[..]), end)
    {
      ghost var was := bitmap[..];
      end := start;
      while end < limit
        invariant start <= end <= limit && Valid()
        invariant Claimed(was, bitmap[..], total, start, end)
        invariant end == start ==> bitmap[..] == was
      {
        hide IsSet, SetBits, WithMask;
        if IsSet(bitmap[..], end) {
          return;
        }
        ghost var now := bitmap[..];
        ClaimOne(was, now, total, start, end);
        bitmap[end / 32] := WithMask(bitmap[end / 32], end % 32);
        assert bitmap[..] == WithBit(now, end);
        setBits := setBits + 1;
        end := end + 1;
      }
    }

    /** Puts the numbers of `count` sectors from `start` into the buffer. */
    method Number(start: nat, count: nat)
      requires Valid() && start + count <= total && count <= maxSectors
      modifies data
      ensures Valid() && At(count, per) <= data.Length && Numbered(data[..], per, start, count)
    {
      hide SetBits, IsSet, Numbered, SectorOf;
      AtAdd(count, maxSectors - count, per);
      var size := At(count, per);
      hide At;
      ghost var words := bitmap[..];
      var i := 0;
      while i < size
        invariant i <= size && bitmap[..] == words
        invariant forall j :: 0 <= j < i ==> data[j] == start + SectorOf(j, per)
      {
        InRun(i, count, per);
        data[i] := start + SectorOf(i, per);
        i := i + 1;
      }
      Quotients(data[..], per, start, count);
    }

    /** Writes `count` sectors of the buffer to the drive. */
    method WriteSectors(disk: array<uint32>, start: nat, count: nat)
      requires At(start, per) + At(count, per) <= disk.Length && At(count, per) <= data.Length && disk != data
      modifies disk
      ensures disk[..] == Stored(old(disk[..]), data[..], At(start, per), At(count, per))
    {
      var at, size := At(start, per), At(count, per);
      forall i | at <= i < at + size {
        disk[i] := data[i - at];
      }
      assert disk[at..at + size] == data[..size];
    }

    /** The drive under test: another array, with room for every sector. */
    ghost predicate Tests(disk: array<uint32>) {
      disk != data && (bitmap as object) != disk && disk.Length == At(total, per)
    }

    /** One run: claims what it can from `start` on, numbers it and writes it. */
    method FillRun(disk: array<uint32>, start: nat, limit: nat, ghost log: seq<nat>) returns (ghost end: nat)
      requires Valid() && Tests(disk) && start < limit <= total && limit <= start + maxSectors
      requires !IsSet(bitmap[..], start)
      requires Tracks(bitmap[..], total, log) && SetShow(disk[..], per, total, bitmap[..])
      modifies this`setBits, bitmap, data, disk
      ensures Valid() && start < end <= limit && setBits == old(setBits) + (end - start)
      ensures Tracks(bitmap[..], total, log + Run(start, end)) && SetShow(disk[..], per, total, bitmap[..])
    {
      hide IsSet, Shows, At, Tracks, SetShow, Numbered, Stored, Claimed;
      ghost var words, was := bitmap[..], disk[..];
      var last := Claim(start, limit);
      end := last;
      ClaimedCounts(words, bitmap[..], total, start, end);
      TracksRun(words, bitmap[..], total, start, end, log);
      Number(start, last - start);
      ShowsRun(was, data[..], per, total, words, bitmap[..], start, end);
      WriteSectors(disk, start, last - start);
    }

    /**
     * Fills the drive. Whatever numbers `rand` comes up with, the runs come to an end: each turn
     * covers a sector or is one of at most 30 misses.
     */
    method Fill(disk: array<uint32>, rand: nat -> nat) returns (turn: nat, ghost log: seq<nat>)
      requires Valid() && Tests(disk) && setBits == 0 && Tracks(bitmap[..], total, [])
      modifies this`setBits, bitmap, data, disk
      ensures Valid() && setBits == total && |log| == total
      ensures Tracks(bitmap[..], total, log)
      ensures forall n: nat :: n < total ==> n in log
      ensures forall n: nat :: n < total ==> At(n, per) + per <= disk.Length && Shows(disk[..], per, n)
    {
      hide Shows, At, Mask, Draw;
      turn, log := 0, [];
      var tries := 0;
      assert forall n: nat :: n < total ==> !IsSet(bitmap[..], n);
      hide IsSet, Tracks;
      while setBits < total
        invariant Valid() && Tests(disk) && tries < 30
        invariant |log| == setBits && Tracks(bitmap[..], total, log)
        invariant SetShow(disk[..], per, total, bitmap[..])
        decreases total - setBits, 30 - tries
      {
        hide SetShow, SetBits, Claimed;
        var start := Draw(rand(turn), total);
        var limit := start + 1 + Draw(rand(turn + 1), maxSectors - 1);
        turn := turn + 2;
        if limit > total {
          limit := total;
        }
        if IsSet(bitmap[..], start) {
          tries := tries + 1;
          if tries < 30 {
            continue;
          }
          start := FindUnset(start);
          limit := start + 1;
        }
        tries := 0;
        ghost var end := FillRun(disk, start, limit, log);
        log := log + Run(start, end);
      }
      AtMostAll(bitmap[..], total);
      AllSet(bitmap[..], total);
    }

    /** Looks through one sector of the buffer. */
    method CheckSector(lba: nat, s: nat) returns (ok: bool)
      requires At(s, per) + per <= data.Length
      ensures ok <==> forall i :: At(s, per) <= i < At(s, per) + per ==> data[i] == lba
    {
      var i := 0;
      while i < per
        invariant i <= per
        invariant forall j :: At(s, per) <= j < At(s, per) + i ==> data[j] == lba
      {
        if data[i + s * per] != lba {
          return false;
        }
        i := i + 1;
      }
      ok := true;
    }

    /** Reads `count` sectors of the drive into the buffer. */
    method ReadSectors(disk: array<uint32>, start: nat, count: nat)
      requires Tests(disk) && start + count <= total && count <= maxSectors && Valid()
      modifies data
      ensures Valid() && At(count, per) <= data.Length && At(start, per) + At(count, per) <= disk.Length
      ensures data[..At(count, per)] == disk[At(start, per)..At(start, per) + At(count, per)]
    {
      AtAdd(count, maxSectors - count, per);
      RunFitsDisk(start, start + count, total, per);
      ghost var words := bitmap[..];
      var at, size := At(start, per), At(count, per);
      hide At, SetBits, IsSet;
      forall i | 0 <= i < size {
        data[i] := disk[at + i];
      }
      assert bitmap[..] == words;
    }

    /** Reads the drive back in runs of random size: it is fine if and only if every sector shows its number. */
    method Check(disk: array<uint32>, rand: nat -> nat) returns (ok: bool)
      requires Valid() && Tests(disk)
      modifies data
      ensures Valid()
      ensures ok <==> forall n: nat :: n < total ==> At(n, per) + per <= disk.Length && Shows(disk[..], per, n)
    {
      hide Draw, SetBits, IsSet, Shows;
      ok := true;
      var lba, turn := 0, 0;
      ghost var was := disk[..];
      while lba < total
        invariant lba <= total && Valid() && disk[..] == was
        invariant ok <==> forall n: nat :: n < lba ==> At(n, per) + per <= disk.Length && Shows(was, per, n)
      {
        var count := 1 + Draw(rand(turn), maxSectors - 1);
        turn := turn + 1;
        if lba + count > total {
          count := total - lba;
        }
        var fine := CheckRun(disk, lba, count);
        ok := ok && fine;
        lba := lba + count;
      }
    }

    method CheckRun(disk: array<uint32>, start: nat, count: nat) returns (ok: bool)
      requires Tests(disk) && start + count <= total && count <= maxSectors && Valid()
      modifies data
      ensures Valid()
      ensures ok <==>
        forall n: nat :: start <= n < start + count ==> At(n, per) + per <= disk.Length && Shows(disk[..], per, n)
    {
      hide SetBits, IsSet, Shows, At;
      ReadSectors(disk, start, count);
      ghost var read, stored := data[..], disk[..];
      assert read[..At(count, per)] == data[..At(count, per)];
      assert stored[At(start, per)..At(start, per) + At(count, per)] ==
             disk[At(start, per)..At(start, per) + At(count, per)];
      ok := true;
      var s := 0;
      while s < count
        invariant s <= count && Valid() && data[..] == read && disk[..] == stored
        invariant ok <==>
          forall n: nat :: start <= n < start + s ==> At(n, per) + per <= disk.Length && Shows(disk[..], per, n)
      {
        SectorRead(stored, read, per, start, count, s);
        var fine := CheckSector(start + s, s);
        ok := ok && fine;
        s := s + 1;
      }
    }
  }

  /** Whatever the random numbers, a drive that stores what is written to it passes. */
  method Exercise(disk: array<uint32>, total: uint32, per: nat, rand: nat -> nat) returns (ok: bool)
    requires 0 < per && 2 * per <= 0x4_0000 && disk.Length == At(total, per)
    modifies disk
    ensures ok
    ensures forall n: nat :: n < total ==> At(n, per) + per <= disk.Length && Shows(disk[..], per, n)
  {
    hide At, Shows, IsSet, SetBits, Tracks;
    var coverage := new Coverage(total, per);
    var turn, _ := coverage.Fill(disk, rand);
    ok := coverage.Check(disk, n => rand(turn + n));
  }
}
