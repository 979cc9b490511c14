/** The sector order of RX01 and RX02 diskettes: interleave 2, skew 6 a track, track 0 unused. */
module Interleave {
  import opened Options

  /** Where in its track a logical sector lies. */
  function SlotOf(track: nat, s: nat): (slot: nat) {
    var doubled := s * 2;
    var i := if doubled >= 26 then doubled + 1 else doubled;
    (i + track * 6) % 26
  }

  /** The physical sector that holds a logical sector. The track is a 16-bit value. */
  function Physical(lba: nat): nat {
    var track := lba / 26 % 0x1_0000;
    SlotOf(track, lba % 26) + track * 26 + 26
  }

  /** Which logical sector of a track a slot holds. */
  function SectorIn(track: nat, slot: nat): int {
    var i := (slot - track * 6) % 26;
    if i % 2 == 0 then i / 2 else (i + 25) / 2
  }

  /** The logical sector that a physical sector holds. */
  function Logical(psa: nat): int
    requires psa >= 26
  {
    var track := (psa - 26) / 26;
    track * 26 + SectorIn(track, (psa - 26) % 26)
  }

  lemma Shifted(i: nat, t: nat)
    requires i < 52
    ensures ((i + t) % 26 - t) % 26 == i % 26
  {
    var q := (i + t) / 26;
    assert (i + t) % 26 - t == i - 26 * q;
    var k := i / 26;
    assert i - 26 * q == i % 26 + 26 * (k - q);
  }

  lemma ShiftedBack(slot: nat, t: nat)
    requires slot < 26
    ensures ((slot - t) % 26 + t) % 26 == slot
  {
    var q := (slot - t) / 26;
    assert slot - t == 26 * q + (slot - t) % 26;
  }

  lemma StepOn(x: nat, n: nat)
    requires n < 26
    ensures (x + n) % 26 == (x % 26 + n) % 26
  {
  }

  /**
   * The first sector is in the first slot. The next sector is two slots on, and the next track
   * begins six slots on; the thirteenth sector begins the other half of the slots.
   */
  lemma InterleaveAndSkew(track: nat, s: nat)
    ensures SlotOf(0, 0) == 0
    ensures SlotOf(track + 1, s) == (SlotOf(track, s) + 6) % 26
    ensures s != 12 ==> SlotOf(track, s + 1) == (SlotOf(track, s) + 2) % 26
    ensures SlotOf(track, 13) == (SlotOf(track, 0) + 1) % 26
  {
    var i := if s * 2 >= 26 then s * 2 + 1 else s * 2;
    StepOn(i + track * 6, 6);
    StepOn(i + track * 6, 2);
    StepOn(track * 6, 1);
    StepOn(track * 6 + 1, 0);
    assert (27 + track * 6) % 26 == (track * 6 + 1) % 26;
  }

  /** Within a track the order is a bijection: each slot is taken by exactly one logical sector. */
  lemma TrackOrder(track: nat, s: nat)
    requires s < 26
    ensures SlotOf(track, s) < 26 && SectorIn(track, SlotOf(track, s)) == s
  {
    var i := if s * 2 >= 26 then s * 2 + 1 else s * 2;
    Shifted(i, track * 6);
  }

  lemma TrackOrderBack(track: nat, slot: nat)
    requires slot < 26
    ensures 0 <= SectorIn(track, slot) < 26 && SlotOf(track, SectorIn(track, slot)) == slot
  {
    var i := (slot - track * 6) % 26;
    ShiftedBack(slot, track * 6);
    if i % 2 != 0 {
      var s := (i + 25) / 2;
      assert s * 2 + 1 == i + 26;
      OneRound(i + track * 6);
    }
  }

  lemma OneRound(x: nat)
    ensures (x + 26) % 26 == x % 26
  {
    var q := x / 26;
    assert x + 26 == 26 * (q + 1) + x % 26;
  }

  lemma InTrack(x: nat, track: nat, place: nat)
    requires place < 26 && x == 26 * track + place
    ensures x / 26 == track && x % 26 == place
  {
  }

  /** The map and its inverse, over all tracks a 16-bit track number reaches. */
  lemma LogicalOfPhysical(lba: nat)
    requires lba < 0x1_0000 * 26
    ensures 26 <= Physical(lba) < 0x1_0001 * 26
    ensures Physical(lba) / 26 == lba / 26 + 1 && Physical(lba) % 26 == SlotOf(lba / 26, lba % 26)
    ensures Logical(Physical(lba)) == lba
  {
    TrackOrder(lba / 26, lba % 26);
    hide SlotOf, SectorIn;
    var track := lba / 26;
    assert track % 0x1_0000 == track;
    var p := Physical(lba) - 26;
    assert p == 26 * track + SlotOf(track, lba % 26);
    InTrack(p, track, SlotOf(track, lba % 26));
  }

  lemma PhysicalOfLogical(psa: nat)
    requires 26 <= psa < 0x1_0001 * 26
    ensures 0 <= Logical(psa) < 0x1_0000 * 26
    ensures Physical(Logical(psa)) == psa
  {
    var track, slot := (psa - 26) / 26, (psa - 26) % 26;
    TrackOrderBack(track, slot);
    hide SlotOf, SectorIn;
    var lba := Logical(psa);
    assert lba == 26 * track + SectorIn(track, slot);
    InTrack(lba, track, SectorIn(track, slot));
    assert track < 0x1_0000;
  }

  /** So no two logical sectors share a physical one, and none is on track 0. */
  lemma Injective(a: nat, b: nat)
    requires a < 0x1_0000 * 26 && b < 0x1_0000 * 26 && Physical(a) == Physical(b)
    ensures a == b && Physical(a) >= 26
  {
    hide Physical, Logical;
    LogicalOfPhysical(a);
    LogicalOfPhysical(b);
  }

  /**
   * A run of logical sectors, gathered one physical sector at a time, up to the first that cannot be
   * read. That one is counted too.
   */
  method ReadInterleaved<T>(disk: nat -> Option<T>, lba: nat, sects: nat)
    returns (ok: bool, buf: seq<T>, count: nat)
    requires 0 < sects
    ensures forall k :: 0 <= k < |buf| ==> disk(Physical(lba + k)) == Some(buf[k])
    ensures if ok then count == sects == |buf|
            else count == |buf| + 1 <= sects && disk(Physical(lba + |buf|)).None?
  {
    hide Physical;
    ok, buf, count := true, [], 0;
    var sectno := lba;
    while count < sects && ok
      invariant sectno == lba + count && |buf| <= count <= sects
      invariant forall k :: 0 <= k < |buf| ==> disk(Physical(lba + k)) == Some(buf[k])
      invariant if ok then count == |buf| else count == |buf| + 1 && disk(Physical(lba + |buf|)).None?
      decreases sects - count
    {
      var sector := disk(Physical(sectno));
      if sector.Some? {
        buf := buf + [sector.value];
      } else {
        ok := false;
      }
      sectno := sectno + 1;
      count := count + 1;
    }
  }
}
