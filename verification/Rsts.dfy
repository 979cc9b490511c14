/** Finding the size of a RSTS disk from its allocation table, SATT.SYS. */
module Rsts {
  import opened Arithmetic
  import opened Bytes
  import opened Options

  type Block = s: seq<byte> | |s| == 512 witness Fill(512, 0)

  /** A retrieval entry: the link to the next one and seven clusters. */
  type Retrieval = s: seq<uint16> | |s| == 8 witness [0, 0, 0, 0, 0, 0, 0, 0]

  /** A disk: any block of any cluster, and any retrieval entry, may hold anything or be unreadable. */
  datatype Media = Media(block: (uint16, nat) -> Option<Block>, retrieval: uint16 -> Option<Retrieval>)

  const MAP_SIZE: nat := 8192

  /** A cluster size that is a power of two and not below the minimum. */
  predicate ValidClusterSize(size: nat, least: nat) {
    least <= size && IsPow2(size)
  }

  // ----- the blocks of the table -----

  /** The link to the `n`-th retrieval entry of the chain from `uar`. */
  function LinkAt(m: Media, uar: uint16, n: nat): Option<uint16> {
    if n == 0 then Some(uar)
    else
      var before := LinkAt(m, uar, n - 1);
      if before.None? || m.retrieval(before.value).None? then None
      else Some(m.retrieval(before.value).value[0])
  }

  /** The `n`-th cluster along the chain, seven to a retrieval entry. */
  function ClusterAt(m: Media, uar: uint16, n: nat): Option<uint16> {
    var link := LinkAt(m, uar, n / 7);
    if link.None? || m.retrieval(link.value).None? then None
    else Some(m.retrieval(link.value).value[1 + n % 7])
  }

  /** The `k`-th block of the file. */
  function BlockAt(m: Media, uar: uint16, clusterSize: nat, k: nat): Option<Block>
    requires clusterSize > 0
  {
    var cluster := ClusterAt(m, uar, k / clusterSize);
    if cluster.None? then None else m.block(cluster.value, k % clusterSize)
  }

  lemma BlockInCluster(m: Media, uar: uint16, clusterSize: nat, c: nat, j: nat, k: nat)
    requires j < clusterSize && k == c * clusterSize + j
    ensures ClusterAt(m, uar, c).None? ==> BlockAt(m, uar, clusterSize, k).None?
    ensures ClusterAt(m, uar, c).Some? ==>
      BlockAt(m, uar, clusterSize, k) == m.block(ClusterAt(m, uar, c).value, j)
  {
    hide ClusterAt;
    assert (c + 1) * clusterSize == c * clusterSize + clusterSize;
    DivUnique(k, c, clusterSize);
  }

  /** The file has no cluster `c`: its place is empty, or the chain of retrieval entries ends before it. */
  predicate NoCluster(m: Media, uar: uint16, c: nat) {
    ClusterAt(m, uar, c) == Some(0) || (c % 7 == 0 && c > 0 && LinkAt(m, uar, c / 7) == Some(0))
  }

  /** The retrieval entries along the chain from `uar` are `es`. */
  ghost predicate Entries(m: Media, uar: uint16, es: seq<Retrieval>) {
    && 0 < |es| && m.retrieval(uar) == Some(es[0])
    && forall i :: 0 < i < |es| ==> m.retrieval(es[i - 1][0]) == Some(es[i])
  }

  lemma {:induction false} LinkOfEntry(m: Media, uar: uint16, es: seq<Retrieval>, n: nat)
    requires Entries(m, uar, es) && n <= |es|
    ensures LinkAt(m, uar, n) == Some(if n == 0 then uar else es[n - 1][0])
  {
    if n > 0 {
      LinkOfEntry(m, uar, es, n - 1);
    }
  }

  lemma EntryOfLink(m: Media, uar: uint16, es: seq<Retrieval>, n: nat)
    requires Entries(m, uar, es) && n < |es|
    ensures m.retrieval(if n == 0 then uar else es[n - 1][0]) == Some(es[n])
  {
  }

  /** Seven clusters to an entry. The file ends at an empty place or behind an entry without a link. */
  lemma ClusterOfEntry(m: Media, uar: uint16, es: seq<Retrieval>, c: nat)
    requires Entries(m, uar, es) && c / 7 < |es|
    ensures ClusterAt(m, uar, c) == Some(es[c / 7][1 + c % 7])
    ensures NoCluster(m, uar, c) <==>
      es[c / 7][1 + c % 7] == 0 || (c % 7 == 0 && c > 0 && es[c / 7 - 1][0] == 0)
  {
    LinkOfEntry(m, uar, es, c / 7);
    EntryOfLink(m, uar, es, c / 7);
    hide LinkAt, Entries;
  }

  /** Block by block: the places of the clusters are the numbers behind the links of the entries. */
  lemma BlockOfEntry(m: Media, uar: uint16, es: seq<Retrieval>, clusterSize: nat, k: nat)
    requires clusterSize > 0 && Entries(m, uar, es) && k / clusterSize / 7 < |es|
    ensures var c := k / clusterSize;
      BlockAt(m, uar, clusterSize, k) == m.block(es[c / 7][1 + c % 7], k % clusterSize)
  {
    ClusterOfEntry(m, uar, es, k / clusterSize);
    hide ClusterAt, NoCluster;
  }

  // ----- loading -----

  /** How a step of the load leaves it: an error, all there is to load, or more to come. */
  datatype Step = Fault | Done | More

  /** The first `count` blocks of the file are in the bitmap, and the rest of it is as it was. */
  ghost predicate Holds(m: Media, uar: uint16, clusterSize: nat, was: seq<byte>, bitmap: seq<byte>, count: nat)
    requires clusterSize > 0
  {
    && |bitmap| == |was| && 512 * count <= |was|
    && (forall k :: 0 <= k < count ==> BlockAt(m, uar, clusterSize, k) == Some(bitmap[512 * k..512 * k + 512]))
    && (forall i :: 512 * count <= i < |was| ==> bitmap[i] == was[i])
  }

  /** The file has no more than `count` blocks, or `count` is all that is asked for. */
  ghost predicate Complete(m: Media, uar: uint16, clusterSize: nat, size: nat, count: nat) {
    count <= size && (count < size ==> exists c: nat :: count == c * clusterSize && NoCluster(m, uar, c))
  }

  /** One of the first `size + 1` blocks is out of reach. */
  ghost predicate Broken(m: Media, uar: uint16, clusterSize: nat, size: nat)
    requires clusterSize > 0
  {
    exists k :: 0 <= k <= size && BlockAt(m, uar, clusterSize, k).None?
  }

  lemma HoldsMore(m: Media, uar: uint16, clusterSize: nat, was: seq<byte>, before: seq<byte>, now: seq<byte>,
                  n: nat, b: Block)
    requires clusterSize > 0 && Holds(m, uar, clusterSize, was, before, n) && |now| == |before|
    requires 512 * n + 512 <= |before| && BlockAt(m, uar, clusterSize, n) == Some(b)
    requires forall i :: 0 <= i < |before| ==>
      now[i] == if 512 * n <= i < 512 * n + 512 then b[i - 512 * n] else before[i]
    ensures Holds(m, uar, clusterSize, was, now, n + 1)
  {
    hide BlockAt;
    forall k | 0 <= k < n + 1
      ensures BlockAt(m, uar, clusterSize, k) == Some(now[512 * k..512 * k + 512])
    {
      if k < n {
        assert now[512 * k..512 * k + 512] == before[512 * k..512 * k + 512];
      } else {
        assert now[512 * k..512 * k + 512] == b;
      }
    }
  }

  /** Reads block `j` of cluster `fcl` behind the `n` blocks there are. */
  method LoadBlock(m: Media, ghost uar: uint16, ghost clusterSize: nat, fcl: uint16, j: nat, ghost n: nat,
                   bitmap: array<byte>, offset: nat, ghost was: seq<byte>) returns (ok: bool)
    requires j < clusterSize && BlockAt(m, uar, clusterSize, n) == m.block(fcl, j)
    requires offset == 512 * n && offset + 512 <= bitmap.Length
    requires Holds(m, uar, clusterSize, was, bitmap[..], n)
    modifies bitmap
    ensures ok <==> BlockAt(m, uar, clusterSize, n).Some?
    ensures ok ==> Holds(m, uar, clusterSize, was, bitmap[..], n + 1)
  {
    hide BlockAt;
    var b := m.block(fcl, j);
    if b.None? {
      return false;
    }
    ghost var before := bitmap[..];
    forall k | offset <= k < offset + 512 {
      bitmap[k] := b.value[k - offset];
    }
    HoldsMore(m, uar, clusterSize, was, before, bitmap[..], n, b.value);
    ok := true;
  }

  /** Reads the blocks of the `c`-th cluster behind the `first` blocks there are, as far as they are asked for. */
  method LoadCluster(m: Media, ghost uar: uint16, clusterSize: nat, fcl: uint16, ghost c: nat, ghost first: nat,
                     ghost size: nat, bitmap: array<byte>, blocksLeft: nat, at: nat, ghost was: seq<byte>)
    returns (step: Step, blocks: nat, offset: nat, ghost n: nat)
    requires clusterSize > 0 && ClusterAt(m, uar, c) == Some(fcl)
    requires bitmap.Length == MAP_SIZE && size <= 16
    requires first == c * clusterSize && at == 512 * first && at + 512 * blocksLeft == 512 * size
    requires Holds(m, uar, clusterSize, was, bitmap[..], first)
    modifies bitmap
    ensures step.Fault? ==> Broken(m, uar, clusterSize, size)
    ensures !step.Fault? ==>
      Holds(m, uar, clusterSize, was, bitmap[..], n) && offset == 512 * n && offset + 512 * blocks == 512 * size
    ensures step.Done? ==> n == size
    ensures step.More? ==> n == first + clusterSize && blocks < blocksLeft
  {
    hide BlockAt, ClusterAt, LinkAt, Holds, Complete;
    blocks, offset, n := blocksLeft, at, first;
    var j := 0;
    while j < clusterSize
      invariant j <= clusterSize && n == first + j
      invariant offset == 512 * n && offset + 512 * blocks == 512 * size
      invariant Holds(m, uar, clusterSize, was, bitmap[..], n)
    {
      if blocks == 0 || offset >= MAP_SIZE {
        step := Done;
        return;
      }
      BlockInCluster(m, uar, clusterSize, c, j, n);
      var ok := LoadBlock(m, uar, clusterSize, fcl, j, n, bitmap, offset, was);
      if !ok {
        step := Fault;
        return;
      }
      offset := offset + 512;
      blocks := blocks - 1;
      j := j + 1;
      n := n + 1;
    }
    step := More;
  }

  /** Reads the clusters of the `e`-th retrieval entry. */
  method LoadEntry(m: Media, ghost uar: uint16, clusterSize: nat, link: uint16, ghost e: nat, ghost size: nat,
                   bitmap: array<byte>, blocksLeft: nat, at: nat, ghost was: seq<byte>)
    returns (step: Step, blocks: nat, offset: nat, ghost n: nat, next: uint16)
    requires clusterSize > 0 && LinkAt(m, uar, e) == Some(link)
    requires bitmap.Length == MAP_SIZE && size <= 16
    requires at == 512 * (7 * e * clusterSize) && at + 512 * blocksLeft == 512 * size
    requires Holds(m, uar, clusterSize, was, bitmap[..], 7 * e * clusterSize)
    modifies bitmap
    ensures step.Fault? ==> Broken(m, uar, clusterSize, size)
    ensures !step.Fault? ==>
      Holds(m, uar, clusterSize, was, bitmap[..], n) && offset == 512 * n && offset + 512 * blocks == 512 * size
    ensures step.Done? ==> Complete(m, uar, clusterSize, size, n)
    ensures step.More? ==>
      LinkAt(m, uar, e + 1) == Some(next) && n == 7 * (e + 1) * clusterSize && blocks < blocksLeft
  {
    hide BlockAt, Holds;
    blocks, offset, n := blocksLeft, at, 7 * e * clusterSize;
    next := 0;
    var retr := m.retrieval(link);
    if retr.None? {
      assert ClusterAt(m, uar, 7 * e).None?;
      BlockInCluster(m, uar, clusterSize, 7 * e, 0, n);
      step := Fault;
      return;
    }
    var i := 0;
    while i < 7
      invariant i <= 7 && n == (7 * e + i) * clusterSize
      invariant offset == 512 * n && offset + 512 * blocks == 512 * size
      invariant Holds(m, uar, clusterSize, was, bitmap[..], n)
      invariant blocks <= blocksLeft && (i > 0 ==> blocks < blocksLeft)
    {
      var fcl := retr.value[1 + i];
      assert ClusterAt(m, uar, 7 * e + i) == Some(fcl);
      if fcl == 0 {
        assert NoCluster(m, uar, 7 * e + i);
        step := Done;
        return;
      }
      assert (7 * e + i + 1) * clusterSize == (7 * e + i) * clusterSize + clusterSize;
      step, blocks, offset, n :=
        LoadCluster(m, uar, clusterSize, fcl, 7 * e + i, n, size, bitmap, blocks, offset, was);
      if !step.More? {
        return;
      }
      i := i + 1;
    }
    next := retr.value[0];
    step := More;
  }

  /**
   * Loads at most `size` blocks of the table along its chain of retrieval entries, whatever they
   * hold: on a cyclic chain the blocks asked for run out. Nothing is written behind them.
   */
  method LoadBitmap(m: Media, uar: uint16, clusterSize: nat, size: nat, bitmap: array<byte>)
    returns (ok: bool, blocks: nat, ghost n: nat)
    requires uar != 0 && clusterSize > 0 && 0 < size <= 16 && bitmap.Length == MAP_SIZE
    modifies bitmap
    ensures !ok ==> Broken(m, uar, clusterSize, size)
    ensures ok ==> Holds(m, uar, clusterSize, old(bitmap[..]), bitmap[..], n)
    ensures ok ==> Complete(m, uar, clusterSize, size, n) && n + blocks == size
  {
    assert Holds(m, uar, clusterSize, bitmap[..], bitmap[..], 0);
    hide Holds;
    ghost var was := bitmap[..];
    var link, offset := uar, 0;
    ghost var e := 0;
    blocks, n := size, 0;
    while true
      invariant LinkAt(m, uar, e) == Some(link) && n == 7 * e * clusterSize
      invariant offset == 512 * n && offset + 512 * blocks == 512 * size
      invariant Holds(m, uar, clusterSize, was, bitmap[..], n)
      decreases blocks
    {
      hide BlockAt, ClusterAt;
      var step: Step;
      var next: uint16;
      step, blocks, offset, n, next := LoadEntry(m, uar, clusterSize, link, e, size, bitmap, blocks, offset, was);
      if !step.More? {
        ok := step.Done?;
        return;
      }
      link := next;
      e := e + 1;
      if link == 0 {
        assert NoCluster(m, uar, 7 * e);
        ok := true;
        return;
      }
    }
  }

  // ----- scanning -----

  /** Bit `j` of a byte. */
  function Bit(b: byte, j: nat): (bit: nat)
    ensures bit <= 1
  {
    var value: int := b;
    value / Power(j) % 2
  }

  /** The lowest `n` bits of a byte, bit 0 counting one. */
  function Bits(b: byte, n: nat): nat {
    if n == 0 then 0 else Bits(b, n - 1) + Times(Power(n - 1), Bit(b, n - 1))
  }

  lemma {:induction false} BitsAndRest(b: byte, n: nat)
    ensures b == Bits(b, n) + Times(Power(n), Quotient(b, Power(n)))
  {
    hide Times, Quotient;
    var value: int := b;
    if n == 0 {
      WholeQuotient(value);
    } else {
      BitsAndRest(b, n - 1);
      var p := Power(n - 1);
      hide Power, Bit;
      HalfQuotient(value, p, Quotient(value, p));
      BitIs(b, n - 1);
      PowerNext(n - 1);
    }
  }

  lemma BitIs(b: byte, j: nat)
    ensures Bit(b, j) == Quotient(b, Power(j)) % 2
  {
  }

  lemma WholeQuotient(x: nat)
    ensures Times(Power(0), Quotient(x, Power(0))) == x
  {
  }

  lemma HalfQuotient(x: nat, p: nat, q: nat)
    requires p > 0 && q == Quotient(x, p)
    ensures Times(p, q) == Times(p, q % 2) + Times(2 * p, Quotient(x, 2 * p))
  {
    hide Times, Quotient;
    var r := QuotientBounds(x, p);
    var h := q / 2;
    TimesAdd(2 * h, q % 2, p);
    TimesTurned(p, q);
    TimesTurned(p, q % 2);
    TimesTurned(2 * p, h);
    TimesTwice(h, p);
    BelowTwice(p, q % 2, r);
    QuotientUnique(x, h, 2 * p, Times(q % 2, p) + r);
  }

  lemma TimesTurned(a: nat, b: nat)
    ensures Times(a, b) == Times(b, a)
  {
  }

  lemma BelowTwice(p: nat, bit: nat, r: nat)
    requires bit < 2 && r < p
    ensures Times(bit, p) + r < 2 * p
  {
  }

  /** A byte is the sum of its eight bits, each counting twice the one before it. */
  lemma ByteOfBits(b: byte)
    ensures Bits(b, 8) == b
  {
    BitsAndRest(b, 8);
    hide Bits, Times;
    assert Power(4) == 16 && Power(8) == 256;
    TimesTurned(Power(8), Quotient(b, Power(8)));
    NothingLeft(b);
  }

  lemma NothingLeft(b: byte)
    ensures Times(Quotient(b, 256), 256) == 0
  {
  }

  /** Bit `k` of the table is clear: the cluster it stands for is free. */
  predicate Clear(table: seq<byte>, k: nat)
    requires k < 8 * |table|
  {
    Bit(table[k / 8], k % 8) == 0
  }

  /** The table as one number, its first byte the lowest. */
  function NumberOf(table: seq<byte>): nat {
    if table == [] then 0
    else
      var n := |table| - 1;
      Times(table[n], Power(8 * n)) + NumberOf(table[..n])
  }

  lemma PowersUp(n: nat)
    ensures Power(8 * (n + 1)) == Times(256, Power(8 * n))
  {
    assert Power(4) == 16 && Power(8) == 256;
    PowersMultiply(8, 8 * n);
  }

  lemma {:induction false} NumberBelow(table: seq<byte>)
    ensures NumberOf(table) < Power(8 * |table|)
  {
    if table != [] {
      var n := |table| - 1;
      var last: int := table[n];
      NumberBelow(table[..n]);
      PowersUp(n);
      hide Power, Times;
      TimesMono(last + 1, 256, Power(8 * n));
      TimesNext(last, Power(8 * n));
    }
  }

  /** Bit `k` of the table is that of the number. */
  lemma {:induction false} ClearInNumber(table: seq<byte>, k: nat)
    requires k < 8 * |table|
    ensures Clear(table, k) <==> NumberOf(table) / Power(k) % 2 == 0
  {
    hide Power, Times, Bit;
    var n := |table| - 1;
    var front, last := table[..n], table[n];
    NumberBelow(front);
    if k < 8 * n {
      ClearInNumber(front, k);
      LowerBit(last, NumberOf(front), 8 * n, k);
    } else {
      BitIs(last, k % 8);
      UpperBit(last, NumberOf(front), 8 * n, k);
      assert k / 8 == n && k - 8 * n == k % 8;
    }
  }

  /** The highest clear bit, of those the scan looks at: it passes over the first byte. */
  ghost predicate HighestClear(table: seq<byte>, k: nat) {
    && 8 <= k < 8 * |table| && Clear(table, k)
    && forall l :: k < l < 8 * |table| ==> !Clear(table, l)
  }

  lemma FullByte(b: byte)
    ensures b == 0xFF <==> forall j :: 0 <= j < 8 ==> Bit(b, j) == 1
  {
    var value: int := b;
    assert Power(1) == 2 && Power(2) == 4 && Power(3) == 8 && Power(4) == 16;
    assert Power(5) == 32 && Power(6) == 64 && Power(7) == 128;
    assert Bit(b, 0) == value % 2 && Bit(b, 1) == value / 2 % 2 && Bit(b, 2) == value / 4 % 2;
    assert Bit(b, 3) == value / 8 % 2 && Bit(b, 4) == value / 16 % 2 && Bit(b, 5) == value / 32 % 2;
    assert Bit(b, 6) == value / 64 % 2 && Bit(b, 7) == value / 128 % 2;
    if b == 0xFF {
      forall j | 0 <= j < 8
        ensures Bit(b, j) == 1
      {
        assert j == 0 || j == 1 || j == 2 || j == 3 || j == 4 || j == 5 || j == 6 || j == 7;
      }
    }
  }

  /** Looks for the highest clear bit of a byte. */
  method ScanByte(b: byte) returns (j: int)
    ensures -1 <= j < 8
    ensures j >= 0 ==> Bit(b, j) == 0
    ensures forall l :: j < l < 8 ==> Bit(b, l) == 1
  {
    hide Bit;
    j := 7;
    while j >= 0
      invariant -1 <= j < 8
      invariant forall l :: j < l < 8 ==> Bit(b, l) == 1
    {
      if Bit(b, j) == 0 {
        return;
      }
      j := j - 1;
    }
  }

  /**
   * The number of the bit behind the highest clear one, in 16 bits. With no clear bit behind the
   * first byte it is what was left over from the load.
   */
  method ScanBitmap(table: array<byte>, left: uint16) returns (blocks: uint16)
    requires table.Length == MAP_SIZE
    ensures forall k: nat :: HighestClear(table[..], k) ==> blocks == (k + 1) % 0x1_0000
    ensures (forall k :: 8 <= k < 8 * MAP_SIZE ==> !Clear(table[..], k)) ==> blocks == left
    ensures (exists k: nat :: HighestClear(table[..], k)) ||
            (forall k :: 8 <= k < 8 * MAP_SIZE ==> !Clear(table[..], k))
  {
    hide Bit;
    blocks := left;
    var i := table.Length - 1;
    while i != 0
      invariant 0 <= i < table.Length && blocks == left
      invariant forall k :: 8 * i + 8 <= k < 8 * MAP_SIZE ==> !Clear(table[..], k)
    {
      FullByte(table[i]);
      if table[i] != 0xFF {
        var j := ScanByte(table[i]);
        blocks := (i * 8 + (j + 1)) % 0x1_0000;
        ghost var k := 8 * i + j;
        assert HighestClear(table[..], k);
        return;
      }
      i := i - 1;
    }
  }

  // ----- the size of the disk -----

  /** What the account blockette of SATT.SYS says of it: its cluster size and its size in blocks. */
  datatype Account = Account(clusterSize: uint16, size: uint16)

  method ValidateClusterSize(size: uint16, least: nat) returns (ok: bool)
    ensures ok <==> ValidClusterSize(size, least)
  {
    if least <= size {
      for i := 0 to 16
        invariant forall k :: 0 <= k < i ==> size != Power(k)
      {
        if size == Power(i) {
          PowerIsPow2(i);
          return true;
        }
      }
      if IsPow2(size) {
        PowerAt16();
        ghost var k := Pow2IsPower(size, 16);
        assert false;
      }
    }
    ok := false;
  }

  lemma PowerAt16()
    ensures Power(16) == 0x1_0000
  {
    assert Power(4) == 16 && Power(8) == 256 && Power(12) == 4096;
  }

  /** The size in 16 bits is that to the end of cluster `k`, but for the last cluster of all. */
  lemma BlocksTo(last: nat, k: nat, pcs: nat)
    requires pcs > 0 && k < 0x1_0000 && last == (k + 1) % 0x1_0000
    ensures ((last + 1) * pcs == (k + 2) * pcs <==> k != 0xFFFF) && (k == 0xFFFF ==> (last + 1) * pcs == pcs)
  {
    if k == 0xFFFF {
      StepUp(1, k + 2, pcs);
    }
  }

  /** The table is one the scan accepts. */
  predicate Usable(account: Option<Account>, uar: uint16, pcs: nat) {
    && uar != 0 && account.Some?
    && ValidClusterSize(account.value.clusterSize, pcs) && 0 < account.value.size <= 16
  }

  /**
   * The size of the disk in blocks, `pcs` of them to a bit of the table. It is the end of the
   * highest free cluster unless that is the last of the 65536: then 16 bits overflow.
   */
  method LoadAndScan(m: Media, account: Option<Account>, uar: uint16, pcs: nat)
    returns (size: Option<nat>, ghost table: seq<byte>, ghost n: nat)
    requires pcs > 0
    ensures size.None? ==>
      !Usable(account, uar, pcs) || Broken(m, uar, account.value.clusterSize, account.value.size)
    ensures size.Some? ==>
      && Usable(account, uar, pcs)
      && Holds(m, uar, account.value.clusterSize, Fill(MAP_SIZE, 0xFF), table, n)
      && Complete(m, uar, account.value.clusterSize, account.value.size, n)
      && |table| == MAP_SIZE
    ensures size.Some? ==>
      forall k: nat :: HighestClear(table, k) ==>
        (size.value == (k + 2) * pcs <==> k != 0xFFFF) && (k == 0xFFFF ==> size.value == pcs)
    ensures size.Some? && (forall k :: 8 <= k < 8 * MAP_SIZE ==> !Clear(table, k)) ==>
      size.value == (account.value.size - n + 1) * pcs
  {
    hide Holds, Complete, Broken, Clear;
    size, table, n := None, [], 0;
    if uar == 0 || account.None? {
      return;
    }
    var clusterSize, blocks := account.value.clusterSize, account.value.size;
    var ok := ValidateClusterSize(clusterSize, pcs);
    if !ok || blocks > 16 || blocks == 0 {
      return;
    }
    hide ValidClusterSize;
    var bitmap := new byte[MAP_SIZE](_ => 0xFF);
    assert bitmap[..] == Fill(MAP_SIZE, 0xFF);
    var left: nat;
    ok, left, n := LoadBitmap(m, uar, clusterSize, blocks, bitmap);
    if !ok {
      return;
    }
    blocks := ScanBitmap(bitmap, left);
    table := bitmap[..];
    var last: int := blocks;
    size := Some((last + 1) * pcs);
    forall k: nat | HighestClear(table, k)
      ensures (size.value == (k + 2) * pcs <==> k != 0xFFFF) && (k == 0xFFFF ==> size.value == pcs)
    {
      BlocksTo(last, k, pcs);
    }
  }
}
