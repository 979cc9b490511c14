/** The holes of a card in the bits of a file, for the two binary formats, and what is punched as text. */
module CardBits {
  import opened Arithmetic
  import opened Bytes
  import opened CardCodes
  import opened Cards
  import opened CardLines
  import opened CardText

  /** There is a hole in a row of a column, or a one in a bit of a byte. */
  predicate Hole(x: nat, row: nat) {
    x / Power(row) % 2 == 1
  }

  /** How many of the lowest `n` bits are ones. */
  function Holes(x: nat, n: nat): nat {
    if n == 0 then 0 else Holes(x, n - 1) + if Hole(x, n - 1) then 1 else 0
  }

  lemma HoleBit(x: nat, row: nat)
    ensures Hole(x, row) <==> Quotient(x, Power(row)) % 2 == 1
  {
    hide Power;
  }

  /** The holes of a number in two parts, the lower one of `n` bits. */
  lemma PartHoles(high: nat, low: nat, n: nat, row: nat)
    requires low < Power(n)
    ensures Hole(Times(high, Power(n)) + low, row) == if row < n then Hole(low, row) else Hole(high, row - n)
  {
    hide Power, Times, Quotient, Hole;
    HoleBit(Times(high, Power(n)) + low, row);
    if row < n {
      LowerBit(high, low, n, row);
      HoleBit(low, row);
    } else {
      UpperBit(high, low, n, row);
      HoleBit(high, row - n);
    }
  }

  lemma SmallPowers()
    ensures Power(3) == 8 && Power(4) == 16 && Power(6) == 64 && Power(12) == 0x1000
  {
    hide Times;
    assert Power(0) == 1 && Power(1) == 2 && Power(2) == 4 && Power(3) == 8;
    PowersMultiply(6, 6);
    TimesIs(64, 64);
  }

  lemma TimesIs(a: nat, b: nat)
    ensures Times(a, b) == a * b
  {
  }

  lemma SplitHoles(high: nat, low: nat, n: nat, row: nat)
    requires (n == 3 && low < 8) || (n == 4 && low < 16) || (n == 6 && low < 64) || (n == 12 && low < 0x1000)
    ensures var x := if n == 3 then high * 8 else if n == 4 then high * 16 else if n == 6 then high * 64
        else high * 0x1000;
      Hole(x + low, row) == if row < n then Hole(low, row) else Hole(high, row - n)
  {
    hide Hole, Times, Power;
    SmallPowers();
    PartHoles(high, low, n, row);
    TimesIs(high, Power(n));
  }

  // ----- binary -----

  /** The rows of a column in two bytes: the lowest four in the upper half of the first. */
  lemma BinaryHoles(low: byte, high: byte, column: nat, row: nat)
    requires row < 12 && column == low / 16 + high * 16
    ensures Hole(column, row) <==> if row < 4 then Hole(low, row + 4) else Hole(high, row - 4)
  {
    hide Hole;
    var l: int, h: int := low, high;
    SplitHoles(h, l / 16, 4, row);
    SplitHoles(l / 16, l % 16, 4, row + 4);
    assert l == l / 16 * 16 + l % 16;
  }

  /** The flag is above the rows. */
  lemma FlagIsNoHole(column: nat, row: nat)
    requires row < 12 && column < 0x1000
    ensures Hole(column + 0x2000, row) == Hole(column, row)
  {
    hide Hole;
    SplitHoles(2, column, 12, row);
  }

  /** The card of 160 bytes has a hole for each one in their rows, and a flag for a one elsewhere. */
  lemma BinaryReads(w: seq<byte>)
    ensures ParseBinary(w).Read? <==> |w| >= 160
    ensures |w| >= 160 ==> ParseBinary(w).size == 160
    ensures |w| >= 160 ==> forall k, row :: 0 <= k < 80 && 0 <= row < 12 ==>
      (Hole(ParseBinary(w).card[k], row) <==> if row < 4 then Hole(w[2 * k], row + 4) else Hole(w[2 * k + 1], row - 4))
    ensures |w| >= 160 ==> forall k :: 0 <= k < 80 ==>
      ParseBinary(w).card[k] / 0x1000 == if k == 0 && exists j :: 0 <= j < 80 && w[2 * j] % 16 != 0 then 2 else 0
  {
    if |w| >= 160 {
      forall k | 0 <= k < 80
        ensures BinaryColumn(w, k) < 0x1000
      {
      }
      var card := ParseBinary(w).card;
      Flag(BinaryColumn(w, 0));
      forall k, row | 0 <= k < 80 && 0 <= row < 12
        ensures Hole(card[k], row) <==> if row < 4 then Hole(w[2 * k], row + 4) else Hole(w[2 * k + 1], row - 4)
      {
        BinaryHoles(w[2 * k], w[2 * k + 1], BinaryColumn(w, k), row);
        FlagIsNoHole(BinaryColumn(w, k), row);
        hide Hole, BinaryColumn, WithError;
      }
      hide Hole, WithError;
    }
  }

  /** A card is punched in 160 bytes with the same holes, and nothing else. */
  lemma BinaryPunches(card: Card, k: nat, row: nat)
    requires Plain(card) && k < 80 && row < 12
    ensures var w := PunchBinary(card);
      && w[2 * k] % 16 == 0
      && (Hole(card[k], row) <==> if row < 4 then Hole(w[2 * k], row + 4) else Hole(w[2 * k + 1], row - 4))
  {
    assert 2 * k / 2 == k && (2 * k + 1) / 2 == k;
    var w := PunchBinary(card);
    var c: int := card[k];
    assert w[2 * k] == c % 16 * 16 && w[2 * k + 1] == c / 16 % 256;
    hide PunchBinary, Hole;
    BinaryHoles(w[2 * k], w[2 * k + 1], c, row);
  }

  // ----- column binary -----

  /** The lowest six bits of a byte. */
  lemma LowHoles(b: byte, row: nat)
    requires row < 6
    ensures Hole(Low6(b), row) == Hole(b, row)
  {
    hide Hole;
    var v: int := b;
    assert v == v / 64 * 64 + v % 64;
    SplitHoles(v / 64, v % 64, 6, row);
  }

  lemma ThreeHoles(x: nat)
    requires x < 8
    ensures Holes(x, 3) == Ones3(x)
  {
    assert Power(0) == 1 && Power(1) == 2 && Power(2) == 4;
    assert Hole(x, 0) <==> x % 2 == 1;
    assert Hole(x, 1) <==> x / 2 % 2 == 1;
    assert Hole(x, 2) <==> x / 4 % 2 == 1;
    hide Hole, Power;
    assert Holes(x, 0) == 0;
    hide Holes;
    HolesNext(x, 0);
    HolesNext(x, 1);
    HolesNext(x, 2);
  }

  lemma SixHoles(high: nat, low: nat)
    requires low < 8
    ensures Holes(high * 8 + low, 6) == Holes(low, 3) + Holes(high, 3)
  {
    hide Hole;
    var c := high * 8 + low;
    forall row | 0 <= row < 3
      ensures Hole(c, row) == Hole(low, row)
    {
      SplitHoles(high, low, 3, row);
    }
    SameHoles(c, low, 3);
    assert Holes(high, 0) == 0;
    hide Holes;
    HolesNext(high, 0);
    HolesNext(high, 1);
    HolesNext(high, 2);
    HolesNext(c, 3);
    HolesNext(c, 4);
    HolesNext(c, 5);
    SplitHoles(high, low, 3, 3);
    SplitHoles(high, low, 3, 4);
    SplitHoles(high, low, 3, 5);
  }

  lemma SixOnes(c: nat)
    requires c < 64
    ensures Holes(c, 6) == Ones(c)
  {
    hide Holes, Ones3;
    var high, low := c / 8, c % 8;
    assert c == high * 8 + low;
    SixHoles(high, low);
    ThreeHoles(low);
    ThreeHoles(high);
  }

  lemma HolesNext(x: nat, n: nat)
    ensures Holes(x, n + 1) == Holes(x, n) + if Hole(x, n) then 1 else 0
  {
  }

  lemma {:induction false} SameHoles(x: nat, y: nat, n: nat)
    requires forall row :: 0 <= row < n ==> Hole(x, row) == Hole(y, row)
    ensures Holes(x, n) == Holes(y, n)
  {
    hide Hole;
    if n > 0 {
      SameHoles(x, y, n - 1);
    }
  }

  lemma Bit6(b: byte)
    ensures ParityBit(b) == if Hole(b, 6) then 0x40 else 0
  {
    SmallPowers();
    hide Power;
  }

  lemma LowSix(b: byte)
    ensures Low6(b) < 64 && Holes(b, 6) == Ones(Low6(b))
  {
    hide Hole, Ones, Holes;
    forall row | 0 <= row < 6
      ensures Hole(Low6(b), row) == Hole(b, row)
    {
      LowHoles(b, row);
    }
    SixOnes(Low6(b));
    SameHoles(Low6(b), b, 6);
  }

  /** The parity of a byte is wrong if the number of ones in its lowest seven bits is even. */
  lemma WrongIsEven(b: byte)
    ensures Wrong(b) <==> Holes(b, 7) % 2 == 0
  {
    hide Hole, Holes, Low6, Parity, ParityBit, Ones;
    LowSix(b);
    ParityMeaning(Low6(b));
    Bit6(b);
    HolesNext(b, 6);
  }

  /** A record: a byte and those behind it without a mark. Another record follows, or nothing. */
  predicate IsRecord(r: seq<byte>, rest: seq<byte>) {
    && r != [] && r != [0x8F] && (forall k :: 1 <= k < |r| ==> r[k] < 0x80)
    && (rest != [] ==> rest[0] >= 0x80)
  }

  lemma RecordLength(r: seq<byte>, rest: seq<byte>)
    requires IsRecord(r, rest)
    ensures RecordEnd(r + rest, 1) == Min(|r|, 160) && !TapeMark(r + rest)
    ensures |r| > 160 ==> NextMark(r + rest, 160) == |r|
  {
    var w := r + rest;
    assert forall k :: 0 <= k < |r| ==> w[k] == r[k];
    assert rest != [] ==> w[|r|] == rest[0];
  }

  /** A hole of the record: the upper six rows of a column are in its first byte. */
  predicate RecordHole(r: seq<byte>, k: nat, row: nat) {
    var i := if row < 6 then 2 * k + 1 else 2 * k;
    i < |r| && Hole(r[i], row % 6)
  }

  predicate EvenByte(r: seq<byte>) {
    exists j :: 1 <= j < |r| && j < 160 && Holes(r[j], 7) % 2 == 0
  }

  lemma ColumnHoles(w: seq<byte>, r: seq<byte>, n: nat, k: nat, row: nat)
    requires r <= w && n == Min(|r|, 160) && k < 80 && row < 12
    ensures Hole(RecordColumns(w, n)[k], row) <==> RecordHole(r, k, row)
  {
    assert RecordColumns(w, n)[k] == Half(w, n, 2 * k) * 64 + Half(w, n, 2 * k + 1);
    hide Hole, RecordColumns, Half, RecordHole;
    HalfInRecord(w, r, n, 2 * k, row % 6);
    HalfInRecord(w, r, n, 2 * k + 1, row % 6);
    SplitHoles(Half(w, n, 2 * k), Half(w, n, 2 * k + 1), 6, row);
    RecordHoleIs(r, k, row);
  }

  lemma RecordHoleIs(r: seq<byte>, k: nat, row: nat)
    requires row < 12
    ensures row < 6 ==> row % 6 == row && (RecordHole(r, k, row) <==> 2 * k + 1 < |r| && Hole(r[2 * k + 1], row))
    ensures row >= 6 ==> row % 6 == row - 6 && (RecordHole(r, k, row) <==> 2 * k < |r| && Hole(r[2 * k], row - 6))
  {
    hide Hole;
  }

  lemma HalfInRecord(w: seq<byte>, r: seq<byte>, n: nat, i: nat, row: nat)
    requires r <= w && n == Min(|r|, 160) && i < 160 && row < 6
    ensures Half(w, n, i) < 64 && (Hole(Half(w, n, i), row) <==> i < |r| && Hole(r[i], row))
  {
    ZeroHoles(row);
    if i < |r| {
      assert w[i] == r[i];
      LowHoles(r[i], row);
    }
    hide Hole;
  }

  lemma ZeroHoles(row: nat)
    ensures !Hole(0, row)
  {
    hide Power;
    assert 0 / Power(row) == 0;
  }

  lemma RecordErrors(w: seq<byte>, r: seq<byte>, n: nat)
    requires r <= w && n == Min(|r|, 160)
    ensures ParityError(w, n) <==> EvenByte(r)
  {
    hide Wrong, Holes;
    forall j | 0 <= j < |r|
      ensures w[j] == r[j] && (Wrong(w[j]) <==> Holes(r[j], 7) % 2 == 0)
    {
      WrongIsEven(r[j]);
    }
    if ParityError(w, n) {
      var j :| 1 <= j < n && Wrong(w[j]);
      assert Holes(r[j], 7) % 2 == 0;
    }
    if EvenByte(r) {
      var j :| 1 <= j < |r| && j < 160 && Holes(r[j], 7) % 2 == 0;
      assert Wrong(w[j]);
    }
  }

  /**
   * The card of a record has the holes of its first 160 bytes, six to a byte, and none beyond its
   * end. It is flagged for a byte behind the first with an even number of ones, and if the record
   * is too long; then the rest of it is skipped.
   */
  lemma RecordReads(r: seq<byte>, rest: seq<byte>)
    requires IsRecord(r, rest) && (rest == [] ==> |r| % 2 == 0 && |r| <= 160)
    ensures var o := ParseColumnBinary(r + rest);
      && o.Read? && o.size == |r|
      && (forall k, row :: 0 <= k < 80 && 0 <= row < 12 ==> (Hole(o.card[k], row) <==> RecordHole(r, k, row)))
      && (forall k :: 0 <= k < 80 ==>
            o.card[k] / 0x1000 == if k == 0 && (EvenByte(r) || |r| > 160) then 2 else 0)
  {
    var w, n := r + rest, Min(|r|, 160);
    hide Mark, Hole, EvenByte, RecordHole, ParityError, WithError, Half, NextMark, TapeMark;
    RecordLength(r, rest);
    RecordErrors(w, r, n);
    var columns := RecordColumns(w, n);
    RecordInRows(w, n);
    Flag(columns[0]);
    forall k, row | 0 <= k < 80 && 0 <= row < 12
      ensures Hole(columns[k], row) <==> RecordHole(r, k, row)
      ensures Hole(columns[k] + 0x2000, row) <==> RecordHole(r, k, row)
    {
      ColumnHoles(w, r, n, k, row);
      FlagIsNoHole(columns[k], row);
    }
    LongRecord(r, rest);
    hide RecordColumns, RecordEnd, ParseColumnBinary;
    var o := ParseColumnBinary(w);
    assert o.card == if EvenByte(r) || |r| > 160 then columns[0 := columns[0] + 0x2000] else columns;
  }

  lemma RecordInRows(w: seq<byte>, n: nat)
    requires n <= |w|
    ensures forall k :: 0 <= k < 80 ==> RecordColumns(w, n)[k] < 0x1000
  {
  }

  lemma LongRecord(r: seq<byte>, rest: seq<byte>)
    requires IsRecord(r, rest) && (rest == [] ==> |r| % 2 == 0 && |r| <= 160)
    ensures var w, n := r + rest, Min(|r|, 160);
      && n <= |w| && ParseColumnBinary(w).Read? && ParseColumnBinary(w).size == |r|
      && ParseColumnBinary(w).card == if |r| > 160 then Failed(RecordCard(w, n)) else RecordCard(w, n)
  {
    RecordLength(r, rest);
    var w := r + rest;
    if |r| > 160 {
      assert w[160] == r[160];
    } else if |r| == 160 && rest != [] {
      assert w[160] == rest[0];
    }
    hide RecordEnd, NextMark, TapeMark, ParityError, RecordColumns, Failed;
  }

  /** A byte of 0x8F in front of another mark, or alone, is the end of the file. */
  lemma TapeMarkReads(rest: seq<byte>)
    requires rest != [] ==> rest[0] >= 0x80
    ensures ParseColumnBinary([0x8F] + rest) == Read(BlankCard()[0 := 0x1000], 1)
  {
    var w := [0x8F] + rest;
    assert w[0] == 0x8F && (rest != [] ==> w[1] == rest[0]);
  }

  lemma HalfHoles(card: Card, i: nat, row: nat)
    requires Plain(card) && i < 160 && row < 6
    ensures Hole(HalfOf(card, i), row) <==> Hole(card[i / 2], if i % 2 == 0 then row + 6 else row)
  {
    var column: int := card[i / 2];
    SplitHoles(column / 64, column % 64, 6, if i % 2 == 0 then row + 6 else row);
    hide Hole;
    assert column == column / 64 * 64 + column % 64;
  }

  lemma SixBits(card: Card, i: nat)
    requires i < 160
    ensures HalfOf(card, i) < 64
  {
  }

  /** A card is punched in 160 bytes with its holes, odd parity and a mark on the first byte. */
  lemma RecordPunches(card: Card, i: nat)
    requires Plain(card) && i < 160
    ensures var b := PunchColumnBinary(card)[i];
      && (b >= 0x80 <==> i == 0) && Holes(b, 7) % 2 == 1
      && forall row :: 0 <= row < 6 ==> (Hole(b, row) <==> Hole(card[i / 2], if i % 2 == 0 then row + 6 else row))
  {
    hide Hole, Holes, Parity, Wrong, Plain, Low6, HalfOf;
    var c, b := HalfOf(card, i), PunchColumnBinary(card)[i];
    SixBits(card, i);
    assert b == Checked(c) + if i == 0 then 0x80 else 0;
    CheckedIsRight(c, b);
    WrongIsEven(b);
    hide PunchColumnBinary;
    forall row | 0 <= row < 6
      ensures Hole(b, row) <==> Hole(card[i / 2], if i % 2 == 0 then row + 6 else row)
    {
      LowHoles(b, row);
      HalfHoles(card, i, row);
    }
  }
}
