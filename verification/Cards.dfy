/**
 * Punched cards in the four formats a deck can be written and read back in: what a card looks like
 * in a file, and what the bytes of a file are as a card.
 */
module Cards {
  import opened Bytes
  import opened CardCodes

  /** A card image: a code for each of its columns. */
  type Card = s: seq<uint16> | |s| == 80 witness seq(80, _ => 0)

  datatype Format = Text | Octal | Binary | ColumnBinary

  /** How a unit is set up: lower case letters stay what they are only if `lower` is set. */
  datatype Setup = Setup(format: Format, code: Code, lower: bool)

  function BlankCard(): Card {
    seq(80, _ => 0)
  }

  // ----- flags, in the bits above the twelve rows of the first column -----

  function WithEof(column: uint16): uint16 {
    if column / 0x1000 % 2 == 1 then column else column + 0x1000
  }

  function WithError(column: uint16): uint16 {
    if column / 0x2000 % 2 == 1 then column else column + 0x2000
  }

  function Failed(card: Card): Card {
    card[0 := WithError(card[0])]
  }

  /** No flags: only the twelve rows are punched. */
  predicate Plain(card: Card) {
    forall k :: 0 <= k < 80 ==> card[k] < 0x1000
  }

  /** What the next card of a window is: cut off in it, incomplete, or a card of `size` bytes. */
  datatype Outcome = Stray | Short | Read(card: Card, size: nat)

  // ----- binary: two bytes to a column -----

  function BinaryColumn(w: seq<byte>, k: nat): uint16
    requires 2 * k + 1 < |w|
  {
    var low: int := w[2 * k];
    var high: int := w[2 * k + 1];
    low / 16 + high * 16
  }

  function BinaryColumns(w: seq<byte>): Card
    requires |w| >= 160
  {
    seq(80, k requires 0 <= k < 80 => BinaryColumn(w, k))
  }

  /** One of the first `n` columns has bits where there are no rows. */
  predicate StrayBits(w: seq<byte>, n: nat)
    requires 2 * n <= |w|
  {
    exists k :: 0 <= k < n && w[2 * k] % 16 != 0
  }

  function ParseBinary(w: seq<byte>): Outcome {
    if |w| < 160 then Short
    else if StrayBits(w, 80) then Read(Failed(BinaryColumns(w)), 160)
    else Read(BinaryColumns(w), 160)
  }

  function BinaryByte(card: Card, i: nat): byte
    requires i < 160
  {
    var column: int := card[i / 2];
    if i % 2 == 0 then column % 16 * 16 else column / 16 % 256
  }

  function PunchBinary(card: Card): (w: seq<byte>)
    ensures |w| == 160
  {
    seq(160, i requires 0 <= i < 160 => BinaryByte(card, i))
  }

  /** Two bytes of a column make it up again. */
  lemma ColumnOfBytes(column: nat)
    requires column < 0x1000
    ensures column % 16 * 16 / 16 + column / 16 % 256 * 16 == column && column % 16 * 16 % 16 == 0
  {
    var low := column % 16;
    assert low * 16 / 16 == low && low * 16 % 16 == 0;
    assert column / 16 % 256 == column / 16;
  }

  lemma BinaryRoundTrip(card: Card, w: seq<byte>)
    requires Plain(card) && |w| >= 160 && w[..160] == PunchBinary(card)
    ensures ParseBinary(w) == Read(card, 160)
  {
    forall k | 0 <= k < 80
      ensures w[2 * k] % 16 == 0 && BinaryColumns(w)[k] == card[k]
    {
      assert w[2 * k] == w[..160][2 * k] && w[2 * k + 1] == w[..160][2 * k + 1];
      assert 2 * k / 2 == k && (2 * k + 1) / 2 == k;
      ColumnOfBytes(card[k]);
    }
    assert BinaryColumns(w) == card;
    hide BinaryColumns;
  }

  // ----- column binary: six rows to a byte, with odd parity, and a mark on the first byte -----

  function Mark(b: byte): bool {
    b >= 0x80
  }

  function Low6(b: byte): byte {
    var value: int := b;
    value % 64
  }

  /** The parity bit of six bits, as the table of the code has it. */
  function Parity(c: nat): uint16 {
    match c / 8
    case 0 => Pick(c % 8, 0x00, 0x40, 0x40, 0x00, 0x40, 0x00, 0x00, 0x40)
    case 1 => Pick(c % 8, 0x40, 0x00, 0x00, 0x40, 0x00, 0x40, 0x40, 0x00)
    case 2 => Pick(c % 8, 0x40, 0x00, 0x00, 0x40, 0x00, 0x40, 0x40, 0x00)
    case 3 => Pick(c % 8, 0x00, 0x40, 0x40, 0x00, 0x40, 0x00, 0x00, 0x40)
    case 4 => Pick(c % 8, 0x40, 0x00, 0x00, 0x40, 0x00, 0x40, 0x40, 0x00)
    case 5 => Pick(c % 8, 0x00, 0x40, 0x40, 0x00, 0x40, 0x00, 0x00, 0x40)
    case 6 => Pick(c % 8, 0x00, 0x40, 0x40, 0x00, 0x40, 0x00, 0x00, 0x40)
    case _ => Pick(c % 8, 0x40, 0x00, 0x00, 0x40, 0x00, 0x40, 0x40, 0x00)
  }

  /** How many of three, and of six bits are set. */
  function Ones3(x: nat): nat {
    x % 2 + x / 2 % 2 + x / 4 % 2
  }

  function Ones(x: nat): nat {
    Ones3(x % 8) + Ones3(x / 8)
  }

  function ParityBit(b: byte): nat {
    var value: int := b;
    value / 64 % 2 * 64
  }

  /** The parity of a byte is wrong: the check bit is that of even parity. */
  predicate Wrong(b: byte) {
    Parity(Low6(b)) == ParityBit(b)
  }

  lemma OnesOfThree(x: nat)
    requires x < 8
    ensures Ones3(x) == if x == 0 then 0 else if x == 7 then 3 else if x == 1 || x == 2 || x == 4 then 1 else 2
  {
    match x
    case 0 =>
    case 1 =>
    case 2 =>
    case 3 =>
    case 4 =>
    case 5 =>
    case 6 =>
    case _ =>
  }

  lemma PickOf(x: nat)
    requires x < 8
    ensures Pick(x, 0x00, 0x40, 0x40, 0x00, 0x40, 0x00, 0x00, 0x40) ==
      if x == 1 || x == 2 || x == 4 || x == 7 then 0x40 else 0x00
    ensures Pick(x, 0x40, 0x00, 0x00, 0x40, 0x00, 0x40, 0x40, 0x00) ==
      if x == 1 || x == 2 || x == 4 || x == 7 then 0x00 else 0x40
  {
  }

  lemma ThreeBits(x: nat)
    requires x < 8
    ensures Ones3(x) == if x == 0 then 0 else if x == 7 then 3 else if x == 1 || x == 2 || x == 4 then 1 else 2
    ensures Pick(x, 0x00, 0x40, 0x40, 0x00, 0x40, 0x00, 0x00, 0x40) == 0x40 * (Ones3(x) % 2)
    ensures Pick(x, 0x40, 0x00, 0x00, 0x40, 0x00, 0x40, 0x40, 0x00) == 0x40 * ((Ones3(x) + 1) % 2)
  {
    hide Pick;
    OnesOfThree(x);
    hide Ones3;
    PickOf(x);
  }

  /** The table makes the seven bits of a punched byte odd in number. */
  lemma ParityMeaning(c: nat)
    requires c < 64
    ensures Parity(c) == 0x40 * (Ones(c) % 2)
  {
    hide Pick, Ones3;
    ThreeBits(c % 8);
    ThreeBits(c / 8);
  }

  /** Where the record ends that begins with a byte before `i`: at the next mark, or after 160 bytes. */
  function RecordEnd(w: seq<byte>, i: nat): (n: nat)
    requires i <= |w| && i <= 160
    ensures i <= n <= 160 && n <= |w|
    ensures forall k :: i <= k < n ==> !Mark(w[k])
    ensures n < 160 && n < |w| ==> Mark(w[n])
    decreases 160 - i
  {
    if i == 160 || i == |w| || Mark(w[i]) then i else RecordEnd(w, i + 1)
  }

  function NextMark(w: seq<byte>, i: nat): (n: nat)
    requires i <= |w|
    ensures i <= n <= |w| && forall k :: i <= k < n ==> !Mark(w[k])
    ensures n < |w| ==> Mark(w[n])
    decreases |w| - i
  {
    if i == |w| || Mark(w[i]) then i else NextMark(w, i + 1)
  }

  /** The six rows the `i`-th byte of a record of `n` bytes stands for. */
  function Half(w: seq<byte>, n: nat, i: nat): nat
    requires n <= |w|
  {
    if i < n then Low6(w[i]) else 0
  }

  function RecordColumns(w: seq<byte>, n: nat): Card
    requires n <= |w|
  {
    seq(80, k requires 0 <= k < 80 => Half(w, n, 2 * k) * 64 + Half(w, n, 2 * k + 1))
  }

  /** A parity error in the very first byte is lost: the column it flags is stored over it. */
  predicate ParityError(w: seq<byte>, n: nat)
    requires n <= |w|
  {
    exists k :: 1 <= k < n && Wrong(w[k])
  }

  function RecordCard(w: seq<byte>, n: nat): Card
    requires n <= |w|
  {
    if ParityError(w, n) then Failed(RecordColumns(w, n)) else RecordColumns(w, n)
  }

  predicate TapeMark(w: seq<byte>) {
    |w| > 0 && w[0] == 0x8F && (|w| == 1 || Mark(w[1]))
  }

  function ParseColumnBinary(w: seq<byte>): (o: Outcome)
    ensures o.Read? ==> 1 <= o.size <= |w|
  {
    if |w| == 0 then Stray
    else if TapeMark(w) then Read(BlankCard()[0 := WithEof(0)], 1)
    else
      var n := RecordEnd(w, 1);
      if n < 160 && n == |w| && n % 2 == 1 then Stray
      else if n == 160 && n < |w| && !Mark(w[160]) then
        var next := NextMark(w, 160);
        if next == |w| then Stray else Read(Failed(RecordCard(w, n)), next)
      else Read(RecordCard(w, n), n)
  }

  function HalfOf(card: Card, i: nat): nat
    requires i < 160
  {
    var column: int := card[i / 2];
    if i % 2 == 0 then column / 64 % 64 else column % 64
  }

  function Checked(c: nat): nat
    requires c < 64
  {
    c + (0x40 - Parity(c))
  }

  function RecordByte(card: Card, i: nat): byte
    requires i < 160
  {
    ParityValue(HalfOf(card, i));
    Checked(HalfOf(card, i)) + if i == 0 then 0x80 else 0
  }

  function PunchColumnBinary(card: Card): (w: seq<byte>)
    ensures |w| == 160
  {
    seq(160, i requires 0 <= i < 160 => RecordByte(card, i))
  }

  /** The card is flagged as an error. */
  predicate Flagged(card: Card) {
    card[0] / 0x2000 % 2 == 1
  }

  /** A whole record is flagged exactly for wrong parity behind its first byte, or for being too long. */
  lemma RecordFlags(w: seq<byte>)
    requires |w| >= 160 && RecordEnd(w, 1) == 160 && ParseColumnBinary(w).Read? && !TapeMark(w)
    ensures Flagged(ParseColumnBinary(w).card) <==>
      (exists k :: 1 <= k < 160 && Wrong(w[k])) || (|w| > 160 && !Mark(w[160]))
  {
    hide Wrong, RecordEnd, NextMark, Mark, TapeMark;
    assert RecordColumns(w, 160)[0] < 0x1000;
    assert ParityError(w, 160) <==> exists k :: 1 <= k < 160 && Wrong(w[k]);
    hide ParityError, RecordColumns;
    FailedFlags(RecordColumns(w, 160));
    FailedFlags(Failed(RecordColumns(w, 160)));
  }

  lemma FailedFlags(card: Card)
    ensures Flagged(Failed(card))
  {
  }

  lemma ParityValue(c: nat)
    requires c < 64
    ensures Parity(c) == 0 || Parity(c) == 0x40
  {
    ParityMeaning(c);
  }

  lemma CheckedIsRight(c: nat, b: byte)
    requires c < 64 && (b == Checked(c) || b == Checked(c) + 0x80)
    ensures Low6(b) == c && !Wrong(b)
    ensures Mark(b) <==> b == Checked(c) + 0x80
  {
    ParityValue(c);
  }

  /** What follows the card must not be taken for a part of it: the next card has a mark. */
  lemma ColumnBinaryRoundTrip(card: Card, w: seq<byte>)
    requires Plain(card) && |w| >= 160 && w[..160] == PunchColumnBinary(card)
    requires |w| > 160 ==> Mark(w[160])
    ensures ParseColumnBinary(w) == Read(card, 160)
  {
    hide Parity, Wrong, RecordEnd;
    forall i | 0 <= i < 160
      ensures Low6(w[i]) == HalfOf(card, i) && !Wrong(w[i]) && (Mark(w[i]) <==> i == 0)
    {
      assert w[i] == w[..160][i];
      CheckedIsRight(HalfOf(card, i), w[i]);
    }
    assert RecordEnd(w, 1) == 160;
    forall k | 0 <= k < 80
      ensures RecordColumns(w, 160)[k] == card[k]
    {
      assert 2 * k / 2 == k && (2 * k + 1) / 2 == k;
    }
    assert RecordColumns(w, 160) == card;
  }

  // ----- text: a line to a card, and lines for special cards -----

  const NUL: byte := 0
  const TAB: byte := 9
  const LF: byte := 10
  const CR: byte := 13
  const SPACE: byte := 32
  const TILDE: byte := 126

  function Upper(c: byte): byte {
    if 97 <= c <= 122 then c - 32 else c
  }

  function Lower(c: byte): byte {
    if 65 <= c <= 90 then c + 32 else c
  }

  /** The character a unit takes a byte of a line for. */
  function Taken(s: Setup, c: byte): byte {
    if s.lower then c else Upper(c)
  }

  /** The rest of a line is skipped, with its end: one of three kinds. */
  function LineEnd(w: seq<byte>, i: nat): (n: nat)
    ensures n == 0 || i < n <= |w|
    decreases |w| - i
  {
    if i >= |w| then 0
    else if w[i] == LF then i + 1
    else if w[i] == CR then
      if i + 1 >= |w| then 0 else if w[i + 1] == LF then i + 2 else i + 1
    else LineEnd(w, i + 1)
  }

  /** How the look behind a tilde comes out: where it stops if there are only blanks, or in text. */
  datatype Look = Lost | Blanks(at: nat) | Letters

  function NextStop(col: nat): nat {
    (col / 8 + 1) * 8
  }

  /** A tab goes to the next multiple of eight. */
  lemma TabStop(col: nat)
    ensures col < NextStop(col) <= col + 8 && NextStop(col) % 8 == 0
  {
    var q := col / 8;
    assert NextStop(col) == 8 * (q + 1);
  }

  /** It goes on behind the character that ends the line, unlike the skip to the end of the line. */
  function OnlyBlanks(w: seq<byte>, i: nat, col: nat): Look
    decreases |w| - i
  {
    if col >= 80 then Blanks(i)
    else if i >= |w| then Lost
    else if w[i] == LF || w[i] == NUL || w[i] == CR then Blanks(i + 1)
    else if w[i] == SPACE then OnlyBlanks(w, i + 1, col)
    else if w[i] == TAB then OnlyBlanks(w, i + 1, NextStop(col))
    else Letters
  }

  /** A card laid out from a line up to a byte of it, unless the line leaves the window or the table. */
  datatype Laid = Beyond | Laid(card: Card, at: nat)

  function Punched(s: Setup, card: Card, col: nat, c: byte): Card
    requires col < 80 && Taken(s, c) < 128
  {
    var code := Table(s.code)[Taken(s, c)];
    var flagged := if code / 0x1000 != 0 then Failed(card) else card;
    flagged[col := code % 0x1000]
  }

  function TextColumns(s: Setup, w: seq<byte>, i: nat, col: nat, card: Card): Laid
    decreases |w| - i
  {
    if col >= 80 then Laid(card, i)
    else if i >= |w| || w[i] >= 128 then Beyond
    else if w[i] == NUL || w[i] == CR then TextColumns(s, w, i + 1, col, card)
    else if w[i] == TAB then TextColumns(s, w, i + 1, NextStop(col), card)
    else if w[i] == LF then Laid(card, i)
    else TextColumns(s, w, i + 1, col + 1, Punched(s, card, col, w[i]))
  }

  function WithDigit(card: Card, col: nat, c: byte): Card
    requires col < 80 && 48 <= c <= 55
  {
    card[col := (card[col] * 8 + (c - 48)) % 0x1_0000]
  }

  /** Four octal digits to a column; `j` of them have been seen. Anything else is an error. */
  function RawColumns(w: seq<byte>, i: nat, col: nat, j: nat, card: Card): Laid
    decreases |w| - i
  {
    if col >= 80 then Laid(card, i)
    else if i >= |w| then Beyond
    else if 48 <= w[i] <= 55 then
      RawColumns(w, i + 1, if j == 3 then col + 1 else col, if j == 3 then 0 else j + 1, WithDigit(card, col, w[i]))
    else if w[i] == LF || w[i] == CR then Laid(card, i)
    else Laid(card[0 := 0x2000], i)
  }

  /** The line begins with a tilde and three letters, upper or lower case. */
  predicate Named(w: seq<byte>, name: seq<byte>)
    requires |name| == 3
  {
    |w| >= 4 && w[0] == TILDE && Lower(w[1]) == name[0] && Lower(w[2]) == name[1] && Lower(w[3]) == name[2]
  }

  const RAW: seq<byte> := [114, 97, 119]
  const EOR: seq<byte> := [101, 111, 114]
  const EOF: seq<byte> := [101, 111, 102]
  const EOI: seq<byte> := [101, 111, 105]
  const SEVEN_EIGHT: seq<byte> := [55, 56, 0]

  function Ended(card: Card, w: seq<byte>, i: nat): Outcome {
    var n := LineEnd(w, i);
    if n == 0 then Stray else Read(card, n)
  }

  function EndLaid(l: Laid, w: seq<byte>): Outcome {
    match l
    case Beyond => Stray
    case Laid(card, at) => Ended(card, w, at)
  }

  function ParseNamed(s: Setup, w: seq<byte>): Outcome {
    if Named(w, RAW) then EndLaid(RawColumns(w, 4, 0, 0, BlankCard()), w)
    else if Named(w, EOR) then Ended(BlankCard()[0 := 0x7], w, 4)
    else if Named(w, EOF) then Ended(BlankCard()[0 := 0xD], w, 4)
    else if Named(w, EOI) then Ended(BlankCard()[0 := 0xF], w, 4)
    else if Named(w, SEVEN_EIGHT) then Ended(BlankCard()[0 := 0x6], w, 3)
    else EndLaid(TextColumns(s, w, 0, 0, BlankCard()), w)
  }

  function ParseText(s: Setup, w: seq<byte>): (o: Outcome)
    ensures o.Read? ==> 1 <= o.size <= |w|
  {
    if |w| == 0 then Stray
    else if w[0] == TILDE then
      match OnlyBlanks(w, 1, 1)
      case Lost => Stray
      case Blanks(at) => Ended(BlankCard()[0 := WithEof(0)], w, at)
      case Letters => ParseNamed(s, w)
    else ParseNamed(s, w)
  }

  function Parse(s: Setup, w: seq<byte>): (o: Outcome)
    ensures o.Read? ==> 1 <= o.size <= |w|
  {
    match s.format
    case Binary => ParseBinary(w)
    case ColumnBinary => ParseColumnBinary(w)
    case _ => ParseText(s, w)
  }

  // ----- a window does not show -----

  lemma LineEndLocal(w: seq<byte>, more: seq<byte>, i: nat)
    requires LineEnd(w, i) != 0
    ensures LineEnd(w + more, i) == LineEnd(w, i)
    decreases |w| - i
  {
  }

  lemma BlanksLocal(w: seq<byte>, more: seq<byte>, i: nat, col: nat)
    requires !OnlyBlanks(w, i, col).Lost?
    ensures OnlyBlanks(w + more, i, col) == OnlyBlanks(w, i, col)
    decreases |w| - i
  {
  }

  lemma {:induction false} TextLocal(s: Setup, w: seq<byte>, more: seq<byte>, i: nat, col: nat, card: Card)
    requires TextColumns(s, w, i, col, card).Laid?
    ensures TextColumns(s, w + more, i, col, card) == TextColumns(s, w, i, col, card)
    decreases |w| - i
  {
    hide Punched, NextStop;
    if col < 80 && w[i] != LF {
      if w[i] == NUL || w[i] == CR {
        TextLocal(s, w, more, i + 1, col, card);
      } else if w[i] == TAB {
        TextLocal(s, w, more, i + 1, NextStop(col), card);
      } else {
        TextLocal(s, w, more, i + 1, col + 1, Punched(s, card, col, w[i]));
      }
    }
  }

  lemma {:induction false} RawLocal(w: seq<byte>, more: seq<byte>, i: nat, col: nat, j: nat, card: Card)
    requires RawColumns(w, i, col, j, card).Laid?
    ensures RawColumns(w + more, i, col, j, card) == RawColumns(w, i, col, j, card)
    decreases |w| - i
  {
    hide WithDigit;
    if col < 80 && 48 <= w[i] <= 55 {
      RawLocal(w, more, i + 1, if j == 3 then col + 1 else col, if j == 3 then 0 else j + 1,
               WithDigit(card, col, w[i]));
    }
  }

  lemma EndedLocal(card: Card, w: seq<byte>, more: seq<byte>, i: nat)
    requires Ended(card, w, i).Read?
    ensures Ended(card, w + more, i) == Ended(card, w, i)
  {
    LineEndLocal(w, more, i);
  }

  lemma NamedLocal(s: Setup, w: seq<byte>, more: seq<byte>)
    requires |w| >= 4 && ParseNamed(s, w).Read?
    ensures ParseNamed(s, w + more) == ParseNamed(s, w)
  {
    var o := ParseNamed(s, w);
    assert forall name: seq<byte> :: |name| == 3 ==> Named(w + more, name) == Named(w, name);
    hide Named, RawColumns, TextColumns, Ended;
    if Named(w, RAW) {
      var l := RawColumns(w, 4, 0, 0, BlankCard());
      RawLocal(w, more, 4, 0, 0, BlankCard());
      EndedLocal(l.card, w, more, l.at);
    } else if Named(w, EOR) {
      EndedLocal(BlankCard()[0 := 0x7], w, more, 4);
    } else if Named(w, EOF) {
      EndedLocal(BlankCard()[0 := 0xD], w, more, 4);
    } else if Named(w, EOI) {
      EndedLocal(BlankCard()[0 := 0xF], w, more, 4);
    } else if Named(w, SEVEN_EIGHT) {
      EndedLocal(BlankCard()[0 := 0x6], w, more, 3);
    } else {
      var l := TextColumns(s, w, 0, 0, BlankCard());
      TextLocal(s, w, more, 0, 0, BlankCard());
      EndedLocal(l.card, w, more, l.at);
    }
  }

  lemma TextWindow(s: Setup, w: seq<byte>, more: seq<byte>)
    requires |w| >= 4 && ParseText(s, w).Read?
    ensures ParseText(s, w + more) == ParseText(s, w)
  {
    hide ParseNamed, OnlyBlanks, Ended;
    if w[0] == TILDE {
      BlanksLocal(w, more, 1, 1);
      if OnlyBlanks(w, 1, 1).Blanks? {
        EndedLocal(BlankCard()[0 := WithEof(0)], w, more, OnlyBlanks(w, 1, 1).at);
      } else {
        NamedLocal(s, w, more);
      }
    } else {
      NamedLocal(s, w, more);
    }
  }

  lemma {:induction false} MarkLocal(w: seq<byte>, more: seq<byte>, i: nat)
    requires i <= |w| && NextMark(w, i) < |w|
    ensures NextMark(w + more, i) == NextMark(w, i)
    decreases |w| - i
  {
    if !Mark(w[i]) {
      MarkLocal(w, more, i + 1);
    }
  }

  lemma {:induction false} RecordLocal(w: seq<byte>, more: seq<byte>, i: nat)
    requires i <= 160 < |w|
    ensures RecordEnd(w + more, i) == RecordEnd(w, i)
    decreases 160 - i
  {
    if i < 160 && !Mark(w[i]) {
      RecordLocal(w, more, i + 1);
    }
  }

  lemma CardLocal(w: seq<byte>, more: seq<byte>, n: nat)
    requires n <= |w|
    ensures RecordCard(w + more, n) == RecordCard(w, n)
  {
    hide Wrong, Low6;
    var all := w + more;
    assert forall i :: 0 <= i < n ==> all[i] == w[i];
    assert RecordColumns(all, n) == RecordColumns(w, n);
    if ParityError(w, n) {
      var k :| 1 <= k < n && Wrong(w[k]);
      assert Wrong(all[k]);
    }
  }

  lemma ColumnBinaryWindow(w: seq<byte>, more: seq<byte>)
    requires |w| > 160 && ParseColumnBinary(w).Read?
    ensures ParseColumnBinary(w + more) == ParseColumnBinary(w)
  {
    hide Mark, RecordCard, RecordEnd, NextMark;
    var n := RecordEnd(w, 1);
    RecordLocal(w, more, 1);
    CardLocal(w, more, n);
    if !TapeMark(w) && n == 160 && !Mark(w[160]) {
      MarkLocal(w, more, 160);
    }
  }

  lemma BinaryWindow(w: seq<byte>, more: seq<byte>)
    requires |w| >= 160
    ensures ParseBinary(w + more) == ParseBinary(w)
  {
    var all := w + more;
    assert forall i :: 0 <= i < |w| ==> all[i] == w[i];
    assert BinaryColumns(all) == BinaryColumns(w);
    hide BinaryColumns;
    assert forall k :: 0 <= k < 80 ==> all[2 * k] == w[2 * k];
  }

  /** A card read from a window of 500 bytes is the card of the whole file there. */
  lemma WindowDoesNotShow(s: Setup, w: seq<byte>, more: seq<byte>)
    requires |w| >= 500 && Parse(s, w).Read?
    ensures Parse(s, w + more) == Parse(s, w)
  {
    hide ParseBinary, ParseColumnBinary, ParseText;
    match s.format
    case Binary => BinaryWindow(w, more);
    case ColumnBinary => ColumnBinaryWindow(w, more);
    case Text => TextWindow(s, w, more);
    case Octal => TextWindow(s, w, more);
  }
}
