/** Cards punched as lines of text, and as octal digits, and what becomes of them when they are read. */
module CardLines {
  import opened Bytes
  import opened CardCodes
  import opened Cards

  // ----- punching text -----

  function Letter(back: seq<byte>, code: uint16): byte
    requires |back| == 0x1000 && code < 0x1000
  {
    if back[code] == NO_CHARACTER then 63 else back[code]
  }

  function Line(back: seq<byte>, card: Card): (line: seq<byte>)
    requires |back| == 0x1000 && Plain(card)
    ensures |line| == 80
  {
    seq(80, k requires 0 <= k < 80 => Letter(back, card[k]))
  }

  /** The length without trailing blanks; the first column is kept. */
  function TrimmedLength(line: seq<byte>, n: nat): (r: nat)
    requires 1 <= n <= |line|
    ensures 1 <= r <= n && (r == 1 || line[r - 1] != SPACE)
    ensures forall k :: r <= k < n ==> line[k] == SPACE
  {
    if n > 1 && line[n - 1] == SPACE then TrimmedLength(line, n - 1) else n
  }

  function PunchText(back: seq<byte>, card: Card): (w: seq<byte>)
    requires |back| == 0x1000 && Plain(card)
  {
    var line := Line(back, card);
    line[..TrimmedLength(line, 80)] + [LF]
  }

  /** Every column has a character, which a unit so set up takes for the same column. */
  predicate Writable(s: Setup, back: seq<byte>, card: Card)
    requires |back| == 0x1000
  {
    Plain(card) && forall k :: 0 <= k < 80 ==>
      && back[card[k]] != NO_CHARACTER && Taken(s, back[card[k]]) < 128
      && Table(s.code)[Taken(s, back[card[k]])] == card[k]
  }

  /** The line of a card names a special card: it is a tilde, alone or with one of four names. */
  predicate Special(line: seq<byte>) {
    && |line| > 0 && line[0] == TILDE
    && (|line| == 1 || Named(line, RAW) || Named(line, EOR) || Named(line, EOF) || Named(line, EOI))
  }

  // ----- reading it back -----

  function Part(card: Card, k: nat): Card {
    seq(80, i requires 0 <= i < 80 => if i < k then card[i] else 0)
  }

  lemma LetterFacts(s: Setup, back: seq<byte>, card: Card, k: nat)
    requires k < 80 && Inverts(back, Table(s.code), 128) && Writable(s, back, card)
    ensures var c := Line(back, card)[k];
      && 32 <= c < 127 && Table(s.code)[Taken(s, c)] == card[k] && (c == SPACE <==> card[k] == 0)
  {
    hide Table;
    TableIsCoded(s.code);
    var c := back[card[k]];
    assert Last(c, Table(s.code), card[k], 128);
    assert Sound(c, Table(s.code)[c]);
    BlankIsBlank(back, Table(s.code), card[k]);
  }

  /** `w` begins with the line of the card. */
  ghost predicate Begins(s: Setup, back: seq<byte>, card: Card, w: seq<byte>, n: nat) {
    && |back| == 0x1000 && Inverts(back, Table(s.code), 128) && Writable(s, back, card)
    && n == TrimmedLength(Line(back, card), 80)
    && |w| > n && w[..n] == Line(back, card)[..n] && w[n] == LF
  }

  lemma ByteFacts(s: Setup, back: seq<byte>, card: Card, w: seq<byte>, n: nat, k: nat)
    requires Begins(s, back, card, w, n) && k < n
    ensures 32 <= w[k] < 127 && Taken(s, w[k]) < 128 && Punched(s, Part(card, k), k, w[k]) == Part(card, k + 1)
    ensures (w[k] == SPACE <==> card[k] == 0)
    ensures w[k] == Line(back, card)[k]
  {
    LetterFacts(s, back, card, k);
    assert w[k] == w[..n][k];
  }

  lemma {:induction false} TextLays(s: Setup, back: seq<byte>, card: Card, w: seq<byte>, n: nat, k: nat)
    requires Begins(s, back, card, w, n) && k <= n
    ensures TextColumns(s, w, k, k, Part(card, k)) == Laid(card, n)
    decreases n - k
  {
    if k == n {
      forall i | n <= i < 80
        ensures card[i] == 0
      {
        LetterFacts(s, back, card, i);
      }
      assert Part(card, n) == card;
    } else {
      hide Punched, Begins;
      ByteFacts(s, back, card, w, n, k);
      TextLays(s, back, card, w, n, k + 1);
    }
  }

  lemma {:induction false} BlanksEnd(w: seq<byte>, n: nat, i: nat)
    requires 1 <= i < n < |w| && n <= 80 && w[n - 1] != SPACE
    requires forall k :: i <= k < n ==> 32 <= w[k]
    ensures OnlyBlanks(w, i, 1) == Letters
    decreases n - i
  {
    if w[i] == SPACE {
      BlanksEnd(w, n, i + 1);
    }
  }

  lemma {:induction false} LineEndsAt(w: seq<byte>, n: nat, i: nat)
    requires i <= n < |w| && w[n] == LF
    requires forall k :: i <= k < n ==> 32 <= w[k]
    ensures LineEnd(w, i) == n + 1
    decreases n - i
  {
    if i < n {
      LineEndsAt(w, n, i + 1);
    }
  }

  /** Digits reach only a quarter of the way into the card. */
  lemma {:induction false} RawStaysShort(w: seq<byte>, n: nat, i: nat, col: nat, j: nat, card: Card)
    requires 4 <= i <= n < |w| && n <= 80 && w[n] == LF && j <= 3 && 4 * col + j == i - 4
    requires card[n - 1] == 0
    ensures var l := RawColumns(w, i, col, j, card);
      l.Laid? ==> l.card[n - 1] == 0
    decreases n - i
  {
    hide WithDigit;
    if i < n && 48 <= w[i] <= 55 {
      assert col < n - 1;
      DigitElsewhere(card, col, w[i], n - 1);
      RawStaysShort(w, n, i + 1, if j == 3 then col + 1 else col, if j == 3 then 0 else j + 1,
                    WithDigit(card, col, w[i]));
    }
  }

  lemma DigitElsewhere(card: Card, col: nat, c: byte, k: nat)
    requires col < k < 80 && 48 <= c <= 55
    ensures WithDigit(card, col, c)[k] == card[k]
  {
  }

  lemma NamedLine(s: Setup, back: seq<byte>, card: Card, w: seq<byte>, n: nat)
    requires Begins(s, back, card, w, n)
    ensures forall name :: name in {RAW, EOR, EOF, EOI} ==> Named(w, name) == Named(w[..n], name)
    ensures !Named(w, SEVEN_EIGHT)
  {
    forall k | 0 <= k < n
      ensures w[k] >= 32 && w[..n][k] == w[k]
    {
      ByteFacts(s, back, card, w, n, k);
    }
  }

  /** A line with a name punches nothing in its last column. */
  lemma NamesAreShort(s: Setup, w: seq<byte>, n: nat)
    requires 4 <= n < |w| && n <= 80 && w[n] == LF
    requires w[0] == TILDE && (Named(w, RAW) || Named(w, EOR) || Named(w, EOF) || Named(w, EOI))
    ensures ParseText(s, w).Read? ==> ParseText(s, w).card[n - 1] == 0
  {
    hide OnlyBlanks, RawColumns, TextColumns, LineEnd, Named, WithEof;
    RawStaysShort(w, n, 4, 0, 0, BlankCard());
  }

  lemma SpecialLost(s: Setup, back: seq<byte>, card: Card, w: seq<byte>, n: nat)
    requires Begins(s, back, card, w, n) && Special(w[..n])
    ensures ParseText(s, w) != Read(card, n + 1)
  {
    assert w[0] == w[..n][0] && card[0] < 0x1000 && w[n] == LF && n <= 80;
    assert n == 1 || w[n - 1] != SPACE by {
      assert w[n - 1] == w[..n][n - 1];
    }
    NamedLine(s, back, card, w, n);
    ByteFacts(s, back, card, w, n, n - 1);
    hide Begins, Named, ParseNamed, LineEnd;
    if n == 1 {
      assert OnlyBlanks(w, 1, 1) == Blanks(2);
    } else {
      hide ParseText;
      NamesAreShort(s, w, n);
    }
  }

  lemma LineSurvives(s: Setup, back: seq<byte>, card: Card, w: seq<byte>, n: nat)
    requires Begins(s, back, card, w, n) && !Special(w[..n])
    ensures ParseText(s, w) == Read(card, n + 1)
  {
    forall k | 0 <= k < n
      ensures w[k] >= 32 && w[..n][k] == w[k]
    {
      ByteFacts(s, back, card, w, n, k);
    }
    TextLays(s, back, card, w, n, 0);
    assert Part(card, 0) == BlankCard();
    LineEndsAt(w, n, n);
    NamedLine(s, back, card, w, n);
    if w[0] == TILDE {
      ByteFacts(s, back, card, w, n, n - 1);
      BlanksEnd(w, n, 1);
    }
    hide TextColumns, OnlyBlanks, LineEnd, RawColumns, Begins;
  }

  /**
   * A card whose columns all have characters survives as a line of text if and only if the line
   * does not name a special card.
   */
  lemma TextRoundTrip(s: Setup, back: seq<byte>, card: Card, w: seq<byte>)
    requires Inverts(back, Table(s.code), 128) && Writable(s, back, card)
    requires PunchText(back, card) <= w
    ensures ParseText(s, w) == Read(card, |PunchText(back, card)|) <==>
      !Special(PunchText(back, card)[..|PunchText(back, card)| - 1])
  {
    var n := TrimmedLength(Line(back, card), 80);
    var p := PunchText(back, card);
    assert p[..n] == Line(back, card)[..n] == w[..n];
    assert w[n] == p[n];
    hide ParseText, Special, Writable, Inverts;
    if Special(w[..n]) {
      SpecialLost(s, back, card, w, n);
    } else {
      LineSurvives(s, back, card, w, n);
    }
  }

  /** With lower case letters left alone, every card whose columns have characters is writable. */
  lemma LowerIsWritable(s: Setup, back: seq<byte>, card: Card)
    requires s.lower && Inverts(back, Table(s.code), 128) && Plain(card)
    requires forall k :: 0 <= k < 80 ==> back[card[k]] != NO_CHARACTER
    ensures Writable(s, back, card)
  {
    hide Table;
    forall k | 0 <= k < 80
      ensures Table(s.code)[Taken(s, back[card[k]])] == card[k]
    {
      assert Last(back[card[k]], Table(s.code), card[k], 128);
    }
  }

  /** No column can be punched for the character. */
  predicate NoCode(s: Setup, c: byte) {
    Taken(s, c) < 128 && Table(s.code)[Taken(s, c)] >= 0x1000
  }

  /** `w` begins with a line of `n` characters, from the `k`-th on none of them a control character. */
  ghost predicate LineOf(w: seq<byte>, n: nat, k: nat) {
    k <= n < |w| && n <= 80 && w[n] == LF && forall j :: k <= j < n ==> 32 <= w[j] < 128
  }

  lemma PunchedFlags(s: Setup, card: Card, col: nat, c: byte)
    requires col < 80 && c < 128
    ensures Taken(s, c) < 128
    ensures Flagged(Punched(s, card, col, c)) <==> col > 0 && (Flagged(card) || NoCode(s, c))
  {
    hide Table;
    if Table(s.code)[Taken(s, c)] / 0x1000 != 0 {
      FailedFlags(card);
    }
  }

  lemma {:induction false} TextFlags(s: Setup, w: seq<byte>, n: nat, k: nat, card: Card)
    requires LineOf(w, n, k) && 0 < k
    ensures var l := TextColumns(s, w, k, k, card);
      l.Laid? && l.at == n && (Flagged(l.card) <==> Flagged(card) || exists j :: k <= j < n && NoCode(s, w[j]))
    decreases n - k
  {
    hide Punched, NoCode, Flagged;
    if k < n {
      PunchedFlags(s, card, k, w[k]);
      TextFlags(s, w, n, k + 1, Punched(s, card, k, w[k]));
    }
  }

  /** A card of text is flagged exactly for characters without a code behind its first. */
  lemma TextErrors(s: Setup, w: seq<byte>, n: nat)
    requires 0 < n && LineOf(w, n, 0) && w[0] != TILDE
    ensures var o := ParseText(s, w);
      o.Read? && o.size == n + 1 && (Flagged(o.card) <==> exists j :: 1 <= j < n && NoCode(s, w[j]))
  {
    PunchedFlags(s, BlankCard(), 0, w[0]);
    var card := Punched(s, BlankCard(), 0, w[0]);
    TextFlags(s, w, n, 1, card);
    LineEndsAt(w, n, n);
    hide Punched, NoCode, Flagged, LineEnd;
  }

  /** A tilde alone on its line is an end of file, and takes the next line with it. */
  lemma EofTakesNextLine(s: Setup, line: seq<byte>, rest: seq<byte>)
    requires forall k :: 0 <= k < |line| ==> line[k] >= 32
    ensures ParseText(s, [TILDE, LF] + line + [LF] + rest) == Read(BlankCard()[0 := 0x1000], |line| + 3)
  {
    var w := [TILDE, LF] + line + [LF] + rest;
    var n := |line| + 2;
    assert forall k :: 2 <= k < n ==> w[k] == line[k - 2];
    LineEndsAt(w, n, 2);
    assert OnlyBlanks(w, 1, 1) == Blanks(2);
  }

  // ----- octal -----

  function Digit(card: Card, i: nat): byte
    requires i < 320
  {
    var column: int := card[i / 4];
    48 + (if i % 4 == 0 then column / 512 % 8 else if i % 4 == 1 then column / 64 % 8
          else if i % 4 == 2 then column / 8 % 8 else column % 8)
  }

  function Digits(card: Card): (d: seq<byte>)
    ensures |d| == 320
  {
    seq(320, i requires 0 <= i < 320 => Digit(card, i))
  }

  /** Nothing is punched behind the first column. */
  predicate FirstOnly(card: Card) {
    forall k :: 1 <= k < 80 ==> card[k] == 0
  }

  function PunchOctal(card: Card): (w: seq<byte>)
    ensures |w| > 0 && w[|w| - 1] == LF
  {
    if FirstOnly(card) && card[0] == 0x7 then [TILDE] + EOR + [LF]
    else if FirstOnly(card) && (card[0] == 0xD || card[0] == 0xF) then [TILDE] + EOF + [LF]
    else if FirstOnly(card) && card[0] != 0 then [TILDE, 101, 111] + RAW + Digits(card) + [LF]
    else [TILDE] + RAW + Digits(card) + [LF]
  }

  lemma OctalDigits(x: nat)
    requires x < 0x1000
    ensures var d0, d1, d2, d3 := x / 512 % 8, x / 64 % 8, x / 8 % 8, x % 8;
      ((d0 * 8 + d1) * 8 + d2) * 8 + d3 == x
  {
    var x1 := x / 8;
    var x2 := x1 / 8;
    var x3 := x2 / 8;
    assert x1 == x / 8 && x2 == x / 64 && x3 == x / 512;
    assert x == 8 * x1 + x % 8 && x1 == 8 * x2 + x1 % 8 && x2 == 8 * x3 + x2 % 8;
  }

  lemma OneDigit(card: Card, k: nat, d: nat)
    requires k < 80 && d < 8 && card[k] < 0x200
    ensures WithDigit(card, k, 48 + d) == card[k := card[k] * 8 + d]
  {
  }

  /** Four digits make up a column. */
  lemma Accumulates(card: Card, k: nat, d0: nat, d1: nat, d2: nat, d3: nat, x: nat)
    requires k < 80 && card[k] == 0 && d0 < 8 && d1 < 8 && d2 < 8 && d3 < 8
    requires ((d0 * 8 + d1) * 8 + d2) * 8 + d3 == x
    ensures x < 0x1_0000
    ensures WithDigit(WithDigit(WithDigit(WithDigit(card, k, 48 + d0), k, 48 + d1), k, 48 + d2), k, 48 + d3) ==
            card[k := x]
  {
    hide WithDigit;
    var x1 := d0 * 8 + d1;
    var x2 := x1 * 8 + d2;
    OneDigit(card, k, d0);
    OneDigit(card[k := d0], k, d1);
    OneDigit(card[k := x1], k, d2);
    OneDigit(card[k := x2], k, d3);
    assert card[k := d0][k := x1] == card[k := x1];
    assert card[k := x1][k := x2] == card[k := x2];
    assert card[k := x2][k := x] == card[k := x];
  }

  lemma FourDigits(card: Card, k: nat)
    requires k < 80 && card[k] < 0x1000
    ensures var d0, d1 := Digit(card, 4 * k), Digit(card, 4 * k + 1);
      var d2, d3 := Digit(card, 4 * k + 2), Digit(card, 4 * k + 3);
      && 48 <= d0 <= 55 && 48 <= d1 <= 55 && 48 <= d2 <= 55 && 48 <= d3 <= 55
      && WithDigit(WithDigit(WithDigit(WithDigit(Part(card, k), k, d0), k, d1), k, d2), k, d3) == Part(card, k + 1)
  {
    var x: int := card[k];
    assert Digit(card, 4 * k) == 48 + x / 512 % 8;
    assert Digit(card, 4 * k + 1) == 48 + x / 64 % 8;
    assert Digit(card, 4 * k + 2) == 48 + x / 8 % 8;
    assert Digit(card, 4 * k + 3) == 48 + x % 8;
    hide Digit;
    OctalDigits(x);
    assert Part(card, k)[k] == 0 && Part(card, k)[k := x] == Part(card, k + 1);
    hide Part, WithDigit;
    Accumulates(Part(card, k), k, x / 512 % 8, x / 64 % 8, x / 8 % 8, x % 8, x);
  }

  /** `w` holds the digits of the card from its fourth byte on. */
  ghost predicate HasDigits(card: Card, w: seq<byte>) {
    |w| > 324 && w[4..324] == Digits(card)
  }

  lemma DigitAt(card: Card, w: seq<byte>, i: nat)
    requires HasDigits(card, w) && i < 320
    ensures w[4 + i] == Digit(card, i)
  {
    assert w[4 + i] == w[4..324][i];
  }

  lemma {:induction false} RawLays(card: Card, w: seq<byte>, k: nat)
    requires Plain(card) && HasDigits(card, w) && k <= 80
    ensures RawColumns(w, 4 + 4 * k, k, 0, Part(card, k)) == Laid(card, 324)
    decreases 80 - k
  {
    if k == 80 {
      assert Part(card, 80) == card;
    } else {
      FourDigits(card, k);
      DigitAt(card, w, 4 * k);
      DigitAt(card, w, 4 * k + 1);
      DigitAt(card, w, 4 * k + 2);
      DigitAt(card, w, 4 * k + 3);
      RawLays(card, w, k + 1);
      hide Digit, WithDigit, Part, HasDigits;
      var d0, d1, d2, d3 := Digit(card, 4 * k), Digit(card, 4 * k + 1), Digit(card, 4 * k + 2), Digit(card, 4 * k + 3);
      var c1 := WithDigit(Part(card, k), k, d0);
      var c2 := WithDigit(c1, k, d1);
      var c3 := WithDigit(c2, k, d2);
      var i := 4 + 4 * k;
      assert RawColumns(w, i, k, 0, Part(card, k)) == RawColumns(w, i + 1, k, 1, c1);
      assert RawColumns(w, i + 1, k, 1, c1) == RawColumns(w, i + 2, k, 2, c2);
      assert RawColumns(w, i + 2, k, 2, c2) == RawColumns(w, i + 3, k, 3, c3);
      assert RawColumns(w, i + 3, k, 3, c3) == RawColumns(w, i + 4, k + 1, 0, Part(card, k + 1));
    }
  }

  lemma RawSurvives(s: Setup, card: Card, w: seq<byte>)
    requires Plain(card) && [TILDE] + RAW + Digits(card) + [LF] <= w
    ensures ParseText(s, w) == Read(card, 325)
  {
    var p := [TILDE] + RAW + Digits(card) + [LF];
    assert |p| == 325 && p[4..324] == Digits(card);
    assert w[..325] == p;
    assert w[4..324] == p[4..324];
    assert w[0] == p[0] && w[1] == p[1] && w[2] == p[2] && w[3] == p[3] && w[324] == p[324];
    RawLays(card, w, 0);
    assert Part(card, 0) == BlankCard();
    hide RawColumns, Digits, TextColumns;
    assert OnlyBlanks(w, 1, 1) == Letters;
    assert Named(w, RAW) && LineEnd(w, 324) == 325;
  }

  /** A special card by one of the names in octal decks. */
  lemma NameReads(s: Setup, w: seq<byte>, name: seq<byte>)
    requires |w| >= 4 && |name| == 3 && w[..4] == [TILDE] + name && (name == EOR || name == EOF)
    ensures ParseText(s, w).Read? ==>
      ParseText(s, w).card == BlankCard()[0 := if name == EOR then 0x7 else 0xD]
    ensures |w| >= 5 && w[4] == LF ==> ParseText(s, w).Read? && ParseText(s, w).size == 5
  {
    hide TextColumns, RawColumns;
    assert w[0] == w[..4][0] && w[1] == w[..4][1] && w[2] == w[..4][2] && w[3] == w[..4][3];
    assert OnlyBlanks(w, 1, 1) == Letters;
  }

  /** The cards that octal lines can hold: not those with only other first columns. */
  predicate OctalCard(card: Card) {
    Plain(card) && (FirstOnly(card) ==> card[0] in {0x0, 0x7, 0xD})
  }

  /** A card survives as a line of octal digits if and only if it is one that octal lines can hold. */
  lemma OctalRoundTrip(s: Setup, card: Card, w: seq<byte>)
    requires Plain(card) && PunchOctal(card) <= w
    ensures ParseText(s, w) == Read(card, |PunchOctal(card)|) <==> OctalCard(card)
  {
    var p := PunchOctal(card);
    assert forall k :: 0 <= k < |p| ==> w[k] == p[k];
    hide ParseText, Digits, Plain;
    if FirstOnly(card) && card[0] != 0 {
      var name := if card[0] == 0xD || card[0] == 0xF then EOF else EOR;
      assert w[..4] == [TILDE] + name;
      NameReads(s, w, name);
      assert card == BlankCard()[0 := card[0]];
      if card[0] == 0x7 || card[0] == 0xD {
        assert w[4] == LF;
      } else {
        assert BlankCard()[0 := if name == EOR then 0x7 else 0xD][0] != card[0];
      }
    } else {
      assert Plain(card);
      RawSurvives(s, card, w);
    }
  }
}
