/** What a line of text says: the columns of a card, whatever the way it is laid out in. */
module CardText {
  import opened Arithmetic
  import opened Bytes
  import opened CardCodes
  import opened Cards
  import opened CardDecks
  import opened CardLines

  // ----- a line and its columns -----

  function Blank(n: nat): seq<byte> {
    seq(n, _ => 32)
  }

  /**
   * The characters in the columns that a line takes: a tab stands for the blanks up to the next
   * multiple of eight, and NUL and CR for nothing.
   */
  function Expand(line: seq<byte>): seq<byte> {
    if line == [] then []
    else
      var before, c := Expand(line[..|line| - 1]), line[|line| - 1];
      if c == 0 || c == 13 then before
      else if c == 9 then before + Blank(8 - |before| % 8)
      else before + [c]
  }

  /** The punches of a character. Small letters have those of capitals unless `lower` is set. */
  function CodeOf(s: Setup, c: byte): uint16 {
    if c >= 128 then NO_CODE
    else if 97 <= c <= 122 && !s.lower then Table(s.code)[c - 32]
    else Table(s.code)[c]
  }

  predicate Uncoded(s: Setup, e: seq<byte>) {
    exists j :: 1 <= j < 80 && j < |e| && CodeOf(s, e[j]) >= 0x1000
  }

  /** The card of what is in the columns, flagged if a character behind the first has no code. */
  function CardOf(s: Setup, e: seq<byte>): Card {
    seq(80, k requires 0 <= k < 80 =>
      (if k < |e| then CodeOf(s, e[k]) % 0x1000 else 0) + if k == 0 && Uncoded(s, e) then 0x2000 else 0)
  }

  /** A small letter or its capital. */
  predicate Either(c: byte, small: byte) {
    c == small || (97 <= small <= 122 && c == small - 32)
  }

  /** The line begins with a tilde and a name. */
  predicate HasName(w: seq<byte>, a: byte, b: byte, c: byte) {
    |w| >= 4 && w[0] == 126 && Either(w[1], a) && Either(w[2], b) && Either(w[3], c)
  }

  /** A line that does not name a special card. */
  predicate Ordinary(w: seq<byte>) {
    |w| > 0 && w[0] == 126 ==>
      && |w| > 1 && w[1] !in {0, 9, 10, 13, 32}
      && !HasName(w, 114, 97, 119) && !HasName(w, 101, 111, 114) && !HasName(w, 101, 111, 102)
      && !HasName(w, 101, 111, 105) && !HasName(w, 55, 56, 0)
  }

  // ----- the end of a line -----

  /** What ends a line: LF, CR or both. */
  predicate Ending(e: seq<byte>, rest: seq<byte>) {
    e == [10] || e == [13, 10] || (e == [13] && rest != [] && rest[0] != 10)
  }

  predicate Unended(x: seq<byte>) {
    forall k :: 0 <= k < |x| ==> x[k] != 10 && x[k] != 13
  }

  lemma {:induction false} LineEndIs(w: seq<byte>, i: nat, x: seq<byte>, e: seq<byte>, rest: seq<byte>)
    requires i <= |w| && w[i..] == x + e + rest && Unended(x) && Ending(e, rest)
    ensures LineEnd(w, i) == i + |x| + |e|
    decreases |x|
  {
    var t := x + e + rest;
    assert w[i] == w[i..][0];
    if x == [] {
      assert e + rest == t;
      if e[0] == 13 {
        assert w[i + 1] == w[i..][1];
      }
    } else {
      assert w[i + 1..] == w[i..][1..] == x[1..] + e + rest;
      LineEndIs(w, i + 1, x[1..], e, rest);
    }
  }

  // ----- laying out -----

  lemma TabWidth(n: nat)
    requires n < 80
    ensures 1 <= 8 - n % 8 <= 8 && n + (8 - n % 8) <= 80 && NextStop(n) == n + (8 - n % 8)
  {
  }

  lemma ExpandNext(line: seq<byte>, c: byte)
    ensures var before := Expand(line);
      Expand(line + [c]) ==
        if c == 0 || c == 13 then before else if c == 9 then before + Blank(8 - |before| % 8) else before + [c]
  {
    assert (line + [c])[..|line|] == line;
  }

  lemma CodeIsTaken(s: Setup, c: byte)
    requires c < 128
    ensures Taken(s, c) < 128 && CodeOf(s, c) == Table(s.code)[Taken(s, c)]
  {
  }

  lemma CardOfNone(s: Setup)
    ensures CardOf(s, []) == BlankCard()
  {
    assert !Uncoded(s, []);
    hide Uncoded, CodeOf;
  }

  /** Blanks leave the card as it is. */
  lemma CardOfBlanks(s: Setup, e: seq<byte>, n: nat)
    ensures CardOf(s, e + Blank(n)) == CardOf(s, e)
  {
    TableIsCoded(s.code);
    assert Sound(32, Table(s.code)[32]);
    assert CodeOf(s, 32) == 0;
    hide CodeOf;
    var all := e + Blank(n);
    assert Uncoded(s, all) <==> Uncoded(s, e) by {
      if Uncoded(s, e) {
        var j :| 1 <= j < 80 && j < |e| && CodeOf(s, e[j]) >= 0x1000;
        assert all[j] == e[j];
      }
    }
    hide Uncoded;
  }

  lemma Flag(c: uint16)
    requires c < 0x1000
    ensures WithError(c) == c + 0x2000 && WithError(c + 0x2000) == c + 0x2000
  {
  }

  lemma UncodedNext(s: Setup, e: seq<byte>, c: byte)
    requires |e| < 80
    ensures Uncoded(s, e + [c]) <==> Uncoded(s, e) || (|e| >= 1 && CodeOf(s, c) >= 0x1000)
  {
    hide CodeOf;
    var all, col := e + [c], |e|;
    if Uncoded(s, e) {
      var j :| 1 <= j < 80 && j < |e| && CodeOf(s, e[j]) >= 0x1000;
      assert all[j] == e[j];
    }
    if col >= 1 && CodeOf(s, c) >= 0x1000 {
      assert all[col] == c;
    }
  }

  /** A character is punched in the next column. */
  lemma CardOfNext(s: Setup, e: seq<byte>, c: byte)
    requires |e| < 80 && c < 128
    ensures Taken(s, c) < 128 && CardOf(s, e + [c]) == Punched(s, CardOf(s, e), |e|, c)
  {
    CodeIsTaken(s, c);
    hide CodeOf, Taken, Table, WithError, Uncoded;
    UncodedNext(s, e, c);
    var all, col := e + [c], |e|;
    assert all[col] == c && forall k :: 0 <= k < |e| ==> all[k] == e[k];
    var first := if col > 0 then CodeOf(s, e[0]) % 0x1000 else 0;
    assert CardOf(s, e)[0] == first + if Uncoded(s, e) then 0x2000 else 0;
    Flag(first);
  }

  /** Where the line has filled the card, if it does: nothing of it is looked at behind that. */
  predicate Fills(line: seq<byte>) {
    line != [] && |Expand(line)| >= 80 && |Expand(line[..|line| - 1])| < 80
  }

  predicate Ascii(line: seq<byte>) {
    forall k :: 0 <= k < |line| ==> line[k] < 128 && line[k] != 10
  }

  lemma {:induction false} ExpandGrows(line: seq<byte>, n: nat)
    requires n <= |line|
    ensures |Expand(line[..n])| <= |Expand(line)|
    decreases |line|
  {
    if n < |line| {
      ExpandGrows(line[..|line| - 1], n);
      assert line[..|line| - 1][..n] == line[..n];
    } else {
      assert line[..n] == line;
    }
  }

  /** How the layout goes on from a character. */
  lemma LaysNext(s: Setup, w: seq<byte>, line: seq<byte>, n: nat)
    requires n < |w| && n <= |line| && line[..n] == w[..n] && w[n] < 128 && w[n] != 10 && |Expand(line[..n])| < 80
    ensures var e, next := Expand(line[..n]), Expand(line[..n] + [w[n]]);
      |next| <= 80 && TextColumns(s, w, n, |e|, CardOf(s, e)) == TextColumns(s, w, n + 1, |next|, CardOf(s, next))
  {
    hide Expand, CardOf, Punched, Blank;
    var c, e := w[n], Expand(line[..n]);
    ExpandNext(line[..n], c);
    TabWidth(|e|);
    BlankLength(8 - |e| % 8);
    hide NextStop;
    if c == 9 {
      CardOfBlanks(s, e, 8 - |e| % 8);
    } else if c != 0 && c != 13 {
      CardOfNext(s, e, c);
    }
  }

  lemma BlankLength(n: nat)
    ensures |Blank(n)| == n
  {
  }

  /** Up to where the card is full the layout is that of the expanded line. */
  lemma {:induction false} LaysOut(s: Setup, w: seq<byte>, line: seq<byte>, n: nat)
    requires line <= w && Ascii(line) && n <= |line|
    requires forall k :: 0 <= k < n ==> |Expand(line[..k])| < 80
    ensures |Expand(line[..n])| <= 80
    ensures TextColumns(s, w, 0, 0, BlankCard()) ==
      TextColumns(s, w, n, |Expand(line[..n])|, CardOf(s, Expand(line[..n])))
  {
    if n == 0 {
      CardOfNone(s);
    } else {
      hide Expand, CardOf, TextColumns;
      LaysOut(s, w, line, n - 1);
      LaysNext(s, w, line, n - 1);
      assert line[..n] == line[..n - 1] + [w[n - 1]];
    }
  }

  lemma {:induction false} ShortUpTo(line: seq<byte>)
    requires |Expand(line)| < 80
    ensures forall k :: 0 <= k <= |line| ==> |Expand(line[..k])| < 80
  {
    forall k | 0 <= k <= |line|
      ensures |Expand(line[..k])| < 80
    {
      ExpandGrows(line, k);
    }
  }

  // ----- special lines -----

  lemma NameIs(w: seq<byte>)
    ensures Named(w, RAW) <==> HasName(w, 114, 97, 119)
    ensures Named(w, EOR) <==> HasName(w, 101, 111, 114)
    ensures Named(w, EOF) <==> HasName(w, 101, 111, 102)
    ensures Named(w, EOI) <==> HasName(w, 101, 111, 105)
    ensures Named(w, SEVEN_EIGHT) <==> HasName(w, 55, 56, 0)
  {
  }

  lemma OrdinaryLine(s: Setup, w: seq<byte>)
    requires Ordinary(w) && w != []
    ensures ParseText(s, w) == EndLaid(TextColumns(s, w, 0, 0, BlankCard()), w)
  {
    NameIs(w);
    if w[0] == TILDE {
      assert OnlyBlanks(w, 1, 1) == Letters;
    } else {
      assert forall a, b, c :: !HasName(w, a, b, c);
    }
    hide Named, HasName, OnlyBlanks, TextColumns, RawColumns, LineEnd;
  }

  // ----- what a line is read as -----

  /** A line that leaves room on the card is read column by column, up to its LF. */
  lemma LineReads(s: Setup, line: seq<byte>, rest: seq<byte>)
    requires Ascii(line) && Ordinary(line + [10] + rest) && |Expand(line)| < 80
    ensures ParseText(s, line + [10] + rest) == Read(CardOf(s, Expand(line)), |line| + 1)
  {
    hide Expand, CardOf, Ordinary, LineEnd, TextColumns, ParseText;
    var w, n := line + [10] + rest, |line|;
    OrdinaryLine(s, w);
    ShortUpTo(line);
    LaysOut(s, w, line, n);
    assert line[..n] == line;
    assert w[n] == 10;
    LineEndIs(w, n, [], [10], rest);
    LaidHere(s, w, n, |Expand(line)|, CardOf(s, Expand(line)));
  }

  lemma LaidHere(s: Setup, w: seq<byte>, n: nat, col: nat, card: Card)
    requires n < |w| && (w[n] == 10 || col >= 80)
    ensures TextColumns(s, w, n, col, card) == Laid(card, n)
  {
  }

  /** A line that fills the card is read as far as it does, and the rest up to its end is skipped. */
  lemma LongLineReads(s: Setup, line: seq<byte>, x: seq<byte>, e: seq<byte>, rest: seq<byte>)
    requires Ascii(line) && Fills(line) && Unended(x) && Ending(e, rest) && Ordinary(line + x + e + rest)
    ensures |Expand(line)| == 80
    ensures ParseText(s, line + x + e + rest) == Read(CardOf(s, Expand(line)), |line| + |x| + |e|)
  {
    hide Expand, CardOf, Ordinary, LineEnd, TextColumns, ParseText;
    var w, n := line + x + e + rest, |line|;
    OrdinaryLine(s, w);
    ShortUpTo(line[..n - 1]);
    forall k | 0 <= k < n
      ensures |Expand(line[..k])| < 80
    {
      assert line[..n - 1][..k] == line[..k];
    }
    LaysOut(s, w, line, n);
    assert line[..n] == line;
    assert w[n..] == x + e + rest;
    LineEndIs(w, n, x, e, rest);
    LaidHere(s, w, n, |Expand(line)|, CardOf(s, Expand(line)));
  }

  /** Printable characters. */
  predicate Printable(a: seq<byte>) {
    forall k :: 0 <= k < |a| ==> 32 <= a[k] < 127
  }

  lemma {:induction false} ExpandPrintable(line: seq<byte>, a: seq<byte>)
    requires Printable(a)
    ensures Expand(line + a) == Expand(line) + a
    decreases |a|
  {
    hide Expand;
    if a == [] {
      assert line + a == line && Expand(line) + a == Expand(line);
    } else {
      var b, c := a[..|a| - 1], a[|a| - 1];
      ExpandPrintable(line, b);
      ExpandNext(line + b, c);
      assert a == b + [c];
      assert line + a == line + b + [c];
      assert Expand(line) + a == Expand(line) + b + [c];
    }
  }

  lemma GapWidth(n: nat, stop: nat)
    requires stop % 8 == 0 && n < stop <= n + 8
    ensures 8 - n % 8 == stop - n
  {
    var q := stop / 8;
    assert stop == 8 * q;
  }

  lemma TabExpands(a: seq<byte>, b: seq<byte>, stop: nat)
    requires Printable(a) && Printable(b) && stop % 8 == 0 && |a| < stop <= |a| + 8
    ensures Expand(a + [9] + b) == a + Blank(stop - |a|) + b
  {
    ExpandPrintable([], a);
    ExpandNext(a, 9);
    ExpandPrintable(a + [9], b);
    GapWidth(|a|, stop);
    assert Expand([]) == [];
    hide Expand, Blank;
    assert [] + a == a;
  }

  lemma PrintableHasCode(s: Setup, c: byte)
    requires 32 <= c < 127
    ensures CodeOf(s, c) < 0x1000 && (c == 32 ==> CodeOf(s, c) == 0)
  {
    hide Table;
    TableIsCoded(s.code);
    CodeIsTaken(s, c);
    assert Sound(Taken(s, c), Table(s.code)[Taken(s, c)]);
  }

  lemma CardOfPrintable(s: Setup, e: seq<byte>)
    requires Printable(e)
    ensures forall k :: 0 <= k < 80 ==> CardOf(s, e)[k] == if k < |e| then CodeOf(s, e[k]) else 0
    ensures forall k :: 0 <= k < |e| && e[k] == 32 ==> CodeOf(s, e[k]) == 0
  {
    forall k | 0 <= k < |e|
      ensures CodeOf(s, e[k]) < 0x1000 && (e[k] == 32 ==> CodeOf(s, e[k]) == 0)
    {
      PrintableHasCode(s, e[k]);
    }
    hide CodeOf;
    assert !Uncoded(s, e);
    hide Uncoded;
  }

  /** The columns of two pieces of text with a gap up to column `stop` between them. */
  function Gapped(s: Setup, a: seq<byte>, b: seq<byte>, stop: nat, k: nat): uint16 {
    if k < |a| then CodeOf(s, a[k])
    else if k < stop then 0
    else if k < stop + |b| then CodeOf(s, b[k - stop])
    else 0
  }

  /** What is behind a tab begins in the next column with a multiple of eight columns before it. */
  lemma TabbedLineReads(s: Setup, a: seq<byte>, b: seq<byte>, rest: seq<byte>, stop: nat)
    requires Printable(a) && Printable(b) && (a != [] ==> a[0] != 126)
    requires stop % 8 == 0 && |a| < stop <= |a| + 8 && stop + |b| < 80
    ensures var card: Card := seq(80, k requires 0 <= k < 80 => Gapped(s, a, b, stop, k));
      ParseText(s, a + [9] + b + [10] + rest) == Read(card, |a| + |b| + 2)
  {
    hide CodeOf, Expand, ParseText, CardOf;
    var line, e := a + [9] + b, a + Blank(stop - |a|) + b;
    TabExpands(a, b, stop);
    assert Ordinary(line + [10] + rest) by {
      assert (line + [10] + rest)[0] == if a == [] then 9 else a[0];
    }
    LineReads(s, line, rest);
    assert a + [9] + b + [10] + rest == line + [10] + rest;
    CardOfPrintable(s, e);
    var card: Card := seq(80, k requires 0 <= k < 80 => Gapped(s, a, b, stop, k));
    assert CardOf(s, e) == card;
  }

  // ----- special cards -----

  /** The punches of a special card by the first three letters of its name. */
  predicate SpecialName(a: byte, b: byte, c: byte, punches: uint16) {
    || ((a, b, c) == (101, 111, 114) && punches == 0x007)
    || ((a, b, c) == (101, 111, 102) && punches == 0x00D)
    || ((a, b, c) == (101, 111, 105) && punches == 0x00F)
    || ((a, b, c) == (55, 56, 0) && punches == 0x006)
  }

  /** A special card has its punches in the first column, whatever else is on its line. */
  lemma SpecialReads(s: Setup, line: seq<byte>, e: seq<byte>, rest: seq<byte>, a: byte, b: byte, c: byte,
                     punches: uint16)
    requires HasName(line, a, b, c) && SpecialName(a, b, c, punches) && Unended(line) && Ending(e, rest)
    ensures ParseText(s, line + e + rest) == Read(BlankCard()[0 := punches], |line| + |e|)
  {
    var w := line + e + rest;
    assert w[0] == line[0] && w[1] == line[1] && w[2] == line[2] && w[3] == line[3];
    NameIs(w);
    var at := if punches == 0x006 then 3 else 4;
    assert w[at..] == line[at..] + e + rest;
    LineEndIs(w, at, line[at..], e, rest);
    hide TextColumns, RawColumns, LineEnd;
    assert OnlyBlanks(w, 1, 1) == Letters;
  }

  /** A tilde and blanks are the end of the file. The line behind it is skipped, too. */
  lemma {:induction false} BlanksFollow(w: seq<byte>, i: nat, n: nat, col: nat)
    requires i <= n < |w| && w[n] == 10 && col < 80 && forall k :: i <= k < n ==> w[k] == 32
    ensures OnlyBlanks(w, i, col) == Blanks(n + 1)
    decreases n - i
  {
    if i < n {
      BlanksFollow(w, i + 1, n, col);
    }
  }

  lemma EndOfFileReads(s: Setup, n: nat, x: seq<byte>, e: seq<byte>, rest: seq<byte>)
    requires Unended(x) && Ending(e, rest)
    ensures ParseText(s, [126] + Blank(n) + [10] + x + e + rest) == Read(BlankCard()[0 := 0x1000], n + 2 + |x| + |e|)
  {
    var w := [126] + Blank(n) + [10] + x + e + rest;
    assert w[n + 1] == 10;
    assert forall k :: 1 <= k < n + 1 ==> w[k] == Blank(n)[k - 1];
    BlanksFollow(w, 1, n + 1, 1);
    assert w[n + 2..] == x + e + rest;
    LineEndIs(w, n + 2, x, e, rest);
    hide LineEnd, ParseNamed;
  }

  // ----- octal digits -----

  /** The number that octal digits stand for. */
  function Octal(d: seq<byte>): int {
    if d == [] then 0
    else
      var last: int := d[|d| - 1];
      Octal(d[..|d| - 1]) * 8 + last - 48
  }

  predicate AllDigits(d: seq<byte>) {
    forall k :: 0 <= k < |d| ==> 48 <= d[k] <= 55
  }

  /** The digits of column `k`, four if there are that many. */
  function Group(d: seq<byte>, k: nat): seq<byte> {
    d[Min(4 * k, |d|)..Min(4 * k + 4, |d|)]
  }

  lemma OctalNext(d: seq<byte>, c: byte)
    ensures var digit: int := c; Octal(d + [c]) == Octal(d) * 8 + digit - 48
  {
    assert (d + [c])[..|d|] == d;
  }

  lemma {:induction false} OctalBound(d: seq<byte>)
    requires AllDigits(d) && |d| <= 4
    ensures 0 <= Octal(d) < 0x1000 && (|d| < 4 ==> Octal(d) < 0x200)
    ensures |d| < 3 ==> Octal(d) < 0x40
    ensures |d| < 2 ==> Octal(d) < 0x8
  {
    if d != [] {
      OctalBound(d[..|d| - 1]);
    }
  }

  /** The card that digits make up. */
  function OctalCardOf(d: seq<byte>): Card
    requires AllDigits(d)
  {
    seq(80, k requires 0 <= k < 80 => OctalColumn(d, k))
  }

  function OctalColumn(d: seq<byte>, k: nat): uint16
    requires AllDigits(d)
  {
    OctalBound(Group(d, k));
    Octal(Group(d, k))
  }

  lemma GroupGrows(d: seq<byte>, c: byte, k: nat)
    ensures k != |d| / 4 ==> Group(d + [c], k) == Group(d, k)
    ensures k == |d| / 4 ==> Group(d + [c], k) == Group(d, k) + [c] && |Group(d, k)| < 4
  {
    var all, q := d + [c], |d| / 4;
    assert 4 * q <= |d| < 4 * q + 4;
  }

  lemma DigitColumn(column: uint16, c: byte)
    requires column < 0x200 && 48 <= c <= 55
    ensures var digit: int := c; (column * 8 + (c - 48)) % 0x1_0000 == column * 8 + digit - 48
  {
  }

  lemma ColumnGrows(d: seq<byte>, c: byte, k: nat)
    requires AllDigits(d) && AllDigits(d + [c]) && 48 <= c <= 55
    ensures k != |d| / 4 ==> OctalColumn(d + [c], k) == OctalColumn(d, k)
    ensures var digit: int, before: int := c, OctalColumn(d, k);
      k == |d| / 4 ==> OctalColumn(d + [c], k) == (before * 8 + (digit - 48)) % 0x1_0000
  {
    GroupGrows(d, c, k);
    if k == |d| / 4 {
      OctalNext(Group(d, k), c);
      OctalBound(Group(d, k));
      hide Octal, Group;
      DigitColumn(OctalColumn(d, k), c);
    }
  }

  /** A further digit goes into the column of its group. */
  lemma DigitCard(d: seq<byte>, c: byte)
    requires AllDigits(d + [c]) && |d| < 320
    ensures AllDigits(d) && 48 <= c <= 55
    ensures OctalCardOf(d + [c]) == WithDigit(OctalCardOf(d), |d| / 4, c)
  {
    var all, col := d + [c], |d| / 4;
    assert forall k :: 0 <= k < |d| ==> all[k] == d[k];
    assert all[|d|] == c;
    hide OctalColumn;
    forall k: nat
      ensures k != col ==> OctalColumn(all, k) == OctalColumn(d, k)
    {
      ColumnGrows(d, c, k);
    }
    ColumnGrows(d, c, col);
  }

  lemma NoDigits()
    ensures OctalCardOf([]) == BlankCard()
  {
    assert forall k: nat :: Group([], k) == [];
    hide Group;
  }

  lemma {:induction false} RawLaysOut(w: seq<byte>, d: seq<byte>, n: nat)
    requires |w| >= 4 + |d| && w[4..4 + |d|] == d && AllDigits(d) && n <= |d| <= 320
    ensures RawColumns(w, 4, 0, 0, BlankCard()) == RawColumns(w, 4 + n, n / 4, n % 4, OctalCardOf(d[..n]))
  {
    hide OctalCardOf, WithDigit, BlankCard;
    if n == 0 {
      NoDigits();
      assert d[..0] == [];
    } else {
      var c, before := d[n - 1], d[..n - 1];
      assert w[4 + n - 1] == w[4..4 + |d|][n - 1];
      assert d[..n] == before + [c];
      DigitCard(before, c);
      NextDigit(n - 1);
      assert (n - 1) / 4 < 80;
      assert RawColumns(w, 4 + (n - 1), (n - 1) / 4, (n - 1) % 4, OctalCardOf(before)) ==
        RawColumns(w, 4 + n, n / 4, n % 4, OctalCardOf(d[..n]));
      hide RawColumns;
      RawLaysOut(w, d, n - 1);
    }
  }

  lemma NextDigit(n: nat)
    ensures (n + 1) / 4 == if n % 4 == 3 then n / 4 + 1 else n / 4
    ensures (n + 1) % 4 == if n % 4 == 3 then 0 else n % 4 + 1
  {
  }

  /**
   * A line of octal digits has four to a column. Anything else among them is an error, which takes
   * the place of the first column; behind the last column it is skipped.
   */
  lemma RawReads(s: Setup, head: seq<byte>, d: seq<byte>, y: seq<byte>, e: seq<byte>, rest: seq<byte>)
    requires |head| == 4 && HasName(head, 114, 97, 119) && AllDigits(d) && |d| <= 320
    requires Unended(y) && (|d| < 320 && y != [] ==> !AllDigits(y[..1])) && Ending(e, rest)
    ensures var card := OctalCardOf(d);
      ParseText(s, head + d + y + e + rest) ==
      Read(if |d| < 320 && y != [] then card[0 := 0x2000] else card, 4 + |d| + |y| + |e|)
  {
    var w, n := head + d + y + e + rest, 4 + |d|;
    assert w[0] == head[0] && w[1] == head[1] && w[2] == head[2] && w[3] == head[3];
    NameIs(w);
    assert OnlyBlanks(w, 1, 1) == Letters;
    hide OnlyBlanks, Named, TextColumns, LineEnd, OctalCardOf;
    assert w[4..n] == d;
    RawLaysOut(w, d, |d|);
    assert d[..|d|] == d;
    assert w[n..] == y + e + rest;
    LineEndIs(w, n, y, e, rest);
    assert w[n] == w[n..][0] == if y == [] then e[0] else y[0];
  }

  // ----- decks of lines -----

  /** A file of lines. */
  function LinesOf(lines: seq<seq<byte>>): seq<byte> {
    if lines == [] then [] else lines[0] + [10] + LinesOf(lines[1..])
  }

  function CardsOf(s: Setup, lines: seq<seq<byte>>): seq<Card> {
    seq(|lines|, k requires 0 <= k < |lines| => CardOf(s, Expand(lines[k])))
  }

  /** Lines that leave room on their cards, and do not begin with a tilde. */
  predicate Simple(lines: seq<seq<byte>>) {
    forall k :: 0 <= k < |lines| ==>
      Ascii(lines[k]) && |Expand(lines[k])| < 80 && (lines[k] != [] ==> lines[k][0] != 126)
  }

  /** A file of lines is the deck of their cards. */
  lemma {:induction false} LinesAreCards(s: Setup, lines: seq<seq<byte>>)
    requires (s.format.Text? || s.format.Octal?) && Simple(lines)
    ensures Deck(s, LinesOf(lines)) == CardsOf(s, lines)
  {
    if lines != [] {
      var line, rest := lines[0], LinesOf(lines[1..]);
      LinesAreCards(s, lines[1..]);
      var file := line + [10] + rest;
      assert file[0] == if line == [] then 10 else line[0];
      LineReads(s, line, rest);
      assert file[|line| + 1..] == rest;
      hide Expand, ParseText, CardOf, Ascii;
      assert CardsOf(s, lines) == [CardOf(s, Expand(line))] + CardsOf(s, lines[1..]);
    }
  }

  // ----- what is punched -----

  /** `c` is the last character with the code, or a question mark if there is none. */
  ghost predicate StandsFor(t: seq<uint16>, code: uint16, c: byte)
    requires |t| == 128
  {
    || (c == 63 && forall d :: 0 <= d < 128 ==> t[d] != code)
    || (c < 128 && t[c] == code && forall d :: c < d < 128 ==> t[d] != code)
  }

  /** A card is punched as the characters of its columns, without trailing blanks but for the first. */
  lemma TextPunches(t: seq<uint16>, back: seq<byte>, card: Card)
    requires |t| == 128 && Inverts(back, t, 128) && Plain(card)
    ensures var w := PunchText(back, card);
      var n := |w| - 1;
      && 1 <= n <= 80 && w[n] == 10 && (n > 1 ==> w[n - 1] != 32)
      && forall k :: 0 <= k < 80 ==> StandsFor(t, card[k], if k < n then w[k] else 32)
  {
    var line := Line(back, card);
    forall k | 0 <= k < 80
      ensures StandsFor(t, card[k], line[k])
    {
      assert line[k] == Letter(back, card[k]);
      if back[card[k]] != NO_CHARACTER {
        assert Last(back[card[k]], t, card[k], 128);
      }
    }
    hide StandsFor, Line, Inverts;
  }

  lemma FourOctal(d: seq<byte>)
    requires |d| == 4
    ensures var a: int, b: int, c: int, e: int := d[0], d[1], d[2], d[3];
      Octal(d) == (((a - 48) * 8 + (b - 48)) * 8 + (c - 48)) * 8 + (e - 48)
  {
    assert d == d[..3] + [d[3]] && d[..3] == d[..2] + [d[2]] && d[..2] == d[..1] + [d[1]] && d[..1] == [] + [d[0]];
    OctalNext(d[..3], d[3]);
    OctalNext(d[..2], d[2]);
    OctalNext(d[..1], d[1]);
    OctalNext([], d[0]);
  }

  lemma DigitsAt(card: Card, k: nat)
    requires k < 80
    ensures var column: int := card[k];
      Digits(card)[4 * k..4 * k + 4] ==
      [48 + column / 512 % 8, 48 + column / 64 % 8, 48 + column / 8 % 8, 48 + column % 8]
  {
    var column: int := card[k];
    assert Digit(card, 4 * k) == 48 + column / 512 % 8;
    assert Digit(card, 4 * k + 1) == 48 + column / 64 % 8;
    assert Digit(card, 4 * k + 2) == 48 + column / 8 % 8;
    assert Digit(card, 4 * k + 3) == 48 + column % 8;
    hide Digit;
  }

  /** The digits of a column are those of its twelve rows. */
  lemma DigitsStandFor(card: Card, k: nat)
    requires k < 80
    ensures var d := Digits(card)[4 * k..4 * k + 4];
      AllDigits(d) && Octal(d) == card[k] % 0x1000
  {
    hide Digits, Digit, Octal;
    var column: int := card[k];
    DigitsAt(card, k);
    FourOctal(Digits(card)[4 * k..4 * k + 4]);
    RowDigits(column);
    OctalDigits(column % 0x1000);
  }

  lemma RowDigits(column: nat)
    ensures var x := column % 0x1000;
      && column / 512 % 8 == x / 512 % 8 && column / 64 % 8 == x / 64 % 8
      && column / 8 % 8 == x / 8 % 8 && column % 8 == x % 8
  {
    var q, x := column / 0x1000, column % 0x1000;
    assert column == 0x1000 * q + x;
    MultipleAdded(x, 8 * q, 512);
    MultipleAdded(x, 64 * q, 64);
    MultipleAdded(x, 512 * q, 8);
    Eights(x / 512, q);
    Eights(x / 64, 8 * q);
    Eights(x / 8, 64 * q);
    Eights(x, 512 * q);
  }

  lemma Eights(x: nat, q: nat)
    ensures (x + 8 * q) % 8 == x % 8
  {
  }

  /** A card with only the first column punched is named, or begins like a name. */
  function OctalHead(card: Card): seq<byte> {
    if FirstOnly(card) && card[0] != 0 then [126, 101, 111, 114, 97, 119] else [126, 114, 97, 119]
  }

  /** The digits of column `k` behind the `n` bytes in front of them. */
  function DigitsBehind(w: seq<byte>, n: nat, k: nat): seq<byte>
    requires k < 80 && n + 320 <= |w|
  {
    w[n + 4 * k..n + 4 * k + 4]
  }

  /** A card is punched by its name if it has one, or with the octal digits of all its columns. */
  lemma OctalPunches(card: Card)
    ensures FirstOnly(card) && card[0] == 0x007 ==> PunchOctal(card) == [126, 101, 111, 114, 10]
    ensures FirstOnly(card) && (card[0] == 0x00D || card[0] == 0x00F) ==> PunchOctal(card) == [126, 101, 111, 102, 10]
    ensures !(FirstOnly(card) && card[0] in {0x007, 0x00D, 0x00F}) ==>
      var w, n := PunchOctal(card), |OctalHead(card)|;
      && |w| == n + 321 && w[..n] == OctalHead(card) && w[n + 320] == 10
      && forall k :: 0 <= k < 80 ==>
           AllDigits(DigitsBehind(w, n, k)) && Octal(DigitsBehind(w, n, k)) == card[k] % 0x1000
  {
    var w, h := PunchOctal(card), OctalHead(card);
    if !(FirstOnly(card) && card[0] in {0x007, 0x00D, 0x00F}) {
      hide Digits, Octal, AllDigits;
      assert w == h + Digits(card) + [10];
      forall k | 0 <= k < 80
        ensures var d := DigitsBehind(w, |h|, k); AllDigits(d) && Octal(d) == card[k] % 0x1000
      {
        assert DigitsBehind(w, |h|, k) == Digits(card)[4 * k..4 * k + 4];
        DigitsStandFor(card, k);
      }
    }
  }

  // ----- the codes of letters and digits -----

  /** A digit has its own row, from row 0 down; a letter has a zone and a digit. */
  predicate Alphanumeric(d: nat, t: seq<uint16>)
    requires d < 10 && |t| == 128
  {
    && t[48 + d] == [0x200, 0x100, 0x080, 0x040, 0x020, 0x010, 0x008, 0x004, 0x002, 0x001][d]
    && (1 <= d ==> t[64 + d] == 0x800 + t[48 + d] && t[96 + d] == 0xA00 + t[48 + d])
    && (1 <= d ==> t[73 + d] == 0x400 + t[48 + d] && t[105 + d] == 0xC00 + t[48 + d])
    && (2 <= d ==> t[81 + d] == 0x200 + t[48 + d] && t[113 + d] == 0x600 + t[48 + d])
  }

  lemma Alphanumeric026(d: nat, t: seq<uint16>)
    requires d < 10 && |t| == 128 && forall c :: 0 <= c < 128 ==> t[c] == Hollerith026(c)
    ensures Alphanumeric(d, t)
  {
    match d
    case 0 =>
    case 1 =>
    case 2 =>
    case 3 =>
    case 4 =>
    case 5 =>
    case 6 =>
    case 7 =>
    case 8 =>
    case _ =>
  }

  lemma Alphanumeric029(d: nat, t: seq<uint16>)
    requires d < 10 && |t| == 128 && forall c :: 0 <= c < 128 ==> t[c] == Hollerith029(c)
    ensures Alphanumeric(d, t)
  {
    match d
    case 0 =>
    case 1 =>
    case 2 =>
    case 3 =>
    case 4 =>
    case 5 =>
    case 6 =>
    case 7 =>
    case 8 =>
    case _ =>
  }

  lemma AlphanumericDec029(d: nat, t: seq<uint16>)
    requires d < 10 && |t| == 128 && forall c :: 0 <= c < 128 ==> t[c] == Dec029(c)
    ensures Alphanumeric(d, t)
  {
    match d
    case 0 =>
    case 1 =>
    case 2 =>
    case 3 =>
    case 4 =>
    case 5 =>
    case 6 =>
    case 7 =>
    case 8 =>
    case _ =>
  }

  lemma LettersAndDigits(code: Code, d: nat)
    requires d < 10
    ensures Alphanumeric(d, Table(code))
  {
    hide Hollerith026, Hollerith029, Dec029, Alphanumeric;
    match code
    case Code026 => Alphanumeric026(d, Table(code));
    case Code029 => Alphanumeric029(d, Table(code));
    case CodeDec029 => AlphanumericDec029(d, Table(code));
  }
}
