/** Decks of cards: what punching them writes, and what reading a file through a window gives. */
module CardDecks {
  import opened Bytes
  import opened CardCodes
  import opened Cards
  import opened CardLines

  function Punch(s: Setup, back: seq<byte>, card: Card): (w: seq<byte>)
    requires |back| == 0x1000 && (s.format.Text? ==> Plain(card))
    ensures 1 <= |w| <= 327
  {
    match s.format
    case Text => PunchText(back, card)
    case Octal => PunchOctal(card)
    case Binary => PunchBinary(card)
    case ColumnBinary => PunchColumnBinary(card)
  }

  /** The cards a format can hold. */
  predicate Kept(s: Setup, back: seq<byte>, card: Card)
    requires |back| == 0x1000
  {
    Plain(card) &&
    match s.format
    case Text => Writable(s, back, card) && !Special(PunchText(back, card)[..|PunchText(back, card)| - 1])
    case Octal => OctalCard(card)
    case Binary => true
    case ColumnBinary => true
  }

  /** A card that its format can hold is read back from what is punched for it. */
  lemma PunchedIsRead(s: Setup, back: seq<byte>, card: Card, w: seq<byte>)
    requires |back| == 0x1000 && Inverts(back, Table(s.code), 128) && Kept(s, back, card)
    requires Punch(s, back, card) <= w
    requires s.format.ColumnBinary? && |w| > 160 ==> Mark(w[160])
    ensures Parse(s, w) == Read(card, |Punch(s, back, card)|)
  {
    hide PunchText, PunchOctal, PunchBinary, PunchColumnBinary, ParseBinary, ParseColumnBinary, ParseText;
    hide Plain, OctalCard, Writable, Special, Inverts, Mark;
    match s.format
    case Text => TextRoundTrip(s, back, card, w);
    case Octal => OctalRoundTrip(s, card, w);
    case Binary => BinaryRoundTrip(card, w);
    case ColumnBinary => ColumnBinaryRoundTrip(card, w);
  }

  // ----- files -----

  /** The deck punched one card after the other. */
  function Written(s: Setup, back: seq<byte>, cards: seq<Card>): seq<byte>
    requires |back| == 0x1000 && forall k :: 0 <= k < |cards| ==> Plain(cards[k])
  {
    if cards == [] then [] else Punch(s, back, cards[0]) + Written(s, back, cards[1..])
  }

  /** What of the rest of a file is in the window at least. */
  function Ahead(rest: seq<byte>): (w: seq<byte>)
    ensures w <= rest
  {
    if |rest| <= 500 then rest else rest[..500]
  }

  /** Every card of the file is complete, and shorter than what the window holds ahead. */
  predicate Readable(s: Setup, file: seq<byte>)
    decreases |file|
  {
    file == [] ||
    (var o := Parse(s, Ahead(file));
     o.Read? && (o.size < 500 || o.size == |file|) && Readable(s, file[o.size..]))
  }

  /** The cards of a file, each parsed from the whole rest of it: there is no window here. */
  function Deck(s: Setup, file: seq<byte>): seq<Card>
    decreases |file|
  {
    if file == [] then []
    else
      match Parse(s, file)
      case Read(card, size) => [card] + Deck(s, file[size..])
      case _ => []
  }

  /** A window onto the rest of a file, of 500 bytes or all there is, shows its next card. */
  lemma WindowShowsCard(s: Setup, rest: seq<byte>, w: seq<byte>)
    requires rest != [] && Readable(s, rest)
    requires w <= rest && (|w| >= 500 || w == rest)
    ensures Parse(s, w) == Parse(s, rest) == Parse(s, Ahead(rest))
    ensures Parse(s, w).Read? && Readable(s, rest[Parse(s, w).size..])
    ensures Deck(s, rest) == [Parse(s, w).card] + Deck(s, rest[Parse(s, w).size..])
    ensures Parse(s, w).size < |w| || w == rest
  {
    hide Parse;
    var a := Ahead(rest);
    if |rest| > 500 {
      assert rest == a + rest[500..];
      WindowDoesNotShow(s, a, rest[500..]);
      assert w == a + w[500..];
      WindowDoesNotShow(s, a, w[500..]);
    }
  }

  lemma NextIsMarked(s: Setup, back: seq<byte>, cards: seq<Card>)
    requires |back| == 0x1000 && forall k :: 0 <= k < |cards| ==> Plain(cards[k])
    requires s.format.ColumnBinary? && Written(s, back, cards) != []
    ensures Mark(Written(s, back, cards)[0])
  {
    assert Written(s, back, cards)[0] == PunchColumnBinary(cards[0])[0] == RecordByte(cards[0], 0);
    ParityValue(HalfOf(cards[0], 0));
  }

  /** A card punched in front of a readable file is its first. */
  lemma CardInFront(s: Setup, back: seq<byte>, card: Card, rest: seq<byte>)
    requires |back| == 0x1000 && Inverts(back, Table(s.code), 128) && Kept(s, back, card) && Plain(card)
    requires Readable(s, rest) && (s.format.ColumnBinary? && rest != [] ==> Mark(rest[0]))
    ensures var file := Punch(s, back, card) + rest;
      Readable(s, file) && Deck(s, file) == [card] + Deck(s, rest)
  {
    hide Punch, Parse, Kept, Inverts, Mark, Plain, Table;
    var p := Punch(s, back, card);
    var file := p + rest;
    if s.format.ColumnBinary? {
      FirstIsRecord(s, back, card);
    }
    PunchedIsRead(s, back, card, file);
    assert Ahead(file)[..|p|] == p;
    PunchedIsRead(s, back, card, Ahead(file));
    assert file[|p|..] == rest;
  }

  /** A deck whose cards the format can hold survives being punched and read. */
  lemma {:induction false} DeckRoundTrip(s: Setup, back: seq<byte>, cards: seq<Card>)
    requires |back| == 0x1000 && Inverts(back, Table(s.code), 128)
    requires forall k :: 0 <= k < |cards| ==> Plain(cards[k]) && Kept(s, back, cards[k])
    ensures Readable(s, Written(s, back, cards)) && Deck(s, Written(s, back, cards)) == cards
  {
    hide Punch, Parse, Kept, Inverts, Mark, Plain, Table;
    if cards != [] {
      var rest := Written(s, back, cards[1..]);
      DeckRoundTrip(s, back, cards[1..]);
      if s.format.ColumnBinary? && rest != [] {
        NextIsMarked(s, back, cards[1..]);
      }
      CardInFront(s, back, cards[0], rest);
      hide Readable, Deck;
      assert cards == [cards[0]] + cards[1..];
    }
  }

  lemma FirstIsRecord(s: Setup, back: seq<byte>, card: Card)
    requires |back| == 0x1000 && s.format.ColumnBinary?
    ensures |Punch(s, back, card)| == 160
  {
  }
}
