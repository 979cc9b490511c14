/** Punching cards onto a file. */
module CardPunches {
  import opened Bytes
  import opened CardCodes
  import opened Cards
  import opened CardLines
  import opened CardDecks
  import opened CardReader

  // ----- the bytes of one card, in a buffer of 512 -----

  /** A line of text without its trailing blanks. */
  method WriteText(image: array<uint16>, back: array<byte>, out: array<byte>) returns (outp: nat)
    requires image.Length == 80 && back.Length == 0x1000 && out.Length == 512 && out != back
    requires (out as object) != image && Plain(image[..])
    modifies out
    ensures outp <= 512 && out[..outp] == PunchText(back[..], image[..])
  {
    ghost var line := Line(back[..], image[..]);
    outp := 0;
    while outp < 80
      invariant outp <= 80 && back[..] == old(back[..])
      invariant forall k :: 0 <= k < outp ==> out[k] == line[k]
    {
      out[outp] := back[image[outp]];
      if out[outp] == NO_CHARACTER {
        out[outp] := 63;
      }
      outp := outp + 1;
    }
    outp := outp - 1;
    while outp > 0 && out[outp] == SPACE
      invariant 0 <= outp < 80 && out[..80] == line
      invariant TrimmedLength(line, 80) == TrimmedLength(line, outp + 1)
    {
      outp := outp - 1;
    }
    outp := outp + 1;
    out[outp] := LF;
    assert out[..outp] == line[..outp];
    outp := outp + 1;
  }

  /** Nothing but the first column, if that, is punched when no other column up to `i` is. */
  method LastPunched(image: array<uint16>) returns (i: int)
    requires image.Length == 80
    ensures -1 <= i < 80 && (i >= 0 ==> image[i] != 0)
    ensures forall k :: i < k < 80 ==> image[k] == 0
  {
    i := 79;
    while i >= 0
      invariant -1 <= i < 80 && forall k :: i < k < 80 ==> image[k] == 0
    {
      if image[i] != 0 {
        break;
      }
      i := i - 1;
    }
  }

  method Append(out: array<byte>, outp: nat, s: seq<byte>) returns (n: nat)
    requires outp + |s| <= out.Length
    modifies out
    ensures n == outp + |s| && out[..n] == old(out[..outp]) + s
  {
    forall k | outp <= k < outp + |s| {
      out[k] := s[k - outp];
    }
    n := outp + |s|;
  }

  /** The octal digits of every column. */
  method WriteDigits(image: array<uint16>, out: array<byte>, start: nat) returns (outp: nat)
    requires image.Length == 80 && start + 320 <= out.Length && (out as object) != image
    modifies out
    ensures outp == start + 320 && out[..outp] == old(out[..start]) + Digits(image[..])
  {
    ghost var card := image[..];
    outp := start;
    for i := 0 to 80
      invariant outp == start + 4 * i && image[..] == card
      invariant out[..outp] == old(out[..start]) + Digits(card)[..4 * i]
    {
      var column: int := image[i];
      DigitsOf(card, i);
      outp := Append(out, outp, [48 + column / 512 % 8, 48 + column / 64 % 8, 48 + column / 8 % 8, 48 + column % 8]);
    }
  }

  lemma DigitsOf(card: Card, i: nat)
    requires i < 80
    ensures var x: int := card[i];
      Digits(card)[..4 * (i + 1)] ==
      Digits(card)[..4 * i] + [48 + x / 512 % 8, 48 + x / 64 % 8, 48 + x / 8 % 8, 48 + x % 8]
  {
    var x: int := card[i];
    assert Digit(card, 4 * i) == 48 + x / 512 % 8;
    assert Digit(card, 4 * i + 1) == 48 + x / 64 % 8;
    assert Digit(card, 4 * i + 2) == 48 + x / 8 % 8;
    assert Digit(card, 4 * i + 3) == 48 + x % 8;
  }

  /** A name for a few special cards; digits for the others. */
  method WriteOctal(image: array<uint16>, out: array<byte>) returns (outp: nat)
    requires image.Length == 80 && out.Length == 512 && (out as object) != image
    modifies out
    ensures outp <= 512 && out[..outp] == PunchOctal(image[..])
  {
    hide Digits;
    ghost var card := image[..];
    outp := Append(out, 0, [TILDE]);
    var i := LastPunched(image);
    assert FirstOnly(card) <==> i <= 0;
    hide FirstOnly;
    if i == 0 {
      outp := Append(out, outp, [101, 111]);
      if image[0] == 0x7 {
        outp := Append(out, outp, [114, LF]);
        return;
      }
      if image[0] == 0xD {
        outp := Append(out, outp, [102, LF]);
        return;
      }
      if image[0] == 0xF {
        outp := Append(out, outp, [102, LF]);
        return;
      }
    }
    outp := WriteRaw(image, out, outp);
  }

  /** The digits of a card, with their name in front and the end of the line behind. */
  method WriteRaw(image: array<uint16>, out: array<byte>, start: nat) returns (outp: nat)
    requires image.Length == 80 && start + 324 <= out.Length && (out as object) != image
    modifies out
    ensures outp == start + 324 && out[..outp] == old(out[..start]) + RAW + Digits(image[..]) + [LF]
  {
    hide Digits;
    outp := Append(out, start, RAW);
    outp := WriteDigits(image, out, outp);
    outp := Append(out, outp, [LF]);
  }

  method WriteBinary(image: array<uint16>, out: array<byte>) returns (outp: nat)
    requires image.Length == 80 && out.Length == 512 && (out as object) != image
    modifies out
    ensures outp <= 512 && out[..outp] == PunchBinary(image[..])
  {
    ghost var card := image[..];
    outp := 0;
    for i := 0 to 80
      invariant outp == 2 * i && image[..] == card
      invariant forall k :: 0 <= k < outp ==> out[k] == BinaryByte(card, k)
    {
      var column: int := image[i];
      out[outp] := column % 16 * 16;
      outp := outp + 1;
      out[outp] := column / 16 % 256;
      outp := outp + 1;
    }
  }

  method WriteColumnBinary(image: array<uint16>, out: array<byte>) returns (outp: nat)
    requires image.Length == 80 && out.Length == 512 && (out as object) != image
    modifies out
    ensures outp <= 512 && out[..outp] == PunchColumnBinary(image[..])
  {
    hide Parity, Checked;
    ghost var card := image[..];
    outp := 0;
    for i := 0 to 80
      invariant outp == 2 * i && image[..] == card
      invariant forall k :: 0 <= k < outp ==> out[k] == HalfOf(card, k)
    {
      var column: int := image[i];
      out[outp] := column / 64 % 64;
      outp := outp + 1;
      out[outp] := column % 64;
      outp := outp + 1;
    }
    hide HalfOf;
    for i := 0 to 160
      invariant forall k :: 0 <= k < i ==> out[k] == Checked(HalfOf(card, k))
      invariant forall k :: i <= k < 160 ==> out[k] == HalfOf(card, k)
    {
      CheckedIsByte(out[i]);
      out[i] := Checked(out[i]);
    }
    CheckedIsByte(HalfOf(card, 0));
    out[0] := out[0] + 0x80;
  }

  lemma CheckedIsByte(c: nat)
    requires c < 64
    ensures Checked(c) < 0x80
  {
    ParityValue(c);
  }

  // ----- the punch -----

  class CardPunch {
    const setup: Setup
    const back: array<byte>
    var file: seq<byte>
    var punched: nat

    ghost predicate Valid()
      reads this, back
    {
      Inverts(back[..], Table(setup.code), 128)
    }

    /** Attaching the punch works out the characters of the codes. */
    constructor (setup: Setup)
      ensures Valid() && this.setup == setup && fresh(back) && file == [] && punched == 0
    {
      this.setup := setup;
      back := new byte[0x1000];
      file, punched := [], 0;
      new;
      Invert(Table(setup.code), back);
    }

    /** Adds a card to the file and clears it. In text it takes twelve rows to a column. */
    method PunchCard(image: array<uint16>)
      requires Valid() && image.Length == 80 && (back as object) != image
      requires setup.format.Text? ==> Plain(image[..])
      modifies this`file, this`punched, image
      ensures Valid()
      ensures file == old(file) + Punch(setup, back[..], old(image[..])) && punched == old(punched) + 1
      ensures image[..] == BlankCard()
    {
      ghost var codes, card := back[..], image[..];
      ghost var p := Punch(setup, codes, card);
      hide Inverts, Table, PunchText, PunchOctal, PunchBinary, PunchColumnBinary, Plain, BlankCard;
      var out := new byte[512];
      var outp: nat;
      match setup.format {
        case Text => outp := WriteText(image, back, out);
        case Octal => outp := WriteOctal(image, out);
        case Binary => outp := WriteBinary(image, out);
        case ColumnBinary => outp := WriteColumnBinary(image, out);
      }
      assert back[..] == codes && image[..] == card;
      assert out[..outp] == p;
      punched := punched + 1;
      file := file + out[..outp];
      Clear(image);
      assert back[..] == codes;
    }
  }

  lemma {:induction false} WrittenAppend(s: Setup, back: seq<byte>, cards: seq<Card>, card: Card)
    requires |back| == 0x1000 && Plain(card) && forall k :: 0 <= k < |cards| ==> Plain(cards[k])
    ensures Written(s, back, cards + [card]) == Written(s, back, cards) + Punch(s, back, card)
  {
    hide Punch, Plain;
    var more := cards + [card];
    assert forall k :: 0 <= k < |more| ==> Plain(more[k]);
    if cards == [] {
      assert more[1..] == [];
    } else {
      assert more[1..] == cards[1..] + [card];
      WrittenAppend(s, back, cards[1..], card);
    }
  }

  predicate AllPlain(cards: seq<Card>) {
    forall k :: 0 <= k < |cards| ==> Plain(cards[k])
  }

  lemma WrittenNext(s: Setup, back: seq<byte>, cards: seq<Card>, n: nat)
    requires |back| == 0x1000 && n < |cards| && forall k :: 0 <= k < |cards| ==> Plain(cards[k])
    ensures AllPlain(cards[..n]) && AllPlain(cards[..n + 1])
    ensures Written(s, back, cards[..n + 1]) == Written(s, back, cards[..n]) + Punch(s, back, cards[n])
  {
    hide Punch, Plain, Written;
    WrittenAppend(s, back, cards[..n], cards[n]);
    assert cards[..n + 1] == cards[..n] + [cards[n]];
  }

  /** Punches one card of a deck. */
  method PunchNext(punch: CardPunch, card: Card)
    requires punch.Valid() && Plain(card)
    modifies punch
    ensures punch.Valid() && punch.back[..] == old(punch.back[..])
    ensures punch.file == old(punch.file) + Punch(punch.setup, punch.back[..], card)
  {
    hide Inverts, Table, Plain, Punch;
    var image := new uint16[80](k requires 0 <= k < 80 => card[k]);
    assert image[..] == card;
    punch.PunchCard(image);
  }

  /** Punches a deck onto an empty file. */
  method PunchDeck(punch: CardPunch, cards: seq<Card>)
    requires punch.Valid() && punch.file == [] && forall k :: 0 <= k < |cards| ==> Plain(cards[k])
    modifies punch
    ensures punch.Valid() && punch.file == Written(punch.setup, punch.back[..], cards)
  {
    ghost var s, back := punch.setup, punch.back[..];
    assert |back| == 0x1000;
    assert cards[..0] == [] && Written(s, back, []) == [];
    hide Inverts, Table, Plain, Punch, Written;
    var n := 0;
    while n < |cards|
      invariant n <= |cards| && punch.Valid() && punch.back[..] == back
      invariant AllPlain(cards[..n])
      invariant punch.file == Written(s, back, cards[..n])
    {
      WrittenNext(s, back, cards, n);
      PunchNext(punch, cards[n]);
      n := n + 1;
    }
    assert cards[..n] == cards;
  }

  /** Punches a deck and puts the file into the hopper of a reader: the same cards come out. */
  method CopyDeck(punch: CardPunch, hopper: Hopper, cards: seq<Card>) returns (ok: bool)
    requires punch.Valid() && punch.file == [] && hopper.setup == punch.setup && cards != []
    requires forall k :: 0 <= k < |cards| ==> Plain(cards[k]) && Kept(punch.setup, punch.back[..], cards[k])
    modifies punch, hopper
    ensures ok && hopper.cards == old(hopper.cards) + cards
  {
    ghost var back := punch.back[..];
    hide Kept, Inverts, Table, Plain, Punch, Readable;
    DeckRoundTrip(punch.setup, back, cards);
    PunchDeck(punch, cards);
    assert punch.back[..] == back;
    ok := hopper.ReadDeck(punch.file, false);
  }
}
