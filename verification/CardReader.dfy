/** Reading a deck: a buffer that slides over the file, and the card at its front. */
module CardReader {
  import opened Bytes
  import opened CardCodes
  import opened Cards
  import opened CardLines
  import opened CardDecks
  import opened CardText

  const ROOM: nat := 8692

  /** The bytes of the file in the buffer are its first `len`. The card last parsed has `size` bytes. */
  class CardBuffer {
    const buffer: array<byte>
    var len: nat
    var size: nat

    constructor ()
      ensures Valid() && fresh(buffer) && len == 0 && size == 0
    {
      buffer := new byte[ROOM];
      len, size := 0, 0;
      new;
      buffer[0] := 0;
    }

    ghost predicate Valid()
      reads this
    {
      buffer.Length == ROOM && len < ROOM
    }

    ghost function Window(): (w: seq<byte>)
      requires Valid()
      reads this, buffer
      ensures |w| == len
    {
      buffer[..len]
    }

    /** Reads the next bytes of the file behind those there are. */
    method Fill(rest: seq<byte>) returns (n: nat)
      requires Valid() && len < 500
      modifies this`len, buffer
      ensures n == Min(8192, |rest|)
      ensures Valid() && Window() == old(Window()) + rest[..n]
    {
      n := Min(8192, |rest|);
      var at := len;
      forall i | at <= i < at + n {
        buffer[i] := rest[i - at];
      }
      len := at + n;
      assert Window() == old(Window()) + rest[..n];
    }

    /** Moves what follows the card to the front. */
    method Advance()
      requires Valid() && size <= len
      modifies this`len, buffer
      ensures Valid() && Window() == old(Window())[size..]
    {
      var l := len - size;
      var i, j := 0, size;
      while i < l
        invariant i <= l && j == size + i
        invariant forall k :: 0 <= k < i ==> buffer[k] == old(buffer[size + k])
        invariant forall k :: i <= k < buffer.Length ==> buffer[k] == old(buffer[k])
      {
        buffer[i] := buffer[j];
        i := i + 1;
        j := j + 1;
      }
      buffer[i] := 0;
      len := l;
      forall k | 0 <= k < l
        ensures Window()[k] == old(Window())[size..][k]
      {
        assert buffer[k] == old(buffer[size + k]);
      }
    }
  }

  // ----- binary -----

  /** Takes a card of 160 bytes apart. */
  method ReadBinary(buffer: array<byte>, len: nat, image: array<uint16>) returns (ok: bool, size: nat)
    requires len <= buffer.Length && image.Length == 80 && image[..] == BlankCard()
    modifies image
    ensures !ok ==> ParseBinary(buffer[..len]) == Short && image[..] == BlankCard()[0 := 0x2000]
    ensures ok ==> ParseBinary(buffer[..len]) == Read(image[..], size)
  {
    if len < 160 {
      image[0] := 0x2000;
      return false, 0;
    }
    ghost var w := buffer[..len];
    hide BinaryColumn;
    var col, i, stray := 0, 0, false;
    while i < 160
      invariant i == 2 * col <= 160
      invariant forall k :: 0 <= k < col ==> image[k] == BinaryColumn(w, k)
      invariant stray <==> StrayBits(w, col)
    {
      image[col] := Column(w, col, buffer[i], buffer[i + 1]);
      stray := stray || buffer[i] % 16 != 0;
      i := i + 2;
      col := col + 1;
    }
    assert image[..] == BinaryColumns(w);
    if stray {
      image[0] := WithError(image[0]);
    }
    ok, size := true, 160;
  }

  /** The high half of one byte and the whole of the other are the rows of a column. */
  function Column(ghost w: seq<byte>, ghost k: nat, low: byte, high: byte): (c: uint16)
    requires 2 * k + 1 < |w| && low == w[2 * k] && high == w[2 * k + 1]
    ensures c == BinaryColumn(w, k)
  {
    var l: int := low;
    var h: int := high;
    l / 16 + h * 16
  }

  // ----- column binary -----

  lemma HighHalf(w: seq<byte>, i: nat)
    requires i < |w| && i < 160 && i % 2 == 0
    ensures var card := RecordCard(w, i);
      RecordCard(w, i + 1) == (if Wrong(w[i]) then Failed(card) else card)[i / 2 := Low6(w[i]) * 64]
  {
    hide Wrong, Low6, WithError;
    var b := w[i];
    assert ParityError(w, i + 1) <==> ParityError(w, i) || (i >= 1 && Wrong(b));
    assert RecordColumns(w, i + 1) == RecordColumns(w, i)[i / 2 := Low6(b) * 64];
    hide ParityError, RecordColumns;
    FailedTwice(RecordColumns(w, i));
  }

  lemma FailedTwice(card: Card)
    ensures Failed(Failed(card)) == Failed(card)
  {
  }

  lemma LowColumn(w: seq<byte>, i: nat)
    requires i < |w| && i < 160 && i % 2 == 1
    ensures var before, k := RecordColumns(w, i), i / 2;
      && before[k] % 64 == 0 && before[k] < 0x1000
      && RecordColumns(w, i + 1) == before[k := before[k] + Low6(w[i])]
  {
    assert 2 * (i / 2) + 1 == i;
  }

  lemma LowHalf(w: seq<byte>, i: nat)
    requires i < |w| && i < 160 && i % 2 == 1
    ensures var card := RecordCard(w, i);
      var flagged := if Wrong(w[i]) then Failed(card) else card;
      && flagged[i / 2] + Low6(w[i]) < 0x1_0000
      && RecordCard(w, i + 1) == flagged[i / 2 := flagged[i / 2] + Low6(w[i])]
  {
    hide Wrong, WithError;
    var b, k := w[i], i / 2;
    assert ParityError(w, i + 1) <==> ParityError(w, i) || Wrong(b);
    LowColumn(w, i);
    var before, now := RecordColumns(w, i), RecordColumns(w, i + 1);
    hide ParityError, RecordColumns;
    FailedTwice(before);
    if k == 0 {
      FlagAndLow(before[0], Low6(b));
    }
  }

  lemma FlagAndLow(c: uint16, low: nat)
    requires c < 0x1000 && c % 64 == 0 && low < 64
    ensures WithError(c) + low < 0x1_0000 && WithError(c + low) == WithError(c) + low
  {
  }

  lemma NothingRead(w: seq<byte>)
    ensures RecordCard(w, 0) == BlankCard()
  {
    assert RecordColumns(w, 0) == BlankCard();
  }

  lemma ClearedByte(a: byte, b: byte)
    requires b == a % 0x80
    ensures !Mark(b) && Low6(b) == Low6(a)
  {
    var x, y: int := a, b;
    assert x % 64 == y % 64;
  }

  /** Clearing the mark of the first byte changes neither where the record ends nor what it says. */
  lemma MarkCleared(w: seq<byte>, cleared: seq<byte>, n: nat)
    requires 0 < |w| == |cleared| && cleared[1..] == w[1..] && cleared[0] == w[0] % 0x80
    requires n <= |w|
    ensures !Mark(cleared[0]) && RecordCard(cleared, n) == RecordCard(w, n)
  {
    ClearedByte(w[0], cleared[0]);
    assert forall k :: 1 <= k < |w| ==> cleared[k] == cleared[1..][k - 1] == w[1..][k - 1] == w[k];
    hide Wrong, Low6, Mark;
    assert forall k :: 0 <= k < n ==> Low6(cleared[k]) == Low6(w[k]);
    assert RecordColumns(cleared, n) == RecordColumns(w, n);
    hide RecordColumns;
    assert ParityError(cleared, n) == ParityError(w, n);
  }

  lemma {:induction false} EndCleared(w: seq<byte>, cleared: seq<byte>, i: nat)
    requires |w| == |cleared| && 1 <= i <= |w| && i <= 160 && cleared[1..] == w[1..]
    ensures RecordEnd(cleared, i) == RecordEnd(w, i)
    decreases 160 - i
  {
    hide Mark;
    if i < 160 && i < |w| {
      assert cleared[i] == cleared[1..][i - 1] == w[1..][i - 1] == w[i];
      if !Mark(w[i]) {
        EndCleared(w, cleared, i + 1);
      }
    }
  }

  /** Reads one half of a column, the six bits of a byte; its parity error is flagged first. */
  method FlagParity(b: byte, image: array<uint16>) returns (c: byte)
    requires image.Length == 80
    modifies image
    ensures c == Low6(b)
    ensures image[..] == if Wrong(b) then Failed(old(image[..])) else old(image[..])
  {
    c := Low6(b);
    if Wrong(b) {
      image[0] := WithError(image[0]);
    }
  }

  method ReadHigh(b: byte, col: nat, image: array<uint16>, ghost w: seq<byte>)
    requires col < 80 && image.Length == 80 && 2 * col < |w| && w[2 * col] == b
    requires image[..] == RecordCard(w, 2 * col)
    modifies image
    ensures image[..] == RecordCard(w, 2 * col + 1)
  {
    hide RecordCard, Wrong, Low6, WithError;
    HighHalf(w, 2 * col);
    var c := FlagParity(b, image);
    ghost var flagged := image[..];
    var bits: int := c;
    image[col] := bits * 64;
    assert image[..] == flagged[col := image[col]];
  }

  method ReadLow(b: byte, col: nat, image: array<uint16>, ghost w: seq<byte>)
    requires col < 80 && image.Length == 80 && 2 * col + 1 < |w| && w[2 * col + 1] == b
    requires image[..] == RecordCard(w, 2 * col + 1)
    modifies image
    ensures image[..] == RecordCard(w, 2 * col + 2)
  {
    hide RecordCard, Wrong, Low6, WithError;
    assert (2 * col + 1) / 2 == col;
    LowHalf(w, 2 * col + 1);
    var c := FlagParity(b, image);
    var column: int := image[col];
    ghost var flagged := image[..];
    image[col] := column + c;
    assert image[..] == flagged[col := image[col]];
  }

  /** The record of `n` bytes at the front ends at the next mark, with the card, or with the file. */
  ghost predicate EndsAt(w: seq<byte>, n: nat) {
    && 1 <= n <= |w| && n <= 160 && (forall k :: 0 <= k < n ==> !Mark(w[k]))
    && (n == 160 || (n < |w| && Mark(w[n])) || (n == |w| && n % 2 == 0))
  }

  lemma AtMark(w: seq<byte>, n: nat, i: nat)
    requires EndsAt(w, n) && i <= n && i < |w|
    ensures Mark(w[i]) ==> i == n
    ensures n < 160 && i == n ==> Mark(w[i])
  {
  }

  /** Converts the bytes of a record to columns, up to the next mark or the end of the card. */
  method ReadRecord(buffer: array<byte>, len: nat, image: array<uint16>, ghost w: seq<byte>, ghost n: nat)
    returns (i: nat, col: nat)
    requires len < buffer.Length && image.Length == 80 && image[..] == BlankCard()
    requires (buffer as object) != image && w == buffer[..len] && EndsAt(w, n)
    modifies image
    ensures i == n && image[..] == RecordCard(w, n) && (col >= 80 <==> n == 160)
  {
    assert n <= len && n <= 160 && (n == len ==> n % 2 == 0);
    hide RecordCard, Mark, EndsAt;
    i, col := 0, 0;
    NothingRead(w);
    while i < len && col < 80
      invariant i == 2 * col && i <= n
      invariant image[..] == RecordCard(w, i)
      decreases 80 - col
    {
      assert buffer[i] == w[i];
      AtMark(w, n, i);
      if Mark(buffer[i]) {
        return;
      }
      ReadHigh(buffer[i], col, image, w);
      i := i + 1;
      assert buffer[i] == w[i];
      AtMark(w, n, i);
      if Mark(buffer[i]) {
        return;
      }
      ReadLow(buffer[i], col, image, w);
      i := i + 1;
      col := col + 1;
    }
  }

  /** Takes a record apart. The card of a tape mark is the end of the file. */
  method ReadColumnBinary(buffer: array<byte>, len: nat, image: array<uint16>) returns (size: nat)
    requires (buffer as object) != image
    requires len < buffer.Length && image.Length == 80 && image[..] == BlankCard()
    requires ParseColumnBinary(buffer[..len]).Read?
    modifies buffer, image
    ensures ParseColumnBinary(old(buffer[..len])) == Read(image[..], size)
    ensures buffer[1..] == old(buffer[1..])
  {
    ghost var was, w := buffer[..], buffer[..len];
    ghost var o := ParseColumnBinary(w);
    ghost var n := RecordEnd(w, 1);
    if buffer[0] == 0x8F && (len == 1 || Mark(buffer[1])) {
      image[0] := WithEof(image[0]);
      return 1;
    }
    assert !TapeMark(w);
    buffer[0] := buffer[0] % 0x80;
    ghost var cleared := buffer[..len];
    assert buffer[1..] == was[1..];
    assert cleared[1..] == was[1..len] == w[1..];
    RecordCleared(w, cleared, n);
    var col: nat;
    size, col := ReadRecord(buffer, len, image, cleared, n);
    assert n < len ==> buffer[n] == was[1..][n - 1] == w[n];
    hide RecordCard, RecordEnd, Mark, WithError, TapeMark;
    if size < len && col >= 80 && !Mark(buffer[size]) {
      image[0] := WithError(image[0]);
      size := SkipToMark(buffer, len, size, w);
    }
  }

  lemma RecordCleared(w: seq<byte>, cleared: seq<byte>, n: nat)
    requires 0 < |w| == |cleared| && cleared[1..] == w[1..] && cleared[0] == w[0] % 0x80
    requires n == RecordEnd(w, 1) && !TapeMark(w) && ParseColumnBinary(w).Read?
    ensures EndsAt(cleared, n) && RecordCard(cleared, n) == RecordCard(w, n)
  {
    EndCleared(w, cleared, 1);
    MarkCleared(w, cleared, n);
  }

  /** Skips what is left of a record that is too long. */
  method SkipToMark(buffer: array<byte>, len: nat, start: nat, ghost w: seq<byte>) returns (i: nat)
    requires len < buffer.Length && 0 < start < len == |w| && NextMark(w, start) < len
    requires buffer[1..len] == w[1..]
    ensures i == NextMark(w, start)
  {
    i := start;
    assert forall k :: 1 <= k < len ==> buffer[k] == buffer[1..len][k - 1] == w[1..][k - 1] == w[k];
    while !Mark(buffer[i])
      invariant start <= i <= NextMark(w, start)
      decreases len - i
    {
      if i > len {
        break;
      }
      i := i + 1;
    }
  }

  // ----- text -----

  /** There is the end of a line in the window. */
  ghost predicate HasEnd(w: seq<byte>) {
    exists k :: 0 <= k < |w| && (w[k] == LF || w[k] == CR)
  }

  lemma {:induction false} LineHasEnd(w: seq<byte>, i: nat)
    requires LineEnd(w, i) != 0
    ensures HasEnd(w)
    decreases |w| - i
  {
    if w[i] != LF && w[i] != CR {
      LineHasEnd(w, i + 1);
    }
  }

  lemma TextHasEnd(s: Setup, w: seq<byte>)
    requires ParseText(s, w).Read?
    ensures HasEnd(w)
  {
    hide LineEnd, OnlyBlanks, TextColumns, RawColumns, Named, HasEnd;
    forall i: nat | LineEnd(w, i) != 0
      ensures HasEnd(w)
    {
      LineHasEnd(w, i);
    }
  }

  /** Looks behind a tilde for anything but blanks. */
  method LookForText(buffer: array<byte>, len: nat) returns (blank: bool, i: nat)
    requires 1 <= len < buffer.Length && !OnlyBlanks(buffer[..len], 1, 1).Lost?
    ensures blank ==> OnlyBlanks(buffer[..len], 1, 1) == Blanks(i)
    ensures !blank ==> OnlyBlanks(buffer[..len], 1, 1) == Letters
  {
    hide NextStop;
    ghost var w := buffer[..len];
    var col := 1;
    blank, i := true, 1;
    while col < 80 && blank && i < len
      invariant 1 <= i <= len
      invariant blank ==> OnlyBlanks(w, 1, 1) == OnlyBlanks(w, i, col)
      invariant !blank ==> OnlyBlanks(w, 1, 1) == Letters
      decreases len - i
    {
      var c := buffer[i];
      if c == LF || c == NUL || c == CR {
        col := 80;
      } else if c == TAB {
        col := NextStop(col);
      } else if c != SPACE {
        blank := false;
      }
      i := i + 1;
    }
  }

  /** Compares the front of the buffer with a tilde and a name. */
  method CompareName(buffer: array<byte>, len: nat, name: seq<byte>) returns (same: bool)
    requires len < buffer.Length == ROOM && |name| == 3 && HasEnd(buffer[..len])
    requires forall k :: 0 <= k < 3 ==> name[k] != LF && name[k] != CR
    ensures same <==> Named(buffer[..len], name)
  {
    ghost var w := buffer[..len];
    if buffer[0] != TILDE {
      assert len > 0 && w[0] == buffer[0];
      return false;
    }
    var i := 0;
    while i < 3
      invariant i <= 3
      invariant forall k :: 0 <= k < i ==> Lower(buffer[k + 1]) == name[k]
    {
      if Lower(buffer[i + 1]) != name[i] {
        assert |w| >= 4 ==> w[i + 1] == buffer[i + 1];
        return false;
      }
      i := i + 1;
    }
    assert Lower(buffer[1]) == name[0] && Lower(buffer[2]) == name[1] && Lower(buffer[3]) == name[2];
    same := true;
    assert |w| >= 4 by {
      var k :| 0 <= k < |w| && (w[k] == LF || w[k] == CR);
      assert w[k] == buffer[k];
    }
    assert w[0] == buffer[0] && w[1] == buffer[1] && w[2] == buffer[2] && w[3] == buffer[3];
  }

  /** Skips to behind the end of the line. */
  method SkipLine(buffer: array<byte>, len: nat, start: nat) returns (i: nat)
    requires len < buffer.Length && LineEnd(buffer[..len], start) != 0
    ensures i == LineEnd(buffer[..len], start)
  {
    ghost var w := buffer[..len];
    i := start;
    while buffer[i] != LF && buffer[i] != CR && i < len
      invariant i < len && LineEnd(w, start) == LineEnd(w, i)
      decreases len - i
    {
      assert w[i] == buffer[i];
      i := i + 1;
    }
    assert w[i] == buffer[i] && i + 1 < len ==> w[i + 1] == buffer[i + 1];
    if buffer[i] == CR {
      i := i + 1;
    }
    if buffer[i] == LF {
      i := i + 1;
    }
  }

  /** Lays a line out in columns. */
  method ReadLine(s: Setup, buffer: array<byte>, len: nat, image: array<uint16>) returns (i: nat)
    requires len < buffer.Length && image.Length == 80 && (buffer as object) != image && image[..] == BlankCard()
    requires TextColumns(s, buffer[..len], 0, 0, BlankCard()).Laid?
    modifies image
    ensures TextColumns(s, buffer[..len], 0, 0, BlankCard()) == Laid(image[..], i)
  {
    hide NextStop, Punched;
    ghost var w := buffer[..len];
    ghost var l := TextColumns(s, w, 0, 0, BlankCard());
    var col := 0;
    i := 0;
    while col < 80 && i < len
      invariant i <= len && l == TextColumns(s, w, i, col, image[..])
      decreases len - i, if col < 80 then 1 else 0
    {
      var c := buffer[i];
      assert w[i] == c;
      if c == NUL || c == CR {
        i := i + 1;
      } else if c == TAB {
        col := NextStop(col);
        i := i + 1;
      } else if c == LF {
        col := 80;
      } else {
        PunchColumn(s, c, col, image);
        col := col + 1;
        i := i + 1;
      }
    }
  }

  /** Punches one character. In the first column the flag of an error is punched over. */
  method PunchColumn(s: Setup, c: byte, col: nat, image: array<uint16>)
    requires col < 80 && image.Length == 80 && c < 128 && Taken(s, c) < 128
    modifies image
    ensures image[..] == Punched(s, old(image[..]), col, c)
  {
    hide Table, WithError;
    var code := Table(s.code)[Taken(s, c)];
    if code / 0x1000 != 0 {
      image[0] := WithError(image[0]);
    }
    image[col] := code % 0x1000;
  }

  /** Reads the digits of a line into columns. */
  method ReadDigits(buffer: array<byte>, len: nat, image: array<uint16>) returns (i: nat)
    requires len < buffer.Length && image.Length == 80 && (buffer as object) != image && image[..] == BlankCard()
    requires len >= 4 && RawColumns(buffer[..len], 4, 0, 0, BlankCard()).Laid?
    modifies image
    ensures RawColumns(buffer[..len], 4, 0, 0, BlankCard()) == Laid(image[..], i)
  {
    hide WithDigit;
    ghost var w := buffer[..len];
    ghost var l := RawColumns(w, 4, 0, 0, BlankCard());
    var col, j := 0, 0;
    i := 4;
    while col < 80 && i < len
      invariant i <= len && j < 4 && l == RawColumns(w, i, col, j, image[..])
    {
      var c := buffer[i];
      assert w[i] == c;
      if 48 <= c <= 55 {
        PunchDigit(c, col, image);
        j := j + 1;
      } else if c == LF || c == CR {
        return;
      } else {
        image[0] := 0x2000;
        return;
      }
      if j == 4 {
        col := col + 1;
        j := 0;
      }
      i := i + 1;
    }
  }

  method PunchDigit(c: byte, col: nat, image: array<uint16>)
    requires col < 80 && image.Length == 80 && 48 <= c <= 55
    modifies image
    ensures image[..] == WithDigit(old(image[..]), col, c)
  {
    var column: int := image[col];
    image[col] := (column * 8 + (c - 48)) % 0x1_0000;
  }

  /** A line that is a card by its name, or else by its text. */
  method ReadNamed(s: Setup, buffer: array<byte>, len: nat, image: array<uint16>) returns (size: nat)
    requires len < buffer.Length == ROOM && image.Length == 80 && (buffer as object) != image
    requires image[..] == BlankCard() && HasEnd(buffer[..len]) && ParseNamed(s, buffer[..len]).Read?
    modifies image
    ensures ParseNamed(s, buffer[..len]) == Read(image[..], size)
  {
    hide Named, LineEnd, TextColumns, RawColumns, HasEnd, BlankCard;
    var at: nat;
    var raw := CompareName(buffer, len, RAW);
    if raw {
      assert len >= 4 by {
        NamedLength(buffer[..len], RAW);
      }
      at := ReadDigits(buffer, len, image);
    } else {
      var eor := CompareName(buffer, len, EOR);
      var eof := CompareName(buffer, len, EOF);
      var eoi := CompareName(buffer, len, EOI);
      var sevenEight := CompareName(buffer, len, SEVEN_EIGHT);
      if eor {
        image[0], at := 0x7, 4;
      } else if eof {
        image[0], at := 0xD, 4;
      } else if eoi {
        image[0], at := 0xF, 4;
      } else if sevenEight {
        image[0], at := 0x6, 3;
      } else {
        at := ReadLine(s, buffer, len, image);
      }
    }
    size := SkipLine(buffer, len, at);
  }

  lemma NamedLength(w: seq<byte>, name: seq<byte>)
    requires |name| == 3 && Named(w, name)
    ensures |w| >= 4
  {
  }

  method ReadText(s: Setup, buffer: array<byte>, len: nat, image: array<uint16>) returns (size: nat)
    requires len < buffer.Length == ROOM && image.Length == 80 && (buffer as object) != image
    requires image[..] == BlankCard() && ParseText(s, buffer[..len]).Read?
    modifies image
    ensures ParseText(s, buffer[..len]) == Read(image[..], size)
  {
    ghost var w := buffer[..len];
    assert len > 0 && w[0] == buffer[0];
    hide ParseNamed, OnlyBlanks, LineEnd, HasEnd, WithEof;
    if buffer[0] == TILDE {
      var blank, at := LookForText(buffer, len);
      if blank {
        image[0] := WithEof(image[0]);
        size := SkipLine(buffer, len, at);
        return;
      }
    }
    TextHasEnd(s, w);
    size := ReadNamed(s, buffer, len, image);
  }

  /** Parses the card at the front of the buffer. */
  method ParseCard(s: Setup, b: CardBuffer, image: array<uint16>) returns (ok: bool)
    requires b.Valid() && image.Length == 80 && (b.buffer as object) != image
    requires !Parse(s, b.Window()).Stray?
    modifies b`size, b.buffer, image
    ensures b.Valid() && b.len == old(b.len) && b.buffer[1..] == old(b.buffer[1..])
    ensures !ok ==> Parse(s, old(b.Window())) == Short && image[..] == BlankCard()[0 := 0x2000]
    ensures ok ==> Parse(s, old(b.Window())) == Read(image[..], b.size)
  {
    ghost var w := b.Window();
    NeverShort(s, w);
    hide ParseBinary, ParseText, ParseColumnBinary, BlankCard;
    Clear(image);
    assert b.buffer[..b.len] == w;
    var size: nat;
    ok := true;
    if s.format.Binary? {
      ok, size := ReadBinary(b.buffer, b.len, image);
      assert b.buffer[..b.len] == w;
      if !ok {
        return;
      }
    } else if s.format.ColumnBinary? {
      size := ReadColumnBinary(b.buffer, b.len, image);
    } else {
      size := ReadText(s, b.buffer, b.len, image);
      assert b.buffer[..b.len] == w;
    }
    b.size := size;
  }

  method Clear(image: array<uint16>)
    requires image.Length == 80
    modifies image
    ensures image[..] == BlankCard()
  {
    forall k | 0 <= k < 80 {
      image[k] := 0;
    }
  }

  lemma NeverShort(s: Setup, w: seq<byte>)
    ensures Parse(s, w).Short? ==> s.format.Binary?
  {
    hide OnlyBlanks, LineEnd, RawColumns, TextColumns, Named;
  }

  // ----- decks -----

  /** Fills the buffer up unless it still has 500 bytes or the file has no more. */
  method Refill(b: CardBuffer, unread: seq<byte>, atEnd: bool) returns (rest: seq<byte>, ended: bool)
    requires b.Valid() && (atEnd ==> unread == [])
    modifies b`len, b.buffer
    ensures b.Valid() && b.Window() + rest == old(b.Window()) + unread
    ensures (ended ==> rest == []) && (b.len >= 500 || rest == [])
  {
    rest, ended := unread, atEnd;
    if b.len < 500 && !ended {
      var n := b.Fill(rest);
      ended := n < 8192;
      rest := rest[n..];
    }
  }

  /** What is left in the buffer once a card has been parsed and dropped. */
  lemma Dropped(w: seq<byte>, parsed: seq<byte>, rest: seq<byte>, left: seq<byte>, size: nat)
    requires 1 <= size <= |w| == |parsed| && parsed[1..] == w[1..] && w + rest == left
    ensures parsed[size..] + rest == left[size..]
  {
    assert parsed[size..] == parsed[1..][size - 1..] == w[1..][size - 1..] == w[size..];
  }

  /** Takes the next card off the front of what is left of the file. */
  method NextCard(s: Setup, b: CardBuffer, image: array<uint16>, rest: seq<byte>, ghost left: seq<byte>)
    returns (ok: bool, card: Card, ghost after: seq<byte>)
    requires b.Valid() && image.Length == 80 && (b.buffer as object) != image
    requires left != [] && Readable(s, left) && b.Window() + rest == left && (b.len >= 500 || rest == [])
    modifies b, b.buffer, image
    ensures b.Valid() && ok
    ensures Deck(s, left) == [card] + Deck(s, after) && Readable(s, after) && |after| < |left|
    ensures b.Window() + rest == after && (b.len == 0 ==> after == [])
  {
    ghost var w := b.Window();
    WindowShowsCard(s, left, w);
    hide Parse, Readable, Deck;
    ok := ParseCard(s, b, image);
    card := image[..];
    ghost var parsed := b.Window();
    assert parsed[1..] == b.buffer[1..][..b.len - 1];
    assert parsed[1..] == w[1..];
    after := left[b.size..];
    Dropped(w, parsed, rest, left, b.size);
    b.Advance();
  }

  /** Reads a file card by card. The buffer that slides over it does not show. */
  method ReadCards(s: Setup, file: seq<byte>) returns (ok: bool, cards: seq<Card>)
    requires file != [] && Readable(s, file)
    ensures ok && cards == Deck(s, file)
  {
    assert Deck(s, []) == [];
    hide Readable, Deck;
    var b := new CardBuffer();
    var image := new uint16[80];
    assert b.Window() == [];
    hide CardBuffer.Window;
    var rest, ended := file, false;
    ghost var left := file;
    ok, cards := true, [];
    while true
      invariant b.Valid() && fresh(b) && fresh(b.buffer) && fresh(image) && image.Length == 80
      invariant (b.buffer as object) != image
      invariant b.Window() + rest == left && left != [] && Readable(s, left) && (ended ==> rest == [])
      invariant cards + Deck(s, left) == Deck(s, file)
      decreases |left|
    {
      rest, ended := Refill(b, rest, ended);
      var card: Card;
      ghost var after;
      ok, card, after := NextCard(s, b, image, rest, left);
      AppendFirst(cards, card, Deck(s, after));
      cards := cards + [card];
      left := after;
      if b.len == 0 || !ok {
        return;
      }
    }
  }

  lemma AppendFirst(cards: seq<Card>, card: Card, more: seq<Card>)
    ensures cards + ([card] + more) == (cards + [card]) + more
    ensures cards + [] == cards
  {
  }

  class Hopper {
    const setup: Setup
    var cards: seq<Card>

    constructor (setup: Setup)
      ensures this.setup == setup && cards == []
    {
      this.setup := setup;
      cards := [];
    }

    /**
     * Adds the cards of a file to the hopper, and an empty end-of-file card if asked for. Those of
     * a file of lines have in their columns what the lines have when their tabs are expanded.
     */
    method ReadDeck(file: seq<byte>, eof: bool) returns (ok: bool)
      requires file != [] && Readable(setup, file)
      modifies this`cards
      ensures ok
      ensures cards == old(cards) + Deck(setup, file) + if eof then [BlankCard()[0 := 0x1000]] else []
      ensures forall lines :: file == LinesOf(lines) && Simple(lines) && (setup.format.Text? || setup.format.Octal?) ==>
        cards == old(cards) + CardsOf(setup, lines) + if eof then [BlankCard()[0 := 0x1000]] else []
    {
      forall lines | file == LinesOf(lines) && Simple(lines) && (setup.format.Text? || setup.format.Octal?)
        ensures Deck(setup, file) == CardsOf(setup, lines)
      {
        LinesAreCards(setup, lines);
      }
      hide Simple, LinesOf, CardsOf, Deck;
      var read: seq<Card>;
      ok, read := ReadCards(setup, file);
      cards := cards + read;
      if eof {
        cards := cards + [BlankCard()[0 := 0x1000]];
      }
    }
  }
}
