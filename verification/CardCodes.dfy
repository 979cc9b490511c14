/** The punch codes of characters, and the characters of punch codes. */
module CardCodes {
  import opened Bytes

  /** No column has this code: its highest four bits are set. */
  const NO_CODE: uint16 := 0xF000
  const NO_CHARACTER: byte := 0xFF

  // ----- the three tables, a row for eight characters -----

  function Pick(k: nat, c0: uint16, c1: uint16, c2: uint16, c3: uint16,
                c4: uint16, c5: uint16, c6: uint16, c7: uint16): uint16 {
    match k
    case 0 => c0
    case 1 => c1
    case 2 => c2
    case 3 => c3
    case 4 => c4
    case 5 => c5
    case 6 => c6
    case _ => c7
  }

  function Hollerith026(c: nat): uint16 {
    match c / 8
    case 4 => Pick(c % 8, 0x000, 0x600, 0x006, 0x282, 0x442, 0x222, 0xA00, 0x022)
    case 5 => Pick(c % 8, 0x222, 0x822, 0x422, 0x800, 0x242, 0x400, 0x842, 0x300)
    case 6 => Pick(c % 8, 0x200, 0x100, 0x080, 0x040, 0x020, 0x010, 0x008, 0x004)
    case 7 => Pick(c % 8, 0x002, 0x001, 0x012, 0x40A, 0x80A, 0x042, 0x00A, 0x882)
    case 8 => Pick(c % 8, 0x022, 0x900, 0x880, 0x840, 0x820, 0x810, 0x808, 0x804)
    case 9 => Pick(c % 8, 0x802, 0x801, 0x500, 0x480, 0x440, 0x420, 0x410, 0x408)
    case 10 => Pick(c % 8, 0x404, 0x402, 0x401, 0x280, 0x240, 0x220, 0x210, 0x208)
    case 11 => Pick(c % 8, 0x204, 0x202, 0x201, 0x812, 0x20A, 0x412, 0x406, 0x082)
    case 12 => Pick(c % 8, 0x212, 0xB00, 0xA80, 0xA40, 0xA20, 0xA10, 0xA08, 0xA04)
    case 13 => Pick(c % 8, 0xA02, 0xA01, 0xD00, 0xC80, 0xC40, 0xC20, 0xC10, 0xC08)
    case 14 => Pick(c % 8, 0xC04, 0xC02, 0xC01, 0x680, 0x640, 0x620, 0x610, 0x608)
    case 15 => Pick(c % 8, 0x604, 0x602, 0x601, 0x406, 0x806, 0x805, 0x005, 0xF000)
    case _ => NO_CODE
  }

  function Hollerith029(c: nat): uint16 {
    match c / 8
    case 4 => Pick(c % 8, 0x000, 0x482, 0x006, 0x042, 0x442, 0x222, 0x800, 0x012)
    case 5 => Pick(c % 8, 0x812, 0x412, 0x422, 0x80A, 0x242, 0x400, 0x842, 0x300)
    case 6 => Pick(c % 8, 0x200, 0x100, 0x080, 0x040, 0x020, 0x010, 0x008, 0x004)
    case 7 => Pick(c % 8, 0x002, 0x001, 0x082, 0x40A, 0x822, 0x00A, 0x20A, 0x206)
    case 8 => Pick(c % 8, 0x022, 0x900, 0x880, 0x840, 0x820, 0x810, 0x808, 0x804)
    case 9 => Pick(c % 8, 0x802, 0x801, 0x500, 0x480, 0x440, 0x420, 0x410, 0x408)
    case 10 => Pick(c % 8, 0x404, 0x402, 0x401, 0x280, 0x240, 0x220, 0x210, 0x208)
    case 11 => Pick(c % 8, 0x204, 0x202, 0x201, 0xE82, 0x282, 0xE42, 0x406, 0x212)
    case 12 => Pick(c % 8, 0x102, 0xB00, 0xA80, 0xA40, 0xA20, 0xA10, 0xA08, 0xA04)
    case 13 => Pick(c % 8, 0xA02, 0xA01, 0xD00, 0xC80, 0xC40, 0xC20, 0xC10, 0xC08)
    case 14 => Pick(c % 8, 0xC04, 0xC02, 0xC01, 0x680, 0x640, 0x620, 0x610, 0x608)
    case 15 => Pick(c % 8, 0x604, 0x602, 0x601, 0x406, 0x806, 0x805, 0xF02, 0xF000)
    case _ => NO_CODE
  }

  function Dec029(c: nat): uint16 {
    match c / 8
    case 4 => Pick(c % 8, 0x000, 0x482, 0x006, 0x042, 0x442, 0x222, 0x800, 0x012)
    case 5 => Pick(c % 8, 0x812, 0x412, 0x422, 0x80A, 0x242, 0x400, 0x842, 0x300)
    case 6 => Pick(c % 8, 0x200, 0x100, 0x080, 0x040, 0x020, 0x010, 0x008, 0x004)
    case 7 => Pick(c % 8, 0x002, 0x001, 0x082, 0x40A, 0x822, 0x00A, 0x20A, 0x206)
    case 8 => Pick(c % 8, 0x022, 0x900, 0x880, 0x840, 0x820, 0x810, 0x808, 0x804)
    case 9 => Pick(c % 8, 0x802, 0x801, 0x500, 0x480, 0x440, 0x420, 0x410, 0x408)
    case 10 => Pick(c % 8, 0x404, 0x402, 0x401, 0x280, 0x240, 0x220, 0x210, 0x208)
    case 11 => Pick(c % 8, 0x204, 0x202, 0x201, 0x882, 0x406, 0x282, 0x806, 0x212)
    case 12 => Pick(c % 8, 0x102, 0xB00, 0xA80, 0xA40, 0xA20, 0xA10, 0xA08, 0xA04)
    case 13 => Pick(c % 8, 0xA02, 0xA01, 0xD00, 0xC80, 0xC40, 0xC20, 0xC10, 0xC08)
    case 14 => Pick(c % 8, 0xC04, 0xC02, 0xC01, 0x680, 0x640, 0x620, 0x610, 0x608)
    case 15 => Pick(c % 8, 0x604, 0x602, 0x601, 0xA00, 0xC00, 0x600, 0x700, 0xF000)
    case _ => NO_CODE
  }

  datatype Code = Code026 | Code029 | CodeDec029

  /** The table a unit works with. */
  function Table(code: Code): (t: seq<uint16>)
    ensures |t| == 128
  {
    seq(128, c requires 0 <= c < 128 =>
      match code
      case Code026 => Hollerith026(c)
      case Code029 => Hollerith029(c)
      case CodeDec029 => Dec029(c))
  }

  /** Control characters have no code, and only the blank has one without punches. */
  predicate Sound(c: nat, code: uint16) {
    && (code < 0x1000 || code == NO_CODE)
    && (code == NO_CODE <==> c < 32 || c == 127)
    && (code == 0 <==> c == 32)
  }

  ghost predicate Coded(t: seq<uint16>) {
    |t| == 128 && forall c :: 0 <= c < 128 ==> Sound(c, t[c])
  }

  lemma Sound026(c: nat)
    requires c < 128
    ensures Sound(c, Hollerith026(c))
  {
  }

  lemma Sound029(c: nat)
    requires c < 128
    ensures Sound(c, Hollerith029(c))
  {
  }

  lemma SoundDec029(c: nat)
    requires c < 128
    ensures Sound(c, Dec029(c))
  {
  }

  lemma TableIsCoded(code: Code)
    ensures Coded(Table(code))
  {
    hide Sound, Hollerith026, Hollerith029, Dec029;
    forall c: nat | c < 128
      ensures Sound(c, Table(code)[c])
    {
      match code
      case Code026 => Sound026(c);
      case Code029 => Sound029(c);
      case CodeDec029 => SoundDec029(c);
    }
  }

  // ----- the way back -----

  /** `back` gives a character for every code that has one, and of several the last. */
  ghost predicate Inverts(back: seq<byte>, t: seq<uint16>, n: nat)
    requires |t| == 128 && n <= 128
  {
    && |back| == 0x1000
    && (forall h :: 0 <= h < 0x1000 ==>
      (back[h] == NO_CHARACTER && forall c :: 0 <= c < n ==> t[c] != h) || Last(back[h], t, h, n))
  }

  /** The last of the first `n` characters with the code `h`. */
  ghost predicate Last(c: nat, t: seq<uint16>, h: nat, n: nat)
    requires |t| == 128 && n <= 128
  {
    c < n && t[c] == h && forall d :: c < d < n ==> t[d] != h
  }

  /** Fills the table of characters from the table of codes. */
  method Invert(t: seq<uint16>, back: array<byte>)
    requires |t| == 128 && back.Length == 0x1000
    modifies back
    ensures Inverts(back[..], t, 128)
  {
    for h := 0 to 0x1000
      invariant forall g :: 0 <= g < h ==> back[g] == NO_CHARACTER
    {
      back[h] := NO_CHARACTER;
    }
    for i := 0 to 128
      invariant Inverts(back[..], t, i)
    {
      var code := t[i];
      if code < 0x1000 {
        back[code] := i;
      }
    }
  }

  /** Only the blank stands for a column without punches. */
  lemma BlankIsBlank(back: seq<byte>, t: seq<uint16>, h: nat)
    requires Coded(t) && Inverts(back, t, 128) && h < 0x1000
    ensures back[h] == 0x20 <==> h == 0
  {
    assert Sound(0x20, t[0x20]);
  }
}
