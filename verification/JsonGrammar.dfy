/**
 The texts of RFC 8259 as trees, byte by byte and without reference to any scanner: white
 space (section 2), values and their containers (sections 3 to 5), numbers (section 6) and
 strings (section 7).
 */
module JsonGrammar {
  import opened ByteStrings

  // ----------------------------------------------------------------- white space

  predicate White(c: byte) {
    c == 0x20 || c == 0x09 || c == 0x0A || c == 0x0D
  }

  predicate Blank(w: Bytes) {
    forall i :: 0 <= i < |w| ==> White(w[i])
  }

  // --------------------------------------------------------------------- strings

  /** A piece of a string: a byte as it stands, a letter escape, a code unit, or a surrogate pair. */
  datatype Piece = Plain(c: byte) | Letter(c: byte) | Code(h: Bytes) | Surrogates(h: Bytes, l: Bytes)

  /** Which byte the letter after a backslash stands for; none, where it is no escape. */
  function LetterMeans(c: byte): Bytes {
    match c
    case 0x22 => [0x22]  // quotation mark
    case 0x5C => [0x5C]  // reverse solidus
    case 0x2F => [0x2F]  // solidus
    case 0x62 => [0x08]  // b
    case 0x66 => [0x0C]  // f
    case 0x6E => [0x0A]  // n
    case 0x72 => [0x0D]  // r
    case 0x74 => [0x09]  // t
    case _ => []
  }

  predicate HexByte(c: byte) {
    0x30 <= c <= 0x39 || 0x41 <= c <= 0x46 || 0x61 <= c <= 0x66
  }

  function HexWorth(c: byte): (v: nat)
    requires HexByte(c)
    ensures v < 16
  {
    if c <= 0x39 then c - 0x30 else if c <= 0x46 then c - 0x41 + 10 else c - 0x61 + 10
  }

  predicate HexFour(h: Bytes) {
    |h| == 4 && HexByte(h[0]) && HexByte(h[1]) && HexByte(h[2]) && HexByte(h[3])
  }

  function HexMeans(h: Bytes): (v: nat)
    requires HexFour(h)
    ensures v < 0x10000
  {
    4096 * HexWorth(h[0]) + 256 * HexWorth(h[1]) + 16 * HexWorth(h[2]) + HexWorth(h[3])
  }

  predicate HighHalf(u: nat) {
    0xD800 <= u <= 0xDBFF
  }

  predicate LowHalf(u: nat) {
    0xDC00 <= u <= 0xDFFF
  }

  /** The code point beyond the first plane that two halves of a surrogate pair spell. */
  function Joined(hi: nat, lo: nat): (r: nat)
    requires HighHalf(hi) && LowHalf(lo)
    ensures 0x10000 <= r < 0x110000
  {
    0x10000 + 0x400 * (hi - 0xD800) + (lo - 0xDC00)
  }

  /** The halves of a code point are its upper and its lower ten bits, and those of no other. */
  lemma JoinedInverse(hi: nat, lo: nat, r: nat)
    requires HighHalf(hi) && LowHalf(lo) && 0x10000 <= r < 0x110000
    ensures Joined(hi, lo) == r <==> hi == 0xD800 + (r - 0x10000) / 0x400 && lo == 0xDC00 + (r - 0x10000) % 0x400
  {}

  predicate PieceOK(p: Piece) {
    match p
    case Plain(c) => c >= 0x20 && c != 0x22 && c != 0x5C
    case Letter(c) => LetterMeans(c) != []
    case Code(h) => HexFour(h) && !HighHalf(HexMeans(h)) && !LowHalf(HexMeans(h))
    case Surrogates(h, l) => HexFour(h) && HexFour(l) && HighHalf(HexMeans(h)) && LowHalf(HexMeans(l))
  }

  function PieceText(p: Piece): (t: Bytes)
    ensures t != []
  {
    match p
    case Plain(c) => [c]
    case Letter(c) => [0x5C, c]
    case Code(h) => [0x5C, 0x75] + h
    case Surrogates(h, l) => [0x5C, 0x75] + h + [0x5C, 0x75] + l
  }

  function PieceMeans(p: Piece): Bytes
    requires PieceOK(p)
  {
    match p
    case Plain(c) => [c]
    case Letter(c) => LetterMeans(c)
    case Code(h) => Encode(HexMeans(h))
    case Surrogates(h, l) => Encode(Joined(HexMeans(h), HexMeans(l)))
  }

  predicate PiecesOK(ps: seq<Piece>) {
    forall i :: 0 <= i < |ps| ==> PieceOK(ps[i])
  }

  function PiecesText(ps: seq<Piece>): Bytes {
    if ps == [] then [] else PieceText(ps[0]) + PiecesText(ps[1..])
  }

  function PiecesMean(ps: seq<Piece>): Bytes {
    if ps == [] then [] else (if PieceOK(ps[0]) then PieceMeans(ps[0]) else []) + PiecesMean(ps[1..])
  }

  function QuotedText(ps: seq<Piece>): (t: Bytes)
    ensures t != [] && t[0] == 0x22
  {
    [0x22] + PiecesText(ps) + [0x22]
  }

  // --------------------------------------------------------------------- numbers

  /** An exponent: the letter, a sign or none, and digits. */
  datatype Exponent = Unscaled | Scaled(e: byte, sign: Bytes, digits: Bytes)

  /** No digits of a fraction: none is written. */
  datatype NumberForm = NumberForm(minus: bool, whole: Bytes, frac: Bytes, exp: Exponent)

  predicate DigitText(d: Bytes) {
    forall i :: 0 <= i < |d| ==> 0x30 <= d[i] <= 0x39
  }

  predicate WholeOK(w: Bytes) {
    w != [] && DigitText(w) && (w[0] == 0x30 ==> |w| == 1)
  }

  predicate ExponentOK(x: Exponent) {
    x.Scaled? ==>
      && (x.e == 0x65 || x.e == 0x45)
      && (x.sign == [] || x.sign == [0x2B] || x.sign == [0x2D])
      && x.digits != [] && DigitText(x.digits)
  }

  predicate FormOK(n: NumberForm) {
    WholeOK(n.whole) && DigitText(n.frac) && ExponentOK(n.exp)
  }

  function FractionText(frac: Bytes): Bytes {
    if frac == [] then [] else [0x2E] + frac
  }

  function ExponentText(x: Exponent): Bytes {
    match x
    case Unscaled => []
    case Scaled(e, sign, digits) => [e] + sign + digits
  }

  function FormText(n: NumberForm): Bytes {
    (if n.minus then [0x2D] else []) + n.whole + FractionText(n.frac) + ExponentText(n.exp)
  }

  // ---------------------------------------------------------------------- values

  /** The gap is the white space of an empty array or object. */
  datatype Spelling =
    | Keyword(w: Bytes)
    | Amount(n: NumberForm)
    | Quoted(ps: seq<Piece>)
    | Listed(gap: Bytes, slots: seq<Slot>)
    | Record(gap: Bytes, fields: seq<Field>)

  datatype Slot = Slot(before: Bytes, value: Spelling, after: Bytes)

  datatype Field = Field(before: Bytes, key: seq<Piece>, colonBefore: Bytes, colonAfter: Bytes, value: Spelling, after: Bytes)

  const WORD_NULL: Bytes := [0x6E, 0x75, 0x6C, 0x6C]
  const WORD_TRUE: Bytes := [0x74, 0x72, 0x75, 0x65]
  const WORD_FALSE: Bytes := [0x66, 0x61, 0x6C, 0x73, 0x65]

  predicate KeywordOK(w: Bytes) {
    w == WORD_NULL || w == WORD_TRUE || w == WORD_FALSE
  }

  function Spell(sp: Spelling): Bytes
    decreases sp, 1
  {
    match sp
    case Keyword(w) => w
    case Amount(n) => FormText(n)
    case Quoted(ps) => QuotedText(ps)
    case Listed(gap, slots) => [0x5B] + (if slots == [] then gap else slots[0].before + SpellSlots(slots)) + [0x5D]
    case Record(gap, fields) => [0x7B] + (if fields == [] then gap else fields[0].before + SpellFields(fields)) + [0x7D]
  }

  /** The slots after the white space that leads the first. */
  function SpellSlots(slots: seq<Slot>): Bytes
    requires slots != []
    decreases slots, 0
  {
    SpellSlot(slots[0]) + if |slots| == 1 then [] else [0x2C] + slots[1].before + SpellSlots(slots[1..])
  }

  function SpellSlot(s: Slot): Bytes
    decreases s, 0
  {
    Spell(s.value) + s.after
  }

  function SpellFields(fields: seq<Field>): Bytes
    requires fields != []
    decreases fields, 0
  {
    SpellField(fields[0]) + if |fields| == 1 then [] else [0x2C] + fields[1].before + SpellFields(fields[1..])
  }

  function SpellField(f: Field): Bytes
    decreases f, 0
  {
    QuotedText(f.key) + f.colonBefore + [0x3A] + f.colonAfter + Spell(f.value) + f.after
  }
}
