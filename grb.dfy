/**
  The 32-bit colour word of the WS2812 driver.

  `fill_matrix` packs an 8-bit (r, g, b) colour into a `uint32_t` in GRB
  order: green in the top byte, red below it, blue below that and a zero low
  byte. `put_pixel` shifts that word left by 8 once more before it hands it
  to the PIO state machine. Both are C operators on `uint32_t`, so they are
  modelled on `bv32`, where `<<` discards the bits shifted out exactly as the
  C shift does. `Unsigned` reads a word as the number it denotes, so that
  the facts about the words can also be stated in ordinary arithmetic.
 */
module Grb {

  /** An 8-bit-per-channel colour: the `uint8_t` arguments of `fill_matrix`. */
  datatype Rgb = Rgb(r: bv8, g: bv8, b: bv8)

  /** Byte `k` of a 32-bit word, byte 0 being the least significant. */
  function ByteOf(w: bv32, k: nat): bv8
    requires k < 4
  {
    match k
    case 0 => (w & 0xFF) as bv8
    case 1 => ((w >> 8) & 0xFF) as bv8
    case 2 => ((w >> 16) & 0xFF) as bv8
    case _ => (w >> 24) as bv8
  }

  /** The unsigned value of a word, read as four base-256 digits. */
  function Unsigned(w: bv32): (n: nat)
    ensures n < 0x1_0000_0000
  {
    ByteOf(w, 3) as nat * 0x100_0000 + ByteOf(w, 2) as nat * 0x1_0000
      + ByteOf(w, 1) as nat * 0x100 + ByteOf(w, 0) as nat
  }

  /** A word is determined by its four bytes. */
  lemma {:induction false} BytesDetermineWord(w: bv32, v: bv32)
    requires forall k :: 0 <= k < 4 ==> ByteOf(w, k) == ByteOf(v, k)
    ensures w == v
  {
    assert ByteOf(w, 0) == ByteOf(v, 0) && ByteOf(w, 1) == ByteOf(v, 1);
    assert ByteOf(w, 2) == ByteOf(v, 2) && ByteOf(w, 3) == ByteOf(v, 3);
  }

  /** Distinct words have distinct unsigned values. */
  lemma {:induction false} UnsignedInjective(w: bv32, v: bv32)
    ensures Unsigned(w) == Unsigned(v) <==> w == v
  {
    if Unsigned(w) == Unsigned(v) {
      var w3, w2, w1, w0 := ByteOf(w, 3), ByteOf(w, 2), ByteOf(w, 1), ByteOf(w, 0);
      var v3, v2, v1, v0 := ByteOf(v, 3), ByteOf(v, 2), ByteOf(v, 1), ByteOf(v, 0);
      DigitsUnique(w3 as nat, w2 as nat, w1 as nat, w0 as nat, v3 as nat, v2 as nat, v1 as nat, v0 as nat);
      ByteValueInjective(w3, v3);
      ByteValueInjective(w2, v2);
      ByteValueInjective(w1, v1);
      ByteValueInjective(w0, v0);
      BytesDetermineWord(w, v);
    }
  }

  /** Distinct bytes have distinct values. */
  lemma ByteValueInjective(x: bv8, y: bv8)
    requires x as nat == y as nat
    ensures x == y
  {
  }

  /** Four base-256 digits are determined by the number they spell. */
  lemma {:induction false} DigitsUnique(a3: nat, a2: nat, a1: nat, a0: nat, b3: nat, b2: nat, b1: nat, b0: nat)
    requires a3 < 0x100 && a2 < 0x100 && a1 < 0x100 && a0 < 0x100
    requires b3 < 0x100 && b2 < 0x100 && b1 < 0x100 && b0 < 0x100
    requires a3 * 0x100_0000 + a2 * 0x1_0000 + a1 * 0x100 + a0 == b3 * 0x100_0000 + b2 * 0x1_0000 + b1 * 0x100 + b0
    ensures a3 == b3 && a2 == b2 && a1 == b1 && a0 == b0
  {
    LowDigitUnique(a3 * 0x1_0000 + a2 * 0x100 + a1, a0, b3 * 0x1_0000 + b2 * 0x100 + b1, b0);
    LowDigitUnique(a3 * 0x100 + a2, a1, b3 * 0x100 + b2, b1);
    LowDigitUnique(a3, a2, b3, b2);
  }

  /** The low base-256 digit of a number, and the rest, are unique. */
  lemma LowDigitUnique(ha: nat, la: nat, hb: nat, lb: nat)
    requires la < 0x100 && lb < 0x100
    requires ha * 0x100 + la == hb * 0x100 + lb
    ensures ha == hb && la == lb
  {
  }

  /**
    The GRB word of `fill_matrix`: `g << 24 | r << 16 | b << 8`. Byte 3 is
    green, byte 2 red, byte 1 blue and byte 0 is always zero.
   */
  function PackGrb(c: Rgb): (w: bv32)
    ensures ByteOf(w, 3) == c.g && ByteOf(w, 2) == c.r && ByteOf(w, 1) == c.b
    ensures ByteOf(w, 0) == 0
  {
    (c.g as bv32 << 24) | (c.r as bv32 << 16) | (c.b as bv32 << 8)
  }

  /** Reads the colour back out of a GRB word; the low byte is ignored. */
  function UnpackGrb(w: bv32): Rgb
  {
    Rgb(ByteOf(w, 2), ByteOf(w, 3), ByteOf(w, 1))
  }

  /** A word `PackGrb` can produce: its low byte is zero. */
  predicate IsGrbWord(w: bv32)
  {
    ByteOf(w, 0) == 0
  }

  /** Decoding a packed colour gives the colour back. */
  lemma UnpackPack(c: Rgb)
    ensures IsGrbWord(PackGrb(c))
    ensures UnpackGrb(PackGrb(c)) == c
  {
  }

  /** Every word with a zero low byte is the packing of its own decoding. */
  lemma {:induction false} PackUnpack(w: bv32)
    requires IsGrbWord(w)
    ensures PackGrb(UnpackGrb(w)) == w
  {
    BytesDetermineWord(PackGrb(UnpackGrb(w)), w);
  }

  /** Packing is injective: two colours share a word only if they are equal. */
  lemma PackGrbInjective(c: Rgb, d: Rgb)
    ensures PackGrb(c) == PackGrb(d) <==> c == d
  {
  }

  /** As a number, the packed word is `g * 2^24 + r * 2^16 + b * 2^8`. */
  lemma PackGrbValue(c: Rgb)
    ensures Unsigned(PackGrb(c))
         == c.g as nat * 0x100_0000 + c.r as nat * 0x1_0000 + c.b as nat * 0x100
  {
  }

  /**
    The word `put_pixel` writes to the FIFO: its argument shifted left by 8
    in `uint32_t` arithmetic. The top byte of the argument is shifted out.
   */
  function ShiftForPio(w: bv32): (e: bv32)
    ensures ByteOf(e, 3) == ByteOf(w, 2) && ByteOf(e, 2) == ByteOf(w, 1)
    ensures ByteOf(e, 1) == ByteOf(w, 0) && ByteOf(e, 0) == 0
  {
    w << 8
  }

  /** As a number, the shift is multiplication by 256 reduced modulo 2^32. */
  lemma ShiftForPioValue(w: bv32)
    ensures Unsigned(ShiftForPio(w)) == (Unsigned(w) * 0x100) % 0x1_0000_0000
  {
  }

  /**
    What reaches the FIFO for a packed colour: red in the top byte, blue
    below it, and zero in the low sixteen bits. Green is shifted out.
   */
  lemma EmittedWord(c: Rgb)
    ensures ShiftForPio(PackGrb(c)) == (c.r as bv32 << 24) | (c.b as bv32 << 16)
    ensures Unsigned(ShiftForPio(PackGrb(c))) == c.r as nat * 0x100_0000 + c.b as nat * 0x1_0000
    ensures ByteOf(ShiftForPio(PackGrb(c)), 1) == 0 && ByteOf(ShiftForPio(PackGrb(c)), 0) == 0
  {
  }

  /** Two colours give the same emitted word exactly when their red and blue agree. */
  lemma EmittedWordSameIff(c: Rgb, d: Rgb)
    ensures ShiftForPio(PackGrb(c)) == ShiftForPio(PackGrb(d)) <==> c.r == d.r && c.b == d.b
  {
  }
}
