/**
 * Bytes, 16-bit words and the opcode field decoders of the CHIP-8 interpreter
 * (c8e_CPU.cpp). Bytes are modelled unsigned; the signed-`char` behaviour of the
 * source's `u8` is modelled separately (`NNNAsWritten`, `SignedChar`) so that the
 * difference can be exhibited.
 */
module Opcode {

  /** An unsigned 8-bit value. */
  type byte = x: int | 0 <= x < 0x100

  /** An unsigned 16-bit value (the source's `u16`). */
  type word = x: int | 0 <= x < 0x1_0000

  // ---------------------------------------------------------------------------
  // Fetching
  // ---------------------------------------------------------------------------

  /** The u16 that `*m_pc` loads on a little-endian host: the byte at the lower address is the low half. */
  function LoadHost(lo: byte, hi: byte): (r: word)
    ensures r % 0x100 == lo && r / 0x100 == hi
  {
    lo + hi * 0x100
  }

  /** Fetch's `(val << 8) | (val >> 8)` in u16 arithmetic; the halves do not overlap, so `|` is `+`. */
  function SwapBytes(w: word): (r: word)
    ensures r % 0x100 == w / 0x100 && r / 0x100 == w % 0x100
  {
    var lo, hi := w % 0x100, w / 0x100;
    assert w * 0x100 == hi * 0x1_0000 + lo * 0x100;
    assert (w * 0x100) % 0x1_0000 == lo * 0x100;
    (w * 0x100) % 0x1_0000 + w / 0x100
  }

  /** Loading a word on the host and swapping its bytes reads the two bytes big-endian. */
  lemma {:induction false} SwapBytesReadsBigEndian(a: byte, b: byte)
    ensures SwapBytes(LoadHost(a, b)) == a * 0x100 + b
  {
    var w: int := LoadHost(a, b);
    assert w * 0x100 == a * 0x100 + b * 0x1_0000;
    assert (w * 0x100) % 0x1_0000 == a * 0x100;
    assert w / 0x100 == b;
  }

  // ---------------------------------------------------------------------------
  // Decoding (c8e_CPU.cpp:36-40 and 158-161)
  // ---------------------------------------------------------------------------

  /** The four nibbles of an opcode, and the quotients and remainders the decoders take of it. */
  lemma {:induction false} Nibbles(op: word)
    ensures var c, x, y, n := op / 0x1000, op / 0x100 % 0x10, op / 0x10 % 0x10, op % 0x10;
      c < 0x10 && op == c * 0x1000 + x * 0x100 + y * 0x10 + n &&
      op % 0x100 == y * 0x10 + n && op % 0x1000 == x * 0x100 + y * 0x10 + n
  {
    var q1 := op / 0x10;
    var q2 := q1 / 0x10;
    assert op == q1 * 0x10 + op % 0x10;
    assert q1 == q2 * 0x10 + q1 % 0x10;
    assert q2 == q2 / 0x10 * 0x10 + q2 % 0x10;
    assert op / 0x100 == q2;
    assert op / 0x1000 == q2 / 0x10;
  }

  /** `n1 = (0xf000 & opcode) >> 8`: the class nibble in the high half of a byte. */
  function N1(op: word): (r: byte)
    ensures r % 0x10 == 0 && r / 0x10 == op / 0x1000
  {
    op / 0x1000 * 0x10
  }

  /** `n2 = (0x0f00 & opcode) >> 4`: the X nibble in the high half of a byte. */
  function N2(op: word): (r: byte)
    ensures r % 0x10 == 0 && r / 0x10 == op / 0x100 % 0x10
  {
    op / 0x100 % 0x10 * 0x10
  }

  /** `n3 = 0x00f0 & opcode`: the Y nibble, already in the high half of the low byte. */
  function N3(op: word): (r: byte)
    ensures r % 0x10 == 0 && r / 0x10 == op / 0x10 % 0x10
  {
    op / 0x10 % 0x10 * 0x10
  }

  /** `n4 = (0x000f & opcode) << 4`: the N nibble moved into the high half of a byte. */
  function N4(op: word): (r: byte)
    ensures r % 0x10 == 0 && r / 0x10 == op % 0x10
  {
    op % 0x10 * 0x10
  }

  /** `(b >> 4) & 0x0f`: the high nibble of a byte. */
  function HighNibble(b: byte): (r: nat)
    ensures r < 0x10 && r * 0x10 <= b < r * 0x10 + 0x10
  {
    b / 0x10 % 0x10
  }

  /** The register operand X: bits 8-11 of the opcode. */
  function X(op: word): (r: nat)
    ensures r < 0x10 && r == op / 0x100 % 0x10
  {
    HighNibble(N2(op))
  }

  /** The register operand Y: bits 4-7 of the opcode. */
  function Y(op: word): (r: nat)
    ensures r < 0x10 && r == op / 0x10 % 0x10
  {
    HighNibble(N3(op))
  }

  /** The 4-bit operand N: bits 0-3 of the opcode. */
  function N(op: word): (r: nat)
    ensures r < 0x10 && r == op % 0x10
  {
    HighNibble(N4(op))
  }

  /** The byte operand NN, `_N | n3` read unsigned: the low 8 bits of the opcode. */
  function NN(op: word): (r: byte)
    ensures r == op % 0x100
  {
    Nibbles(op);
    HighNibble(N4(op)) + N3(op)
  }

  /** The address operand NNN, `_N | n3 | (n2 << 4)` read unsigned: the low 12 bits of the opcode. */
  function NNN(op: word): (r: nat)
    ensures r < 0x1000 && r == op % 0x1000
  {
    Nibbles(op);
    HighNibble(N4(op)) + N3(op) + N2(op) * 0x10
  }

  /** The fields tile the opcode: class, X, Y and N put back together give the opcode. */
  lemma {:induction false} FieldsReassemble(op: word)
    ensures op == N1(op) / 0x10 * 0x1000 + X(op) * 0x100 + Y(op) * 0x10 + N(op)
    ensures NN(op) == Y(op) * 0x10 + N(op)
    ensures NNN(op) == X(op) * 0x100 + NN(op)
  {
    Nibbles(op);
    var c, x, y, n := op / 0x1000, X(op), Y(op), N(op);
    assert N1(op) / 0x10 == c;
    assert op == c * 0x1000 + x * 0x100 + y * 0x10 + n;
    assert NN(op) == y * 0x10 + n;
  }

  /** Decoding an opcode assembled from four nibbles gives back those nibbles. */
  lemma {:induction false} FieldsOfAssembled(c: nat, x: nat, y: nat, n: nat)
    requires c < 0x10 && x < 0x10 && y < 0x10 && n < 0x10
    ensures var op := c * 0x1000 + x * 0x100 + y * 0x10 + n;
      N1(op) == c * 0x10 && X(op) == x && Y(op) == y && N(op) == n &&
      NN(op) == y * 0x10 + n && NNN(op) == x * 0x100 + y * 0x10 + n
  {
    var op := c * 0x1000 + x * 0x100 + y * 0x10 + n;
    assert op / 0x10 == c * 0x100 + x * 0x10 + y;
    assert op / 0x100 == c * 0x10 + x;
    assert op / 0x1000 == c;
  }

  // ---------------------------------------------------------------------------
  // The decoders as written: `u8` is plain, signed `char` (c8e_CPU.h:5)
  // ---------------------------------------------------------------------------

  /** The int a byte stored in a signed `char` promotes to. */
  function SignedChar(b: byte): (r: int)
    ensures -0x80 <= r < 0x80 && (r - b) % 0x100 == 0
  {
    if b < 0x80 then b else b - 0x100
  }

  /** The 32-bit two's complement pattern of an `int` (its value modulo 2^32). */
  function ToBits(a: int): bv32
  {
    (a % 0x1_0000_0000) as bv32
  }

  /** The `int` a 32-bit two's complement pattern denotes. */
  function FromBits(b: bv32): int
  {
    if b < 0x8000_0000 then b as int else b as int - 0x1_0000_0000
  }

  /** `a | b` on 32-bit `int`s. */
  function Or(a: int, b: int): int
  {
    FromBits(ToBits(a) | ToBits(b))
  }

  /**
   * `_NNN` as the compiler evaluates it: `n3` and `n2` are signed `char`s, promoted
   * to `int` with sign extension before `|` and `<<`.
   */
  function NNNAsWritten(op: word): int
  {
    Or(Or(HighNibble(N4(op)), SignedChar(N3(op))), SignedChar(N2(op)) * 0x10)
  }

  /**
   * When Y >= 8 the sign bits of `n3` swamp the address: `ANNN` with NNN = 0x280
   * points `m_I` 128 bytes before the RAM instead of at 0x280. When X >= 8,
   * `n2 << 4` is negative: `1800` jumps to -2048 instead of 0x800.
   */
  lemma SignExtendedAddress()
    ensures NNNAsWritten(0xA280) == -0x80 && NNN(0xA280) == 0x280
    ensures NNNAsWritten(0x1800) == -0x800 && NNN(0x1800) == 0x800
  {
    SignExtendedY();
    SignExtendedX();
    assert 0xA280 % 0x1000 == 0x280 && 0x1800 % 0x1000 == 0x800;
  }

  /** The Y >= 8 half of `SignExtendedAddress`. */
  lemma SignExtendedY()
    ensures NNNAsWritten(0xA280) == -0x80
  {
    assert N3(0xA280) == 0x80 && N2(0xA280) == 0x20 && N4(0xA280) == 0;
    assert HighNibble(0) == 0 && SignedChar(0x80) == -0x80 && SignedChar(0x20) == 0x20;
    assert NNNAsWritten(0xA280) == Or(Or(0, -0x80), 0x200);
    SignBitsFillY();
  }

  /** The X >= 8 half of `SignExtendedAddress`. */
  lemma SignExtendedX()
    ensures NNNAsWritten(0x1800) == -0x800
  {
    assert N3(0x1800) == 0 && N2(0x1800) == 0x80 && N4(0x1800) == 0;
    assert HighNibble(0) == 0 && SignedChar(0) == 0 && SignedChar(0x80) == -0x80;
    assert NNNAsWritten(0x1800) == Or(Or(0, 0), -0x800);
    SignBitsFillX();
  }

  /** The 32-bit patterns that appear in `SignExtendedY`. */
  lemma SignBitsFillY()
    ensures Or(0, -0x80) == -0x80 && Or(-0x80, 0x200) == -0x80
  {
    assert -0x80 % 0x1_0000_0000 == 0xFFFF_FF80;
    assert ToBits(0) == 0 && ToBits(0x200) == 0x200 && ToBits(-0x80) == 0xFFFF_FF80;
    OrStep(ToBits(0), ToBits(-0x80));
    OrStep(ToBits(-0x80), ToBits(0x200));
    assert FromBits(0xFFFF_FF80) == -0x80;
  }

  /** The 32-bit patterns that appear in `SignExtendedX`. */
  lemma SignBitsFillX()
    ensures Or(0, 0) == 0 && Or(0, -0x800) == -0x800
  {
    assert -0x800 % 0x1_0000_0000 == 0xFFFF_F800;
    assert ToBits(0) == 0 && ToBits(-0x800) == 0xFFFF_F800;
    OrStep(ToBits(0), ToBits(0));
    OrStep(ToBits(0), ToBits(-0x800));
    assert FromBits(0) == 0 && FromBits(0xFFFF_F800) == -0x800;
  }

  /** The `|` steps of `SignBitsFillY` and `SignBitsFillX`: each leaves the pattern with the sign bits. */
  lemma OrStep(a: bv32, b: bv32)
    requires (a == 0 && b in {0, 0xFFFF_FF80, 0xFFFF_F800}) || (a == 0xFFFF_FF80 && b == 0x200)
    ensures a | b == (if b == 0x200 then a else b)
  {
  }
}
