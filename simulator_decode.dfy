/// Instruction words of Simulator/simulator.c.  A 32-bit word carries the
/// opcode in bits 31-27, the first register in bits 26-22, the second register
/// in bits 21-17 and a signed 16-bit immediate in bits 15-0; bit 16 is unused.
module SimulatorDecode {
  import opened SimulatorWords

  /** An `int16_t`. */
  type Int16 = x: int | -0x8000 <= x < 0x8000

  /** instruction_t: the decoded fields of one instruction word. */
  datatype Instruction = Instruction(opcode: nat, first: nat, second: nat, immediate: Int16)

  /** The ranges of the fields: five bits each for the opcode and the registers. */
  predicate WellFormed(i: Instruction)
  {
    i.opcode < 32 && i.first < 32 && i.second < 32
  }

  /** `int16_t immediate = word`: the low 16 bits read as signed. */
  function Low16(x: nat): (r: Int16)
    requires x < 0x1_0000
    ensures (r - x) % 0x1_0000 == 0
  {
    if x >= 0x8000 then x - 0x1_0000 else x
  }

  /** One iteration of decode_instructions' loop: shifts and masks of the raw word. */
  function Decode(w: U32): (i: Instruction)
    ensures WellFormed(i)
  {
    Instruction(w / 0x800_0000, w / 0x40_0000 % 32, w / 0x2_0000 % 32, Low16(w % 0x1_0000))
  }

  /** The word that decodes to i, with bit 16 clear. */
  function Encode(i: Instruction): (w: U32)
    requires WellFormed(i)
  {
    i.opcode * 0x800_0000 + i.first * 0x40_0000 + i.second * 0x2_0000 + i.immediate % 0x1_0000
  }

  /** Every well-formed instruction survives encoding and decoding. */
  lemma DecodeEncode(i: Instruction)
    requires WellFormed(i)
    ensures Decode(Encode(i)) == i
  {
    var w := Encode(i);
    var q := i.opcode * 0x400 + i.first * 0x20 + i.second;
    var low := i.immediate % 0x1_0000;
    assert w == q * 0x2_0000 + low;
    Split17(q, low);
    HighBits(w);
    Digits(w / 0x800_0000, w / 0x40_0000 % 32, w / 0x2_0000 % 32, i.opcode, i.first, i.second);
    assert Low16(w % 0x1_0000) == i.immediate;
  }

  /** Bits 17 and up of `q * 2^17 + low` are q, and bits 15-0 are low. */
  lemma Split17(q: nat, low: nat)
    requires low < 0x1_0000
    ensures (q * 0x2_0000 + low) / 0x2_0000 == q && (q * 0x2_0000 + low) % 0x1_0000 == low
  {
    var x := q * 0x2_0000 + low;
    DivUnique(x, 0x2_0000, q, low);
    DivUnique(x, 0x1_0000, 2 * q, low);
  }

  /** Quotient and remainder are unique: `q * n + r` with `0 <= r < n` divides by n into q and r. */
  lemma DivUnique(x: int, n: int, q: int, r: int)
    requires 0 <= r < n && x == q * n + r
    ensures x / n == q && x % n == r
  {
    MulApart(x / n - q, n);
    assert (x / n - q) * n == r - x % n;
  }

  /** A non-zero multiple of a positive n is at least n away from 0. */
  lemma MulApart(d: int, n: int)
    requires n > 0
    ensures d >= 1 ==> d * n >= n
    ensures d <= -1 ==> d * n <= -n
  {
  }

  /** Base-32 digits are unique. */
  lemma Digits(a: int, b: int, c: int, x: int, y: int, z: int)
    requires 0 <= b < 32 && 0 <= c < 32 && 0 <= y < 32 && 0 <= z < 32
    requires a * 0x400 + b * 0x20 + c == x * 0x400 + y * 0x20 + z
    ensures a == x && b == y && c == z
  {
  }

  /** Decoding keeps every bit of the word but bit 16. */
  lemma EncodeDecode(w: U32)
    ensures Encode(Decode(w)) == w - w / 0x1_0000 % 2 * 0x1_0000
  {
    var i := Decode(w);
    assert i.immediate % 0x1_0000 == w % 0x1_0000;
    HighBits(w);
    LowBits(w);
  }

  /** Bits 31-17 are the opcode and the two register fields. */
  lemma HighBits(w: U32)
    ensures w / 0x2_0000 == w / 0x800_0000 * 0x400 + w / 0x40_0000 % 32 * 0x20 + w / 0x2_0000 % 32
  {
    var q := w / 0x2_0000;
    assert q / 32 == w / 0x40_0000;
    assert q / 32 / 32 == w / 0x800_0000;
  }

  /** A word is its bits 31-17, bit 16 and bits 15-0. */
  lemma LowBits(w: U32)
    ensures w == w / 0x2_0000 * 0x2_0000 + w / 0x1_0000 % 2 * 0x1_0000 + w % 0x1_0000
  {
    var h := w / 0x1_0000;
    assert w / 0x2_0000 == h / 2;
  }
}
