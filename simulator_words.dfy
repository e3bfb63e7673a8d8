/// The machine words of Simulator/simulator.c: C `int` registers with 32-bit
/// two's-complement wrap-around, the `unsigned int` program counter, and the
/// 1024-byte stack in which an `int` is stored as four bytes, least
/// significant first (the byte order of the x86 hosts the simulator runs on).
module SimulatorWords {
  const TWO_32: int := 0x1_0000_0000
  const INT_MAX: int := 0x7FFF_FFFF
  const INT_MIN: int := -0x8000_0000

  /** A C `int`. */
  type Int32 = x: int | INT_MIN <= x <= INT_MAX

  /** A C `unsigned int`. */
  type U32 = x: int | 0 <= x < TWO_32

  /** An `unsigned char`. */
  type Byte = x: int | 0 <= x < 256

  // ---------------------------------------------------------------------------
  // Conversions
  // ---------------------------------------------------------------------------

  /** The `int` that 32-bit arithmetic leaves for the exact result x: the one congruent to x modulo 2^32. */
  function Wrap(x: int): (r: Int32)
    ensures (r - x) % TWO_32 == 0
    ensures INT_MIN <= x <= INT_MAX ==> r == x
  {
    var u := x % TWO_32;
    Multiple(x / TWO_32);
    Multiple(x / TWO_32 + 1);
    if u > INT_MAX then u - TWO_32 else u
  }

  /** `(unsigned)v`: the same 32 bits read as unsigned. */
  function Unsigned(v: Int32): (r: U32)
    ensures (r - v) % TWO_32 == 0
    ensures v >= 0 ==> r == v
  {
    Multiple(1);
    if v < 0 then v + TWO_32 else v
  }

  /** `(int)u`: the same 32 bits read as signed. */
  function Signed(u: U32): (r: Int32)
    ensures (r - u) % TWO_32 == 0
    ensures u <= INT_MAX ==> r == u
  {
    Multiple(-1);
    if u > INT_MAX then u - TWO_32 else u
  }

  /** `unsigned int` arithmetic: the exact result reduced modulo 2^32. */
  function U32Of(x: int): (r: U32)
    ensures (r - x) % TWO_32 == 0
    ensures 0 <= x < TWO_32 ==> r == x
  {
    Multiple(-(x / TWO_32));
    x % TWO_32
  }

  /** A multiple of 2^32 leaves no remainder. */
  lemma Multiple(k: int)
    ensures (TWO_32 * k) % TWO_32 == 0
  {
  }

  /** Reading a signed word as unsigned and back gives the word. */
  lemma SignedUnsigned(v: Int32)
    ensures Signed(Unsigned(v)) == v
  {
  }

  /** Reading an unsigned word as signed and back gives the word. */
  lemma UnsignedSigned(u: U32)
    ensures Unsigned(Signed(u)) == u
  {
  }

  /** Two words congruent modulo 2^32 are equal: Wrap is the only `int` congruent to its argument. */
  lemma WrapUnique(x: int, v: Int32)
    requires (v - x) % TWO_32 == 0
    ensures Wrap(x) == v
  {
    var r := Wrap(x);
    DiffMultiple(r - x, v - x);
  }

  /** Two numbers with the same remainder modulo 2^32 differ by a multiple of 2^32. */
  lemma DiffMultiple(a: int, b: int)
    requires a % TWO_32 == 0 && b % TWO_32 == 0
    ensures (a - b) % TWO_32 == 0
  {
    assert a - b == TWO_32 * (a / TWO_32 - b / TWO_32);
    Multiple(a / TWO_32 - b / TWO_32);
  }

  // ---------------------------------------------------------------------------
  // Flag bits of register 16
  // ---------------------------------------------------------------------------

  /** `(w & f) == f` for a one-bit mask f, on the word's 32 bits. */
  function HasBit(w: Int32, f: nat): bool
    requires f > 0
  {
    Unsigned(w) / f % 2 == 1
  }

  /** The word cmpl leaves in register 16: CF is 0x1, ZF 0x40, SF 0x80 and OF 0x800. */
  function Flags(cf: bool, zf: bool, sf: bool, of: bool): (w: Int32)
    ensures HasBit(w, 0x1) == cf && HasBit(w, 0x40) == zf && HasBit(w, 0x80) == sf && HasBit(w, 0x800) == of
    ensures !HasBit(w, 0x400)
  {
    (if cf then 0x1 else 0) + (if zf then 0x40 else 0) + (if sf then 0x80 else 0) + (if of then 0x800 else 0)
  }

  // ---------------------------------------------------------------------------
  // The stack
  // ---------------------------------------------------------------------------

  /** 1024-byte stack. */
  const STACK_SIZE: int := 1024

  /** A four-byte `int` at address a lies inside the stack: 0 <= a <= 1020. */
  predicate InStack(mem: seq<Byte>, a: int)
  {
    0 <= a && a + 4 <= |mem|
  }

  /** `*(int*)&memory[a]`. */
  function LoadWord(mem: seq<Byte>, a: int): Int32
    requires InStack(mem, a)
  {
    Signed(mem[a] as int + 0x100 * (mem[a + 1] as int) + 0x1_0000 * (mem[a + 2] as int) + 0x100_0000 * (mem[a + 3] as int))
  }

  /** `*(int*)&memory[a] = v`: the four bytes at a change and no other byte does. */
  function StoreWord(mem: seq<Byte>, a: int, v: Int32): (r: seq<Byte>)
    requires InStack(mem, a)
    ensures |r| == |mem|
    ensures forall j :: 0 <= j < |mem| && !(a <= j < a + 4) ==> r[j] == mem[j]
  {
    var u := Unsigned(v);
    var b0: Byte, b1: Byte, b2: Byte, b3: Byte := u % 0x100, u / 0x100 % 0x100, u / 0x1_0000 % 0x100, u / 0x100_0000;
    mem[a := b0][a + 1 := b1][a + 2 := b2][a + 3 := b3]
  }

  /** A word stored is the word loaded back. */
  lemma {:induction false} LoadStore(mem: seq<Byte>, a: int, v: Int32)
    requires InStack(mem, a)
    ensures LoadWord(StoreWord(mem, a, v), a) == v
  {
    var u := Unsigned(v);
    var m := StoreWord(mem, a, v);
    assert m[a] == u % 0x100 && m[a + 1] == u / 0x100 % 0x100;
    assert m[a + 2] == u / 0x1_0000 % 0x100 && m[a + 3] == u / 0x100_0000;
    Bytes(u);
    SignedUnsigned(v);
  }

  /** An unsigned word is the sum of its four bytes. */
  lemma Bytes(u: U32)
    ensures u % 0x100 + 0x100 * (u / 0x100 % 0x100) + 0x1_0000 * (u / 0x1_0000 % 0x100) + 0x100_0000 * (u / 0x100_0000) == u
  {
    var q1, q2, q3 := u / 0x100, u / 0x1_0000, u / 0x100_0000;
    assert q2 == q1 / 0x100;
    assert q3 == q2 / 0x100;
  }

  /** A store leaves every word that does not overlap it as it was. */
  lemma LoadStoreApart(mem: seq<Byte>, a: int, b: int, v: Int32)
    requires InStack(mem, a) && InStack(mem, b) && (a + 4 <= b || b + 4 <= a)
    ensures LoadWord(StoreWord(mem, a, v), b) == LoadWord(mem, b)
  {
    var m := StoreWord(mem, a, v);
    assert m[b] == mem[b] && m[b + 1] == mem[b + 1] && m[b + 2] == mem[b + 2] && m[b + 3] == mem[b + 3];
  }
}
