/** Machine words of the trusted 64-bit host, and the bit-level arithmetic the runtime uses. */
module Machine {

  const UINT32_MAX: nat := 0xFFFF_FFFF
  const UINTPTR_MAX: nat := 0xFFFF_FFFF_FFFF_FFFF
  const SIZE_MAX: nat := 0xFFFF_FFFF_FFFF_FFFF
  const ALIGNMENT: nat := 8

  /** `uintptr_t`, `size_t` and `uint64_t`: a value of this type has not wrapped. */
  type Word = n: nat | n <= 0xFFFF_FFFF_FFFF_FFFF

  /** `uint32_t` */
  type Word32 = n: nat | n <= 0xFFFF_FFFF

  type Byte = n: nat | n < 256

  datatype Option<+T> = None | Some(value: T)

  function Pow2(w: nat): (r: nat)
    ensures r > 0
  {
    if w == 0 then 1 else 2 * Pow2(w - 1)
  }

  /** Bitwise `&`, one bit at a time from the least significant end. */
  function BitAnd(x: nat, y: nat): nat {
    if x == 0 || y == 0 then 0
    else 2 * BitAnd(x / 2, y / 2) + (x % 2) * (y % 2)
  }

  /** Bitwise `~` on words of `w` bits. */
  function BitNot(x: nat, w: nat): nat {
    if w == 0 then 0 else 2 * BitNot(x / 2, w - 1) + 1 - x % 2
  }

  /** The least multiple of the alignment that is not below `size`. */
  function RoundUp(size: nat): (r: nat)
    ensures size <= r < size + 8 && r % 8 == 0
  {
    (size + 7) / 8 * 8
  }

  lemma {:induction false} ComplementOf(x: nat, w: nat)
    requires x < Pow2(w)
    ensures BitNot(x, w) == Pow2(w) - 1 - x
  {
    if w > 0 {
      ComplementOf(x / 2, w - 1);
    }
  }

  lemma {:induction false} AndAllOnes(x: nat, w: nat)
    requires x < Pow2(w)
    ensures BitAnd(x, Pow2(w) - 1) == x
  {
    if w > 0 {
      AndAllOnes(x / 2, w - 1);
      assert (Pow2(w) - 1) / 2 == Pow2(w - 1) - 1;
      assert (Pow2(w) - 1) % 2 == 1 || w == 0;
    }
  }

  lemma Pow2Is64()
    ensures Pow2(61) == 0x2000_0000_0000_0000 && Pow2(64) == 0x1_0000_0000_0000_0000
  {
    assert Pow2(10) == 1024;
    assert Pow2(20) == 0x10_0000;
    assert Pow2(30) == 0x4000_0000;
    assert Pow2(40) == 0x100_0000_0000;
    assert Pow2(50) == 0x4_0000_0000_0000;
    assert Pow2(60) == 0x1000_0000_0000_0000;
  }

  /** Masking with `~(8 - 1)` clears the remainder modulo 8, for every 64-bit word. */
  lemma MaskClearsRemainder(x: Word)
    ensures BitAnd(x, BitNot(7, 64)) == x - x % 8
  {
    Pow2Is64();
    ComplementOf(7, 64);
    var ones := Pow2(61) - 1;
    assert BitNot(7, 64) == 8 * ones;
    AndAllOnes(x / 8, 61);
    AndShifted(x, ones);
  }

  lemma AndShifted(x: nat, y: nat)
    ensures BitAnd(x, 8 * y) == 8 * BitAnd(x / 8, y)
  {
    AndEven(x, 4 * y);
    AndEven(x / 2, 2 * y);
    AndEven(x / 4, y);
    assert x / 2 / 2 == x / 4 && x / 4 / 2 == x / 8;
  }

  lemma AndEven(x: nat, y: nat)
    ensures BitAnd(x, 2 * y) == 2 * BitAnd(x / 2, y)
  {
    if x > 0 && y > 0 {
      assert 2 * y / 2 == y && 2 * y % 2 == 0;
    }
  }

  lemma MaskRoundsUp(size: Word)
    requires size <= SIZE_MAX - 7
    ensures BitAnd(size + 7, BitNot(7, 64)) == RoundUp(size)
  {
    MaskClearsRemainder(size + 7);
  }

  /** `aligned_size`: the round-up of `size`, or nothing when adding 7 would wrap. */
  method AlignedSize(size: Word) returns (r: Option<Word>)
    ensures r == if size <= SIZE_MAX - 7 then Some(RoundUp(size)) else None
  {
    if size > SIZE_MAX - (ALIGNMENT - 1) {
      return None;
    }
    MaskRoundsUp(size);
    var aligned: Word := BitAnd(size + (ALIGNMENT - 1), BitNot(ALIGNMENT - 1, 64));
    return if aligned >= size then Some(aligned) else None;
  }
}
