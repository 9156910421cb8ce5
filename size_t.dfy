/**
 Unsigned machine words of a fixed width, as C++ defines `std::size_t`:
 values are the naturals below 2^WordBits, addition wraps modulo 2^WordBits,
 and `&` works bit by bit.
 */
module SizeT {

  /** The width of `std::size_t`, fixed here rather than taken from the platform. */
  const WordBits: nat := 64

  /** 2^WordBits: the number of distinct `std::size_t` values. */
  const Modulus: nat := 0x1_0000_0000_0000_0000

  /** `std::numeric_limits<std::size_t>::max()`. */
  const MaxWord: nat := Modulus - 1

  type Word = w: nat | w < Modulus

  function Pow2(n: nat): (r: nat)
    ensures r >= 1
  {
    if n == 0 then 1 else 2 * Pow2(n - 1)
  }

  lemma {:induction false} Pow2Add(a: nat, b: nat)
    ensures Pow2(a + b) == Pow2(a) * Pow2(b)
  {
    if a != 0 {
      Pow2Add(a - 1, b);
    }
  }

  /** The modulus literal is 2^WordBits, so MaxWord is the word whose WordBits bits are all set. */
  lemma ModulusIsPow2()
    ensures Pow2(WordBits) == Modulus
  {
    assert Pow2(8) == 0x100;
    Pow2Add(8, 8);
    Pow2Add(16, 16);
    Pow2Add(32, 32);
  }

  /** Unsigned addition: the mathematical sum, reduced modulo 2^WordBits. */
  function Add(a: Word, b: Word): (r: Word)
    ensures a + b < Modulus ==> r == a + b
    ensures a + b >= Modulus ==> r == a + b - Modulus
  {
    (a + b) % Modulus
  }

  /** Bitwise AND of two naturals, one binary digit at a time. */
  function BitAnd(a: nat, b: nat): (r: nat)
    ensures r <= a && r <= b
  {
    if a == 0 || b == 0 then 0
    else 2 * BitAnd(a / 2, b / 2) + (if a % 2 == 1 && b % 2 == 1 then 1 else 0)
  }

  /** Whether bit i (counting from the least significant, 0) of x is set. */
  predicate TestBit(x: nat, i: nat)
  {
    if i == 0 then x % 2 == 1 else TestBit(x / 2, i - 1)
  }

  lemma {:induction false} ZeroHasNoBits(i: nat)
    ensures !TestBit(0, i)
  {
    if i != 0 {
      ZeroHasNoBits(i - 1);
    }
  }

  /** Bit i of `a & b` is set exactly when bit i is set in both a and b. */
  lemma {:induction false} BitAndTestsBits(a: nat, b: nat, i: nat)
    ensures TestBit(BitAnd(a, b), i) <==> TestBit(a, i) && TestBit(b, i)
  {
    if a == 0 || b == 0 {
      ZeroHasNoBits(i);
    } else if i != 0 {
      var r := BitAnd(a, b);
      assert r / 2 == BitAnd(a / 2, b / 2);
      BitAndTestsBits(a / 2, b / 2, i - 1);
    }
  }

  /** Masking a value of n bits with n one-bits leaves it unchanged. */
  lemma {:induction false} BitAndAllOnes(x: nat, n: nat)
    requires x < Pow2(n)
    ensures BitAnd(x, Pow2(n) - 1) == x
  {
    if x != 0 {
      assert n != 0;
      assert (Pow2(n) - 1) / 2 == Pow2(n - 1) - 1;
      assert (Pow2(n) - 1) % 2 == 1;
      BitAndAllOnes(x / 2, n - 1);
    }
  }

  /** AND with `numeric_limits<size_t>::max()` is the identity on every word. */
  lemma MaskWithMaxIsIdentity(w: Word)
    ensures BitAnd(w, MaxWord) == w
  {
    ModulusIsPow2();
    BitAndAllOnes(w, WordBits);
  }
}
