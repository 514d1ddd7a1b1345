/** 64-bit machine words as numbers below 2^64, with the bit operations spelled out. */
module Words {
  const WORD: nat := 0x1_0000_0000_0000_0000
  const WORD32: nat := 0x1_0000_0000
  const SIGN: nat := 0x8000_0000_0000_0000

  function Pow2(n: nat): (r: nat)
    ensures r > 0
  {
    if n == 0 then 1 else 2 * Pow2(n - 1)
  }

  function BitAnd(a: nat, b: nat): nat {
    if a == 0 || b == 0 then 0 else 2 * BitAnd(a / 2, b / 2) + if a % 2 == 1 && b % 2 == 1 then 1 else 0
  }

  function BitOr(a: nat, b: nat): nat
    decreases a + b
  {
    if a == 0 then b else if b == 0 then a
    else 2 * BitOr(a / 2, b / 2) + if a % 2 == 1 || b % 2 == 1 then 1 else 0
  }

  function BitXor(a: nat, b: nat): nat
    decreases a + b
  {
    if a == 0 then b else if b == 0 then a
    else 2 * BitXor(a / 2, b / 2) + if a % 2 != b % 2 then 1 else 0
  }

  lemma {:induction false} BitAndBelow(a: nat, b: nat)
    ensures BitAnd(a, b) <= a && BitAnd(a, b) <= b
  {
    if a != 0 && b != 0 {
      BitAndBelow(a / 2, b / 2);
    }
  }

  /** Joining bits never leaves the smallest power of two above both. */
  lemma {:induction false} BitOrBelow(a: nat, b: nat, k: nat)
    requires a < Pow2(k) && b < Pow2(k)
    ensures BitOr(a, b) < Pow2(k) && BitXor(a, b) < Pow2(k)
    decreases k
  {
    if a != 0 && b != 0 {
      BitOrBelow(a / 2, b / 2, k - 1);
    }
  }

  lemma {:induction false} Pow2Grows(a: nat, b: nat)
    requires a <= b
    ensures Pow2(a) <= Pow2(b)
    decreases b
  {
    if a < b {
      Pow2Grows(a, b - 1);
    }
  }

  lemma {:induction false} Pow2Sum(a: nat, b: nat)
    ensures Pow2(a + b) == Pow2(a) * Pow2(b)
    decreases a
  {
    if a > 0 {
      Pow2Sum(a - 1, b);
      assert Pow2(a + b) == 2 * Pow2(a - 1 + b);
      assert 2 * (Pow2(a - 1) * Pow2(b)) == (2 * Pow2(a - 1)) * Pow2(b);
    }
  }

  lemma HalfWordIsPow2()
    ensures Pow2(16) == 0x1_0000 && Pow2(32) == WORD32
  {
    assert Pow2(4) == 16;
    Pow2Sum(4, 4);
    Pow2Sum(8, 8);
    Pow2Sum(16, 16);
  }

  lemma WordIsPow2()
    ensures WORD == Pow2(64) && WORD32 == Pow2(32) && SIGN == Pow2(63)
  {
    HalfWordIsPow2();
    Pow2Sum(32, 32);
    assert WORD32 * WORD32 == WORD;
    SignIsHalf(Pow2(64), Pow2(63));
  }

  lemma SignIsHalf(word: nat, half: nat)
    requires word == WORD && word == 2 * half
    ensures half == SIGN
  {
  }

  function Signed(a: nat): int {
    if a < SIGN then a else a - WORD
  }

  /** The 64-bit pattern of an integer. */
  function Wrap(x: int): (r: nat)
    ensures r < WORD
  {
    x % WORD
  }

  /** The number of significant bits. */
  function Bits(a: nat): nat {
    if a == 0 then 0 else 1 + Bits(a / 2)
  }

  lemma {:induction false} BitsBound(a: nat)
    ensures a < Pow2(Bits(a)) && (a > 0 ==> Pow2(Bits(a) - 1) <= a)
  {
    if a > 0 {
      BitsBound(a / 2);
    }
  }

  lemma {:induction false} BitsOfWord(a: nat, k: nat)
    requires a < Pow2(k)
    ensures Bits(a) <= k
    decreases k
  {
    if a > 0 {
      BitsOfWord(a / 2, k - 1);
    }
  }

  /** `m` is the smallest number that is all ones in binary and not below `n`. */
  ghost predicate LowMask(m: nat, n: nat) {
    (exists k: nat :: m == Pow2(k) - 1) && n <= m && (m == 0 || m < 2 * n)
  }

  /** All ones up to the highest set bit: `u64::MAX >> leading_zeros`. */
  function EnclosingLowMask(value: nat): (r: nat)
    requires value < WORD
    ensures r < WORD && LowMask(r, value)
  {
    EnclosingBits(value);
    if value == 0 then assert 0 == Pow2(0) - 1; 0 else (WORD - 1) / Pow2(64 - Bits(value))
  }

  /** There is only one such number. */
  lemma OneLowMask(m: nat, m': nat, n: nat)
    requires LowMask(m, n) && LowMask(m', n)
    ensures m == m'
  {
    LowMaskGrows(m, n, m', n);
    LowMaskGrows(m', n, m, n);
  }

  lemma LowMaskGrows(m: nat, n: nat, m': nat, n': nat)
    requires LowMask(m, n) && LowMask(m', n') && n <= n'
    ensures m <= m'
  {
    var k: nat :| m == Pow2(k) - 1;
    var j: nat :| m' == Pow2(j) - 1;
    if j < k {
      Pow2Grows(j + 1, k);
      assert Pow2(j + 1) == 2 * Pow2(j);
    } else {
      Pow2Grows(k, j);
    }
  }

  lemma EnclosingBits(value: nat)
    requires value < WORD
    ensures Bits(value) <= 64 && (WORD - 1) / Pow2(64 - Bits(value)) == Pow2(Bits(value)) - 1
    ensures value <= Pow2(Bits(value)) - 1 < WORD && (value > 0 ==> Pow2(Bits(value)) <= 2 * value)
  {
    BitsOfWord64(value);
    BitsBound(value);
    MaskShift(64 - Bits(value));
    WordIsPow2();
    Pow2Grows(Bits(value), 64);
  }

  lemma BitsOfWord64(value: nat)
    requires value < WORD
    ensures Bits(value) <= 64
  {
    WordIsPow2();
    BitsOfWord(value, 64);
  }

  /** Shifting the all-ones word right leaves the shorter all-ones word. */
  lemma MaskShift(s: nat)
    requires s <= 64
    ensures (WORD - 1) / Pow2(s) == Pow2(64 - s) - 1
  {
    WordIsPow2();
    Pow2Sum(s, 64 - s);
    MaskDivision(Pow2(s), Pow2(64 - s));
  }

  lemma MaskDivision(p: nat, q: nat)
    requires p > 0 && q > 0
    ensures (p * q - 1) / p == q - 1
  {
    assert p * (q - 1) == p * q - p;
    DivUnique(p * q - 1, p, q - 1, p - 1);
  }

  lemma AtLeastOne(k: int, d: nat)
    requires d > 0
    ensures k >= 1 ==> k * d >= d
    ensures k <= -1 ==> k * d + d <= 0
  {
    if k >= 1 {
      assert (k - 1) * d >= 0;
    } else if k <= -1 {
      assert (-k - 1) * d >= 0;
    }
  }

  lemma DivUnique(a: int, d: nat, q: int, r: int)
    requires d > 0 && a == d * q + r && 0 <= r < d
    ensures a / d == q && a % d == r
  {
    var k, m := a / d, a % d;
    assert a == d * k + m && 0 <= m < d;
    var diff := k - q;
    assert diff * d == d * k - d * q == r - m;
    AtLeastOne(diff, d);
  }

  /** Whatever two words within a mask of ones are joined to stays within it. */
  lemma MaskHolds(a: nat, b: nat, mask: nat)
    requires a <= mask && b <= mask && exists k: nat :: mask == Pow2(k) - 1
    ensures BitOr(a, b) <= mask && BitXor(a, b) <= mask
  {
    var k: nat :| mask == Pow2(k) - 1;
    BitOrBelow(a, b, k);
  }

  // ------------------------------------------------------------ shifts

  /** MIR shifts do not wrap the count. */
  function ShiftLeft(a: nat, s: nat): nat {
    if s >= 64 then 0 else a * Pow2(s) % WORD
  }

  function ShiftRight(a: nat, s: nat): nat {
    if s >= 64 then 0 else Quotient(a, Pow2(s))
  }

  function Quotient(a: nat, d: nat): (r: nat)
    requires d > 0
    ensures r * d <= a < (r + 1) * d
  {
    DivBounds(a, d);
    a / d
  }

  lemma DivBounds(a: nat, d: nat)
    requires d > 0
    ensures 0 <= a / d && a / d * d <= a < (a / d + 1) * d
  {
    var q, r := a / d, a % d;
    assert a == q * d + r && 0 <= r < d;
    assert (q + 1) * d == q * d + d;
    AtLeastOne(q, d);
  }

  /** All bits equal to the sign. */
  function SignFill(a: nat): nat {
    if a < SIGN then 0 else WORD - 1
  }

  function ShiftArithmetic(a: nat, s: nat): nat {
    if s >= 64 then SignFill(a) else Wrap(Signed(a) / Pow2(s))
  }

  /** Shifting by 63 leaves only the sign. */
  lemma ShiftBySign(a: nat)
    requires a < WORD
    ensures ShiftArithmetic(a, 63) == SignFill(a)
  {
    WordIsPow2();
    if a < SIGN {
      assert a / SIGN == 0;
    } else {
      assert (a - WORD) / SIGN == -1;
    }
  }
}
