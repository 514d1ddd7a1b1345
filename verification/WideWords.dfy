/** Wide integers as little-endian sequences of 64-bit words, and the word operations the emitters use. */
module WideWords {
  import opened Words

  predicate AreWords(c: seq<nat>) {
    forall i :: 0 <= i < |c| ==> c[i] < WORD
  }

  /** A chunk beyond the end reads as zero. */
  function Chunk(c: seq<nat>, i: nat): nat {
    if i < |c| then c[i] else 0
  }

  function Base(n: nat): (r: nat)
    ensures r > 0
  {
    if n == 0 then 1 else WORD * Base(n - 1)
  }

  /** The number the lowest `n` chunks stand for. */
  function Val(c: seq<nat>, n: nat): nat {
    if n == 0 then 0 else Val(c, n - 1) + Chunk(c, n - 1) * Base(n - 1)
  }

  function Flag(b: bool): nat {
    if b then 1 else 0
  }

  // ------------------------------------------------------------ word operations

  function Iadd(a: nat, b: nat): (r: nat)
    requires a < WORD && b < WORD
    ensures r == (a + b) % WORD
  {
    if a + b < WORD then a + b else a + b - WORD
  }

  function Isub(a: nat, b: nat): (r: nat)
    requires a < WORD && b < WORD
    ensures r == (a - b) % WORD
  {
    if a >= b then a - b else a + WORD - b
  }

  function Bnot(a: nat): nat
    requires a < WORD
  {
    WORD - 1 - a
  }

  // ------------------------------------------------------------ values of chunk sequences

  lemma {:induction false} ValBelow(c: seq<nat>, n: nat)
    requires AreWords(c)
    ensures Val(c, n) < Base(n)
  {
    if n > 0 {
      ValBelow(c, n - 1);
      TopBelow(Chunk(c, n - 1), Base(n - 1));
    }
  }

  lemma TopBelow(x: nat, b: nat)
    requires x < WORD
    ensures x * b + b <= WORD * b
  {
    var k := WORD - 1 - x;
    NotNegative(k, b);
    assert k * b == WORD * b - b - x * b;
  }

  lemma NotNegative(a: nat, b: nat)
    ensures a * b >= 0
  {
  }

  lemma {:induction false} ValSame(a: seq<nat>, b: seq<nat>, n: nat)
    requires forall i: nat :: i < n ==> Chunk(a, i) == Chunk(b, i)
    ensures Val(a, n) == Val(b, n)
  {
    if n > 0 {
      ValSame(a, b, n - 1);
    }
  }

  lemma ValPush(c: seq<nat>, x: nat)
    ensures Val(c + [x], |c|) == Val(c, |c|)
    ensures Val(c + [x], |c| + 1) == Val(c, |c|) + x * Base(|c|)
  {
    ValSame(c + [x], c, |c|);
  }

  /** Changing one chunk changes the value by as much at its place. */
  lemma {:induction false} ValUpdate(c: seq<nat>, k: nat, x: nat, n: nat)
    requires k < |c|
    ensures k < n ==> Val(c[k := x], n) == Val(c, n) + (x - c[k]) * Base(k)
    ensures k >= n ==> Val(c[k := x], n) == Val(c, n)
  {
    if n > 0 {
      ValUpdate(c, k, x, n - 1);
      if k == n - 1 {
        assert (x - c[k]) * Base(k) == x * Base(k) - c[k] * Base(k);
      }
    }
  }

  lemma {:induction false} BaseSum(a: nat, b: nat)
    ensures Base(a + b) == Base(a) * Base(b)
  {
    if a > 0 {
      BaseSum(a - 1, b);
      assert Base(a + b) == WORD * Base(a - 1 + b);
      assert WORD * (Base(a - 1) * Base(b)) == (WORD * Base(a - 1)) * Base(b);
    }
  }

  lemma {:induction false} BaseIsPow2(n: nat)
    ensures Base(n) == Pow2(64 * n)
  {
    if n > 0 {
      BaseIsPow2(n - 1);
      WordIsPow2();
      Pow2Sum(64, 64 * (n - 1));
    }
  }

  /** Different chunks make different numbers. */
  lemma {:induction false} ValInjective(a: seq<nat>, b: seq<nat>, n: nat)
    requires AreWords(a) && AreWords(b) && Val(a, n) == Val(b, n)
    ensures forall i: nat :: i < n ==> Chunk(a, i) == Chunk(b, i)
  {
    if n > 0 {
      ValBelow(a, n - 1);
      ValBelow(b, n - 1);
      SameDigits(Chunk(a, n - 1), Chunk(b, n - 1), Val(a, n - 1), Val(b, n - 1), Base(n - 1));
      ValInjective(a, b, n - 1);
    }
  }

  /** A higher chunk outweighs everything below it. */
  lemma Outweighs(x: int, y: int, low: nat, low': nat, b: nat)
    requires low < b && low' < b && x < y
    ensures low + x * b < low' + y * b
  {
    var k: nat := y - x - 1;
    NotNegative(k, b);
    assert k * b == y * b - x * b - b;
  }

  lemma SameDigits(x: int, y: int, low: nat, low': nat, b: nat)
    requires low < b && low' < b && low + x * b == low' + y * b
    ensures x == y && low == low'
  {
    if x < y {
      Outweighs(x, y, low, low', b);
    } else if y < x {
      Outweighs(y, x, low', low, b);
    }
  }

  lemma {:induction false} ValZero(c: seq<nat>, n: nat)
    ensures Val(c, n) == 0 <==> forall i: nat :: i < n ==> Chunk(c, i) == 0
  {
    if n > 0 {
      ValZero(c, n - 1);
      var x := Chunk(c, n - 1);
      if x > 0 {
        AtLeastOne(x, Base(n - 1));
      }
      forall i: nat | i < n && x == 0 && Val(c, n - 1) == 0 ensures Chunk(c, i) == 0 {
      }
    }
  }

  /** Scaling an equation between words to their place. */
  lemma Scale(a: int, b: int, c: int, d: int, p: nat)
    requires a + b * WORD == c + d
    ensures a * p + b * (WORD * p) == c * p + d * p
  {
    assert (a + b * WORD) * p == a * p + b * (WORD * p);
    assert (c + d) * p == c * p + d * p;
  }

  /** A number is its remainder once the multiples of the base are taken out. */
  lemma Reduced(v: int, x: int, k: int, b: nat)
    requires b > 0 && 0 <= v < b && v + k * b == x
    ensures v == x % b
  {
    DivUnique(x, b, k, v);
  }
}
