/** Wide division and remainder with signs: normalise, divide, restore the sign, mask to the operation width. */
module WideDivRem {
  import opened Words
  import opened WideWords
  import opened WideArith
  import opened WideCompare
  import opened WideDiv

  datatype DivOp = DivU | DivS | RemU | RemS

  // ------------------------------------------------------------ what is computed

  function Abs(a: int): nat {
    if a < 0 then -a else a
  }

  /** Division truncating toward zero; by zero the quotient is zero. */
  function TruncDiv(a: int, b: int): int {
    if b == 0 then 0
    else WithSign(Quotient(Abs(a), Abs(b)), (a < 0) != (b < 0))
  }

  function WithSign(a: nat, negative: bool): int {
    if negative then 0 - a else a
  }

  function Remainder(a: nat, b: nat): (r: nat)
    requires b > 0
    ensures r < b && a == Quotient(a, b) * b + r
  {
    assert (Quotient(a, b) + 1) * b == Quotient(a, b) * b + b;
    a - Quotient(a, b) * b
  }

  /** The remainder follows the dividend's sign; by zero it is zero as well. */
  function TruncRem(a: int, b: int): int {
    if b == 0 then 0 else WithSign(Remainder(Abs(a), Abs(b)), a < 0)
  }

  lemma TruncSplits(a: int, b: int)
    requires b != 0
    ensures a == b * TruncDiv(a, b) + TruncRem(a, b)
    ensures Abs(TruncRem(a, b)) < Abs(b) && (TruncRem(a, b) != 0 ==> (TruncRem(a, b) < 0 <==> a < 0))
  {
    var q := Quotient(Abs(a), Abs(b));
    Signs(b, q);
  }

  lemma Signs(b: int, q: int)
    ensures (-b) * q == -(b * q) && b * (-q) == -(b * q) && q * Abs(b) == if b < 0 then -(b * q) else b * q
  {
    assert b * q == q * b;
    assert (-b) * q == -(b * q);
    assert q * (-b) == (-b) * q;
  }

  /** The lowest `w` bits of the chunks as a two's complement number; nothing of no bits. */
  function SignedOf(c: seq<nat>, w: nat): int {
    if w == 0 then 0 else SignedAt(Val(c, (w - 1) / 64 + 1), w)
  }

  function Expected(op: DivOp, l: seq<nat>, r: seq<nat>, n: nat, lw: nat, rw: nat): int {
    match op
    case DivU => TruncDiv(Val(l, n), Val(r, n))
    case RemU => TruncRem(Val(l, n), Val(r, n))
    case DivS => TruncDiv(SignedOf(l, lw), SignedOf(r, rw))
    case RemS => TruncRem(SignedOf(l, lw), SignedOf(r, rw))
  }

  // ------------------------------------------------------------ masks

  lemma AndOdd(x: nat, h: nat)
    ensures BitAnd(x, 2 * h + 1) == 2 * BitAnd(x / 2, h) + x % 2
  {
    assert (2 * h + 1) / 2 == h && (2 * h + 1) % 2 == 1;
  }

  lemma {:induction false} AndMask(x: nat, t: nat)
    ensures BitAnd(x, Pow2(t) - 1) == x % Pow2(t)
    decreases t
  {
    if t > 0 {
      var p := Pow2(t - 1);
      AndMask(x / 2, t - 1);
      AndOdd(x, p - 1);
      assert Pow2(t) == 2 * p;
      HalfRemainder(x, p);
    }
  }

  lemma HalfRemainder(x: nat, p: nat)
    requires p > 0
    ensures x % (2 * p) == 2 * (x / 2 % p) + x % 2
  {
    var q, r := x / 2 / p, x / 2 % p;
    assert x / 2 == p * q + r;
    assert x == 2 * (p * q + r) + x % 2;
    assert 2 * (p * q) == (2 * p) * q;
    DivUnique(x, 2 * p, q, 2 * r + x % 2);
  }

  lemma {:induction false} JoinLow(high: nat, low: nat, t: nat)
    requires Clear(high, t) && low < Pow2(t)
    ensures BitOr(low, high) == low + high
    decreases t
  {
    if t > 0 && low > 0 && high > 0 {
      var p := Pow2(t - 1);
      var y := high / (2 * p);
      assert high == y * (2 * p);
      HalfMultiple(high, y, p);
      JoinLow(high / 2, low / 2, t - 1);
    }
  }

  lemma {:induction false} AndOnes(x: nat, k: nat)
    requires x < Pow2(k)
    ensures BitAnd(Pow2(k) - 1, x) == x
    decreases k
  {
    if x > 0 {
      AndOnes(x / 2, k - 1);
      assert (Pow2(k) - 1) / 2 == Pow2(k - 1) - 1 && (Pow2(k) - 1) % 2 == 1;
    }
  }

  /** The partial top chunk with its sign bit spread over the padding. */
  lemma TopExtended(raw: nat, t: nat, negative: bool)
    requires raw < WORD && 0 < t < 64
    ensures 0 < Pow2(t) < WORD
    ensures var fill := if negative then WORD - 1 else 0;
            BitOr(BitAnd(raw, Pow2(t) - 1),
              BitAnd(fill, WORD - Pow2(t))) == raw % Pow2(t) + if negative then WORD - Pow2(t) else 0
  {
    WordIsPow2();
    Pow2Grows(t + 1, 64);
    AndMask(raw, t);
    AndOnes(WORD - Pow2(t), 64);
    HighMaskClear(t);
    DivBounds(raw, Pow2(t));
    JoinLow(WORD - Pow2(t), raw % Pow2(t), t);
    assert BitOr(raw % Pow2(t), 0) == raw % Pow2(t);
  }

  lemma HighMaskClear(t: nat)
    requires t < 64
    ensures Pow2(t) <= WORD && Clear(WORD - Pow2(t), t)
  {
    WordIsPow2();
    Pow2Sum(t, 64 - t);
    Pow2Grows(t, 64);
    MultipleLess(Pow2(t), Pow2(64 - t));
  }

  lemma MultipleLess(p: nat, m: nat)
    requires p > 0 && m > 0
    ensures (p * m - p) % p == 0
  {
    assert p * (m - 1) == p * m - p;
    DivUnique(p * m - p, p, m - 1, 0);
  }

  // ------------------------------------------------------------ signs

  method SignBit(c: seq<nat>, width: nat) returns (negative: bool)
    requires AreWords(c)
    ensures negative <==> SignedOf(c, width) < 0
  {
    if width == 0 {
      return false;
    }
    var i, b := (width - 1) / 64, (width - 1) % 64;
    var bit := BitAnd(ShiftRight(Chunk(c, i), b), 1);
    LowestBit(ShiftRight(Chunk(c, i), b));
    negative := bit != 0;
    SignOfTop(Chunk(c, i), b + 1);
    SignedParts(c, i, b + 1, width);
  }

  /** The top bit of the lowest `t` is the sign. */
  lemma SignOfTop(x: nat, t: nat)
    requires t > 0
    ensures SignedAt(x, t) < 0 <==> Quotient(x, Pow2(t - 1)) % 2 == 1
    ensures SignedAt(x, t) == x % Pow2(t) - if SignedAt(x, t) < 0 then Pow2(t) else 0
  {
    var h := Pow2(t - 1);
    var q, r := Quotient(x, h), Remainder(x, h);
    var half, b := q / 2, q % 2;
    assert q * h == half * (2 * h) + b * h by {
      assert q == 2 * half + b;
    }
    assert b * h == if b == 1 then h else 0;
    DivUnique(x, 2 * h, half, b * h + r);
  }

  lemma SignedParts(c: seq<nat>, i: nat, t: nat, w: nat)
    requires AreWords(c) && 0 < t <= 64 && w == 64 * i + t
    ensures SignedOf(c, w) == Val(c, i) + SignedAt(Chunk(c, i), t) * Base(i)
    ensures SignedOf(c, w) < 0 <==> SignedAt(Chunk(c, i), t) < 0
  {
    Place(i, t - 1, w - 1);
    SignedValIs(c, i + 1, t, w);
    ValBelow(c, i);
    var s := SignedAt(Chunk(c, i), t);
    if s < 0 {
      Outweighs(s, 0, Val(c, i), 0, Base(i));
    } else {
      NotNegative(s, Base(i));
    }
  }

  /** One chunk of the sign-extended number. */
  function ExtendedChunk(c: seq<nat>, width: nat, negative: bool, i: nat): nat {
    var fill := if negative then WORD - 1 else 0;
    var sources, top := (width + 63) / 64, width % 64;
    if i >= sources then fill
    else if i + 1 != sources || top == 0 then Chunk(c, i)
    else
      Pow2Below(top);
      BitOr(BitAnd(Chunk(c, i), Pow2(top) - 1), BitAnd(fill, WORD - Pow2(top)))
  }

  lemma Pow2Below(t: nat)
    requires t < 64
    ensures Pow2(t) < WORD
  {
    WordIsPow2();
    Pow2Grows(t + 1, 64);
  }

  /** The top chunk of the source, extended, is its signed reading modulo the word. */
  lemma ExtendedTop(c: seq<nat>, i: nat, t: nat, negative: bool, w: nat)
    requires AreWords(c) && 0 < t <= 64 && w == 64 * i + t && (negative <==> SignedAt(Chunk(c, i), t) < 0)
    ensures ExtendedChunk(c, w, negative, i) == SignedAt(Chunk(c, i), t) + if negative then WORD else 0
    ensures ExtendedChunk(c, w, negative, i) < WORD
  {
    if t == 64 {
      WholeChunk(c, i, w, negative);
      TopWhole(Chunk(c, i));
    } else {
      PartialChunk(c, i, t, w, negative);
      TopPartial(Chunk(c, i), t, negative);
    }
  }

  lemma WholeChunk(c: seq<nat>, i: nat, w: nat, negative: bool)
    requires w == 64 * i + 64
    ensures ExtendedChunk(c, w, negative, i) == Chunk(c, i)
  {
    assert (w + 63) / 64 == i + 1 && w % 64 == 0;
  }

  lemma PartialChunk(c: seq<nat>, i: nat, t: nat, w: nat, negative: bool)
    requires w == 64 * i + t && 0 < t < 64
    ensures 0 < Pow2(t) < WORD
    ensures ExtendedChunk(c, w, negative, i) ==
            BitOr(BitAnd(Chunk(c, i), Pow2(t) - 1), BitAnd(if negative then WORD - 1 else 0, WORD - Pow2(t)))
  {
    assert (w + 63) / 64 == i + 1 && w % 64 == t;
    Pow2Below(t);
  }

  lemma TopWhole(x: nat)
    requires x < WORD
    ensures x == SignedAt(x, 64) + if SignedAt(x, 64) < 0 then WORD else 0
  {
    WholeTop(x);
  }

  lemma TopPartial(x: nat, t: nat, negative: bool)
    requires x < WORD && 0 < t < 64 && (negative <==> SignedAt(x, t) < 0)
    ensures 0 < Pow2(t) < WORD
    ensures var y := BitOr(BitAnd(x, Pow2(t) - 1), BitAnd(if negative then WORD - 1 else 0, WORD - Pow2(t)));
            y == SignedAt(x, t) + (if negative then WORD else 0) && y < WORD
  {
    SignOfTop(x, t);
    TopExtended(x, t, negative);
    RemainderBelow(x, Pow2(t));
  }

  lemma RemainderBelow(x: nat, d: nat)
    requires d > 0
    ensures x % d < d
  {
  }

  lemma ExtendedOthers(c: seq<nat>, i: nat, t: nat, negative: bool, w: nat, j: nat)
    requires 0 < t <= 64 && w == 64 * i + t
    ensures j < i ==> ExtendedChunk(c, w, negative, j) == Chunk(c, j)
    ensures j > i ==> ExtendedChunk(c, w, negative, j) == if negative then WORD - 1 else 0
  {
    assert (w + 63) / 64 == i + 1;
  }

  method SignExtend(c: seq<nat>, width: nat, n: nat) returns (res: seq<nat>)
    requires AreWords(c) && width <= 64 * n
    ensures |res| == n && AreWords(res) && Val(res, n) == SignedOf(c, width) % Base(n)
  {
    var negative := SignBit(c, width);
    res := seq(n, i requires 0 <= i < n => ExtendedChunk(c, width, negative, i));
    if width == 0 {
      ValZero(res, n);
      DivUnique(0, Base(n), 0, 0);
    } else {
      ExtendedIs(c, (width - 1) / 64, (width - 1) % 64 + 1, width, negative, n, res);
    }
  }

  lemma ExtendedIs(c: seq<nat>, i: nat, t: nat, w: nat, negative: bool, n: nat, res: seq<nat>)
    requires AreWords(c) && 0 < t <= 64 && w == 64 * i + t && i < n == |res| && (negative <==> SignedOf(c, w) < 0)
    requires forall j: nat :: j < n ==> res[j] == ExtendedChunk(c, w, negative, j)
    ensures AreWords(res) && Val(res, n) == SignedOf(c, w) % Base(n)
  {
    SignedParts(c, i, t, w);
    ExtendedTop(c, i, t, negative, w);
    forall j: nat | j < n && j != i ensures res[j] == if j < i then Chunk(c, j) else if negative then WORD - 1 else 0 {
      ExtendedOthers(c, i, t, negative, w, j);
    }
    assert AreWords(res);
    ValSame(res, c, i);
    var s := SignedAt(Chunk(c, i), t);
    assert Val(res, i + 1) == Val(c, i) + res[i] * Base(i);
    FillAbove(res, i + 1, n, negative);
    ValBelow(res, n);
    ExtendSum(Val(res, n), Val(c, i), res[i], s, negative, Base(i), Base(i + 1), Base(n), SignedOf(c, w));
  }

  lemma ExtendSum(v: nat, low: nat, top: nat, s: int, negative: bool, p: nat, pw: nat, pn: nat, signed: int)
    requires pw == WORD * p && v < pn && signed == low + s * p && top == s + if negative then WORD else 0
    requires v == low + top * p + if negative then pn - pw else 0
    ensures v == signed % pn
  {
    assert top * p == s * p + if negative then WORD * p else 0 by {
      assert (s + WORD) * p == s * p + WORD * p;
    }
    Reduced(v, signed, if negative then -1 else 0, pn);
  }

  lemma {:induction false} FillAbove(c: seq<nat>, m: nat, n: nat, negative: bool)
    requires m <= n == |c| && forall j: nat :: m <= j < n ==> c[j] == if negative then WORD - 1 else 0
    ensures Val(c, n) == Val(c, m) + if negative then Base(n) - Base(m) else 0
    decreases n
  {
    if m < n {
      FillBelow(c, m, n - 1, negative);
      assert (WORD - 1) * Base(n - 1) == WORD * Base(n - 1) - Base(n - 1);
    }
  }

  lemma {:induction false} FillBelow(c: seq<nat>, m: nat, n: nat, negative: bool)
    requires m <= n <= |c| && forall j: nat :: m <= j < n ==> c[j] == if negative then WORD - 1 else 0
    ensures Val(c, n) == Val(c, m) + if negative then Base(n) - Base(m) else 0
    decreases n
  {
    if m < n {
      FillBelow(c, m, n - 1, negative);
      assert (WORD - 1) * Base(n - 1) == WORD * Base(n - 1) - Base(n - 1);
    }
  }

  // ------------------------------------------------------------ normalising and restoring

  method ConditionalNegate(c: seq<nat>, negate: bool, n: nat) returns (res: seq<nat>)
    requires AreWords(c)
    ensures |res| == n && AreWords(res) && Val(res, n) == (if negate then 0 - Val(c, n) else Val(c, n)) % Base(n)
  {
    var negated := WideNegate(c, n);
    res := seq(n, i requires 0 <= i < n => if negate then negated[i] else Chunk(c, i));
    ValBelow(c, n);
    DivUnique(Val(c, n), Base(n), 0, Val(c, n));
    if negate {
      assert res == negated;
    } else {
      ValSame(res, c, n);
    }
  }

  lemma NegateReduced(x: int, v: nat, p: nat)
    requires p > 0 && v == x % p
    ensures (0 - v) % p == (-x) % p
  {
    var k := x / p;
    assert x == p * k + v;
    var m := (0 - v) % p;
    var j := (0 - v) / p;
    assert 0 - v == p * j + m;
    assert -x == p * (j - k) + m by {
      assert p * (j - k) == p * j - p * k;
    }
    DivUnique(-x, p, j - k, m);
  }

  /** A signed number of at most the chunks' width has its magnitude below the base. */
  lemma MagnitudeFits(c: seq<nat>, w: nat, n: nat)
    requires w <= 64 * n
    ensures Abs(SignedOf(c, w)) < Base(n)
  {
    BaseIsPow2(n);
    if w > 0 {
      Pow2Grows(w, 64 * n);
      DivBounds(Val(c, (w - 1) / 64 + 1), Pow2(w));
    }
  }

  method Magnitude(c: seq<nat>, width: nat, n: nat) returns (res: seq<nat>, negative: bool)
    requires AreWords(c) && width <= 64 * n
    ensures |res| == n && AreWords(res) && Val(res, n) == Abs(SignedOf(c, width))
    ensures (negative <==> SignedOf(c, width) < 0)
  {
    negative := SignBit(c, width);
    var extended := SignExtend(c, width, n);
    res := ConditionalNegate(extended, negative, n);
    MagnitudeFits(c, width, n);
    ValBelow(extended, n);
    var s := SignedOf(c, width);
    NegateReduced(s, Val(extended, n), Base(n));
    DivUnique(Abs(s), Base(n), 0, Abs(s));
    DivUnique(Val(extended, n), Base(n), 0, Val(extended, n));
  }

  method Normalized(op: DivOp, c: seq<nat>, width: nat, n: nat) returns (res: seq<nat>, negative: bool)
    requires AreWords(c) && width <= 64 * n
    ensures |res| == n && AreWords(res) && (negative <==> SignedOf(c, width) < 0)
    ensures Val(res, n) == if op == DivS || op == RemS then Abs(SignedOf(c, width)) else Val(c, n)
  {
    if op == DivS || op == RemS {
      res, negative := Magnitude(c, width, n);
    } else {
      negative := SignBit(c, width);
      res := seq(n, i requires 0 <= i < n => Chunk(c, i));
      ValSame(res, c, n);
    }
  }

  method IsZero(c: seq<nat>) returns (zero: bool)
    requires AreWords(c)
    ensures zero <==> Val(c, |c|) == 0
  {
    var joined := 0;
    for i := 0 to |c|
      invariant joined >= 0 && (joined == 0 <==> forall j :: 0 <= j < i ==> c[j] == 0)
    {
      OrZero(joined, c[i]);
      joined := BitOr(joined, c[i]);
    }
    ValZero(c, |c|);
    assert forall i: nat :: i < |c| ==> Chunk(c, i) == c[i];
    zero := joined == 0;
  }

  lemma OrZero(a: nat, b: nat)
    ensures BitOr(a, b) == 0 <==> a == 0 && b == 0
  {
    Larger(a, b);
  }

  lemma {:induction false} Larger(a: nat, b: nat)
    ensures BitOr(a, b) >= a && BitOr(a, b) >= b
    decreases a + b
  {
    if a != 0 && b != 0 {
      Larger(a / 2, b / 2);
    }
  }

  // ------------------------------------------------------------ the emitter

  lemma QuotientOf(l: nat, r: nat, q: nat, rem: nat)
    requires r > 0 && rem + r * q == l && rem < r
    ensures q == Quotient(l, r) && rem == Remainder(l, r)
  {
    QuotientIs(l, r, q, rem);
    assert r * q == q * r;
  }

  /** The signed or unsigned result over all chunks, before the top chunk is masked. */
  method FullDivRem(op: DivOp, l: seq<nat>, r: seq<nat>, n: nat, lw: nat, rw: nat) returns (res: seq<nat>)
    requires AreWords(l) && AreWords(r) && lw <= 64 * n && rw <= 64 * n
    ensures |res| == n && AreWords(res) && Val(res, n) == Expected(op, l, r, n, lw, rw) % Base(n)
  {
    var lhs, lhsNegative := Normalized(op, l, lw, n);
    var rhs, rhsNegative := Normalized(op, r, rw, n);
    var zero := IsZero(rhs);
    var q, rem := Divide(lhs, rhs, n);
    if op == DivU || op == DivS {
      if op == DivS {
        res := ConditionalNegate(q, lhsNegative != rhsNegative, n);
      } else {
        res := q;
      }
    } else if op == RemS {
      res := ConditionalNegate(rem, lhsNegative, n);
    } else {
      res := rem;
    }
    ValBelow(q, n);
    ValBelow(rem, n);
    ghost var chosen := if op == DivU || op == DivS then Val(q, n) else Val(rem, n);
    DivUnique(chosen, Base(n), 0, chosen);
    if Val(rhs, n) > 0 {
      QuotientOf(Val(lhs, n), Val(rhs, n), Val(q, n), Val(rem, n));
      FullIs(op, l, r, n, lw, rw, Val(lhs, n), Val(rhs, n));
    } else {
      FullZero(op, l, r, n, lw, rw);
    }
    var before := res;
    res := seq(n, i requires 0 <= i < n => if zero then 0 else before[i]);
    if zero {
      ValZero(res, n);
      DivUnique(0, Base(n), 0, 0);
    } else {
      assert res == before;
    }
  }

  /** What the signs make of the magnitudes' quotient and remainder. */
  lemma FullIs(op: DivOp, l: seq<nat>, r: seq<nat>, n: nat, lw: nat, rw: nat, a: nat, b: nat)
    requires b > 0
    requires a == (if op == DivS || op == RemS then Abs(SignedOf(l, lw)) else Val(l, n))
    requires b == (if op == DivS || op == RemS then Abs(SignedOf(r, rw)) else Val(r, n))
    ensures op == DivU ==> Expected(op, l, r, n, lw, rw) == Quotient(a, b)
    ensures op == RemU ==> Expected(op, l, r, n, lw, rw) == Remainder(a, b)
    ensures op == DivS ==>
              Expected(op, l, r, n, lw, rw) == WithSign(Quotient(a, b), (SignedOf(l, lw) < 0) != (SignedOf(r, rw) < 0))
    ensures op == RemS ==> Expected(op, l, r, n, lw, rw) == WithSign(Remainder(a, b), SignedOf(l, lw) < 0)
  {
  }

  lemma FullZero(op: DivOp, l: seq<nat>, r: seq<nat>, n: nat, lw: nat, rw: nat)
    requires (if op == DivS || op == RemS then Abs(SignedOf(r, rw)) else Val(r, n)) == 0
    ensures Expected(op, l, r, n, lw, rw) == 0
  {
  }

  /**
    The emitter: quotient or remainder truncated toward zero, modulo two to the operation width; zero for a zero
    divisor.
   */
  method DivRem(op: DivOp, l: seq<nat>, r: seq<nat>, n: nat, lw: nat, rw: nat, width: nat) returns (res: seq<nat>)
    requires AreWords(l) && AreWords(r) && n > 0 && 64 * (n - 1) < width <= 64 * n && lw <= width && rw <= width
    ensures |res| == n && AreWords(res) && Val(res, n) == Expected(op, l, r, n, lw, rw) % Pow2(width)
  {
    res := FullDivRem(op, l, r, n, lw, rw);
    ghost var full := Val(res, n);
    var topBits, top := width % 64, width / 64;
    if topBits != 0 {
      if top < |res| {
        MaskTop(res, n, topBits, width);
        res := res[top := BitAnd(res[top], Pow2(topBits) - 1)];
      }
    } else {
      BaseIsPow2(n);
      ValBelow(res, n);
      DivUnique(full, Base(n), 0, full);
    }
    Narrowed(Expected(op, l, r, n, lw, rw), full, n, width);
  }

  /** Masking the top chunk reduces modulo the width. */
  lemma MaskTop(c: seq<nat>, n: nat, t: nat, w: nat)
    requires AreWords(c) && |c| == n > 0 && 0 < t < 64 && w == 64 * (n - 1) + t
    ensures w / 64 == n - 1 && w % 64 == t
    ensures AreWords(c[n - 1 := BitAnd(c[n - 1], Pow2(t) - 1)])
    ensures Val(c[n - 1 := BitAnd(c[n - 1], Pow2(t) - 1)], n) == Val(c, n) % Pow2(w)
  {
    var m := n - 1;
    Place(m, t, w);
    AndMask(c[m], t);
    BitAndBelow(c[m], Pow2(t) - 1);
    ValUpdate(c, m, c[m] % Pow2(t), n);
    ValBelow(c, m);
    BaseIsPow2(m);
    Pow2Sum(64 * m, t);
    MaskedValue(Val(c, m), c[m], Base(m), Pow2(t));
  }

  lemma MaskedValue(low: nat, x: nat, b: nat, d: nat)
    requires low < b && d > 0
    ensures low + x * b + (x % d - x) * b == (low + x * b) % (b * d)
  {
    DivBounds(x, d);
    var r, q := x % d, x / d;
    assert x == q * d + r;
    SplitRemainder(low, r, q, b, d);
    assert (r - x) * b == r * b - x * b;
  }

  /** Reducing twice, the second time to fewer bits. */
  lemma Narrowed(x: int, full: nat, n: nat, w: nat)
    requires full == x % Base(n) && w <= 64 * n
    ensures full % Pow2(w) == x % Pow2(w)
  {
    BaseIsPow2(n);
    Pow2Sum(w, 64 * n - w);
    ReducedTwice(x, full, Pow2(w), Pow2(64 * n - w));
  }

  lemma ReducedTwice(x: int, full: nat, p: nat, m: nat)
    requires p > 0 && m > 0 && p * m > 0 && full == x % (p * m)
    ensures full % p == x % p
  {
    var k, r, q := x / (p * m), full % p, full / p;
    assert x == (p * m) * k + full;
    assert full == p * q + r;
    assert (p * m) * k == p * (m * k);
    assert p * (m * k + q) == p * (m * k) + p * q;
    DivUnique(x, p, m * k + q, r);
  }
}
