/** Bit-serial long division over chunks, unsigned and truncating signed. */
module WideDiv {
  import opened CfgErrors
  import opened Words
  import opened WideWords
  import opened WideArith
  import opened WideCompare

  // ------------------------------------------------------------ bits and prefixes

  function BitAt(c: seq<nat>, k: nat): (r: nat)
    ensures r <= 1
  {
    Quotient(Chunk(c, k / 64), Pow2(k % 64)) % 2
  }

  /** The number the bits from `k` up to `total` make. */
  function Prefix(c: seq<nat>, total: nat, k: nat): nat
    requires k <= total
    decreases total - k
  {
    if k == total then 0 else 2 * Prefix(c, total, k + 1) + BitAt(c, k)
  }

  lemma QuotientIs(a: nat, d: nat, q: nat, r: nat)
    requires d > 0 && a == d * q + r && r < d
    ensures Quotient(a, d) == q
  {
    DivUnique(a, d, q, r);
  }

  /** One bit less shifted out. */
  lemma HalfShift(a: nat, s: nat)
    ensures Quotient(a, Pow2(s)) == 2 * Quotient(a, Pow2(s + 1)) + Quotient(a, Pow2(s)) % 2
  {
    var p := Pow2(s);
    var q := Quotient(a, p);
    var half, b := q / 2, q % 2;
    var r := a - q * p;
    assert (q + 1) * p == q * p + p;
    assert 0 <= r < p;
    assert q * p == half * (2 * p) + b * p by {
      assert q == 2 * half + b;
    }
    assert b * p + r < 2 * p by {
      if b == 1 {
        assert b * p == p;
      } else {
        assert b * p == 0;
      }
    }
    QuotientIs(a, 2 * p, half, b * p + r);
  }

  lemma Place(i: nat, b: nat, k: nat)
    requires k == 64 * i + b && b < 64
    ensures k / 64 == i && k % 64 == b
  {
  }

  lemma PrefixStep(c: seq<nat>, total: nat, i: nat, b: nat)
    requires b < 64 && 64 * i + b < total
    ensures Prefix(c, total, 64 * i + b) == 2 * Prefix(c, total, 64 * i + (b + 1)) + Quotient(Chunk(c, i), Pow2(b)) % 2
  {
    Place(i, b, 64 * i + b);
  }

  lemma AppendBit(full: nat, next: nat, above: nat, p: nat, q: nat, q': nat)
    requires full == 2 * next + q % 2 && next == above * p + q' && q == 2 * q' + q % 2
    ensures full == above * (2 * p) + q
  {
    assert above * (2 * p) == 2 * (above * p);
  }

  lemma WholeOut(x: nat)
    requires x < WORD
    ensures Quotient(x, Pow2(64)) == 0 && Pow2(64 - 64) == 1
  {
    WordIsPow2();
    QuotientIs(x, Pow2(64), 0, x);
  }

  /** Within one chunk, the prefix is the prefix above it followed by the chunk's own high bits. */
  ghost predicate InChunk(c: seq<nat>, total: nat, i: nat, b: nat)
    requires 64 * i + 64 <= total && b <= 64
  {
    Prefix(c, total, 64 * i + b) == Prefix(c, total, 64 * i + 64) * Pow2(64 - b) + Quotient(Chunk(c, i), Pow2(b))
  }

  lemma InChunkStart(c: seq<nat>, total: nat, i: nat)
    requires AreWords(c) && 64 * i + 64 <= total
    ensures InChunk(c, total, i, 64)
  {
    WholeOut(Chunk(c, i));
  }

  lemma InChunkStep(c: seq<nat>, total: nat, i: nat, b: nat)
    requires 64 * i + 64 <= total && b < 64 && InChunk(c, total, i, b + 1)
    ensures InChunk(c, total, i, b)
  {
    PrefixStep(c, total, i, b);
    HalfShift(Chunk(c, i), b);
    var rest := 64 - (b + 1);
    assert Pow2(64 - b) == 2 * Pow2(rest);
    AppendBit(Prefix(c, total, 64 * i + b), Prefix(c, total, 64 * i + (b + 1)), Prefix(c, total, 64 * i + 64),
              Pow2(rest), Quotient(Chunk(c, i), Pow2(b)), Quotient(Chunk(c, i), Pow2(b + 1)));
  }

  lemma {:induction false} PrefixInChunk(c: seq<nat>, total: nat, i: nat, b: nat)
    requires AreWords(c) && 64 * i + 64 <= total && b <= 64
    ensures InChunk(c, total, i, b)
    decreases 64 - b
  {
    if b == 64 {
      InChunkStart(c, total, i);
    } else {
      PrefixInChunk(c, total, i, b + 1);
      InChunkStep(c, total, i, b);
    }
  }

  lemma PrefixOfChunk(c: seq<nat>, total: nat, i: nat)
    requires AreWords(c) && 64 * i + 64 <= total
    ensures Prefix(c, total, 64 * i) == Prefix(c, total, 64 * i + 64) * WORD + Chunk(c, i)
  {
    PrefixInChunk(c, total, i, 0);
    WordIsPow2();
    assert Pow2(0) == 1;
    QuotientIs(Chunk(c, i), 1, Chunk(c, i), 0);
  }

  /** The prefix above a chunk, at its place, and the chunks below make the whole number. */
  lemma {:induction false} PrefixAbove(c: seq<nat>, n: nat, i: nat)
    requires AreWords(c) && i <= n
    ensures Prefix(c, 64 * n, 64 * i) * Base(i) + Val(c, i) == Val(c, n)
    decreases n - i
  {
    if i < n {
      PrefixAbove(c, n, i + 1);
      PrefixOfChunk(c, 64 * n, i);
      PlaceChunk(Prefix(c, 64 * n, 64 * i + 64), Chunk(c, i), Base(i));
      assert 64 * (i + 1) == 64 * i + 64;
    }
  }

  lemma PlaceChunk(above: nat, x: nat, p: nat)
    ensures (above * WORD + x) * p == above * (WORD * p) + x * p
  {
  }

  lemma WholePrefix(c: seq<nat>, n: nat)
    requires AreWords(c)
    ensures Prefix(c, 64 * n, 0) == Val(c, n)
  {
    PrefixAbove(c, n, 0);
  }

  lemma {:induction false} PrefixGrows(c: seq<nat>, total: nat, k: nat)
    requires k <= total
    ensures Prefix(c, total, k) <= Prefix(c, total, 0)
    decreases k
  {
    if k > 0 {
      PrefixGrows(c, total, k - 1);
    }
  }

  lemma {:induction false} PrefixSame(a: seq<nat>, b: seq<nat>, total: nat, k: nat)
    requires k <= total && forall j: nat :: k <= j < total ==> BitAt(a, j) == BitAt(b, j)
    ensures Prefix(a, total, k) == Prefix(b, total, k)
    decreases total - k
  {
    if k < total {
      PrefixSame(a, b, total, k + 1);
    }
  }

  // ------------------------------------------------------------ setting one bit below which all are clear

  lemma {:induction false} JoinBit(x: nat, b: nat)
    requires x % Pow2(b + 1) == 0
    ensures BitOr(x, Pow2(b)) == x + Pow2(b)
    decreases b
  {
    var p := Pow2(b + 1);
    assert x == x / p * p;
    var y := x / p;
    if x == 0 {
    } else if b == 0 {
      assert x % 2 == 0;
      assert BitOr(x / 2, 0) == x / 2;
    } else {
      HalfMultiple(x, y, Pow2(b));
      JoinBit(x / 2, b - 1);
      assert Pow2(b) / 2 == Pow2(b - 1) && Pow2(b) % 2 == 0;
    }
  }

  lemma HalfMultiple(x: nat, y: nat, p: nat)
    requires p > 0 && x == y * (2 * p)
    ensures x % 2 == 0 && (x / 2) % p == 0
  {
    assert x == 2 * (y * p);
    DivUnique(x / 2, p, y, 0);
  }

  /** Bits above the new one stay. */
  lemma HighBits(x: nat, b: nat, k: nat)
    requires x % Pow2(b + 1) == 0 && b < k
    ensures Quotient(x + Pow2(b), Pow2(k)) == Quotient(x, Pow2(k))
  {
    Pow2Sum(b + 1, k - (b + 1));
    assert Pow2(b + 1) == 2 * Pow2(b);
    assert x == x / Pow2(b + 1) * Pow2(b + 1);
    HighQuotient(x / Pow2(b + 1), Pow2(b), Pow2(b + 1), Pow2(k - (b + 1)), Pow2(k));
  }

  lemma HighQuotient(y: nat, p: nat, d: nat, m: nat, high: nat)
    requires d == 2 * p && p > 0 && m > 0 && high == d * m
    ensures Quotient(y * d + p, high) == Quotient(y * d, high)
  {
    DivBounds(y, m);
    var q, r := y / m, y % m;
    assert y == q * m + r;
    Spread(y, q, m, r, d, high);
    Outweighs(r, m, p, 0, d);
    Outweighs(r, m, 0, 0, d);
    assert m * d == high;
    QuotientIs(y * d, high, q, r * d);
    QuotientIs(y * d + p, high, q, r * d + p);
  }

  lemma Spread(y: nat, q: nat, m: nat, r: nat, d: nat, high: nat)
    requires y == q * m + r && high == d * m
    ensures y * d == high * q + r * d
  {
    assert (q * m) * d == (d * m) * q;
  }

  lemma ThisBit(x: nat, b: nat)
    requires x % Pow2(b + 1) == 0
    ensures Quotient(x + Pow2(b), Pow2(b)) % 2 == 1 && Quotient(x, Pow2(b)) % 2 == 0
    ensures (x + Pow2(b)) % Pow2(b) == 0 && x % Pow2(b) == 0
  {
    DivBounds(x, Pow2(b + 1));
    EvenMultiple(x, x / Pow2(b + 1), Pow2(b));
  }

  lemma EvenMultiple(x: nat, y: nat, p: nat)
    requires p > 0 && x == y * (2 * p)
    ensures Quotient(x + p, p) == 2 * y + 1 && Quotient(x, p) == 2 * y
    ensures (x + p) % p == 0 && x % p == 0
  {
    assert x == p * (2 * y);
    DivUnique(x, p, 2 * y, 0);
    OddMultiple(x + p, 2 * y + 1, p);
  }

  lemma OddMultiple(x: nat, y: nat, p: nat)
    requires p > 0 && y > 0 && x == p * (y - 1) + p
    ensures Quotient(x, p) == y && x % p == 0
  {
    assert x == p * y;
    DivUnique(x, p, y, 0);
  }

  predicate Clear(x: nat, b: nat) {
    x % Pow2(b) == 0
  }

  lemma ZeroIsClear(b: nat)
    ensures Clear(0, b)
  {
    DivUnique(0, Pow2(b), 0, 0);
  }

  /** The bits of `q` below bit `b` of chunk `i` are clear. */
  predicate ClearBelow(q: seq<nat>, i: nat, b: nat) {
    && (forall j: nat :: j < i && j < |q| ==> q[j] == 0)
    && (i < |q| ==> Clear(q[i], b))
  }

  /** Either the next bit of the same chunk, or the first of the next. */
  predicate ClearAbove(q: seq<nat>, i: nat, b: nat) {
    if b < 63 then ClearBelow(q, i, b + 1) else ClearBelow(q, i + 1, 0)
  }

  lemma ClearHere(q: seq<nat>, i: nat, b: nat)
    requires ClearAbove(q, i, b) && i < |q|
    ensures Clear(q[i], b + 1) && forall j: nat :: j < i ==> q[j] == 0
  {
    ZeroIsClear(b + 1);
  }

  function WithBit(x: nat, b: nat, bit: bool): nat {
    BitOr(x, if bit then Pow2(b) else 0)
  }

  lemma SetBitWord(x: nat, b: nat)
    requires x < WORD && b < 64 && Clear(x, b + 1)
    ensures WithBit(x, b, true) == x + Pow2(b) && WithBit(x, b, true) < WORD
  {
    JoinBit(x, b);
    WordIsPow2();
    Pow2Grows(b + 1, 64);
    BitOrBelow(x, Pow2(b), 64);
  }

  lemma SetBitWords(x: nat, b: nat, bit: bool)
    requires x < WORD && b < 64 && Clear(x, b + 1)
    ensures WithBit(x, b, bit) < WORD && Clear(WithBit(x, b, bit), b)
    ensures Quotient(WithBit(x, b, bit), Pow2(b)) % 2 == Flag(bit)
  {
    ThisBit(x, b);
    SetBitWord(x, b);
    assert WithBit(x, b, false) == x;
  }

  lemma SetBitAbove(x: nat, b: nat, bit: bool, k: nat)
    requires x < WORD && b < 64 && Clear(x, b + 1) && b < k
    ensures Quotient(WithBit(x, b, bit), Pow2(k)) == Quotient(x, Pow2(k))
  {
    SetBitWord(x, b);
    HighBits(x, b, k);
    assert WithBit(x, b, false) == x;
  }

  lemma OtherBit(q: seq<nat>, i: nat, b: nat, bit: bool, j: nat)
    requires AreWords(q) && i < |q| && b < 64 && 64 * i + b < j && Clear(q[i], b + 1)
    ensures BitAt(q[i := WithBit(q[i], b, bit)], j) == BitAt(q, j)
  {
    var m, k := j / 64, j % 64;
    assert j == 64 * m + k;
    if m == i {
      SetBitAbove(q[i], b, bit, k);
    }
  }

  /** Setting a bit in a quotient clear up to it appends it to the prefix. */
  lemma SetBit(q: seq<nat>, total: nat, i: nat, b: nat, bit: bool, q': seq<nat>)
    requires AreWords(q) && ClearAbove(q, i, b) && b < 64 && 64 * i + b < total && i < |q|
    requires q' == q[i := WithBit(q[i], b, bit)]
    ensures AreWords(q') && ClearBelow(q', i, b)
    ensures Prefix(q', total, 64 * i + b) == 2 * Prefix(q, total, 64 * i + b + 1) + Flag(bit)
  {
    ClearHere(q, i, b);
    SetBitWords(q[i], b, bit);
    Place(i, b, 64 * i + b);
    assert BitAt(q', 64 * i + b) == Flag(bit);
    forall j: nat | 64 * i + b + 1 <= j < total ensures BitAt(q', j) == BitAt(q, j) {
      OtherBit(q, i, b, bit, j);
    }
    PrefixSame(q', q, total, 64 * i + b + 1);
  }

  // ------------------------------------------------------------ shifting the remainder

  /** The remainder's chunk after doubling: its own bits moved up, and the bit that left the chunk below. */
  function DoubledChunk(c: seq<nat>, i: nat): nat
    requires i < |c|
  {
    BitOr(ShiftLeft(c[i], 1), if i > 0 then ShiftRight(c[i - 1], 63) else 0)
  }

  lemma DoubledChunkIs(c: seq<nat>, i: nat)
    requires AreWords(c) && i < |c|
    ensures DoubledChunk(c, i) < WORD
    ensures DoubledChunk(c, i) + Flag(c[i] >= SIGN) * WORD == 2 * c[i] + if i > 0 then Flag(c[i - 1] >= SIGN) else 0
  {
    DoubledWord(c[i]);
    if i > 0 {
      TopBit(c[i - 1]);
    }
    EvenOr(ShiftLeft(c[i], 1), if i > 0 then ShiftRight(c[i - 1], 63) else 0);
  }

  lemma DoubledWord(x: nat)
    requires x < WORD
    ensures ShiftLeft(x, 1) + Flag(x >= SIGN) * WORD == 2 * x && ShiftLeft(x, 1) % 2 == 0 && ShiftLeft(x, 1) + 1 < WORD
  {
    assert Pow2(1) == 2;
    assert ShiftLeft(x, 1) == 2 * x % WORD;
  }

  lemma TopBit(x: nat)
    requires x < WORD
    ensures ShiftRight(x, 63) == Flag(x >= SIGN)
  {
    WordIsPow2();
    QuotientIs(x, SIGN, Flag(x >= SIGN), x - Flag(x >= SIGN) * SIGN);
  }

  lemma EvenOr(a: nat, b: nat)
    requires a % 2 == 0 && b <= 1
    ensures BitOr(a, b) == a + b
  {
    if b == 1 && a > 0 {
      assert BitOr(a / 2, 0) == a / 2;
    }
  }

  /** The bit that leaves the lowest `i` chunks when they are doubled. */
  function Leaving(c: seq<nat>, i: nat): nat
    requires i <= |c|
  {
    if i > 0 then Flag(c[i - 1] >= SIGN) else 0
  }

  lemma {:induction false} DoubledVal(c: seq<nat>, d: seq<nat>, i: nat)
    requires AreWords(c) && |d| == |c| && i <= |c|
    requires forall j: nat :: j < |c| ==> d[j] == DoubledChunk(c, j)
    ensures Val(d, i) + Leaving(c, i) * Base(i) == 2 * Val(c, i)
  {
    if i > 0 {
      DoubledVal(c, d, i - 1);
      DoubledChunkIs(c, i - 1);
      AddScaled(d[i - 1], Leaving(c, i), c[i - 1], c[i - 1], Leaving(c, i - 1), Base(i - 1));
    }
  }

  /**
    The remainder moved up one bit with the next dividend bit below; nothing leaves at the top when the result fits.
   */
  method ShiftIn(rem: seq<nat>, bit: nat) returns (r: seq<nat>)
    requires AreWords(rem) && rem != [] && bit <= 1 && 2 * Val(rem, |rem|) + bit < Base(|rem|)
    ensures AreWords(r) && |r| == |rem| && Val(r, |r|) == 2 * Val(rem, |rem|) + bit
  {
    var n := |rem|;
    r := rem;
    for c := n downto 0
      invariant |r| == n
      invariant forall j: nat :: j < n ==> r[j] == if j >= c then DoubledChunk(rem, j) else rem[j]
    {
      var shifted := ShiftLeft(r[c], 1);
      if c > 0 {
        r := r[c := BitOr(shifted, ShiftRight(r[c - 1], 63))];
      } else {
        assert BitOr(shifted, 0) == shifted;
        r := r[c := shifted];
      }
    }
    ShiftFits(rem, r, bit);
    r := r[0 := BitOr(r[0], bit)];
  }

  lemma Doubled(rem: seq<nat>, r: seq<nat>)
    requires AreWords(rem) && rem != [] && 2 * Val(rem, |rem|) < Base(|rem|)
    requires |r| == |rem| && forall j: nat :: j < |rem| ==> r[j] == DoubledChunk(rem, j)
    ensures AreWords(r) && Val(r, |r|) == 2 * Val(rem, |rem|) && r[0] % 2 == 0
  {
    forall j | 0 <= j < |rem| ensures r[j] < WORD {
      DoubledChunkIs(rem, j);
    }
    DoubledVal(rem, r, |rem|);
    NoneLeaves(Val(r, |rem|), Leaving(rem, |rem|), Val(rem, |rem|), Base(|rem|));
    LowestEven(rem, r[0]);
  }

  lemma LowestEven(rem: seq<nat>, x: nat)
    requires AreWords(rem) && rem != [] && x == DoubledChunk(rem, 0)
    ensures x % 2 == 0
  {
    DoubledChunkIs(rem, 0);
  }

  lemma NoneLeaves(v: nat, leaving: nat, half: nat, p: nat)
    requires p > 0 && v + leaving * p == 2 * half && 2 * half < p
    ensures v == 2 * half
  {
    AtLeastOne(leaving, p);
  }

  lemma ShiftFits(rem: seq<nat>, r: seq<nat>, bit: nat)
    requires AreWords(rem) && rem != [] && bit <= 1 && 2 * Val(rem, |rem|) + bit < Base(|rem|)
    requires |r| == |rem| && forall j: nat :: j < |rem| ==> r[j] == DoubledChunk(rem, j)
    ensures AreWords(r[0 := BitOr(r[0], bit)]) && Val(r[0 := BitOr(r[0], bit)], |r|) == 2 * Val(rem, |rem|) + bit
  {
    Doubled(rem, r);
    EvenOr(r[0], bit);
    AddLowest(r, bit, BitOr(r[0], bit));
  }

  lemma AddLowest(r: seq<nat>, bit: nat, x: nat)
    requires AreWords(r) && r != [] && r[0] % 2 == 0 && bit <= 1 && x == r[0] + bit
    ensures AreWords(r[0 := x]) && Val(r[0 := x], |r|) == Val(r, |r|) + bit
  {
    ValUpdate(r, 0, x, |r|);
    assert Base(0) == 1;
    assert x < WORD;
  }

  // ------------------------------------------------------------ one division step

  method AtLeast(l: seq<nat>, r: seq<nat>, n: nat) returns (ge: bool)
    requires AreWords(l) && AreWords(r)
    ensures ge <==> Val(l, n) >= Val(r, n)
  {
    ge := true;
    for c := 0 to n
      invariant ge <==> Val(l, c) >= Val(r, c)
    {
      ValBelow(l, c);
      ValBelow(r, c);
      TopDecides(GeU, Chunk(l, c), Chunk(r, c), Val(l, c), Val(r, c), Base(c));
      ge := if Chunk(l, c) == Chunk(r, c) then ge else Chunk(l, c) >= Chunk(r, c);
    }
  }

  /** Subtracts the divisor where the flag says so; it says so only when nothing is borrowed from above. */
  method SubtractIf(rem: seq<nat>, d: seq<nat>, n: nat, ge: bool) returns (r: seq<nat>)
    requires AreWords(rem) && AreWords(d) && |rem| == n && (ge ==> Val(rem, n) >= Val(d, n))
    ensures AreWords(r) && |r| == n && Val(r, n) == Val(rem, n) - if ge then Val(d, n) else 0
  {
    r := [];
    ghost var diffs: seq<nat> := [];
    var borrow: Option<bool> := None;
    for c := 0 to n
      invariant |r| == |diffs| == c && AreWords(diffs) && AreWords(r)
      invariant ge ==> r == diffs
      invariant !ge ==> r == rem[..c]
      invariant Val(diffs, c) + Val(d, c) == Val(rem, c) + Incoming(borrow) * Base(c)
    {
      var (diff, bout) := SubChunk(rem[c], Chunk(d, c), borrow);
      ValPush(diffs, diff);
      SubScaled(diff, Flag(bout), rem[c], Chunk(d, c), Incoming(borrow), Base(c));
      diffs := diffs + [diff];
      r := r + [if ge then diff else rem[c]];
      borrow := Some(bout);
    }
    assert rem[..n] == rem;
    ValBelow(diffs, n);
    ValBelow(rem, n);
    AtLeastOne(Incoming(borrow), Base(n));
  }

  lemma StepKeeps(p: nat, r: nat, q: nat, d: nat, bit: nat, ge: bool, r': int)
    requires r + d * q == p && (d > 0 ==> r < d) && bit <= 1
    requires ge <==> 2 * r + bit >= d
    requires r' == 2 * r + bit - if ge then d else 0
    ensures r' + d * (2 * q + Flag(ge)) == 2 * p + bit && (d > 0 ==> r' < d)
  {
    assert d * (2 * q + Flag(ge)) == 2 * (d * q) + d * Flag(ge);
  }

  ghost predicate DividedTo(lhs: seq<nat>, rhs: seq<nat>, n: nat, q: seq<nat>, rem: seq<nat>, bit: nat)
    requires bit <= 64 * n
  {
    && |q| == |rem| == n && AreWords(q) && AreWords(rem) && ClearBelow(q, bit / 64, bit % 64)
    && Val(rem, n) + Val(rhs, n) * Prefix(q, 64 * n, bit) == Prefix(lhs, 64 * n, bit)
    && (Val(rhs, n) > 0 ==> Val(rem, n) < Val(rhs, n))
  }

  lemma DivideDone(lhs: seq<nat>, rhs: seq<nat>, n: nat, q: seq<nat>, rem: seq<nat>)
    requires AreWords(lhs) && DividedTo(lhs, rhs, n, q, rem, 0)
    ensures Val(rem, n) + Val(rhs, n) * Val(q, n) == Val(lhs, n)
  {
    WholePrefix(lhs, n);
    WholePrefix(q, n);
  }

  /** Quotient and remainder of the chunks, the highest bit first; by zero, the remainder is the dividend. */
  method Divide(lhs: seq<nat>, rhs: seq<nat>, n: nat) returns (q: seq<nat>, rem: seq<nat>)
    requires AreWords(lhs) && AreWords(rhs)
    ensures |q| == |rem| == n && AreWords(q) && AreWords(rem)
    ensures Val(rem, n) + Val(rhs, n) * Val(q, n) == Val(lhs, n)
    ensures Val(rhs, n) > 0 ==> Val(rem, n) < Val(rhs, n)
  {
    q, rem := seq(n, _ => 0), seq(n, _ => 0);
    ValZero(rem, n);
    var bit := 64 * n;
    while bit > 0
      invariant 0 <= bit <= 64 * n && DividedTo(lhs, rhs, n, q, rem, bit)
    {
      bit := bit - 1;
      q, rem := DivideBit(lhs, rhs, n, q, rem, bit / 64, bit % 64);
    }
    DivideDone(lhs, rhs, n, q, rem);
  }

  lemma ClearNext(q: seq<nat>, i: nat, b: nat)
    requires b < 64 && ClearBelow(q, (64 * i + b + 1) / 64, (64 * i + b + 1) % 64)
    ensures ClearAbove(q, i, b)
  {
    if b == 63 {
      Place(i + 1, 0, 64 * i + b + 1);
    } else {
      Place(i, b + 1, 64 * i + b + 1);
    }
  }

  method DivideBit(lhs: seq<nat>, rhs: seq<nat>, n: nat, q0: seq<nat>, rem0: seq<nat>, i: nat, b: nat)
      returns (q: seq<nat>, rem: seq<nat>)
    requires AreWords(lhs) && AreWords(rhs) && b < 64 && i < n && DividedTo(lhs, rhs, n, q0, rem0, 64 * i + b + 1)
    ensures DividedTo(lhs, rhs, n, q, rem, 64 * i + b)
  {
    ghost var k := 64 * i + b;
    ClearNext(q0, i, b);
    Place(i, b, k);
    NoOverflow(lhs, n, k, Val(rem0, n), Val(rhs, n) * Prefix(q0, 64 * n, k + 1));
    var one := BitAnd(ShiftRight(Chunk(lhs, i), b), 1);
    LowestBit(ShiftRight(Chunk(lhs, i), b));
    rem := ShiftIn(rem0, one);
    var ge := AtLeast(rem, rhs, n);
    StepKeeps(Prefix(lhs, 64 * n, k + 1), Val(rem0, n), Prefix(q0, 64 * n, k + 1), Val(rhs, n), one, ge,
              Val(rem, n) - if ge then Val(rhs, n) else 0);
    rem := SubtractIf(rem, rhs, n, ge);
    q := q0[i := WithBit(q0[i], b, ge)];
    SetBit(q0, 64 * n, i, b, ge, q);
  }

  /** The remainder is at most the dividend's prefix, so doubling it never leaves the chunks. */
  lemma NoOverflow(lhs: seq<nat>, n: nat, bit: nat, rem: nat, product: nat)
    requires AreWords(lhs) && bit < 64 * n && rem + product == Prefix(lhs, 64 * n, bit + 1)
    ensures 2 * rem + BitAt(lhs, bit) < Base(n)
  {
    WholePrefix(lhs, n);
    ValBelow(lhs, n);
    PrefixGrows(lhs, 64 * n, bit);
  }

  lemma LowestBit(x: nat)
    ensures BitAnd(x, 1) == x % 2
  {
    assert x / 2 != 0 ==> BitAnd(x / 2, 0) == 0;
  }
}
