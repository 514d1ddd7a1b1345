/** Wide comparisons: from the lowest chunk up, a differing chunk overrules everything below it. */
module WideCompare {
  import opened Words
  import opened WideWords

  datatype CmpOp = Eq | Ne | LtU | GtU | LeU | GeU | LtS | LeS | GtS | GeS

  predicate Holds(op: CmpOp, a: int, b: int) {
    match op
    case Eq => a == b
    case Ne => a != b
    case LtU => a < b
    case LtS => a < b
    case GtU => a > b
    case GtS => a > b
    case LeU => a <= b
    case LeS => a <= b
    case GeU => a >= b
    case GeS => a >= b
  }

  predicate Inclusive(op: CmpOp) {
    op == LeU || op == GeU || op == LeS || op == GeS
  }

  predicate Downward(op: CmpOp) {
    op == GtU || op == GeU || op == GtS || op == GeS
  }

  predicate Ordering(op: CmpOp) {
    op != Eq && op != Ne
  }

  /** The strict comparison of one chunk. */
  predicate Strictly(op: CmpOp, a: int, b: int) {
    if Downward(op) then a > b else a < b
  }

  /** A differing top chunk decides; equal ones leave the decision below. */
  lemma TopDecides(op: CmpOp, x: int, y: int, low: nat, low': nat, b: nat)
    requires Ordering(op) && low < b && low' < b
    ensures x == y ==> (Holds(op, low + x * b, low' + y * b) <==> Holds(op, low, low'))
    ensures x != y ==> (Holds(op, low + x * b, low' + y * b) <==> Strictly(op, x, y))
  {
    if x < y {
      Outweighs(x, y, low, low', b);
    } else if y < x {
      Outweighs(y, x, low', low, b);
    }
  }

  /** The flag extended to a word, and zeros above it. */
  function Result(flag: nat, n: nat): (r: seq<nat>)
    ensures |r| == if n == 0 then 1 else n
    ensures r[0] == flag && forall i :: 1 <= i < |r| ==> r[i] == 0
  {
    [flag] + seq(if n == 0 then 0 else n - 1, _ => 0)
  }

  method OrderFlag(op: CmpOp, l: seq<nat>, r: seq<nat>, n: nat) returns (res: bool)
    requires AreWords(l) && AreWords(r) && Ordering(op)
    ensures res <==> Holds(op, Val(l, n), Val(r, n))
  {
    res := Inclusive(op);
    for i := 0 to n
      invariant res <==> Holds(op, Val(l, i), Val(r, i))
    {
      var x, y := Chunk(l, i), Chunk(r, i);
      ValBelow(l, i);
      ValBelow(r, i);
      TopDecides(op, x, y, Val(l, i), Val(r, i), Base(i));
      res := if x == y then res else Strictly(op, x, y);
    }
  }

  /** Joining byte flags for "not equal": complementing a 0/1 byte gives 255 or 254, never 1 or 0. */
  lemma ByteFlags()
    ensures BitOr(0, 254) == 254 && BitOr(0, 255) == 255
    ensures BitOr(254, 254) == 254 && BitOr(254, 255) == 255 && BitOr(255, 254) == 255 && BitOr(255, 255) == 255
  {
    Ones(127, 127);
    assert BitOr(254, 255) == 2 * BitOr(127, 127) + 1;
    assert BitOr(255, 254) == 2 * BitOr(127, 127) + 1;
    Ones(254, 254);
    Ones(255, 255);
  }

  lemma {:induction false} Ones(a: nat, b: nat)
    requires a == b
    ensures BitOr(a, b) == a
    decreases a
  {
    if a != 0 {
      Ones(a / 2, b / 2);
    }
  }

  /** A differing chunk shows as 255, agreement as 254; before the first chunk nothing is set. */
  function NotEqualByte(n: nat, equal: bool): nat {
    if n == 0 then 0 else if equal then 254 else 255
  }

  lemma ByteStep(cond: nat, x: nat, y: nat, n: nat, same: bool, still: bool)
    requires still == (same && x == y)
    ensures cond == Flag(same) ==> BitAnd(cond, Flag(x == y)) == Flag(still)
    ensures cond == NotEqualByte(n, same) ==>
              n > 0 || same ==> BitOr(cond, 255 - Flag(x == y)) == NotEqualByte(n + 1, still)
  {
    ByteFlags();
    assert BitAnd(0, 1) == 0 && BitAnd(0, 0) == 0 && BitAnd(1, 0) == 0 && BitAnd(1, 1) == 1;
  }

  lemma SameNext(l: seq<nat>, r: seq<nat>, i: nat)
    requires AreWords(l) && AreWords(r)
    ensures Val(l, i + 1) == Val(r, i + 1) <==> Val(l, i) == Val(r, i) && Chunk(l, i) == Chunk(r, i)
  {
    ValBelow(l, i);
    ValBelow(r, i);
    if Val(l, i + 1) == Val(r, i + 1) {
      SameDigits(Chunk(l, i), Chunk(r, i), Val(l, i), Val(r, i), Base(i));
    }
  }

  method EqualFlag(l: seq<nat>, r: seq<nat>, n: nat) returns (cond: nat)
    requires AreWords(l) && AreWords(r)
    ensures cond == Flag(Val(l, n) == Val(r, n))
  {
    cond := 1;
    for i := 0 to n
      invariant cond == Flag(Val(l, i) == Val(r, i))
    {
      SameNext(l, r, i);
      ByteStep(cond, Chunk(l, i), Chunk(r, i), i, Val(l, i) == Val(r, i), Val(l, i + 1) == Val(r, i + 1));
      cond := BitAnd(cond, Flag(Chunk(l, i) == Chunk(r, i)));
    }
  }

  method NotEqualFlag(l: seq<nat>, r: seq<nat>, n: nat) returns (cond: nat)
    requires AreWords(l) && AreWords(r)
    ensures cond == NotEqualByte(n, Val(l, n) == Val(r, n))
  {
    cond := 0;
    for i := 0 to n
      invariant cond == NotEqualByte(i, Val(l, i) == Val(r, i))
    {
      SameNext(l, r, i);
      ByteStep(cond, Chunk(l, i), Chunk(r, i), i, Val(l, i) == Val(r, i), Val(l, i + 1) == Val(r, i + 1));
      cond := BitOr(cond, 255 - Flag(Chunk(l, i) == Chunk(r, i)));
    }
  }

  method UnsignedCompare(op: CmpOp, l: seq<nat>, r: seq<nat>, n: nat) returns (res: seq<nat>)
    requires AreWords(l) && AreWords(r) && op in {Eq, Ne, LtU, GtU, LeU, GeU}
    ensures op != Ne ==> res == Result(Flag(Holds(op, Val(l, n), Val(r, n))), n)
    ensures op == Ne ==> res == Result(NotEqualByte(n, Val(l, n) == Val(r, n)), n)
  {
    var cond: nat;
    if op == Eq {
      cond := EqualFlag(l, r, n);
    } else if op == Ne {
      cond := NotEqualFlag(l, r, n);
    } else {
      var flag := OrderFlag(op, l, r, n);
      cond := Flag(flag);
    }
    res := Result(cond, n);
  }

  /** Only the lowest bit of "not equal" is the answer: over at least one chunk the word is 254 or 255. */
  lemma NotEqualInBitZero(n: nat, equal: bool)
    requires n > 0
    ensures NotEqualByte(n, equal) % 2 == Flag(!equal)
    ensures NotEqualByte(n, equal) != 0 && NotEqualByte(n, equal) != 1
  {
  }

  // ------------------------------------------------------------ signed order

  /** The lowest `w` bits read as a two's complement number. */
  function SignedAt(x: nat, w: nat): int
    requires w > 0
  {
    var low := x % Pow2(w);
    if low < Pow2(w - 1) then low else low - Pow2(w)
  }

  /** Shifting a partial top chunk left and arithmetically back sign-extends it. */
  lemma ExtendTop(x: nat, t: nat)
    requires x < WORD && 0 < t < 64
    ensures ShiftLeft(x, 64 - t) < WORD
    ensures Signed(ShiftArithmetic(ShiftLeft(x, 64 - t), 64 - t)) == SignedAt(x, t)
  {
    var s := 64 - t;
    var p, d := Pow2(s), Pow2(t);
    WordIsPow2();
    Pow2Sum(t, s);
    Pow2Sum(t - 1, s);
    ShiftedLow(x, p, d);
    LowScaled(x % d, d, p);
    ExtendBack(x % d, p, d, Pow2(t - 1));
    Pow2Grows(t, 63);
    var back := Signed(ShiftLeft(x, s)) / p;
    assert ShiftArithmetic(ShiftLeft(x, s), s) == Wrap(back);
    SignedWrap(back);
  }

  /** Shifting left by the missing bits keeps only the low ones. */
  lemma ShiftedLow(x: nat, p: nat, d: nat)
    requires p > 0 && d > 0 && d * p == WORD
    ensures x * p % WORD == x % d * p
  {
    DivBounds(x, d);
    var low, hi := x % d, x / d;
    assert x == low + hi * d;
    assert x * p == low * p + hi * (d * p);
    LowScaled(low, d, p);
    Reduced(low * p, x * p, hi, WORD);
  }

  lemma ExtendBack(low: nat, p: nat, d: nat, h: nat)
    requires p > 0 && low < d && d * p == WORD && h * p == SIGN && low * p < WORD
    ensures Signed(low * p) / p == if low < h then low else low - d
  {
    Halves(low, h, p);
    if low < h {
      DivUnique(low * p, p, low, 0);
    } else {
      assert (low - d) * p == low * p - WORD;
      DivUnique(low * p - WORD, p, low - d, 0);
    }
  }

  lemma SignedWrap(x: int)
    requires 0 - SIGN <= x < SIGN
    ensures Signed(Wrap(x)) == x
  {
  }

  lemma LowScaled(low: nat, d: nat, p: nat)
    requires low < d && p > 0
    ensures low * p < d * p
  {
    Outweighs(low, d, 0, 0, p);
  }

  lemma Halves(low: nat, h: nat, p: nat)
    requires p > 0
    ensures low < h <==> low * p < h * p
  {
    if low < h {
      LowScaled(low, h, p);
    } else {
      NotNegative(low - h, p);
      assert (low - h) * p == low * p - h * p;
    }
  }

  /** The value of the lowest `(n - 1) * 64 + t` bits, the top one being the sign. */
  function SignedVal(c: seq<nat>, n: nat, t: nat): int
    requires n > 0 && t > 0
  {
    Val(c, n - 1) + SignedAt(Chunk(c, n - 1), t) * Base(n - 1)
  }

  /** Reading the sign in the top chunk is reading it in the whole number. */
  lemma SignSplits(v: nat, low: nat, top: nat, n: nat, t: nat, w: nat)
    requires v == low + top * Base(n) && low < Base(n) && t > 0 && w == 64 * n + t
    ensures SignedAt(v, w) == low + SignedAt(top, t) * Base(n)
  {
    var b, d, h := Base(n), Pow2(t), Pow2(t - 1);
    BaseIsPow2(n);
    Pow2Sum(64 * n, t);
    Pow2Sum(64 * n, t - 1);
    assert w - 1 == 64 * n + (t - 1);
    DivBounds(top, d);
    var r, q := top % d, top / d;
    assert top == q * d + r;
    SplitRemainder(low, r, q, b, d);
    SignBody(low, r, b, d, h);
    assert Pow2(w) == b * d && Pow2(w - 1) == b * h;
  }

  lemma SignBody(low: nat, r: nat, b: nat, d: nat, h: nat)
    requires low < b && r < d
    ensures low + r * b < b * h <==> r < h
    ensures (r - d) * b == r * b - b * d
  {
    if r < h {
      Outweighs(r, h, low, 0, b);
    } else {
      NotNegative(r - h, b);
      assert (r - h) * b == r * b - h * b;
    }
  }

  lemma SplitRemainder(low: nat, r: nat, q: nat, b: nat, d: nat)
    requires low < b && r < d
    ensures (low + (q * d + r) * b) % (b * d) == low + r * b
  {
    Outweighs(r, d, low, 0, b);
    assert (q * d + r) * b == q * (b * d) + r * b;
    assert d * b == b * d;
    Reduced(low + r * b, low + (q * d + r) * b, q, b * d);
  }

  lemma SignedValIs(c: seq<nat>, n: nat, t: nat, w: nat)
    requires AreWords(c) && n > 0 && t > 0 && w == 64 * (n - 1) + t
    ensures SignedVal(c, n, t) == SignedAt(Val(c, n), w)
  {
    ValBelow(c, n - 1);
    TopOf(c, n);
    SignSplits(Val(c, n), Val(c, n - 1), Chunk(c, n - 1), n - 1, t, w);
  }

  lemma TopOf(c: seq<nat>, n: nat)
    requires n > 0
    ensures Val(c, n) == Val(c, n - 1) + Chunk(c, n - 1) * Base(n - 1)
  {
  }

  /** The top chunks differ only above the sign bit. */
  predicate PaddingDiffers(l: seq<nat>, r: seq<nat>, n: nat, t: nat)
    requires n > 0 && t > 0
  {
    Chunk(l, n - 1) != Chunk(r, n - 1) && SignedAt(Chunk(l, n - 1), t) == SignedAt(Chunk(r, n - 1), t)
  }

  /** Signed order, except that top chunks differing in padding alone compare as strictly ordered neither way. */
  method SignedCompare(op: CmpOp, l: seq<nat>, r: seq<nat>, n: nat, width: nat) returns (res: seq<nat>)
    requires AreWords(l) && AreWords(r) && op in {LtS, LeS, GtS, GeS} && n > 0 && 64 * (n - 1) < width <= 64 * n
    ensures !PaddingDiffers(l, r, n, width - 64 * (n - 1)) ==>
              res == Result(Flag(Holds(op, SignedAt(Val(l, n), width), SignedAt(Val(r, n), width))), n)
    ensures PaddingDiffers(l, r, n, width - 64 * (n - 1)) ==> res == Result(0, n)
  {
    var flag := Inclusive(op);
    var top := width - (n - 1) * 64;
    for i := 0 to n
      invariant i < n ==> (flag <==> Holds(op, Val(l, i), Val(r, i)))
      invariant i == n && !PaddingDiffers(l, r, n, top) ==>
                  (flag <==> Holds(op, SignedVal(l, n, top), SignedVal(r, n, top)))
      invariant i == n && PaddingDiffers(l, r, n, top) ==> !flag
    {
      var x, y := Chunk(l, i), Chunk(r, i);
      var cmp;
      ValBelow(l, i);
      ValBelow(r, i);
      if i == n - 1 {
        var a, b := x, y;
        if top < 64 {
          ExtendTop(x, top);
          ExtendTop(y, top);
          a := ShiftArithmetic(ShiftLeft(x, 64 - top), 64 - top);
          b := ShiftArithmetic(ShiftLeft(y, 64 - top), 64 - top);
        } else {
          WholeTop(x);
          WholeTop(y);
        }
        cmp := Strictly(op, Signed(a), Signed(b));
        TopDecides(op, SignedAt(x, top), SignedAt(y, top), Val(l, i), Val(r, i), Base(i));
      } else {
        cmp := Strictly(op, x, y);
        TopDecides(op, x, y, Val(l, i), Val(r, i), Base(i));
      }
      flag := if x == y then flag else cmp;
    }
    SignedValIs(l, n, top, width);
    SignedValIs(r, n, top, width);
    res := Result(Flag(flag), n);
  }

  lemma WholeTop(x: nat)
    requires x < WORD
    ensures Signed(x) == SignedAt(x, 64)
  {
    WordIsPow2();
  }
}
