/** Wide shifts by a run-time amount: select chains over registers, and indexed loads from memory. */
module WideShift {
  import opened Words
  import opened WideWords
  import opened WideDiv
  import opened WideDivRem
  import opened WideArith
  import opened WideCompare

  datatype ShiftOp = Shl | Shr

  /** Chunk indices stay far from the word size. */
  const LIMIT: nat := 0x1000_0000_0000_0000

  // ------------------------------------------------------------ words of the shifted number

  /** The chunk at an index, the fill beyond the end. */
  function At(c: seq<nat>, i: nat, fill: nat): nat {
    if i < |c| then c[i] else fill
  }

  /** Word `i` of the number moved right by whole words. */
  function Right(c: seq<nat>, fill: nat, off: nat, count: nat): (r: seq<nat>)
    ensures |r| == count && forall i :: 0 <= i < count ==> r[i] == At(c, i + off, fill)
  {
    seq<nat>(count, i requires 0 <= i < count => At(c, i + off, fill))
  }

  /** Word `i` of the number moved left by whole words. */
  function Left(c: seq<nat>, off: nat, count: nat): (r: seq<nat>)
    ensures |r| == count && forall i :: 0 <= i < count ==> r[i] == LeftWord(c, off, i)
  {
    seq<nat>(count, i requires 0 <= i < count => LeftWord(c, off, i))
  }

  function LeftWord(c: seq<nat>, off: nat, i: nat): nat {
    if i < off then 0 else Chunk(c, i - off)
  }

  /** What the low word keeps and the next one hands down; without a bit shift the second part is not selected. */
  function JoinRight(cur: nat, nxt: nat, b: nat): nat
    requires b < 64
  {
    var high := if b != 0 then ShiftLeft(nxt, 64 - b) else 0;
    BitOr(ShiftRight(cur, b), high)
  }

  function JoinLeft(cur: nat, prev: nat, b: nat): nat
    requires b < 64
  {
    var low := if b != 0 then ShiftRight(prev, 64 - b) else 0;
    BitOr(ShiftLeft(cur, b), low)
  }

  lemma SplitWord(x: nat, b: nat)
    requires x < WORD && b < 64
    ensures Pow2(b) * Pow2(64 - b) == WORD
    ensures x == Quotient(x, Pow2(b)) * Pow2(b) + Remainder(x, Pow2(b))
    ensures Quotient(x, Pow2(b)) < Pow2(64 - b)
  {
    WordIsPow2();
    Pow2Sum(b, 64 - b);
    QuotientBelow(x, Pow2(b), Pow2(64 - b));
  }

  lemma QuotientBelow(x: nat, p: nat, m: nat)
    requires p > 0 && x < p * m
    ensures Quotient(x, p) < m
  {
    var q := Quotient(x, p);
    assert m * p == p * m;
    Halves(q, m, p);
  }

  lemma RemainderIs(a: nat, b: nat)
    requires b > 0
    ensures Remainder(a, b) == a % b
  {
    DivUnique(a, b, Quotient(a, b), Remainder(a, b));
  }

  /** The low bits moved to the top of a word, and nothing else of it. */
  lemma MovedUp(x: nat, b: nat)
    requires x < WORD && 0 < b < 64
    ensures ShiftLeft(x, 64 - b) == Remainder(x, Pow2(b)) * Pow2(64 - b) && Clear(ShiftLeft(x, 64 - b), 64 - b)
  {
    SplitWord(x, b);
    ShiftedLow(x, Pow2(64 - b), Pow2(b));
    RemainderIs(x, Pow2(b));
    var r, m := Remainder(x, Pow2(b)), Pow2(64 - b);
    assert m * r == r * m;
    DivUnique(r * m, m, r, 0);
  }

  lemma ByNothing(x: nat)
    requires x < WORD
    ensures Pow2(0) == 1 && Quotient(x, Pow2(0)) == x && Remainder(x, Pow2(0)) == 0
    ensures ShiftRight(x, 0) == x && ShiftLeft(x, 0) == x && BitOr(x, 0) == x
    ensures Pow2(64) == WORD && Quotient(x, Pow2(64)) == 0
  {
    WordIsPow2();
    QuotientIs(x, 1, x, 0);
    QuotientIs(x, WORD, 0, x);
  }

  /** Two words make one shifted word: the low one's quotient, and the next one's remainder above it. */
  lemma JoinRightIs(cur: nat, nxt: nat, b: nat)
    requires cur < WORD && nxt < WORD && b < 64
    ensures JoinRight(cur, nxt, b) == Quotient(cur, Pow2(b)) + Remainder(nxt, Pow2(b)) * Pow2(64 - b)
    ensures JoinRight(cur, nxt, b) < WORD
  {
    if b == 0 {
      RightByNothing(cur, nxt, b);
    } else {
      RightJoined(cur, nxt, b, 64 - b, JoinRight(cur, nxt, b));
    }
  }

  lemma RightByNothing(cur: nat, nxt: nat, b: nat)
    requires cur < WORD && nxt < WORD && b == 0
    ensures JoinRight(cur, nxt, b) == Quotient(cur, Pow2(b)) + Remainder(nxt, Pow2(b)) * Pow2(64 - b)
    ensures JoinRight(cur, nxt, b) < WORD
  {
    ByNothing(cur);
    ByNothing(nxt);
    var none := Remainder(nxt, Pow2(b));
    assert none * Pow2(64 - b) == 0;
  }

  lemma RightJoined(cur: nat, nxt: nat, b: nat, s: nat, x: nat)
    requires cur < WORD && nxt < WORD && 0 < b < 64 && s == 64 - b && x == BitOr(ShiftRight(cur, b), ShiftLeft(nxt, s))
    ensures x == Quotient(cur, Pow2(b)) + Remainder(nxt, Pow2(b)) * Pow2(s) && x < WORD
  {
    SplitWord(cur, b);
    MovedUp(nxt, b);
    JoinLow(ShiftLeft(nxt, s), ShiftRight(cur, b), s);
    Outweighs(Remainder(nxt, Pow2(b)), Pow2(b), Quotient(cur, Pow2(b)), 0, Pow2(s));
  }

  lemma JoinLeftIs(cur: nat, prev: nat, b: nat)
    requires cur < WORD && prev < WORD && b < 64
    ensures JoinLeft(cur, prev, b) < WORD
    ensures JoinLeft(cur, prev, b) + Quotient(cur, Pow2(64 - b)) * WORD == cur * Pow2(b) + Quotient(prev, Pow2(64 - b))
  {
    if b == 0 {
      LeftByNothing(cur, prev);
    } else {
      LeftJoined(cur, prev, b, 64 - b, JoinLeft(cur, prev, b));
    }
  }

  lemma LeftByNothing(cur: nat, prev: nat)
    requires cur < WORD && prev < WORD
    ensures JoinLeft(cur, prev, 0) == cur && Quotient(cur, Pow2(64)) == 0
    ensures cur * Pow2(0) == cur && Quotient(prev, Pow2(64)) == 0
  {
    ByNothing(cur);
    ByNothing(prev);
  }

  lemma LeftJoined(cur: nat, prev: nat, b: nat, s: nat, x: nat)
    requires cur < WORD && prev < WORD && 0 < b < 64 && s == 64 - b
    requires x == BitOr(ShiftLeft(cur, b), ShiftRight(prev, s))
    ensures x < WORD && x + Quotient(cur, Pow2(s)) * WORD == cur * Pow2(b) + Quotient(prev, Pow2(s))
  {
    var p, m, low := Pow2(b), Pow2(s), Quotient(prev, Pow2(s));
    assert b == 64 - s;
    SplitWord(prev, s);
    SplitWord(cur, s);
    MovedUp(cur, s);
    JoinLow(ShiftLeft(cur, b), low, b);
    OrSwaps(ShiftLeft(cur, b), low);
    Outweighs(Remainder(cur, m), m, low, 0, p);
    Regroup(cur, Quotient(cur, m), Remainder(cur, m), m, p);
  }

  lemma Regroup(x: nat, q: nat, r: nat, p: nat, m: nat)
    requires x == q * p + r
    ensures x * m == q * (p * m) + r * m
  {
    assert (q * p) * m == q * (p * m);
  }

  lemma {:induction false} OrSwaps(a: nat, b: nat)
    ensures BitOr(a, b) == BitOr(b, a)
    decreases a + b
  {
    if a != 0 && b != 0 {
      OrSwaps(a / 2, b / 2);
    }
  }

  // ------------------------------------------------------------ the value of the shifted chunks

  /** `res` is `words` shifted right by `b` bits, word by word. */
  ghost predicate ShiftedRight(words: seq<nat>, b: nat, res: seq<nat>)
    requires b < 64
  {
    |words| == |res| + 1 && forall i,
      j :: 0 <= i && j == i + 1 && i < |res| ==> res[i] == JoinRight(words[i], words[j], b)
  }

  ghost predicate ShiftedLeft(words: seq<nat>, b: nat, res: seq<nat>)
    requires b < 64
  {
    && |words| == |res|
    && (forall i, j :: 0 <= i && j == i + 1 && j < |res| ==> res[j] == JoinLeft(words[j], words[i], b))
    && (|res| > 0 ==> res[0] == JoinLeft(words[0], 0, b))
  }

  lemma RightAt(words: seq<nat>, b: nat, res: seq<nat>, i: nat, j: nat)
    requires AreWords(words) && b < 64 && ShiftedRight(words, b, res) && i < |res| && j == i + 1
    ensures res[i] == Quotient(words[i], Pow2(b)) + Remainder(words[j], Pow2(b)) * Pow2(64 - b) && res[i] < WORD
  {
    JoinRightIs(words[i], words[j], b);
  }

  lemma {:induction false} RightVal(words: seq<nat>, b: nat, res: seq<nat>, i: nat)
    requires AreWords(words) && b < 64 && ShiftedRight(words, b, res) && i <= |res|
    ensures Val(res, i) * Pow2(b) + Remainder(words[0], Pow2(b)) ==
            Val(words, i) + Remainder(words[i], Pow2(b)) * Base(i)
  {
    if i > 0 {
      RightVal(words, b, res, i - 1);
      RightAt(words, b, res, i - 1, i);
      SplitWord(words[i - 1], b);
      RightStep(Val(res, i - 1), res[i - 1], words[i - 1], Quotient(words[i - 1], Pow2(b)),
        Remainder(words[i - 1], Pow2(b)),
                Remainder(words[i], Pow2(b)), Pow2(b), Pow2(64 - b), Base(i - 1), Remainder(words[0], Pow2(b)),
                  Val(words, i - 1));
    }
  }

  lemma RightStep(v: int, x: int, w: int, q: int, r: int, r': int, p: int, m: int, base: int, low: int, rest: int)
    requires x == q + r' * m && w == q * p + r && p * m == WORD
    requires v * p + low == rest + r * base
    ensures (v + x * base) * p + low == rest + w * base + r' * (WORD * base)
  {
    assert x * p == q * p + r' * (p * m) by {
      assert (r' * m) * p == r' * (p * m);
    }
    assert (x * base) * p == (x * p) * base;
    assert (w - r + r' * WORD) * base == w * base - r * base + r' * (WORD * base);
  }

  /** All words fit, and the value is the floor division modulo the chunks. */
  lemma RightIsDivision(words: seq<nat>, b: nat, res: seq<nat>, x: int, k: int)
    requires AreWords(words) && b < 64 && ShiftedRight(words, b, res)
    requires x == Val(words, |res| + 1) + k * Base(|res| + 1)
    ensures AreWords(res) && Val(res, |res|) == (x / Pow2(b)) % Base(|res|)
  {
    var n, p := |res|, Pow2(b);
    forall i | 0 <= i < n ensures res[i] < WORD {
      RightAt(words, b, res, i, i + 1);
    }
    RightVal(words, b, res, n);
    ValBelow(res, n);
    SplitWord(words[n], b);
    WordIsPow2();
    var q := Quotient(words[n], p);
    DivisionModulo(x, Val(res, n), Remainder(words[0], p), p, Base(n), q + k * Pow2(64 - b),
                   Val(words, n), words[n], q, Remainder(words[n], p), k, Pow2(64 - b));
  }

  lemma DivisionModulo(x: int, v: nat, low: nat, p: nat, base: nat, t: int, rest: nat, top: nat, q: nat, r: nat,
      k: int, m: nat)
    requires p > 0 && low < p && v < base && p * m == WORD && t == q + k * m
    requires v * p + low == rest + r * base && top == q * p + r
    requires x == rest + top * base + k * (WORD * base)
    ensures v == (x / p) % base
  {
    assert top * base == (q * p) * base + r * base;
    assert x == (v + t * base) * p + low by {
      assert (v + t * base) * p == v * p + (t * base) * p;
      assert t * base == q * base + (k * m) * base;
      assert (q * base) * p == (q * p) * base;
      assert ((k * m) * base) * p == k * ((p * m) * base);
      assert (t * base) * p == (q * base) * p + ((k * m) * base) * p;
    }
    DivUnique(x, p, v + t * base, low);
    Reduced(v, v + t * base, t, base);
  }

  lemma {:induction false} LeftVal(words: seq<nat>, b: nat, res: seq<nat>, i: nat)
    requires AreWords(words) && b < 64 && ShiftedLeft(words, b, res) && i <= |res|
    ensures Val(res, i) + (if i > 0 then Quotient(words[i - 1], Pow2(64 - b)) else 0) * Base(i) ==
            Val(words, i) * Pow2(b)
  {
    if i > 0 {
      LeftVal(words, b, res, i - 1);
      var j, prev := i - 1, if i > 1 then words[i - 2] else 0;
      if i > 1 {
        var k := i - 2;
        assert j == k + 1 && res[j] == JoinLeft(words[j], words[k], b);
      }
      JoinLeftIs(words[j], prev, b);
      QuotientIs(0, Pow2(64 - b), 0, 0);
      AddScaled(res[j], Quotient(words[j], Pow2(64 - b)), words[j] * Pow2(b), 0, Quotient(prev, Pow2(64 - b)), Base(j));
      LeftStep(Val(words, j), words[j], Pow2(b), Base(j));
    }
  }

  lemma LeftStep(v: int, w: int, p: int, base: int)
    ensures (v + w * base) * p == v * p + (w * p) * base
  {
    assert (w * base) * p == (w * p) * base;
  }

  lemma LeftIsProduct(words: seq<nat>, b: nat, res: seq<nat>)
    requires AreWords(words) && b < 64 && ShiftedLeft(words, b, res)
    ensures AreWords(res) && Val(res, |res|) == Val(words, |res|) * Pow2(b) % Base(|res|)
  {
    var n := |res|;
    forall j | 0 <= j < n ensures res[j] < WORD {
      if j > 0 {
        var i := j - 1;
        assert j == i + 1 && res[j] == JoinLeft(words[j], words[i], b);
        JoinLeftIs(words[j], words[i], b);
      } else {
        JoinLeftIs(words[0], 0, b);
      }
    }
    LeftVal(words, b, res, n);
    ValBelow(res, n);
    Reduced(Val(res, n), Val(words, n) * Pow2(b), if n > 0 then Quotient(words[n - 1], Pow2(64 - b)) else 0, Base(n));
  }

  // ------------------------------------------------------------ shifting by whole words

  lemma {:induction false} ValSplit(e: seq<nat>, off: nat, m: nat)
    requires off + m <= |e|
    ensures Val(e, off + m) == Val(e, off) + Val(e[off..], m) * Base(off)
  {
    if m > 0 {
      ValSplit(e, off, m - 1);
      BaseSum(m - 1, off);
      PlaceAbove(Val(e[off..], m - 1), e[off + m - 1], Base(m - 1), Base(off));
    }
  }

  lemma PlaceAbove(v: nat, x: nat, p: nat, b: nat)
    ensures (v + x * p) * b == v * b + x * (p * b)
  {
    assert (x * p) * b == x * (p * b);
  }

  /** The number the chunks stand for when everything above them repeats the sign. */
  function Physical(c: seq<nat>, negative: bool): int {
    Val(c, |c|) - if negative then Base(|c|) else 0
  }

  function Fill(negative: bool): nat {
    if negative then WORD - 1 else 0
  }

  lemma ExtendedPhysical(c: seq<nat>, negative: bool, m: nat)
    requires |c| <= m
    ensures Physical(c, negative) == Val(Right(c, Fill(negative), 0, m), m) - if negative then Base(m) else 0
  {
    var e := Right(c, Fill(negative), 0, m);
    FillAbove(e, |c|, m, negative);
    ValSame(e, c, |c|);
  }

  /** Dropping the lowest words divides, up to multiples of the base above the words kept. */
  lemma RightNumber(c: seq<nat>, negative: bool, off: nat, count: nat) returns (k: int)
    requires AreWords(c)
    ensures Physical(c, negative) / Base(off) == Val(Right(c, Fill(negative), off, count), count) + k * Base(count)
  {
    var d := |c| + count;
    var e, w := Right(c, Fill(negative), 0, off + d), Right(c, Fill(negative), off, count);
    ExtendedPhysical(c, negative, off + d);
    ValSplit(e, off, d);
    ValBelow(e, off);
    BaseSum(d, off);
    var high := e[off..];
    ValSame(high, w, count);
    var rest := RowRest(high, |c|, count);
    BaseSum(|c|, count);
    k := DroppedWords(Physical(c, negative), Val(e, off), Val(high, d), Base(d), Base(off), negative, Val(w, count),
      rest, Base(count), Base(|c|));
  }

  lemma DroppedWords(x: int, low: nat, high: nat, bd: nat, b: nat, negative: bool, kept: nat, rest: nat, bk: nat,
      bc: nat) returns (k: int)
    requires x == low + high * b - (if negative then bd * b else 0) && low < b
    requires high == kept + rest * bk && bd == bc * bk
    ensures x / b == kept + k * bk
  {
    var q := high - if negative then bd else 0;
    assert b * q == high * b - if negative then bd * b else 0;
    DivUnique(x, b, q, low);
    k := rest - if negative then bc else 0;
    assert k * bk == rest * bk - if negative then bc * bk else 0;
  }

  lemma {:induction false} LeftWordsVal(c: seq<nat>, off: nat, n: nat, i: nat)
    requires i <= n
    ensures i <= off ==> Val(Left(c, off, n), i) == 0
    ensures i >= off ==> Val(Left(c, off, n), i) == Val(c, i - off) * Base(off)
  {
    if i > 0 {
      LeftWordsVal(c, off, n, i - 1);
      if i > off {
        var d := i - 1 - off;
        BaseSum(d, off);
        PlaceAbove(Val(c, d), Chunk(c, d), Base(d), Base(off));
      }
    }
  }

  lemma {:induction false} ValBeyond(c: seq<nat>, n: nat)
    requires |c| <= n
    ensures Val(c, n) == Val(c, |c|)
  {
    if |c| < n {
      ValBeyond(c, n - 1);
    }
  }

  /** Moving words up multiplies, up to multiples of the base of the words kept. */
  lemma LeftNumber(c: seq<nat>, off: nat, n: nat) returns (k: nat)
    ensures Val(Left(c, off, n), n) + k * Base(n) == Val(c, |c|) * Base(off)
  {
    LeftWordsVal(c, off, n, n);
    if n <= off {
      BaseSum(off - n, n);
      k := Val(c, |c|) * Base(off - n);
      Associate(Val(c, |c|), Base(off - n), Base(n));
    } else {
      var d := n - off;
      k := LeftRest(c, d);
      BaseSum(d, off);
      PlaceAbove(Val(c, d), k, Base(d), Base(off));
    }
  }

  lemma Associate(a: nat, b: nat, c: nat)
    ensures (a * b) * c == a * (b * c)
  {
  }

  lemma LeftRest(c: seq<nat>, d: nat) returns (k: nat)
    ensures Val(c, |c|) == Val(c, d) + k * Base(d)
  {
    if |c| <= d {
      ValBeyond(c, d);
      k := 0;
    } else {
      k := RowRest(c, |c| - d, d);
    }
  }

  // ------------------------------------------------------------ what both forms compute

  function RightChunk(c: seq<nat>, fill: nat, s: nat, i: nat): nat {
    JoinRight(At(c, i + s / 64, fill), At(c, i + 1 + s / 64, fill), s % 64)
  }

  function LeftChunk(c: seq<nat>, s: nat, i: nat): nat {
    JoinLeft(LeftWord(c, s / 64, i), if i > 0 then LeftWord(c, s / 64, i - 1) else 0, s % 64)
  }

  predicate IsRight(c: seq<nat>, fill: nat, s: nat, res: seq<nat>) {
    forall i: nat :: i < |res| ==> res[i] == RightChunk(c, fill, s, i)
  }

  predicate IsLeft(c: seq<nat>, s: nat, res: seq<nat>) {
    forall i: nat :: i < |res| ==> res[i] == LeftChunk(c, s, i)
  }

  lemma DivTwice(x: int, p: nat, q: nat)
    requires p > 0 && q > 0 && p * q > 0
    ensures x / p / q == x / (p * q)
  {
    var a, b := x / p, x % p;
    var u, v := a / q, a % q;
    assert x == p * a + b && a == q * u + v;
    assert p * (q * u + v) == (p * q) * u + p * v;
    Outweighs(v, q, b, 0, p);
    assert v * p == p * v && q * p == p * q;
    DivUnique(x, p * q, u, p * v + b);
  }

  lemma AmountSplits(s: nat)
    ensures Base(s / 64) * Pow2(s % 64) == Pow2(s)
  {
    BaseIsPow2(s / 64);
    Pow2Sum(64 * (s / 64), s % 64);
    assert 64 * (s / 64) + s % 64 == s;
  }

  /** Every amount: floor division by two to the amount, modulo the chunks. */
  lemma RightMeaning(c: seq<nat>, negative: bool, s: nat, res: seq<nat>)
    requires AreWords(c) && IsRight(c, Fill(negative), s, res)
    ensures AreWords(res) && Val(res, |res|) == (Physical(c, negative) / Pow2(s)) % Base(|res|)
  {
    var n, off, b := |res|, s / 64, s % 64;
    var words := Right(c, Fill(negative), off, n + 1);
    RightWords(c, Fill(negative), s, res, words);
    var k := RightNumber(c, negative, off, n + 1);
    RightIsDivision(words, b, res, Physical(c, negative) / Base(off), k);
    AmountSplits(s);
    DivTwice(Physical(c, negative), Base(off), Pow2(b));
  }

  lemma RightWords(c: seq<nat>, fill: nat, s: nat, res: seq<nat>, words: seq<nat>)
    requires AreWords(c) && fill < WORD && IsRight(c, fill, s, res) && words == Right(c, fill, s / 64, |res| + 1)
    ensures AreWords(words) && ShiftedRight(words, s % 64, res)
  {
    forall i, j | 0 <= i && j == i + 1 && i < |res| ensures res[i] == JoinRight(words[i], words[j], s % 64) {
      assert res[i] == RightChunk(c, fill, s, i);
    }
  }

  /** Every amount: multiplication by two to the amount, modulo the chunks. */
  lemma LeftMeaning(c: seq<nat>, s: nat, res: seq<nat>)
    requires AreWords(c) && IsLeft(c, s, res)
    ensures AreWords(res) && Val(res, |res|) == Val(c, |c|) * Pow2(s) % Base(|res|)
  {
    var n, off, b := |res|, s / 64, s % 64;
    var words := Left(c, off, n);
    forall i, j | 0 <= i && j == i + 1 && j < n ensures res[j] == JoinLeft(words[j], words[i], b) {
      assert res[j] == LeftChunk(c, s, j);
    }
    LeftIsProduct(words, b, res);
    var k := LeftNumber(c, off, n);
    AmountSplits(s);
    ProductModulo(Val(words, n), k, Base(n), Val(c, |c|), Base(off), Pow2(b));
  }

  lemma ProductModulo(w: nat, k: nat, base: nat, v: nat, off: nat, p: nat)
    requires base > 0 && w + k * base == v * off
    ensures w * p % base == v * (off * p) % base
  {
    assert v * (off * p) == w * p + (k * p) * base by {
      assert v * (off * p) == (v * off) * p;
      assert (k * base) * p == (k * p) * base;
    }
    var q, r := w * p / base, w * p % base;
    assert w * p == base * q + r;
    assert base * (q + k * p) == base * q + (k * p) * base;
    DivUnique(v * (off * p), base, q + k * p, r);
  }

  // ------------------------------------------------------------ register form

  lemma AmountParts(s: nat)
    requires s < WORD
    ensures BitAnd(s, 63) == s % 64 && ShiftRight(s, 6) == s / 64
  {
    assert Pow2(6) == 64;
    AndMask(s, 6);
  }

  /** The chain of selects: the chunk whose index matches, else the default. */
  method SelectWord(c: seq<nat>, idx: nat, default': nat) returns (word: nat)
    ensures word == At(c, idx, default')
  {
    word := default';
    for i := 0 to |c|
      invariant word == if idx < i then c[idx] else default'
    {
      word := if idx == i then c[i] else word;
    }
  }

  method Indices(op: ShiftOp, off: nat, i: nat) returns (cur: nat, nxt: nat)
    requires off <= WORD / 64 && i < LIMIT
    ensures op == Shr ==> cur == i + off && nxt == i + 1 + off
    ensures op == Shl && i >= off ==> cur == i - off
    ensures op == Shl && i < off ==> cur >= LIMIT
    ensures op == Shl && i > off ==> nxt == i - off - 1
    ensures op == Shl && i <= off ==> nxt >= LIMIT
  {
    if op == Shr {
      cur := Iadd(off, i);
      nxt := Iadd(cur, 1);
    } else {
      cur := Isub(i, off);
      nxt := Iadd(cur, WORD - 1);
    }
  }

  method ShiftRegisters(op: ShiftOp, l: seq<nat>, r: seq<nat>, n: nat) returns (res: seq<nat>)
    requires AreWords(l) && AreWords(r) && r != [] && n < LIMIT && |l| < LIMIT
    ensures |res| == n && AreWords(res)
    ensures if op == Shr then IsRight(l, 0, r[0], res) else IsLeft(l, r[0], res)
    ensures op == Shr ==> Val(res, n) == (Val(l, |l|) / Pow2(r[0])) % Base(n)
    ensures op == Shl ==> Val(res, n) == Val(l, |l|) * Pow2(r[0]) % Base(n)
  {
    var s := r[0];
    AmountParts(s);
    var bits, off := BitAnd(s, 63), ShiftRight(s, 6);
    res := [];
    for i := 0 to n
      invariant |res| == i
      invariant if op == Shr then IsRight(l, 0, s, res) else IsLeft(l, s, res)
    {
      var idxCur, idxNxt := Indices(op, off, i);
      var cur := SelectWord(l, idxCur, 0);
      var nxt := SelectWord(l, idxNxt, 0);
      res := res + [if op == Shr then JoinRight(cur, nxt, bits) else JoinLeft(cur, nxt, bits)];
    }
    if op == Shr {
      RightMeaning(l, false, s, res);
    } else {
      LeftMeaning(l, s, res);
    }
  }

  method SarRegisters(l: seq<nat>, r: seq<nat>, n: nat, width: nat) returns (res: seq<nat>)
    requires AreWords(l) && AreWords(r) && r != [] && n < LIMIT && |l| < LIMIT && width > 0
    ensures |res| == n && AreWords(res)
    ensures IsRight(l, Fill(SignedOf(l, width) < 0), r[0], res)
    ensures Val(res, n) == (Physical(l, SignedOf(l, width) < 0) / Pow2(r[0])) % Base(n)
  {
    var s := r[0];
    AmountParts(s);
    var bits, off := BitAnd(s, 63), ShiftRight(s, 6);
    var negative := SignBit(l, width);
    var fill := if negative then WORD - 1 else 0;
    res := [];
    for i := 0 to n
      invariant |res| == i && IsRight(l, fill, s, res)
    {
      var idxCur, idxNxt := Indices(Shr, off, i);
      var cur := SelectWord(l, idxCur, fill);
      var nxt := SelectWord(l, idxNxt, fill);
      res := res + [JoinRight(cur, nxt, bits)];
    }
    RightMeaning(l, negative, s, res);
  }

  // ------------------------------------------------------------ memory form

  /** A load at a run-time index, made safe by reading the first chunk when out of bounds. */
  method LoadOrDefault(src: array<nat>, idx: nat, n: nat, default': nat) returns (word: nat)
    requires 0 < n <= src.Length
    ensures word == At(src[..n], idx, default')
  {
    var inBounds := idx < n;
    var safe := if inBounds then idx else 0;
    var loaded := src[safe];
    word := if inBounds then loaded else default';
  }

  /** The result chunk the emitter computes from memory for index `i`. */
  method ShiftedChunk(op: ShiftOp, src: array<nat>, s: nat, bits: nat, off: nat, i: nat, n: nat) returns (word: nat)
    requires 0 < n <= src.Length && i < n < LIMIT && s < WORD && bits == s % 64 && off == s / 64
    ensures word == if op == Shr then RightChunk(src[..n], 0, s, i) else LeftChunk(src[..n], s, i)
  {
    var idxCur, idxNxt := Indices(op, off, i);
    var cur := LoadOrDefault(src, idxCur, n, 0);
    var nxt := LoadOrDefault(src, idxNxt, n, 0);
    word := if op == Shr then JoinRight(cur, nxt, bits) else JoinLeft(cur, nxt, bits);
  }

  method FilledChunk(src: array<nat>, s: nat, bits: nat, off: nat, fill: nat, i: nat, n: nat) returns (word: nat)
    requires 0 < n <= src.Length && i < n < LIMIT && s < WORD && bits == s % 64 && off == s / 64
    ensures word == RightChunk(src[..n], fill, s, i)
  {
    var idxCur, idxNxt := Indices(Shr, off, i);
    var cur := LoadOrDefault(src, idxCur, n, fill);
    var nxt := LoadOrDefault(src, idxNxt, n, fill);
    word := JoinRight(cur, nxt, bits);
  }

  /** The same chunks as the register form, written to separate memory. */
  method ShiftMemory(op: ShiftOp, src: array<nat>, r: seq<nat>, dst: array<nat>, n: nat)
    requires src != dst && n <= src.Length && n <= dst.Length && n < LIMIT && AreWords(src[..n]) && AreWords(r)
    requires r != []
    modifies dst
    ensures if op == Shr then IsRight(src[..n], 0, r[0], dst[..n]) else IsLeft(src[..n], r[0], dst[..n])
    ensures op == Shr ==> Val(dst[..n], n) == (Val(src[..n], n) / Pow2(r[0])) % Base(n)
    ensures op == Shl ==> Val(dst[..n], n) == Val(src[..n], n) * Pow2(r[0]) % Base(n)
    ensures forall k :: n <= k < dst.Length ==> dst[k] == old(dst[k])
  {
    var s := r[0];
    AmountParts(s);
    var bits, off := BitAnd(s, 63), ShiftRight(s, 6);
    for i := 0 to n
      invariant if op == Shr then IsRight(src[..n], 0, s, dst[..i]) else IsLeft(src[..n], s, dst[..i])
      invariant forall k :: i <= k < dst.Length ==> dst[k] == old(dst[k])
    {
      var word := ShiftedChunk(op, src, s, bits, off, i, n);
      dst[i] := word;
    }
    if op == Shr {
      RightMeaning(src[..n], false, s, dst[..n]);
    } else {
      LeftMeaning(src[..n], s, dst[..n]);
    }
  }

  method SarMemory(src: array<nat>, r: seq<nat>, dst: array<nat>, n: nat, width: nat)
    requires src != dst && n <= src.Length && n <= dst.Length && n < LIMIT && AreWords(src[..n]) && AreWords(r)
    requires r != []
    requires 0 < width <= 64 * n
    modifies dst
    ensures IsRight(src[..n], Fill(SignedOf(src[..n], width) < 0), r[0], dst[..n])
    ensures Val(dst[..n], n) == (Physical(src[..n], SignedOf(src[..n], width) < 0) / Pow2(r[0])) % Base(n)
    ensures forall k :: n <= k < dst.Length ==> dst[k] == old(dst[k])
  {
    var s := r[0];
    AmountParts(s);
    var bits, off := BitAnd(s, 63), ShiftRight(s, 6);
    var negative := SignBit(src[..n], width);
    var fill := if negative then WORD - 1 else 0;
    for i := 0 to n
      invariant IsRight(src[..n], fill, s, dst[..i])
      invariant forall k :: i <= k < dst.Length ==> dst[k] == old(dst[k])
    {
      var word := FilledChunk(src, s, bits, off, fill, i, n);
      dst[i] := word;
    }
    RightMeaning(src[..n], negative, s, dst[..n]);
  }

  // ------------------------------------------------------------ when the arithmetic shift is the signed one

  /** Every bit above the logical width repeats the sign. */
  predicate SignExtended(c: seq<nat>, width: nat) {
    forall i: nat :: i < |c| ==> c[i] == ExtendedChunk(c, width, SignedOf(c, width) < 0, i)
  }

  lemma ExtendedValue(c: seq<nat>, width: nat) returns (e: seq<nat>)
    requires AreWords(c) && 0 < width <= 64 * |c|
    ensures |e| == |c| && AreWords(e) && Val(e, |c|) == SignedOf(c, width) % Base(|c|)
    ensures forall i: nat :: i < |c| ==> e[i] == ExtendedChunk(c, width, SignedOf(c, width) < 0, i)
  {
    var negative := SignedOf(c, width) < 0;
    e := seq(|c|, i requires 0 <= i < |c| => ExtendedChunk(c, width, negative, i));
    ExtendedIs(c, (width - 1) / 64, (width - 1) % 64 + 1, width, negative, |c|, e);
  }

  lemma ExtendedIsSigned(c: seq<nat>, width: nat)
    requires AreWords(c) && 0 < width <= 64 * |c| && SignExtended(c, width)
    ensures Physical(c, SignedOf(c, width) < 0) == SignedOf(c, width)
  {
    var e := ExtendedValue(c, width);
    assert e == c;
    MagnitudeFits(c, width, |c|);
    var x, p := SignedOf(c, width), Base(|c|);
    if x < 0 {
      DivUnique(x, p, -1, x + p);
    } else {
      DivUnique(x, p, 0, x);
    }
  }

  ghost predicate ShiftsSigned(c: seq<nat>, width: nat, n: nat, s: nat) {
    (Physical(c, SignedOf(c, width) < 0) / Pow2(s)) % Base(n) == (SignedOf(c, width) / Pow2(s)) % Base(n)
  }

  /** The emitted arithmetic shift is the signed one for every amount exactly when the padding repeats the sign. */
  lemma SarIsSignedShift(c: seq<nat>, width: nat, n: nat)
    requires AreWords(c) && 0 < width <= 64 * |c| && |c| <= n
    ensures (forall s: nat :: ShiftsSigned(c, width, n, s)) <==> SignExtended(c, width)
  {
    if SignExtended(c, width) {
      ExtendedIsSigned(c, width);
    }
    if forall s: nat :: ShiftsSigned(c, width, n, s) {
      assert ShiftsSigned(c, width, n, 0);
      assert Pow2(0) == 1;
      var negative := SignedOf(c, width) < 0;
      BaseSum(|c|, n - |c|);
      ReducedTwice(SignedOf(c, width), SignedOf(c, width) % Base(n), Base(|c|), Base(n - |c|));
      ReducedTwice(Physical(c, negative), Physical(c, negative) % Base(n), Base(|c|), Base(n - |c|));
      ValBelow(c, |c|);
      DivUnique(Physical(c, negative), Base(|c|), if negative then -1 else 0, Val(c, |c|));
      var e := ExtendedValue(c, width);
      ValInjective(e, c, |c|);
      forall i: nat | i < |c| ensures c[i] == ExtendedChunk(c, width, negative, i) {
        assert Chunk(e, i) == Chunk(c, i);
      }
    }
  }
}
