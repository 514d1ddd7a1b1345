/** Carry chains: wide addition, subtraction, negation, multiplication and comparison, word by word. */
module WideArith {
  import opened CfgErrors
  import opened Words
  import opened WideWords

  // ------------------------------------------------------------ one chunk

  /** The carry (or borrow) into a chunk; the lowest chunk has none. */
  function Incoming(carry: Option<bool>): nat {
    if carry == Some(true) then 1 else 0
  }

  function AddChunk(l: nat, r: nat, carry: Option<bool>): (p: (nat, bool))
    requires l < WORD && r < WORD
    ensures p.0 < WORD && p.0 + Flag(p.1) * WORD == l + r + Incoming(carry)
  {
    match carry
    case None => var s := Iadd(l, r); (s, s < l)
    case Some(cin) =>
      var s1 := Iadd(l, r);
      var s2 := Iadd(s1, Flag(cin));
      (s2, s1 < l || s2 < s1)
  }

  function SubChunk(l: nat, r: nat, borrow: Option<bool>): (p: (nat, bool))
    requires l < WORD && r < WORD
    ensures p.0 < WORD && p.0 + r + Incoming(borrow) == l + Flag(p.1) * WORD
  {
    match borrow
    case None => (Isub(l, r), r > l)
    case Some(bin) =>
      var d1 := Isub(l, r);
      (Isub(d1, Flag(bin)), r > l || Flag(bin) > d1)
  }

  /** The lowest chunk adds one to the complement. */
  function NegateChunk(r: nat, carry: Option<bool>): (p: (nat, bool))
    requires r < WORD
    ensures p.0 < WORD && p.0 + Flag(p.1) * WORD == WORD - 1 - r + if carry.None? then 1 else Incoming(carry)
  {
    var inv := Bnot(r);
    var s := Iadd(inv, if carry.None? then 1 else Flag(carry.value));
    (s, s < inv)
  }

  // ------------------------------------------------------------ addition, subtraction, negation

  method WideAdd(l: seq<nat>, r: seq<nat>, n: nat) returns (res: seq<nat>)
    requires AreWords(l) && AreWords(r)
    ensures |res| == n && AreWords(res) && Val(res, n) == (Val(l, n) + Val(r, n)) % Base(n)
  {
    res := [];
    var carry: Option<bool> := None;
    for i := 0 to n
      invariant |res| == i && AreWords(res)
      invariant Val(res, i) + Incoming(carry) * Base(i) == Val(l, i) + Val(r, i)
    {
      var (sum, cout) := AddChunk(Chunk(l, i), Chunk(r, i), carry);
      ValPush(res, sum);
      AddScaled(sum, Flag(cout), Chunk(l, i), Chunk(r, i), Incoming(carry), Base(i));
      res := res + [sum];
      carry := Some(cout);
    }
    ValBelow(res, n);
    Reduced(Val(res, n), Val(l, n) + Val(r, n), Incoming(carry), Base(n));
  }

  lemma AddScaled(s: int, c: int, l: int, r: int, cin: int, p: nat)
    requires s + c * WORD == l + r + cin
    ensures s * p + c * (WORD * p) == l * p + r * p + cin * p
  {
    Scale(s, c, l + r, cin, p);
    assert (l + r) * p == l * p + r * p;
  }

  /** Subtraction, with the borrow out of the top. */
  method WideSub(l: seq<nat>, r: seq<nat>, n: nat) returns (res: seq<nat>)
    requires AreWords(l) && AreWords(r)
    ensures |res| == n && AreWords(res) && Val(res, n) == (Val(l, n) - Val(r, n)) % Base(n)
  {
    res := [];
    var borrow: Option<bool> := None;
    for i := 0 to n
      invariant |res| == i && AreWords(res)
      invariant Val(res, i) + Val(r, i) == Val(l, i) + Incoming(borrow) * Base(i)
    {
      var (diff, bout) := SubChunk(Chunk(l, i), Chunk(r, i), borrow);
      ValPush(res, diff);
      SubScaled(diff, Flag(bout), Chunk(l, i), Chunk(r, i), Incoming(borrow), Base(i));
      res := res + [diff];
      borrow := Some(bout);
    }
    ValBelow(res, n);
    SubDone(Val(res, n), Val(l, n), Val(r, n), Incoming(borrow), Base(n));
  }

  lemma SubDone(v: nat, l: nat, r: nat, borrow: nat, p: nat)
    requires v < p && v + r == l + borrow * p
    ensures v == (l - r) % p
  {
    var k := 0 - borrow;
    assert k * p == 0 - borrow * p;
    Reduced(v, l - r, k, p);
  }

  lemma SubScaled(d: int, b: int, l: int, r: int, bin: int, p: nat)
    requires d + r + bin == l + b * WORD
    ensures d * p + r * p + bin * p == l * p + b * (WORD * p)
  {
    Scale(l, b, d + r, bin, p);
    assert (d + r) * p == d * p + r * p;
  }

  method WideNegate(r: seq<nat>, n: nat) returns (res: seq<nat>)
    requires AreWords(r)
    ensures |res| == n && AreWords(res) && Val(res, n) == (0 - Val(r, n)) % Base(n)
  {
    res := [];
    var carry: Option<bool> := None;
    for i := 0 to n
      invariant |res| == i && AreWords(res) && (carry.None? <==> i == 0)
      invariant Val(res, i) + (if carry.None? then 1 else Incoming(carry)) * Base(i) == Base(i) - Val(r, i)
    {
      var cin := if carry.None? then 1 else Incoming(carry);
      var (sum, cout) := NegateChunk(Chunk(r, i), carry);
      ValPush(res, sum);
      NegateStep(Val(res, i), Val(r, i), sum, Flag(cout), Chunk(r, i), cin, Base(i));
      res := res + [sum];
      carry := Some(cout);
    }
    ValBelow(res, n);
    NegateDone(Val(res, n), Val(r, n), if carry.None? then 1 else Incoming(carry), Base(n));
  }

  lemma NegateStep(v: int, low: int, sum: int, cout: int, x: int, cin: int, p: nat)
    requires v + cin * p == p - low && sum + cout * WORD == WORD - 1 - x + cin
    ensures v + sum * p + cout * (WORD * p) == WORD * p - (low + x * p)
  {
    Scale(sum, cout, WORD - 1 - x, cin, p);
    assert (WORD - 1 - x) * p == WORD * p - p - x * p;
  }

  lemma NegateDone(v: nat, r: nat, carry: nat, p: nat)
    requires v < p && v + carry * p == p - r
    ensures v == (0 - r) % p
  {
    assert (carry - 1) * p == carry * p - p;
    Reduced(v, 0 - r, carry - 1, p);
  }

  // ------------------------------------------------------------ multiplication

  function Umulhi(a: nat, b: nat): nat {
    a * b / WORD
  }

  function Imul(a: nat, b: nat): nat {
    a * b % WORD
  }

  /** A product with two words added still fits two words: the new carry never overflows. */
  lemma ProductFits(a: nat, b: nat, x: nat, carry: nat)
    requires a < WORD && b < WORD && x < WORD && carry < WORD
    ensures Imul(a, b) < WORD && Umulhi(a, b) <= WORD - 2
    ensures a * b == Imul(a, b) + Umulhi(a, b) * WORD
    ensures a * b + x + carry < WORD * WORD
  {
    var u, v := WORD - 1 - a, WORD - 1 - b;
    NotNegative(u, b);
    assert u * b == WORD * b - b - a * b;
    assert a * b <= (WORD - 1) * (WORD - 1);
  }

  /** One product step of the schoolbook loop. */
  method MultiplyStep(a: nat, b: nat, x: nat, carry: nat) returns (sum: nat, next: nat)
    requires a < WORD && b < WORD && x < WORD && carry < WORD
    ensures sum < WORD && next < WORD && sum + next * WORD == a * b + x + carry
  {
    ProductFits(a, b, x, carry);
    var lo, hi := Imul(a, b), Umulhi(a, b);
    var sum1 := Iadd(x, lo);
    var c1 := sum1 < x;
    var sum2 := Iadd(sum1, carry);
    var c2 := sum2 < sum1;
    var total := hi + Flag(c1) + Flag(c2);
    assert sum2 + total * WORD == a * b + x + carry;
    assert total < WORD;
    next := Iadd(hi, Flag(c1));
    next := Iadd(next, Flag(c2));
    sum := sum2;
  }

  /**
    One row: `acc` gains `a` times the other operand, shifted by `i` chunks; what is carried out of the top is
    dropped.
   */
  method MultiplyRow(acc0: seq<nat>, a: nat, r: seq<nat>, i: nat) returns (acc: seq<nat>, ghost dropped: nat)
    requires AreWords(acc0) && AreWords(r) && a < WORD && i < |acc0|
    ensures AreWords(acc) && |acc| == |acc0|
    ensures Val(acc, |acc|) + dropped * Base(|acc|) == Val(acc0, |acc|) + a * Val(r, |acc| - i) * Base(i)
  {
    var n := |acc0|;
    acc := acc0;
    var carry: nat := 0;
    assert a * Val(r, 0) * Base(i) == 0;
    for j := 0 to n - i
      invariant AreWords(acc) && |acc| == n && carry < WORD
      invariant Val(acc, n) + carry * Base(i + j) == Val(acc0, n) + a * Val(r, j) * Base(i)
    {
      var k := i + j;
      var sum, next := MultiplyStep(a, Chunk(r, j), acc[k], carry);
      ValUpdate(acc, k, sum, n);
      RowStep(sum, next, acc[k], carry, a, Chunk(r, j), Val(r, j), Base(i), Base(j), Base(k));
      BaseSum(i, j);
      acc := acc[k := sum];
      carry := next;
    }
    dropped := carry;
  }

  lemma RowStep(sum: int, next: int, x: int, carry: int, a: int, b: int, low: int, pi: int, pj: int, pk: int)
    requires sum + next * WORD == a * b + x + carry
    ensures pk == pi * pj ==> (sum - x) * pk + next * (WORD * pk) == carry * pk + a * (low + b * pj) * pi - a * low * pi
  {
    assert (sum + next * WORD) * pk == sum * pk + next * (WORD * pk);
    assert (a * b + x + carry) * pk == (a * b) * pk + x * pk + carry * pk;
    assert (sum - x) * pk == sum * pk - x * pk;
    assert pk == pi * pj ==> (a * b) * pk == a * (b * pj) * pi by {
      assert (a * b) * (pi * pj) == a * (b * pj) * pi;
    }
    assert a * (low + b * pj) * pi == a * low * pi + a * (b * pj) * pi by {
      assert a * (low + b * pj) == a * low + a * (b * pj);
    }
  }

  /** The chunks a row leaves out only reach beyond the top. */
  lemma {:induction false} RowRest(r: seq<nat>, d: nat, n: nat) returns (k: nat)
    ensures Val(r, n + d) == Val(r, n) + k * Base(n)
  {
    k := 0;
    if d > 0 {
      var rest := RowRest(r, d - 1, n);
      BaseSum(d - 1, n);
      RestStep(rest, Chunk(r, n + d - 1), Base(d - 1), Base(n));
      k := rest + Chunk(r, n + d - 1) * Base(d - 1);
    }
  }

  lemma RestStep(k: int, x: int, pd: int, pn: int)
    ensures (k + x * pd) * pn == k * pn + x * (pd * pn)
  {
    assert (x * pd) * pn == x * (pd * pn);
  }

  /** After a row the accumulated value is one more partial product, up to multiples of the top base. */
  lemma RowTotal(
    acc: nat, low: nat, l: nat, a: nat, full: nat, part: nat, rest: nat, pi: nat, pn: nat, pd: nat, drop: nat,
      more: nat) returns (total: nat)
    requires full == part + rest * pd && pn == pd * pi
    requires low + drop * pn == l * full && acc + more * pn == low + a * part * pi
    ensures acc + total * pn == (l + a * pi) * full
  {
    total := more + a * rest + drop;
    RowProduct(a, full, part, rest, pi, pn, pd);
    assert total * pn == more * pn + (a * rest) * pn + drop * pn;
    MulStep(l, a, full, pi);
  }

  lemma RowProduct(a: nat, full: nat, part: nat, rest: nat, pi: nat, pn: nat, pd: nat)
    requires full == part + rest * pd && pn == pd * pi
    ensures a * full * pi == a * part * pi + (a * rest) * pn
  {
    assert a * full == a * part + a * (rest * pd);
    assert a * (rest * pd) * pi == (a * rest) * (pd * pi);
  }

  method WideMul(l: seq<nat>, r: seq<nat>, n: nat) returns (acc: seq<nat>)
    requires AreWords(l) && AreWords(r)
    ensures |acc| == n && AreWords(acc) && Val(acc, n) == Val(l, n) * Val(r, n) % Base(n)
  {
    acc := seq(n, _ => 0);
    ValZero(acc, n);
    ghost var dropped: nat := 0;
    for i := 0 to n
      invariant |acc| == n && AreWords(acc)
      invariant Val(acc, n) + dropped * Base(n) == Val(l, i) * Val(r, n)
    {
      ghost var low := Val(acc, n);
      ghost var more;
      acc, more := MultiplyRow(acc, Chunk(l, i), r, i);
      ghost var rest := RowRest(r, i, n - i);
      BaseSum(n - i, i);
      dropped := RowTotal(Val(acc, n), low, Val(l, i), Chunk(l, i), Val(r, n), Val(r, n - i), rest, Base(i), Base(n),
        Base(n - i), dropped, more);
    }
    ValBelow(acc, n);
    Reduced(Val(acc, n), Val(l, n) * Val(r, n), dropped, Base(n));
  }

  lemma MulStep(low: int, a: int, full: int, p: int)
    ensures (low + a * p) * full == low * full + a * full * p
  {
    assert (a * p) * full == a * full * p;
  }
}
