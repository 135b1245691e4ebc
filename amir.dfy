// The Amir covering problem. A lottery ticket picks 6 of the numbers 1..49;
// a ticket is a 64-bit word with six of its low 49 bits set. The program
// steps through all tickets in increasing order with Gosper's
// next-combination step, and builds greedily a set of tickets, any two of
// which share at most two numbers, such that every ticket shares at least
// three numbers with some member.

module Amir {
  import opened Words

  /** `uint64_t`, the representation of a `Combination`. */
  type Word = x: nat | x < Two64

  /** `num_combinations`. */
  const NumCombinations: nat := 13983816
  /** The numbers 1..49 are the bits 0..48. */
  const Width: nat := 49
  /** The numbers on one ticket. */
  const Picks: nat := 6

  // ---------------------------------------------------------------------------
  // Binomial coefficients.

  /** The binomial coefficient by Pascal's rule. */
  function Choose(n: nat, k: nat): nat
  {
    if k == 0 then 1
    else if n == 0 then 0
    else Choose(n - 1, k - 1) + Choose(n - 1, k)
  }

  lemma {:induction false} ChooseAbove(n: nat, k: nat)
    requires k > n
    ensures Choose(n, k) == 0
    decreases n
  {
    if n > 0 {
      ChooseAbove(n - 1, k - 1);
      ChooseAbove(n - 1, k);
    }
  }

  lemma {:induction false} ChooseAll(n: nat)
    ensures Choose(n, n) == 1
    decreases n
  {
    if n > 0 {
      ChooseAll(n - 1);
      ChooseAbove(n - 1, n);
    }
  }

  lemma {:induction false} ChooseOne(n: nat)
    ensures Choose(n, 1) == n
    decreases n
  {
    if n > 0 {
      ChooseOne(n - 1);
    }
  }

  /** Choosing `k` is choosing the `n - k` left out. */
  lemma {:induction false} ChooseSymmetry(n: nat, k: nat)
    requires k <= n
    ensures Choose(n, k) == Choose(n, n - k)
    decreases n
  {
    if k == 0 {
      ChooseAll(n);
    } else if k == n {
      ChooseAll(n);
    } else {
      ChooseSymmetry(n - 1, k - 1);
      ChooseSymmetry(n - 1, k);
      assert Choose(n, n - k) == Choose(n - 1, n - k - 1) + Choose(n - 1, n - k);
    }
  }

  /** The absorption identity `k C(n, k) = n C(n - 1, k - 1)`. */
  lemma {:induction false} ChooseAbsorb(n: nat, k: nat)
    requires 1 <= k <= n
    ensures k * Choose(n, k) == n * Choose(n - 1, k - 1)
    decreases n
  {
    if k == 1 {
      ChooseOne(n);
    } else {
      var a, b := Choose(n - 1, k - 1), Choose(n - 1, k);
      ChooseAbsorb(n - 1, k - 1);
      var x := Choose(n - 2, k - 2);
      var y := Choose(n - 2, k - 1);
      assert (k - 1) * a == (n - 1) * x;
      if k <= n - 1 {
        ChooseAbsorb(n - 1, k);
      } else {
        ChooseAbove(n - 1, k);
        ChooseAbove(n - 2, k - 1);
      }
      assert k * b == (n - 1) * y;
      assert a == x + y;
      AbsorbSum(k, n, a, b, x, y);
    }
  }

  lemma AbsorbSum(k: int, n: int, a: int, b: int, x: int, y: int)
    requires (k - 1) * a == (n - 1) * x && k * b == (n - 1) * y && a == x + y
    ensures k * (a + b) == n * a
  {
    assert k * (a + b) == (k - 1) * a + a + k * b;
    assert (n - 1) * x + (n - 1) * y == (n - 1) * a;
  }

  /** The step of the multiplicative loop: `C(n, i - 1) (n - i + 1) = C(n, i) i`. */
  lemma ChooseStep(n: nat, i: nat)
    requires 1 <= i <= n
    ensures Choose(n, i - 1) * (n - i + 1) == Choose(n, i) * i
  {
    ChooseAbsorb(n, i);
    if i == 1 {
      ChooseOne(n);
    } else {
      ChooseAbsorb(n, i - 1);
      StepSum(n, i, Choose(n - 1, i - 2), Choose(n - 1, i - 1), Choose(n, i - 1), Choose(n, i));
    }
  }

  lemma StepSum(n: int, i: int, a: int, b: int, c: int, d: int)
    requires c == a + b && (i - 1) * c == n * a && i * d == n * b
    ensures c * (n - i + 1) == d * i
  {
    assert c * (n - i + 1) == n * c - (i - 1) * c;
    assert n * c == n * a + n * b;
  }

  /** There are 13983816 tickets. */
  lemma ChooseSixOfFortyNine()
    ensures Choose(Width, Picks) == NumCombinations
  {
    ChooseStep(49, 1);
    assert Choose(49, 1) == 49;
    ChooseStep(49, 2);
    assert Choose(49, 2) == 1176;
    ChooseStep(49, 3);
    assert Choose(49, 3) == 18424;
    ChooseStep(49, 4);
    assert Choose(49, 4) == 211876;
    ChooseStep(49, 5);
    assert Choose(49, 5) == 1906884;
    ChooseStep(49, 6);
  }

  /** `binomial`: the multiplicative formula after the reduction `k := n - k`;
      1 when `k` is out of range. */
  method Binomial(n: int, k: int) returns (r: int)
    ensures r == if 0 <= k <= n then Choose(n, k) else 1
  {
    if n == k {
      if n >= 0 {
        ChooseAll(n);
      }
      return 1;
    }
    var m, j := n, k;
    if j > m - j {
      j := m - j;
    }
    if 0 <= j {
      ChooseSymmetry(n, k);
    }
    var result := 1;
    var i := 1;
    while i <= j
      invariant 1 <= i && (0 <= j ==> i <= j + 1)
      invariant m == n - (i - 1)
      invariant 0 <= j ==> 0 <= k <= n && j <= n && result == Choose(n, i - 1)
      invariant j < 0 ==> result == 1
    {
      ChooseStep(n, i);
      result := result * m;
      DivModUnique(result, i, Choose(n, i), 0);
      result := result / i;
      m := m - 1;
      i := i + 1;
    }
    return result;
  }

  // ---------------------------------------------------------------------------
  // Bits of a word.

  /** The bitwise operators keep a result within the word. */
  lemma WordOp(f: Op, x: Word, y: Word)
    ensures Bitwise(f, x, y) < Two64
  {
    Two64IsPower();
    BitwiseSplit(f, x, y, 0, x, 0, y, 64);
  }

  lemma {:induction false} AndZero(x: nat)
    ensures And(x, 0) == 0 && And(0, x) == 0
    decreases x
  {
    if x > 0 {
      AndZero(x / 2);
    }
  }

  /** The symmetric operators commute. */
  lemma {:induction false} BitwiseCommutes(f: Op, x: nat, y: nat)
    ensures Bitwise(f, x, y) == Bitwise(f, y, x)
    decreases x + y
  {
    if x != 0 || y != 0 {
      BitwiseCommutes(f, x / 2, y / 2);
    }
  }

  /** A positive number is some bits `h` above its lowest set bit `t`. */
  lemma {:induction false} LowestSetBit(n: nat) returns (h: nat, t: nat)
    requires n > 0
    ensures n == h * Pow2(t + 1) + Pow2(t)
    decreases n
  {
    if n % 2 == 1 {
      h, t := n / 2, 0;
    } else {
      var h0, t0 := LowestSetBit(n / 2);
      h, t := h0, t0 + 1;
      Twice(n / 2, h, Pow2(t0 + 1), Pow2(t0));
    }
  }

  lemma Twice(m: nat, h: nat, p: nat, q: nat)
    requires m == h * p + q
    ensures 2 * m == h * (2 * p) + 2 * q
  {
  }

  /** `n - 1` in 64-bit arithmetic. */
  function Pred(n: Word): Word
  {
    (n + Two64 - 1) % Two64
  }

  /** `n & (n - 1)`: `n` without its lowest set bit. */
  function ClearLowest(n: Word): Word
  {
    WordOp(AndOp, n, Pred(n));
    And(n, Pred(n))
  }

  /** One step of Kernighan's count: the lowest set bit goes, the others stay. */
  lemma KernighanStep(n: Word)
    ensures n == 0 ==> ClearLowest(n) == 0
    ensures n > 0 ==> Popcount(ClearLowest(n)) == Popcount(n) - 1
  {
    if n == 0 {
      assert Pred(0) == Two64 - 1;
      AndZero(Two64 - 1);
    } else {
      var h, t := LowestSetBit(n);
      KernighanSplit(n, h, t);
    }
  }

  lemma KernighanSplit(n: Word, h: nat, t: nat)
    requires n == h * Pow2(t + 1) + Pow2(t)
    ensures Popcount(ClearLowest(n)) == Popcount(n) - 1
  {
    var x, p := h * Pow2(t + 1), Pow2(t);
    PredOf(n, x, p);
    AndPred(n, Pred(n), h, t, x, p);
    HighAndLow(n, h, t, x, p);
  }

  /** `n & (n - 1)` for `n` with lowest set bit `t`, on naturals. */
  lemma AndPred(n: nat, m: nat, h: nat, t: nat, x: nat, p: nat)
    requires x == h * Pow2(t + 1) && p == Pow2(t) && n == x + p && m == x + (p - 1)
    ensures And(n, m) == x
  {
    var p1: nat := p - 1;
    PowerAndPred(p, p1, t);
    BitwiseSplit(AndOp, n, m, h, p, h, p1, t + 1);
    BitwiseSelf(AndOp, h);
  }

  lemma HighAndLow(n: nat, h: nat, t: nat, x: nat, p: nat)
    requires x == h * Pow2(t + 1) && p == Pow2(t) && n == x + p
    ensures Popcount(x) == Popcount(h) && Popcount(n) == Popcount(h) + 1
  {
    assert Pow2(t + 1) == 2 * p;
    PopcountSplit(x, h, 0, t + 1);
    PopcountSplit(n, h, p, t + 1);
    PowerCount(p, t);
  }

  lemma PowerCount(p: nat, t: nat)
    requires p == Pow2(t)
    ensures Popcount(p) == 1
  {
    PopcountSplit(p, 1, 0, t);
    assert Popcount(1) == 1;
  }

  lemma OnesCount(w: nat, j: nat)
    requires w == Pow2(j) - 1
    ensures Popcount(w) == j
  {
    PopcountOnes(j);
  }

  lemma OddCount(v: nat, q: nat)
    requires v == 2 * q + 1
    ensures Popcount(v) == Popcount(q) + 1
  {
    assert v / 2 == q && v % 2 == 1;
  }

  lemma ComplementAnd(h: nat, c: nat, k: nat)
    requires h < Pow2(k) && c == Pow2(k) - 1 - h
    ensures And(h, c) == 0
  {
    BitwiseComplement(AndOp, h, k);
  }

  lemma PredOf(n: Word, x: nat, p: nat)
    requires n == x + p && p >= 1
    ensures Pred(n) == x + (p - 1)
  {
  }

  /** `2^t & (2^t - 1) == 0`. */
  lemma PowerAndPred(p: nat, m: nat, t: nat)
    requires p == Pow2(t) && m == p - 1
    ensures And(p, m) == 0 && p < Pow2(t + 1)
  {
    BitwiseSplit(AndOp, p, m, 1, 0, 0, m, t);
    AndZero(m);
    assert And(1, 0) == 0;
  }

  /** `equivalent`: `a & b` loses its lowest set bit twice and is still not zero. */
  predicate Equivalent(a: Word, b: Word)
  {
    WordOp(AndOp, a, b);
    ClearLowest(ClearLowest(And(a, b))) > 0
  }

  /** Two tickets are equivalent exactly when they share at least three numbers. */
  lemma EquivalentIff(a: Word, b: Word)
    ensures Equivalent(a, b) <==> Popcount(And(a, b)) >= 3
  {
    WordOp(AndOp, a, b);
    var n: Word := And(a, b);
    KernighanStep(n);
    KernighanStep(ClearLowest(n));
    var n2 := ClearLowest(ClearLowest(n));
    if n2 == 0 {
      assert Popcount(n2) == 0;
    } else {
      Positive(n2);
    }
    if n > 0 && ClearLowest(n) == 0 {
      assert Popcount(ClearLowest(n)) == 0;
    }
  }

  lemma Positive(x: nat)
    requires x > 0
    ensures Popcount(x) > 0
  {
    if Popcount(x) == 0 {
      PopcountZero(x);
    }
  }

  lemma EquivalentSymmetric(a: Word, b: Word)
    ensures Equivalent(a, b) == Equivalent(b, a)
  {
    BitwiseCommutes(AndOp, a, b);
  }

  // ---------------------------------------------------------------------------
  // Gosper's next-combination step.

  /** `a & -a`. */
  function LowBit(a: Word): Word
  {
    WordOp(AndOp, a, Negate(a));
    And(a, Negate(a))
  }

  /** `a & -a` is the lowest set bit of `a`. */
  lemma LowBitIs(a: Word, h: nat, t: nat)
    requires a == h * Pow2(t + 1) + Pow2(t)
    ensures LowBit(a) == Pow2(t) && t < 64
  {
    Two64IsPower();
    var p1 := Pow2(t + 1);
    MulMono(0, h, p1);
    if t >= 64 {
      Pow2Monotone(64, t);
    }
    Pow2Add(t + 1, 63 - t);
    var u := Pow2(63 - t);
    HighBelow(h, p1, u, a);
    NegateIs(a, h, u - 1 - h, Pow2(t), p1, u);
    LowBitParts(a, h, t, u);
  }

  lemma HighBelow(h: nat, p1: nat, u: nat, a: nat)
    requires h * p1 <= a < p1 * u
    ensures h < u
  {
    if h >= u {
      MulMono(u, h, p1);
    }
  }

  lemma LowBitParts(a: Word, h: nat, t: nat, u: nat)
    requires t < 64 && u == Pow2(63 - t) && h < u
    requires a == h * Pow2(t + 1) + Pow2(t) && Negate(a) == (u - 1 - h) * Pow2(t + 1) + Pow2(t)
    ensures LowBit(a) == Pow2(t)
  {
    var p := Pow2(t);
    var c: nat := u - 1 - h;
    BitwiseSplit(AndOp, a, Negate(a), h, p, c, p, t + 1);
    ComplementAnd(h, c, 63 - t);
    BitwiseSelf(AndOp, p);
    assert And(a, Negate(a)) == 0 * Pow2(t + 1) + p;
  }

  lemma NegateIs(a: Word, h: nat, low: nat, p: nat, p1: nat, u: nat)
    requires a == h * p1 + p && p1 == 2 * p && Two64 == p1 * u && low == u - 1 - h && p >= 1
    ensures Negate(a) == low * p1 + p
  {
    assert Two64 - a == (u - h) * p1 - p;
  }

  lemma LowBitPositive(a: Word)
    requires a > 0
    ensures 1 <= LowBit(a) <= a
  {
    var h, t := LowestSetBit(a);
    LowBitIs(a, h, t);
    MulMono(0, h, Pow2(t + 1));
  }

  /** Gosper's step (item 175 of HAKMEM): `c = a & -a; r = a + c;
      ((r ^ a) >> 2) / c | r`. */
  function Next(a: Word): Word
    requires a > 0
  {
    LowBitPositive(a);
    var c := LowBit(a);
    var r: Word := (a + c) % Two64;
    WordOp(XorOp, r, a);
    var x := Spread(Xor(r, a), c);
    WordOp(OrOp, x, r);
    Or(x, r)
  }

  /** `(y >> 2) / c`. */
  function Spread(y: Word, c: nat): Word
    requires c >= 1
  {
    DivBelow(y, c);
    y / 4 / c
  }

  lemma DivBelow(y: nat, c: nat)
    requires c >= 1 && y < Two64
    ensures y / 4 / c < Two64
  {
    var z := y / 4;
    MulMono(1, c, z / c);
  }

  /** A positive number is its lowest run of `s` ones, after `t` zeros,
      below the bits `q`. */
  lemma {:induction false} LowestRun(n: nat) returns (q: nat, s: nat, t: nat)
    requires n > 0
    ensures s >= 1 && n == q * Pow2(t + s + 1) + (Pow2(s) - 1) * Pow2(t)
    ensures n % 2 == 1 ==> t == 0
    decreases n
  {
    if n % 2 == 0 {
      var q0, s0, t0 := LowestRun(n / 2);
      q, s, t := q0, s0, t0 + 1;
      RunShift(n, q0, s0, t0);
    } else if (n / 2) % 2 == 0 {
      q, s, t := n / 4, 1, 0;
      assert Pow2(2) == 4;
    } else {
      var q0, s0, t0 := LowestRun(n / 2);
      q, s, t := q0, s0 + 1, 0;
      RunExtend(n, q0, s0);
    }
  }

  lemma RunShift(n: nat, q: nat, s: nat, t: nat)
    requires n % 2 == 0 && n / 2 == q * Pow2(t + s + 1) + (Pow2(s) - 1) * Pow2(t)
    ensures n == q * Pow2(t + 1 + s + 1) + (Pow2(s) - 1) * Pow2(t + 1)
  {
    Twice(n / 2, q, Pow2(t + s + 1), (Pow2(s) - 1) * Pow2(t));
    assert Pow2(t + 1 + s + 1) == 2 * Pow2(t + s + 1);
    MulAssoc(Pow2(s) - 1, Pow2(t));
  }

  lemma RunExtend(n: nat, q: nat, s: nat)
    requires n % 2 == 1 && n / 2 == q * Pow2(0 + s + 1) + (Pow2(s) - 1) * Pow2(0)
    ensures n == q * Pow2(0 + (s + 1) + 1) + (Pow2(s + 1) - 1) * Pow2(0)
  {
    assert Pow2(s + 2) == 2 * Pow2(s + 1);
    assert n == 2 * (n / 2) + 1;
  }

  lemma MulAssoc(x: nat, y: nat)
    ensures 2 * (x * y) == x * (2 * y)
  {
  }

  /** The run decomposition in terms of the lowest set bit. */
  lemma RunLowBit(a: Word, q: nat, s: nat, t: nat)
    requires s >= 1 && a == q * Pow2(t + s + 1) + (Pow2(s) - 1) * Pow2(t)
    ensures LowBit(a) == Pow2(t) && (Pow2(s) - 1) * Pow2(t) + Pow2(t) == Pow2(t + s)
  {
    Pow2Add(t, s);
    var h := q * Pow2(s) + (Pow2(s - 1) - 1);
    RunAlgebra(q, Pow2(s), Pow2(s - 1), Pow2(t), Pow2(t + s), Pow2(t + s + 1), a, (Pow2(s) - 1) * Pow2(t));
    assert a == h * Pow2(t + 1) + Pow2(t);
    LowBitIs(a, h, t);
  }

  lemma RunAlgebra(q: int, ps: int, ps1: int, pt: int, pm: int, pm1: int, a: int, l: int)
    requires ps == 2 * ps1 && pm == pt * ps && pm1 == 2 * pm && l == (ps - 1) * pt && a == q * pm1 + l
    ensures a == (q * ps + (ps1 - 1)) * (2 * pt) + pt && l + pt == pm
  {
    assert (q * ps + (ps1 - 1)) * (2 * pt) == q * (2 * (pt * ps)) + ps * pt - 2 * pt;
  }

  /** `(r ^ a)` for `r = a + c`: the run and the bit above it. */
  lemma XorValue(r: nat, a: nat, q: nat, l: nat, m: nat)
    requires r == q * Pow2(m + 1) + Pow2(m) && a == q * Pow2(m + 1) + l && l < Pow2(m)
    ensures Xor(r, a) == Pow2(m) + l
  {
    var p := Pow2(m);
    BitwiseSplit(XorOp, r, a, q, p, q, l, m + 1);
    BitwiseSelf(XorOp, q);
    assert Xor(r, a) == 0 * Pow2(m + 1) + Xor(p, l);
    XorLow(p, l, m);
  }

  lemma XorLow(p: nat, l: nat, m: nat)
    requires p == Pow2(m) && l < p
    ensures Xor(p, l) == p + l
  {
    BitwiseSplit(XorOp, p, l, 1, 0, 0, l, m);
    BitwiseIdentity(XorOp, l);
    assert Xor(1, 0) == 1;
    assert 1 * p + 0 == p && 0 * p + l == l;
  }

  /** `((r ^ a) >> 2) / c`: the run, less two bits, moved down to bit 0. */
  lemma SpreadValue(y: Word, s: nat, t: nat)
    requires s >= 1 && y == Pow2(t + s) + (Pow2(s) - 1) * Pow2(t)
    ensures Spread(y, Pow2(t)) == Pow2(s - 1) - 1
  {
    var pt := Pow2(t);
    Pow2Add(t, s);
    var w := Pow2(s - 1) - 1;
    var four := MulPos(4, pt);
    SpreadAlgebra(y, w, Pow2(s), Pow2(s - 1), pt, Pow2(t + s));
    DivDiv(y, 4, pt);
    DivModUnique(y, 4 * pt, w, 3 * pt);
  }

  lemma SpreadAlgebra(y: int, w: int, ps: int, ps1: int, pt: int, pm: int)
    requires ps == 2 * ps1 && pm == pt * ps && w == ps1 - 1 && y == pm + (ps - 1) * pt
    ensures y == w * (4 * pt) + 3 * pt
  {
  }

  /** `x | r` for `x` below the low bit of `r`. */
  lemma OrValue(x: nat, r: nat, v: nat, m: nat)
    requires r == v * Pow2(m) && x < Pow2(m)
    ensures Or(x, r) == r + x
  {
    BitwiseSplit(OrOp, x, r, 0, x, v, 0, m);
    BitwiseIdentity(OrOp, v);
    BitwiseIdentity(OrOp, x);
    assert 0 * Pow2(m) + x == x && v * Pow2(m) + 0 == r;
  }

  /** The value of Gosper's step on the decomposition of `a`. */
  lemma NextValue(a: Word, q: nat, s: nat, t: nat)
    requires s >= 1 && a == q * Pow2(t + s + 1) + (Pow2(s) - 1) * Pow2(t)
    requires a + LowBit(a) < Two64
    ensures Next(a) == (2 * q + 1) * Pow2(t + s) + (Pow2(s - 1) - 1)
  {
    RunLowBit(a, q, s, t);
    LowBitPositive(a);
    var c := LowBit(a);
    MulMono(0, Pow2(s) - 1, Pow2(t));
    var l: nat := (Pow2(s) - 1) * Pow2(t);
    var r := SumValue(a, c, q, l, t + s);
    WordOp(XorOp, r, a);
    NextIs(a, c, r);
    StepValue(a, r, q, s, t);
  }

  lemma SumValue(a: Word, c: nat, q: nat, l: nat, m: nat) returns (r: Word)
    requires a == q * Pow2(m + 1) + l && l + c == Pow2(m) && a + c < Two64
    ensures r == (a + c) % Two64 && r == q * Pow2(m + 1) + Pow2(m)
  {
    r := a + c;
  }

  lemma NextIs(a: Word, c: Word, r: Word)
    requires a > 0 && c == LowBit(a) && c >= 1 && r == (a + c) % Two64 && Xor(r, a) < Two64
    ensures Next(a) == Or(Spread(Xor(r, a), c), r)
  {
  }

  lemma StepValue(a: Word, r: Word, q: nat, s: nat, t: nat)
    requires s >= 1 && a == q * Pow2(t + s + 1) + (Pow2(s) - 1) * Pow2(t)
    requires r == q * Pow2(t + s + 1) + Pow2(t + s) && (Pow2(s) - 1) * Pow2(t) + Pow2(t) == Pow2(t + s)
    requires Xor(r, a) < Two64
    ensures Or(Spread(Xor(r, a), Pow2(t)), r) == (2 * q + 1) * Pow2(t + s) + (Pow2(s - 1) - 1)
  {
    var m := t + s;
    MulMono(0, Pow2(s) - 1, Pow2(t));
    var l: nat := (Pow2(s) - 1) * Pow2(t);
    XorValue(r, a, q, l, m);
    SpreadValue(Xor(r, a), s, t);
    var w := Pow2(s - 1) - 1;
    Pow2Monotone(s - 1, m);
    OddTimes(q, Pow2(m));
    OrValue(w, r, 2 * q + 1, m);
  }

  lemma OddTimes(q: nat, p: nat)
    ensures q * (2 * p) + p == (2 * q + 1) * p
  {
  }

  /** The bits of the run decomposition. */
  lemma RunPopcount(a: nat, q: nat, s: nat, t: nat, l: nat)
    requires l == (Pow2(s) - 1) * Pow2(t) && l + Pow2(t) == Pow2(t + s)
    requires a == q * Pow2(t + s + 1) + l
    ensures Popcount(a) == Popcount(q) + s
  {
    assert l < Pow2(t + s + 1);
    PopcountSplit(a, q, l, t + s + 1);
    var o: nat := Pow2(s) - 1;
    PopcountSplit(l, o, 0, t);
    OnesCount(o, s);
  }

  /** The bits of the result of the step. */
  lemma SuccessorPopcount(q: nat, s: nat, t: nat, g: nat, v: nat, w: nat)
    requires s >= 1 && v == 2 * q + 1 && w == Pow2(s - 1) - 1 && g == v * Pow2(t + s) + w
    ensures Popcount(g) == Popcount(q) + s
  {
    Pow2Monotone(s - 1, t + s);
    PopcountSplit(g, v, w, t + s);
    OnesCount(w, s - 1);
    OddCount(v, q);
  }

  /** A number between `a` and its successor has the bits `q` of both above
      bit `m`. */
  lemma SameHigh(b: nat, q: nat, p1: nat, a: nat, g: nat) returns (rest: nat)
    requires p1 >= 1 && q * p1 <= a < b < g < q * p1 + p1
    ensures b == q * p1 + rest && rest < p1
  {
    var hi := b / p1;
    rest := b % p1;
    if hi > q {
      MulMono(q + 1, hi, p1);
    } else if hi < q {
      MulMono(hi + 1, q, p1);
    }
  }

  /** No number strictly between `a` and its successor has as many bits set. */
  lemma NoneBetween(a: nat, g: nat, q: nat, s: nat, t: nat, l: nat, b: nat)
    requires s >= 1 && l == (Pow2(s) - 1) * Pow2(t) && l + Pow2(t) == Pow2(t + s)
    requires a == q * Pow2(t + s + 1) + l && g == (2 * q + 1) * Pow2(t + s) + (Pow2(s - 1) - 1)
    requires a < b < g
    ensures Popcount(b) != Popcount(q) + s
  {
    var m := t + s;
    var pm := Pow2(m);
    var w := Pow2(s - 1) - 1;
    Pow2Monotone(s - 1, m);
    OddTimes(q, pm);
    var rest := SameHigh(b, q, Pow2(m + 1), a, g);
    PopcountSplit(b, q, rest, m + 1);
    if rest < pm {
      if Popcount(rest) == s {
        GreatestWithPopcount(rest, m, s);
      }
    } else {
      var u := rest - pm;
      PopcountSplit(rest, 1, u, m);
      assert Popcount(1) == 1;
      if Popcount(u) == s - 1 {
        LeastWithPopcount(u, s - 1);
      }
    }
  }

  /** The successor of a run decomposition, stated on plain values. */
  lemma RunSuccessor(a: nat, g: nat, q: nat, s: nat, t: nat, l: nat, v: nat, w: nat)
    requires s >= 1 && l == (Pow2(s) - 1) * Pow2(t) && l + Pow2(t) == Pow2(t + s)
    requires a == q * Pow2(t + s + 1) + l
    requires v == 2 * q + 1 && w == Pow2(s - 1) - 1 && g == v * Pow2(t + s) + w
    ensures Popcount(g) == Popcount(a) && a < g
    ensures forall b :: a < b < g ==> Popcount(b) != Popcount(a)
  {
    RunPopcount(a, q, s, t, l);
    SuccessorPopcount(q, s, t, g, v, w);
    OddTimes(q, Pow2(t + s));
    forall b | a < b < g
      ensures Popcount(b) != Popcount(a)
    {
      NoneBetween(a, g, q, s, t, l, b);
    }
  }

  /** Gosper's step gives the next larger word with as many bits set. */
  lemma NextIsSuccessor(a: Word)
    requires a > 0 && a + LowBit(a) < Two64
    ensures Popcount(Next(a)) == Popcount(a) && a < Next(a)
    ensures forall b :: a < b < Next(a) ==> Popcount(b) != Popcount(a)
  {
    var q, s, t := LowestRun(a);
    NextValue(a, q, s, t);
    RunLowBit(a, q, s, t);
    MulMono(0, Pow2(s) - 1, Pow2(t));
    var l: nat := (Pow2(s) - 1) * Pow2(t);
    RunSuccessor(a, Next(a), q, s, t, l, 2 * q + 1, Pow2(s - 1) - 1);
  }

  // ---------------------------------------------------------------------------
  // mirror_combination: the low `width` bits in reverse order.

  /** The low `w` bits of `x`, reversed: bit `i` of `x` becomes bit `w - 1 - i`. */
  function Reverse(x: nat, w: nat): (r: nat)
    ensures r < Pow2(w)
  {
    if w == 0 then 0 else (x % 2) * Pow2(w - 1) + Reverse(x / 2, w - 1)
  }

  /** Bits of `x` at and above position `w` do not reach the result. */
  lemma {:induction false} ReverseIgnoresHigh(x: nat, hi: nat, lo: nat, w: nat)
    requires lo < Pow2(w) && x == hi * Pow2(w) + lo
    ensures Reverse(x, w) == Reverse(lo, w)
  {
    if w > 0 {
      MulMono(0, hi, Pow2(w - 1));
      var h: nat := hi * Pow2(w - 1);
      HalfSplit(x, hi, lo, w, h);
      ReverseIgnoresHigh(x / 2, hi, lo / 2, w - 1);
    }
  }

  /** The top bit of a `w`-bit value comes out at the bottom. */
  lemma {:induction false} ReverseTop(x: nat, bit: nat, lo: nat, w: nat)
    requires w >= 1 && bit <= 1 && lo < Pow2(w - 1) && x == bit * Pow2(w - 1) + lo
    ensures Reverse(x, w) == 2 * Reverse(lo, w - 1) + bit
  {
    if w == 1 {
      assert lo == 0 && x == bit;
    } else {
      MulMono(0, bit, Pow2(w - 2));
      var h: nat := bit * Pow2(w - 2);
      HalfSplit(x, bit, lo, w - 1, h);
      ReverseTop(x / 2, bit, lo / 2, w - 1);
      Doubled(lo % 2, Pow2(w - 2), Pow2(w - 1));
    }
  }

  /** `u * (2 * p) == 2 * (u * p)`. */
  lemma Doubled(u: nat, p: nat, p2: nat)
    requires p2 == 2 * p
    ensures u * p2 == 2 * (u * p)
  {
  }

  /** Mirroring twice gives back a `w`-bit value. */
  lemma {:induction false} ReverseInvolution(x: nat, w: nat)
    requires x < Pow2(w)
    ensures Reverse(Reverse(x, w), w) == x
  {
    if w > 0 {
      var y := Reverse(x, w);
      ReverseTop(y, x % 2, Reverse(x / 2, w - 1), w);
      ReverseInvolution(x / 2, w - 1);
    }
  }

  /** Mirroring a `w`-bit value keeps its number of set bits. */
  lemma {:induction false} ReversePopcount(x: nat, w: nat)
    requires x < Pow2(w)
    ensures Popcount(Reverse(x, w)) == Popcount(x)
  {
    if w > 0 {
      var y := Reverse(x, w);
      var bit := x % 2;
      PopcountSplit(y, bit, Reverse(x / 2, w - 1), w - 1);
      ReversePopcount(x / 2, w - 1);
      assert Popcount(bit) == bit;
    }
  }

  /** `x & 1` is the low bit. */
  lemma AndOne(y: nat)
    ensures And(y, 1) == y % 2
  {
    BitwiseSplit(AndOp, y, 1, y / 2, y % 2, 0, 1, 1);
    AndZero(y / 2);
    assert And(0, 1) == 0 && And(1, 1) == 1;
  }

  /** Or-ing a bit into an even number adds it. */
  lemma OrLow(e: nat, bit: nat)
    requires e % 2 == 0 && bit <= 1
    ensures Or(e, bit) == e + bit
  {
    BitwiseSplit(OrOp, e, bit, e / 2, 0, 0, bit, 1);
    BitwiseIdentity(OrOp, e / 2);
    BitwiseIdentity(OrOp, bit);
  }

  /** Shifting left by one in 64 bits and or-ing in a bit. */
  lemma ShiftIn(full: nat, b: nat, bit: nat, e: nat)
    requires b == full % Two64 && bit <= 1 && e == (b * 2) % Two64
    ensures e % 2 == 0 && e + bit < Two64 && e + bit == (2 * full + bit) % Two64
  {
    var q := full / Two64;
    if 2 * b < Two64 {
      DivModUnique(b * 2, Two64, 0, 2 * b);
      DivModUnique(2 * full + bit, Two64, 2 * q, 2 * b + bit);
    } else {
      DivModUnique(b * 2, Two64, 1, 2 * b - Two64);
      DivModUnique(2 * full + bit, Two64, 2 * q + 1, 2 * b - Two64 + bit);
    }
  }

  /** One step of the mirror loop, on the reversed value. */
  lemma ReverseShift(full: nat, y: nat, m: nat)
    requires m >= 1
    ensures full * Pow2(m) + Reverse(y, m) == (2 * full + y % 2) * Pow2(m - 1) + Reverse(y / 2, m - 1)
  {
    Doubled(full, Pow2(m - 1), Pow2(m));
  }

  /** `mirror_combination`: shifts the low bit of `x` into `b`, `width` times, in 64 bits. */
  method Mirror(x: Word, width: int) returns (b: Word)
    ensures b == Reverse(x, if width < 0 then 0 else width) % Two64
  {
    var n: nat := if width < 0 then 0 else width;
    b := 0;
    var y: nat := x;
    var i := 0;
    ghost var full: nat := 0;
    while i < width
      invariant 0 <= i <= n
      invariant b == full % Two64
      invariant Reverse(x, n) == full * Pow2(n - i) + Reverse(y, n - i)
    {
      AndOne(y);
      var bit := And(y, 1);
      var e := (b * 2) % Two64;
      ShiftIn(full, b, bit, e);
      OrLow(e, bit);
      b := Or(e, bit);
      ReverseShift(full, y, n - i);
      full := 2 * full + bit;
      y := y / 2;
      i := i + 1;
    }
  }

  /** A lottery ticket: six of the 49 low bits set. */
  predicate Ticket(p: Word)
  {
    Popcount(p) == Picks && p < Pow2(Width)
  }

  /** Mirroring at most 64 bits loses nothing to the word size, keeps the count and undoes itself. */
  lemma MirrorWord(p: nat, m: nat, w: nat)
    requires w <= 64 && p < Pow2(w) && m == Reverse(p, w) % Two64
    ensures m == Reverse(p, w) && Popcount(m) == Popcount(p) && Reverse(m, w) == p
  {
    Pow2Monotone(w, 64);
    Two64IsPower();
    var r := Reverse(p, w);
    DivModUnique(r, Two64, 0, r);
    ReversePopcount(p, w);
    ReverseInvolution(p, w);
  }

  /** The mirror of a ticket is a ticket, and mirroring it again gives it back. */
  lemma MirrorTicket(p: Word, m: nat)
    requires Ticket(p) && m == Reverse(p, Width) % Two64
    ensures m == Reverse(p, Width) && m < Two64 && Ticket(m)
    ensures Reverse(m, Width) == p
  {
    MirrorWord(p, m, Width);
    Pow2Monotone(Width, 64);
    Two64IsPower();
  }

  // ---------------------------------------------------------------------------
  // add_to_amir_set and the covering set.

  /** Some member of `s` is equivalent to `p`. */
  predicate Covered(s: seq<Word>, p: Word)
  {
    exists k :: 0 <= k < |s| && Equivalent(s[k], p)
  }

  /** No two members of `s` are equivalent. */
  predicate Independent(s: seq<Word>)
  {
    forall i, j :: 0 <= i < j < |s| ==> !Equivalent(s[i], s[j])
  }

  /** The set after `add_to_amir_set(s, p)`. */
  function Added(s: seq<Word>, p: Word): seq<Word>
  {
    if Covered(s, p) then s else s + [p]
  }

  /** A word with three or more bits set is equivalent to itself. */
  lemma SelfEquivalent(p: Word)
    requires Popcount(p) >= 3
    ensures Equivalent(p, p)
  {
    BitwiseSelf(AndOp, p);
    EquivalentIff(p, p);
  }

  /** Adding keeps the members pairwise non-equivalent. */
  lemma AddedIndependent(s: seq<Word>, p: Word)
    requires Independent(s)
    ensures Independent(Added(s, p))
  {
    if !Covered(s, p) {
      var t := s + [p];
      forall i, j | 0 <= i < j < |t|
        ensures !Equivalent(t[i], t[j])
      {
        if j == |s| {
          assert t[i] == s[i] && t[j] == p;
        }
      }
    }
  }

  /** After adding a word with at least three bits set, the set covers it. */
  lemma AddedCovers(s: seq<Word>, p: Word)
    requires Popcount(p) >= 3
    ensures Covered(Added(s, p), p)
  {
    if !Covered(s, p) {
      SelfEquivalent(p);
      var t := s + [p];
      assert t[|s|] == p;
    }
  }

  /** Adding never uncovers a word. */
  lemma AddedKeeps(s: seq<Word>, p: Word, b: Word)
    requires Covered(s, b)
    ensures Covered(Added(s, p), b)
  {
    var k :| 0 <= k < |s| && Equivalent(s[k], b);
    var t := Added(s, p);
    assert t[k] == s[k];
  }

  /** Adding appends `p` exactly when no member is equivalent to it, and otherwise changes nothing. */
  lemma AddedIff(s: seq<Word>, p: Word)
    ensures Added(s, p) == s + [p] <==> forall k :: 0 <= k < |s| ==> !Equivalent(s[k], p)
    ensures Added(s, p) == s <==> exists k :: 0 <= k < |s| && Equivalent(s[k], p)
  {
    if !Covered(s, p) {
      assert |s + [p]| != |s|;
    }
  }

  /** The growing covering set, a vector the program appends to. */
  class AmirSet {
    var members: seq<Word>

    /** An empty set. */
    constructor ()
      ensures members == []
    {
      members := [];
    }

    /** `add_to_amir_set`: stops at the first member equivalent to `p`, and appends `p` when there is none. */
    method Add(p: Word)
      modifies this
      ensures members == Added(old(members), p)
    {
      var notInAmir := true;
      var i := 0;
      while i < |members|
        invariant 0 <= i <= |members|
        invariant notInAmir
        invariant forall k :: 0 <= k < i ==> !Equivalent(members[k], p)
      {
        if Equivalent(members[i], p) {
          notInAmir := false;
          assert Covered(members, p);
          break;
        }
        i := i + 1;
      }
      if notInAmir {
        members := members + [p];
      }
    }
  }

  // ---------------------------------------------------------------------------
  // Counting words by their number of set bits.

  /** The number of `b` with `lo <= b < hi` and `j` bits set. */
  function CountPop(lo: nat, hi: nat, j: nat): nat
    decreases hi
  {
    if hi <= lo then 0 else CountPop(lo, hi - 1, j) + (if Popcount(hi - 1) == j then 1 else 0)
  }

  /** Counts over adjacent ranges add up. */
  lemma {:induction false} CountSplit(lo: nat, mid: nat, hi: nat, j: nat)
    requires lo <= mid <= hi
    ensures CountPop(lo, hi, j) == CountPop(lo, mid, j) + CountPop(mid, hi, j)
    decreases hi
  {
    if hi > mid {
      CountSplit(lo, mid, hi - 1, j);
    }
  }

  /** A range with no word of `j` bits counts zero. */
  lemma {:induction false} CountNone(lo: nat, hi: nat, j: nat)
    requires forall b: nat :: lo <= b < hi ==> Popcount(b) != j
    ensures CountPop(lo, hi, j) == 0
    decreases hi
  {
    if hi > lo {
      CountNone(lo, hi - 1, j);
    }
  }

  /** A range holding a word of `j` bits counts at least one. */
  lemma {:induction false} CountSome(lo: nat, hi: nat, j: nat, b: nat)
    requires lo <= b < hi && Popcount(b) == j
    ensures CountPop(lo, hi, j) >= 1
    decreases hi
  {
    if b < hi - 1 {
      CountSome(lo, hi - 1, j, b);
    }
  }

  /** Setting bit `k` above `k`-bit words adds one to each count. */
  lemma {:induction false} CountShift(p: nat, hi: nat, k: nat, j: nat)
    requires p == Pow2(k) && hi <= p
    ensures CountPop(p, p + hi, j) == if j == 0 then 0 else CountPop(0, hi, j - 1)
    decreases hi
  {
    if hi > 0 {
      CountShift(p, hi - 1, k, j);
      var x := p + hi - 1;
      var y := hi - 1;
      PopcountSplit(x, 1, y, k);
      assert Popcount(1) == 1;
    }
  }

  /** Among the `k`-bit words, `C(k, j)` have `j` bits set. */
  lemma {:induction false} CountPowers(k: nat, j: nat)
    ensures CountPop(0, Pow2(k), j) == Choose(k, j)
  {
    if k == 0 {
      assert CountPop(0, 1, j) == CountPop(0, 0, j) + (if Popcount(0) == j then 1 else 0);
    } else {
      var p := Pow2(k - 1);
      CountSplit(0, p, p + p, j);
      CountShift(p, p, k - 1, j);
      CountPowers(k - 1, j);
      if j > 0 {
        CountPowers(k - 1, j - 1);
      }
    }
  }

  /** There are `num_combinations` tickets. */
  lemma TicketCount()
    ensures CountPop(0, Pow2(Width), Picks) == NumCombinations
  {
    CountPowers(Width, Picks);
    ChooseSixOfFortyNine();
  }

  /** No word below 63 has six bits set. */
  lemma NoneBelowFirst()
    ensures CountPop(0, 63, Picks) == 0 && Popcount(63) == Picks
  {
    assert Pow2(6) == 64;
    OnesCount(63, 6);
    forall b: nat | 0 <= b < 63
      ensures Popcount(b) != Picks
    {
      if Popcount(b) == Picks {
        LeastWithPopcount(b, Picks);
      }
    }
    CountNone(0, 63, Picks);
  }

  /** Stepping from `a` to the next word with as many bits adds one to the count. */
  lemma CountStep(a: nat, g: nat, j: nat)
    requires a < g && Popcount(a) == j
    requires forall b :: a < b < g ==> Popcount(b) != j
    ensures CountPop(0, g, j) == CountPop(0, a, j) + 1
  {
    CountSplit(0, a, g, j);
    CountSplit(a, a + 1, g, j);
    CountNone(a + 1, g, j);
    assert CountPop(a, a + 1, j) == CountPop(a, a, j) + 1;
  }

  /** A word with six bits and fewer than `num_combinations` tickets below it is a ticket. */
  lemma RankBound(a: Word, i: nat)
    requires Popcount(a) == Picks && CountPop(0, a, Picks) == i < NumCombinations
    ensures a < Pow2(Width)
  {
    if a >= Pow2(Width) {
      TicketCount();
      CountSplit(0, Pow2(Width), a, Picks);
    }
  }

  /** Once `num_combinations` tickets lie below `a`, every ticket does. */
  lemma AllBelow(a: nat)
    requires CountPop(0, a, Picks) == NumCombinations
    ensures forall b: Word :: Ticket(b) ==> b < a
  {
    forall b: Word | Ticket(b)
      ensures b < a
    {
      if b >= a {
        TicketCount();
        CountSplit(0, a, Pow2(Width), Picks);
        CountSome(a, Pow2(Width), Picks, b);
      }
    }
  }

  /** A ticket below 2^49 steps without wrapping around 64 bits. */
  lemma NoWrap(a: Word)
    requires 0 < a < Pow2(Width)
    ensures a + LowBit(a) < Two64
  {
    LowBitPositive(a);
    Pow2Monotone(Width + 1, 64);
    Two64IsPower();
  }

  // ---------------------------------------------------------------------------
  // The covering loop of `main`.

  /** Adding a ticket and its mirror keeps every member a ticket and the set independent. */
  lemma MembersStep(s: seq<Word>, a: Word, m: Word)
    requires Independent(s) && forall k :: 0 <= k < |s| ==> Ticket(s[k])
    requires Ticket(a) && Ticket(m)
    ensures Independent(Added(Added(s, a), m))
    ensures forall k :: 0 <= k < |Added(Added(s, a), m)| ==> Ticket(Added(Added(s, a), m)[k])
  {
    AddedIndependent(s, a);
    AddedIndependent(Added(s, a), m);
  }

  /** Adding `a` extends coverage from the words below `a` to the words below its successor `g`. */
  lemma CoverStep(s: seq<Word>, a: Word, m: Word, g: Word)
    requires Popcount(a) == Picks && a < g
    requires forall b: Word :: b < a && Popcount(b) == Picks ==> Covered(s, b)
    requires forall b :: a < b < g ==> Popcount(b) != Picks
    ensures forall b: Word :: b < g && Popcount(b) == Picks ==> Covered(Added(Added(s, a), m), b)
  {
    forall b: Word | b < g && Popcount(b) == Picks
      ensures Covered(Added(Added(s, a), m), b)
    {
      if b < a {
        AddedKeeps(s, a, b);
      } else {
        assert b == a;
        AddedCovers(s, a);
      }
      AddedKeeps(Added(s, a), m, b);
    }
  }

  /** After `i` rounds of the loop: the set is independent and made of tickets, `a` is the ticket with
      `i` tickets below it, and every ticket below `a` is covered. */
  predicate Progress(s: seq<Word>, a: Word, i: nat)
  {
    Independent(s) && (forall k :: 0 <= k < |s| ==> Ticket(s[k])) &&
    a > 0 && Popcount(a) == Picks && CountPop(0, a, Picks) == i &&
    forall b: Word :: b < a && Popcount(b) == Picks ==> Covered(s, b)
  }

  /** The loop starts at 63 with no ticket below it. */
  lemma Start(s: seq<Word>)
    requires Independent(s) && forall k :: 0 <= k < |s| ==> Ticket(s[k])
    ensures Progress(s, 63, 0)
  {
    NoneBelowFirst();
    forall b: Word | b < 63 && Popcount(b) == Picks
      ensures false
    {
      assert Pow2(6) == 64;
      LeastWithPopcount(b, Picks);
    }
  }

  /** The 49-bit mirror of a word, as `main` adds it. */
  function MirrorOf(a: Word): Word
  {
    Reverse(a, Width) % Two64
  }

  /** The members `main`'s loop holds after `n` more rounds from the members `s` and the word `a`:
      each round adds `a`, then its mirror, and moves `a` to its successor. */
  function Greedy(s: seq<Word>, a: Word, n: nat): seq<Word>
    decreases n
  {
    if n == 0 || a == 0 then s else Greedy(Added(Added(s, a), MirrorOf(a)), Next(a), n - 1)
  }

  /** One round of `Greedy`. */
  lemma GreedyStep(s: seq<Word>, a: Word, n: nat)
    requires n > 0 && a > 0
    ensures Greedy(s, a, n) == Greedy(Added(Added(s, a), MirrorOf(a)), Next(a), n - 1)
  {
  }

  /** The members `main` starts the loop with: the seed and its mirror. */
  const Seeded: seq<Word> := Added(Added([], 0xFC0000), MirrorOf(0xFC0000))

  /** One round of `main`'s loop: add `a` and its mirror, then take Gosper's step. */
  method Round(amir: AmirSet, a: Word, ghost i: nat) returns (g: Word)
    requires Progress(amir.members, a, i) && i < NumCombinations
    modifies amir
    ensures amir.members == Added(Added(old(amir.members), a), MirrorOf(a)) && g == Next(a)
    ensures Progress(amir.members, g, i + 1)
  {
    RankBound(a, i);
    ghost var s := amir.members;
    amir.Add(a);
    var m := Mirror(a, Width);
    MirrorTicket(a, m);
    amir.Add(m);
    MembersStep(s, a, m);
    NoWrap(a);
    NextIsSuccessor(a);
    g := Next(a);
    CoverStep(s, a, m, g);
    CountStep(a, g, Picks);
  }

  /** `main`: the seed and its mirror, then every ticket in increasing order and its mirror. */
  method Cover() returns (amir: AmirSet)
    ensures amir.members == Greedy(Seeded, 63, NumCombinations)
    ensures Independent(amir.members)
    ensures forall k :: 0 <= k < |amir.members| ==> Ticket(amir.members[k])
    ensures forall b: Word :: Ticket(b) ==> Covered(amir.members, b)
  {
    amir := new AmirSet();
    var seed: Word := 0xFC0000;
    SeedTicket(seed);
    amir.Add(seed);
    var m := Mirror(seed, Width);
    MirrorTicket(seed, m);
    MembersStep([], seed, m);
    amir.Add(m);
    var a: Word := 63;
    Start(amir.members);
    ghost var target := Greedy(amir.members, a, NumCombinations);
    for i := 0 to NumCombinations
      invariant Progress(amir.members, a, i)
      invariant Greedy(amir.members, a, NumCombinations - i) == target
    {
      ghost var s0, a0 := amir.members, a;
      a := Round(amir, a, i);
      GreedyStep(s0, a0, NumCombinations - i);
    }
    AllBelow(a);
  }

  /** The seed `0b111111000000000000000000` is a ticket. */
  lemma SeedTicket(seed: nat)
    requires seed == 0xFC0000
    ensures seed < Two64 && Ticket(seed)
  {
    var p := Pow2(18);
    assert p == 0x40000;
    OnesCount(63, 6);
    assert Pow2(6) == 64;
    PopcountSplit(seed, 63, 0, 18);
    Pow2Add(6, 18);
    Pow2Monotone(24, Width);
    Pow2Monotone(Width, 64);
    Two64IsPower();
  }
}
