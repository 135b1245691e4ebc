// Unsigned machine words as naturals: powers of two, the bitwise operators
// and the population count, with the facts about them that the 64-bit code
// of the models relies on.

module Words {
  const Two64: nat := 0x1_0000_0000_0000_0000

  function Pow(b: nat, e: nat): nat
    decreases e
  {
    if e == 0 then 1 else b * Pow(b, e - 1)
  }

  function Pow2(k: nat): (r: nat)
    ensures r >= 1
  {
    if k == 0 then 1 else 2 * Pow2(k - 1)
  }

  lemma {:induction false} Pow2Add(a: nat, b: nat)
    ensures Pow2(a + b) == Pow2(a) * Pow2(b)
    decreases a
  {
    if a > 0 {
      Pow2Add(a - 1, b);
      assert Pow2(a + b) == 2 * Pow2(a - 1 + b);
      assert Pow2(a) * Pow2(b) == 2 * (Pow2(a - 1) * Pow2(b));
    }
  }

  lemma Pow2Monotone(a: nat, b: nat)
    requires a <= b
    ensures Pow2(a) <= Pow2(b)
  {
    Pow2Add(a, b - a);
    MulMono(1, Pow2(b - a), Pow2(a));
  }

  lemma Pow2Byte(k: nat)
    ensures Pow2(k + 8) == 256 * Pow2(k)
  {
    Pow2Add(8, k);
    assert Pow2(4) == 16;
    assert Pow2(8) == 256;
  }

  lemma Two64IsPower()
    ensures Pow2(64) == Two64
  {
    Pow2Byte(0);
    assert Pow2(8) == 0x100;
    Pow2Byte(8);
    assert Pow2(16) == 0x1_0000;
    Pow2Byte(16);
    assert Pow2(24) == 0x100_0000;
    Pow2Byte(24);
    assert Pow2(32) == 0x1_0000_0000;
    Pow2Byte(32);
    assert Pow2(40) == 0x100_0000_0000;
    Pow2Byte(40);
    assert Pow2(48) == 0x1_0000_0000_0000;
    Pow2Byte(48);
    assert Pow2(56) == 0x100_0000_0000_0000;
    Pow2Byte(56);
  }

  // ---------------------------------------------------------------------------
  // Multiplication and division by a variable.

  lemma MulMono(x: nat, y: nat, p: nat)
    requires x <= y
    ensures x * p <= y * p
  {
    assert y * p - x * p == (y - x) * p;
  }

  /** Quotient and remainder are the unique such pair. */
  lemma DivModUnique(i: nat, p: nat, q: nat, r: nat)
    requires p >= 1 && r < p && i == q * p + r
    ensures i / p == q && i % p == r
  {
    var q0, r0 := i / p, i % p;
    assert i == q0 * p + r0;
    if q0 < q {
      MulMono(q0 + 1, q, p);
    } else if q < q0 {
      MulMono(q + 1, q0, p);
    }
  }

  /** Dividing by `a`, then by `b`, is dividing by `a * b`. */
  lemma DivDiv(x: nat, a: nat, b: nat)
    requires a >= 1 && b >= 1
    ensures x / a / b == x / (a * b)
  {
    var q1, r1 := x / a, x % a;
    var q2, r2 := q1 / b, q1 % b;
    var ab := MulPos(a, b);
    var r := RemBelow(r1, r2, a, b);
    Regroup(x, q1, r1, q2, r2, a, b);
    DivModUnique(x, ab, q2, r);
  }

  lemma MulPos(a: nat, b: nat) returns (ab: nat)
    requires a >= 1 && b >= 1
    ensures ab == a * b && ab >= 1
  {
    MulMono(1, b, a);
    ab := a * b;
  }

  /** The remainder of the division by `a * b`. */
  lemma RemBelow(r1: nat, r2: nat, a: nat, b: nat) returns (r: nat)
    requires r1 < a && r2 < b
    ensures r == r2 * a + r1 && r < a * b
  {
    MulMono(0, r2, a);
    MulMono(r2, b - 1, a);
    r := r2 * a + r1;
    assert (b - 1) * a + a == b * a;
  }

  lemma Regroup(x: int, q1: int, r1: int, q2: int, r2: int, a: int, b: int)
    requires x == q1 * a + r1 && q1 == q2 * b + r2
    ensures x == q2 * (a * b) + (r2 * a + r1)
  {
    assert q1 * a == (q2 * b + r2) * a == q2 * b * a + r2 * a;
  }

  /** Splitting the lowest bit off `x`, which is `hi` above `k` low bits `lo`. */
  lemma HalfSplit(x: nat, hi: nat, lo: nat, k: nat, h: nat)
    requires k >= 1 && lo < Pow2(k) && x == hi * Pow2(k) + lo && h == hi * Pow2(k - 1)
    ensures x / 2 == h + lo / 2 && x % 2 == lo % 2 && lo / 2 < Pow2(k - 1)
  {
    assert Pow2(k) == 2 * Pow2(k - 1);
    assert hi * Pow2(k) == 2 * h;
    DivModUnique(x, 2, h + lo / 2, lo % 2);
  }

  // ---------------------------------------------------------------------------
  // Population count.

  function Popcount(x: nat): nat
  {
    if x == 0 then 0 else Popcount(x / 2) + x % 2
  }

  /** Placing `hi` above `k` low bits `lo` adds their counts. */
  lemma {:induction false} PopcountSplit(x: nat, hi: nat, lo: nat, k: nat)
    requires lo < Pow2(k) && x == hi * Pow2(k) + lo
    ensures Popcount(x) == Popcount(hi) + Popcount(lo)
    decreases k
  {
    if k == 0 {
      assert x == hi + lo && lo == 0;
    } else {
      MulMono(0, hi, Pow2(k - 1));
      var h: nat := hi * Pow2(k - 1);
      HalfSplit(x, hi, lo, k, h);
      PopcountSplit(x / 2, hi, lo / 2, k - 1);
      if x == 0 && hi > 0 {
        MulMono(1, hi, Pow2(k));
      }
    }
  }

  /** `j` ones in a row. */
  lemma {:induction false} PopcountOnes(j: nat)
    ensures Popcount(Pow2(j) - 1) == j
    decreases j
  {
    if j > 0 {
      PopcountOnes(j - 1);
      var x := Pow2(j) - 1;
      assert x == (Pow2(j - 1) - 1) * 2 + 1;
      DivModUnique(x, 2, Pow2(j - 1) - 1, 1);
    }
  }

  /** A number below `2^k` has at most `k` bits set. */
  lemma {:induction false} PopcountBound(z: nat, k: nat)
    requires z < Pow2(k)
    ensures Popcount(z) <= k
    decreases k
  {
    if k > 0 && z > 0 {
      HalfSplit(z, 0, z, k, 0);
      PopcountBound(z / 2, k - 1);
    } else if k == 0 {
      assert z == 0;
    }
  }

  /** The least number with `j` bits set is `2^j - 1`. */
  lemma {:induction false} LeastWithPopcount(w: nat, j: nat)
    requires Popcount(w) == j
    ensures w >= Pow2(j) - 1
    decreases w
  {
    if w > 0 {
      var b := w % 2;
      LeastWithPopcount(w / 2, j - b);
    }
  }

  /** Only zero has no bit set. */
  lemma {:induction false} PopcountZero(x: nat)
    requires Popcount(x) == 0
    ensures x == 0
    decreases x
  {
    if x > 0 {
      PopcountZero(x / 2);
    }
  }

  /** The arithmetic of the top-bit case of `GreatestWithPopcount`. */
  lemma TopOnes(z: nat, h: nat, rest: nat, a: nat, a2: nat, m: nat)
    requires z == h + rest && h == a * m && a2 == 2 * a && a >= 1
    requires rest <= (a - 1) * m
    ensures z <= (a2 - 1) * m
  {
    assert (a2 - 1) * m == a * m + (a - 1) * m;
  }

  lemma MulMonoLeft(u: nat, x: nat, y: nat)
    requires x <= y
    ensures u * x <= u * y
  {
    MulMono(x, y, u);
  }

  /** Below `2^k`, the greatest number with `s >= 1` bits set is `s` ones
      followed by `k - s` zeros. */
  lemma {:induction false} GreatestWithPopcount(z: nat, k: nat, s: nat)
    requires z < Pow2(k) && Popcount(z) == s && s >= 1
    ensures s <= k && z <= (Pow2(s) - 1) * Pow2(k - s)
    decreases k
  {
    PopcountBound(z, k);
    var h := Pow2(k - 1);
    if z >= h {
      GreatestTop(z, k, s);
    } else {
      GreatestWithPopcount(z, k - 1, s);
      Pow2Monotone(k - 1 - s, k - s);
      MulMonoLeft(Pow2(s) - 1, Pow2(k - 1 - s), Pow2(k - s));
    }
  }

  /** The case of `GreatestWithPopcount` where bit `k - 1` is set. */
  lemma {:induction false} GreatestTop(z: nat, k: nat, s: nat)
    requires z < Pow2(k) && Popcount(z) == s && 1 <= s <= k && z >= Pow2(k - 1)
    ensures z <= (Pow2(s) - 1) * Pow2(k - s)
    decreases k, 0
  {
    var h := Pow2(k - 1);
    var rest := z - h;
    PopcountSplit(z, 1, rest, k - 1);
    if s == 1 {
      PopcountZero(rest);
      assert Pow2(1) == 2;
    } else {
      GreatestWithPopcount(rest, k - 1, s - 1);
      Pow2Add(s - 1, k - s);
      TopOnes(z, h, rest, Pow2(s - 1), Pow2(s), Pow2(k - s));
    }
  }

  // ---------------------------------------------------------------------------
  // Bitwise operators.

  datatype Op = AndOp | OrOp | XorOp

  /** The bit rule of each operator. */
  predicate Rule(f: Op, x: bool, y: bool)
  {
    match f
    case AndOp => x && y
    case OrOp => x || y
    case XorOp => x != y
  }

  /** The bitwise operator `f`, bit by bit from the lowest. */
  function Bitwise(f: Op, a: nat, b: nat): nat
    decreases a + b
  {
    if a == 0 && b == 0 then 0
    else 2 * Bitwise(f, a / 2, b / 2) + (if Rule(f, a % 2 == 1, b % 2 == 1) then 1 else 0)
  }

  /** `a & b`. */
  function And(a: nat, b: nat): nat { Bitwise(AndOp, a, b) }
  /** `a | b`. */
  function Or(a: nat, b: nat): nat { Bitwise(OrOp, a, b) }
  /** `a ^ b`. */
  function Xor(a: nat, b: nat): nat { Bitwise(XorOp, a, b) }

  /** Unsigned `-a` in 64 bits. */
  function Negate(a: nat): (r: nat)
    requires a < Two64
    ensures r < Two64 && (a > 0 ==> r == Two64 - a)
  {
    (Two64 - a) % Two64
  }

  /** The step of the bit rule also holds when both operands are zero. */
  lemma BitwiseStep(f: Op, a: nat, b: nat)
    ensures Bitwise(f, a, b) == 2 * Bitwise(f, a / 2, b / 2) + (if Rule(f, a % 2 == 1, b % 2 == 1) then 1 else 0)
  {
  }

  /** The arithmetic of one step of `BitwiseSplit`. */
  lemma Recombine(x: nat, x2: nat, hb: nat, h: nat, lb: nat, l: nat, bit: nat, p: nat)
    requires x == 2 * x2 + bit && x2 == hb * h + lb && l == 2 * lb + bit && p == 2 * h
    requires bit <= 1 && lb < h
    ensures x == hb * p + l && l < p
  {
  }

  /** One step of `BitwiseSplit`, on the operands `x`, `y` whose halves the
      smaller case describes. */
  lemma ConcatStep(f: Op, x: nat, y: nat, l1: nat, l2: nat, hb: nat, h: nat, p: nat)
    requires x % 2 == l1 % 2 && y % 2 == l2 % 2 && p == 2 * h
    requires Bitwise(f, x / 2, y / 2) == hb * h + Bitwise(f, l1 / 2, l2 / 2) && Bitwise(f, l1 / 2, l2 / 2) < h
    ensures Bitwise(f, x, y) == hb * p + Bitwise(f, l1, l2) && Bitwise(f, l1, l2) < p
  {
    var bit := if Rule(f, l1 % 2 == 1, l2 % 2 == 1) then 1 else 0;
    BitwiseStep(f, x, y);
    BitwiseStep(f, l1, l2);
    Recombine(Bitwise(f, x, y), Bitwise(f, x / 2, y / 2), hb, h, Bitwise(f, l1 / 2, l2 / 2), Bitwise(f, l1, l2), bit, p);
  }

  /** Bitwise operators work on the high and the low `k` bits apart. */
  lemma {:induction false} BitwiseSplit(f: Op, x: nat, y: nat, h1: nat, l1: nat, h2: nat, l2: nat, k: nat)
    requires l1 < Pow2(k) && l2 < Pow2(k) && x == h1 * Pow2(k) + l1 && y == h2 * Pow2(k) + l2
    ensures Bitwise(f, x, y) == Bitwise(f, h1, h2) * Pow2(k) + Bitwise(f, l1, l2)
    ensures Bitwise(f, l1, l2) < Pow2(k)
    decreases k
  {
    if k == 0 {
      assert l1 == 0 && l2 == 0 && x == h1 && y == h2;
    } else {
      MulMono(0, h1, Pow2(k - 1));
      MulMono(0, h2, Pow2(k - 1));
      var a: nat, b: nat := h1 * Pow2(k - 1), h2 * Pow2(k - 1);
      HalfSplit(x, h1, l1, k, a);
      HalfSplit(y, h2, l2, k, b);
      BitwiseSplit(f, x / 2, y / 2, h1, l1 / 2, h2, l2 / 2, k - 1);
      ConcatStep(f, x, y, l1, l2, Bitwise(f, h1, h2), Pow2(k - 1), Pow2(k));
    }
  }

  /** An operator that keeps a bit against a zero bit has `0` as identity. */
  lemma {:induction false} BitwiseIdentity(f: Op, x: nat)
    requires Rule(f, true, false) && Rule(f, false, true)
    ensures Bitwise(f, x, 0) == x && Bitwise(f, 0, x) == x
    decreases x
  {
    if x > 0 {
      BitwiseIdentity(f, x / 2);
    }
  }

  /** An operator applied to a number and itself. */
  lemma {:induction false} BitwiseSelf(f: Op, x: nat)
    ensures Rule(f, true, true) ==> Bitwise(f, x, x) == x
    ensures !Rule(f, true, true) ==> Bitwise(f, x, x) == 0
    decreases x
  {
    if x > 0 {
      BitwiseSelf(f, x / 2);
    }
  }

  /** An operator that clears a bit against its opposite, applied to a
      `k`-bit number and its complement. */
  lemma {:induction false} BitwiseComplement(f: Op, q: nat, k: nat)
    requires !Rule(f, true, false) && !Rule(f, false, true) && q < Pow2(k)
    ensures Bitwise(f, q, Pow2(k) - 1 - q) == 0
    decreases k
  {
    if k > 0 {
      var h := Pow2(k - 1);
      assert Pow2(k) == 2 * h;
      HalfSplit(q, 0, q, k, 0);
      var c := Pow2(k) - 1 - q;
      assert c == 2 * (h - 1 - q / 2) + (1 - q % 2);
      DivModUnique(c, 2, h - 1 - q / 2, 1 - q % 2);
      BitwiseComplement(f, q / 2, k - 1);
    } else {
      assert q == 0;
    }
  }
}
