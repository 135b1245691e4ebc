// The integer side of the "n-th root of Fibonacci numbers" experiment:
// `fast_expt` by binary exponentiation, the Fibonacci matrix Fmatrix with its
// `*=` operator and power counter `n`, and the table loop of `main`, which raises
// the matrix to the power 2048 by squaring and prints a row at each set bit of
// the exponent. The floating-point part (the quotients f(n+1)/f(n) and the
// Newton iteration for the n-th root) is not modelled.

module NthRoot {
  import opened Words

  // ---------------------------------------------------------------------------
  // fast_expt on integers.

  /** `b` to the power `e`, by repeated multiplication. */
  function Power(b: int, e: nat): int
  {
    if e == 0 then 1 else b * Power(b, e - 1)
  }

  /** `b^(x + y) == b^x * b^y`. */
  lemma {:induction false} PowerAdd(b: int, x: nat, y: nat)
    ensures Power(b, x + y) == Power(b, x) * Power(b, y)
  {
    if x > 0 {
      PowerAdd(b, x - 1, y);
      MulAssoc3(b, Power(b, x - 1), Power(b, y));
    }
  }

  /** `b * (u * v) == (b * u) * v`. */
  lemma MulAssoc3(b: int, u: int, v: int)
    ensures b * (u * v) == (b * u) * v
  {
  }

  /** `b^(2e) == (b*b)^e`: squaring the base halves the exponent. */
  lemma {:induction false} PowerSquare(b: int, e: nat)
    ensures Power(b, 2 * e) == Power(b * b, e)
  {
    if e > 0 {
      PowerSquare(b, e - 1);
      assert Power(b, 2 * e) == b * (b * Power(b, 2 * (e - 1)));
      MulAssoc3(b, b, Power(b, 2 * (e - 1)));
    }
  }

  /** The loop invariant of fast_expt is kept by one halving of `k`. */
  lemma ExptStep(result: int, pf: int, k: nat)
    requires k > 0
    ensures k % 2 == 1 ==> result * Power(pf, k) == (result * pf) * Power(pf * pf, k / 2)
    ensures k % 2 == 0 ==> result * Power(pf, k) == result * Power(pf * pf, k / 2)
  {
    PowerSquare(pf, k / 2);
    if k % 2 == 1 {
      assert Power(pf, k) == pf * Power(pf, 2 * (k / 2));
      MulAssoc3(result, pf, Power(pf * pf, k / 2));
    }
  }

  /** `fast_expt(n, k)`: `n^k` for positive `k`, and 1 when `k <= 0`. */
  method FastExpt(n: int, k: int) returns (result: int)
    ensures result == Power(n, if k > 0 then k else 0)
  {
    ghost var k0: nat := if k > 0 then k else 0;
    result := 1;
    var powerFactor := n;
    var e := k;
    while e > 0
      invariant result * Power(powerFactor, if e > 0 then e else 0) == Power(n, k0)
      invariant e < 0 ==> e == k && k0 == 0
      decreases e
    {
      var r := e % 2;
      ExptStep(result, powerFactor, e);
      e := e / 2;
      if r == 1 {
        result := result * powerFactor;
      }
      powerFactor := powerFactor * powerFactor;
    }
  }

  // ---------------------------------------------------------------------------
  // Two-by-two matrices and the Fibonacci numbers.

  /** A 2x2 integer matrix `[a b; c d]`. */
  datatype Mat = Mat(a: int, b: int, c: int, d: int)

  /** The matrix product, entry by entry as in `operator*=`. */
  function Mul(x: Mat, y: Mat): Mat
  {
    Mat(x.a * y.a + x.b * y.c, x.a * y.b + x.b * y.d, x.c * y.a + x.d * y.c, x.c * y.b + x.d * y.d)
  }

  /** The Fibonacci matrix `[1 1; 1 0]`. */
  const Q: Mat := Mat(1, 1, 1, 0)

  /** The identity matrix. */
  const Identity: Mat := Mat(1, 0, 0, 1)

  /** `x * Q`, which only adds entries. */
  function TimesQ(x: Mat): Mat
  {
    Mat(x.a + x.b, x.a, x.c + x.d, x.c)
  }

  /** `TimesQ` is the product with `Q`. */
  lemma TimesQIsMul(x: Mat)
    ensures TimesQ(x) == Mul(x, Q)
  {
  }

  /** `Q^n`. */
  function QPow(n: nat): Mat
  {
    if n == 0 then Identity else TimesQ(QPow(n - 1))
  }

  /** The Fibonacci numbers, `F(0) = 0`, `F(1) = 1`. */
  function Fib(n: nat): nat
  {
    if n < 2 then n else Fib(n - 1) + Fib(n - 2)
  }

  /** `Q^n == [F(n+1) F(n); F(n) F(n-1)]` for `n >= 1`. */
  lemma {:induction false} QPowFib(n: nat)
    requires n >= 1
    ensures QPow(n) == Mat(Fib(n + 1), Fib(n), Fib(n), Fib(n - 1))
  {
    if n > 1 {
      QPowFib(n - 1);
      var x := QPow(n - 1);
      assert x == Mat(Fib(n), Fib(n - 1), Fib(n - 1), Fib(n - 2));
      assert Fib(n + 1) == Fib(n) + Fib(n - 1) && Fib(n) == Fib(n - 1) + Fib(n - 2);
      assert QPow(n) == TimesQ(x);
    } else {
      assert QPow(1) == TimesQ(QPow(0)) && Fib(2) == Fib(1) + Fib(0);
    }
  }

  /** Multiplying by `Q` on the right is associative. */
  lemma MulQAssoc(x: Mat, y: Mat)
    ensures Mul(x, TimesQ(y)) == TimesQ(Mul(x, y))
  {
  }

  /** `Q^m * Q^n == Q^(m+n)`. */
  lemma {:induction false} QPowAdd(m: nat, n: nat)
    ensures Mul(QPow(m), QPow(n)) == QPow(m + n)
  {
    if n == 0 {
      var x := QPow(m);
      assert QPow(0) == Identity;
      assert Mul(x, Identity) == x;
    } else {
      QPowAdd(m, n - 1);
      MulQAssoc(QPow(m), QPow(n - 1));
    }
  }

  // ---------------------------------------------------------------------------
  // Fmatrix.

  /** A Fibonacci matrix that keeps track of the power it holds. */
  class Fmatrix {
    var n: int
    var a: int
    var b: int
    var c: int
    var d: int

    /** The matrix held, as a value. */
    function Value(): Mat
      reads this
    {
      Mat(a, b, c, d)
    }

    /** The matrix is `Q^n`. */
    predicate Valid()
      reads this
    {
      n >= 1 && Value() == QPow(n)
    }

    /** A default Fmatrix is `[1 1; 1 0]` with `n = 1`. */
    constructor ()
      ensures n == 1 && Value() == Q && Valid()
    {
      n := 1;
      a := 1;
      b := 1;
      c := 1;
      d := 0;
    }

    /** `*=`: stores the product with `rhs`, which may be this same matrix, and adds `rhs.n` to `n`. */
    method MulAssign(rhs: Fmatrix)
      modifies this
      ensures Value() == Mul(old(Value()), old(rhs.Value())) && n == old(n) + old(rhs.n)
      ensures old(Valid()) && old(rhs.Valid()) ==> Valid()
    {
      var newA := a * rhs.a + b * rhs.c;
      var newB := a * rhs.b + b * rhs.d;
      var newC := c * rhs.a + d * rhs.c;
      var newD := c * rhs.b + d * rhs.d;
      ghost var m := n;
      ghost var r := rhs.n;
      if Valid() && rhs.Valid() {
        QPowAdd(m, r);
      }
      a, b, c, d := newA, newB, newC, newD;
      n := n + rhs.n;
    }
  }

  /** A valid Fmatrix holds three Fibonacci numbers. */
  lemma ValidFib(x: Mat, n: int)
    requires n >= 1 && x == QPow(n)
    ensures x.a == Fib(n + 1) && x.b == Fib(n) && x.c == Fib(n) && x.d == Fib(n - 1)
  {
    QPowFib(n);
  }

  // ---------------------------------------------------------------------------
  // The table loop of main.

  /** One printed row: the power `n` and the entries `f(n+1)` and `f(n)` whose quotient and root are shown. */
  datatype Row = Row(n: int, fa: int, fb: int)

  /** A row holds `f(n+1)` and `f(n)` for its `n`. */
  predicate RowOk(row: Row)
  {
    row.n >= 1 && row.fa == Fib(row.n + 1) && row.fb == Fib(row.n)
  }

  /** The rows are in increasing order of `n`, each holding the Fibonacci numbers of its `n`. */
  predicate RowsOk(rows: seq<Row>)
  {
    (forall j :: 0 <= j < |rows| ==> RowOk(rows[j])) &&
    (forall j :: 0 < j < |rows| ==> rows[j - 1].n < rows[j].n)
  }

  /** The powers `n` of the rows, in order. */
  function Powers(rows: seq<Row>): (ns: seq<int>)
    ensures |ns| == |rows|
  {
    seq(|rows|, j requires 0 <= j < |rows| => rows[j].n)
  }

  /** Entry `j` of the powers is row `j`'s power. */
  lemma PowersAt(rows: seq<Row>, j: nat)
    requires j < |rows|
    ensures Powers(rows)[j] == rows[j].n
  {
  }

  /** Rows in order are in order pairwise. */
  lemma {:induction false} RowsIncreasing(rows: seq<Row>, j1: nat, j2: nat)
    requires RowsOk(rows) && j1 < j2 < |rows|
    ensures rows[j1].n < rows[j2].n
    decreases j2
  {
    if j1 < j2 - 1 {
      RowsIncreasing(rows, j1, j2 - 1);
    }
  }

  /** Bit `i` of `bits` joins the low `i` bits: with `p == 2^i` and `bits == q * p + m` for the
      low bits `m`, reading the bit `r = q mod 2` leaves `q / 2` above `2p` and `m + r p` below it,
      with one more set bit when `r` is 1. */
  lemma LowBits(bits: nat, i: nat, p: nat, q: nat, r: nat, m: nat)
    requires p == Pow2(i) && bits == q * p + m && m < p && r == q % 2
    ensures Pow2(i + 1) == 2 * p
    ensures bits == (q / 2) * (2 * p) + (if r == 1 then m + p else m)
    ensures (if r == 1 then m + p else m) < 2 * p
    ensures Popcount(if r == 1 then m + p else m) == r + Popcount(m)
  {
    Regroup(bits, q, m, q / 2, r, p, 2);
    var lo := RemBelow(m, r, p, 2);
    assert r * p == if r == 1 then p else 0;
    assert p * 2 == 2 * p && Pow2(i + 1) == 2 * p;
    PopcountSplit(lo, r, m, i);
    assert Popcount(r) == r;
  }

  /** At a set bit: `f *= power_factor`, and the row for the new `f` is printed. */
  method Record(f: Fmatrix, powerFactor: Fmatrix, rows: seq<Row>) returns (rows': seq<Row>)
    requires f != powerFactor && f.Valid() && powerFactor.Valid()
    modifies f
    ensures f.Valid() && f.n == old(f.n) + powerFactor.n
    ensures rows' == rows + [Row(f.n, f.a, f.b)] && RowOk(rows'[|rows|])
  {
    f.MulAssign(powerFactor);
    ValidFib(f.Value(), f.n);
    rows' := rows + [Row(f.n, f.a, f.b)];
  }

  /** The body of `main`'s loop for the bit `r`: at a set bit, `f *= power_factor` and a row is
      printed; then `power_factor *= power_factor`. */
  method Pass(f: Fmatrix, powerFactor: Fmatrix, rows: seq<Row>, r: int) returns (rows': seq<Row>)
    requires f != powerFactor && f.Valid() && powerFactor.Valid()
    modifies f, powerFactor
    ensures f.Valid() && powerFactor.Valid() && powerFactor.n == 2 * old(powerFactor.n)
    ensures r == 1 ==> f.n == old(f.n) + old(powerFactor.n) && rows' == rows + [Row(f.n, f.a, f.b)]
    ensures r == 1 ==> RowOk(rows'[|rows|])
    ensures r != 1 ==> f.n == old(f.n) && rows' == rows
  {
    rows' := rows;
    if r == 1 {
      rows' := Record(f, powerFactor, rows);
    }
    ghost var fn := f.n;
    powerFactor.MulAssign(powerFactor);
    assert f.n == fn;
  }

  /** The powers `n` the loop prints from here on, with `bits` the exponent bits still to read,
      `power_factor` at power `p` and `f` at power `base`: each set bit multiplies `power_factor`
      into `f` and prints the new power, and every bit squares `power_factor`. So the row of a set
      bit shows 1 plus the sum of the bits of `k` read up to and including it. */
  ghost function RowPowers(bits: int, p: nat, base: int): seq<int>
    decreases bits
  {
    if bits <= 0 then []
    else if bits % 2 == 1 then [base + p] + RowPowers(bits / 2, 2 * p, base + p)
    else RowPowers(bits / 2, 2 * p, base)
  }

  /** The powers of the rows the loop prints for `k`. */
  ghost function Printed(k: int): seq<int>
  {
    RowPowers(k, 1, 1)
  }

  /** One row per set bit, in increasing order above `base`, the last for `base + bits * p`. */
  lemma {:induction false} RowPowersShape(bits: int, p: nat, base: int)
    requires p >= 1
    ensures |RowPowers(bits, p, base)| == Popcount(if bits > 0 then bits else 0)
    ensures forall j :: 0 <= j < |RowPowers(bits, p, base)| ==> RowPowers(bits, p, base)[j] > base
    ensures forall j :: 0 < j < |RowPowers(bits, p, base)| ==>
              RowPowers(bits, p, base)[j - 1] < RowPowers(bits, p, base)[j]
    ensures bits > 0 ==> (|RowPowers(bits, p, base)| > 0 &&
                         RowPowers(bits, p, base)[|RowPowers(bits, p, base)| - 1] == base + bits * p)
    decreases if bits > 0 then bits else 0
  {
    if bits > 0 {
      var q := bits / 2;
      var all := RowPowers(bits, p, base);
      if bits % 2 == 1 {
        RowPowersShape(q, 2 * p, base + p);
        var rest := RowPowers(q, 2 * p, base + p);
        assert all == [base + p] + rest;
        assert Popcount(bits) == Popcount(q) + 1;
        assert bits * p == q * (2 * p) + p;
        forall j | 0 < j < |all|
          ensures all[j - 1] < all[j]
        {
          assert all[j] == rest[j - 1];
          if j > 1 {
            assert all[j - 1] == rest[j - 2];
          }
        }
      } else {
        RowPowersShape(q, 2 * p, base);
        assert all == RowPowers(q, 2 * p, base);
        assert Popcount(bits) == Popcount(q);
        assert bits * p == q * (2 * p);
      }
    }
  }

  /** `m` ones, `2^m - 1`. */
  function Ones(m: nat): nat
  {
    Pow2(m) - 1
  }

  /** For an exponent of `m` ones read from power `p` on, with `f` at power `p` too, the rows
      printed are `2p, 4p, ..., 2^m p`. */
  lemma {:induction false} RowPowersOnes(m: nat, p: nat)
    ensures |RowPowers(Ones(m), p, p)| == m
    ensures forall j :: 0 <= j < m ==> RowPowers(Ones(m), p, p)[j] == p * Pow2(j + 1)
  {
    if m > 0 {
      var e := Ones(m);
      assert e % 2 == 1 && e / 2 == Ones(m - 1);
      RowPowersOnes(m - 1, 2 * p);
      var rest := RowPowers(Ones(m - 1), 2 * p, 2 * p);
      var all := RowPowers(e, p, p);
      assert all == [2 * p] + rest;
      forall j | 0 <= j < m
        ensures all[j] == p * Pow2(j + 1)
      {
        if j > 0 {
          assert all[j] == rest[j - 1];
        }
      }
    }
  }

  /** One bit of the loop: a set bit prints `base + p` and moves `f` there; either way `p` doubles. */
  lemma PrintStep(done: seq<int>, q: int, p: nat, base: int, all: seq<int>)
    requires q > 0 && done + RowPowers(q, p, base) == all
    ensures q % 2 == 1 ==> (done + [base + p]) + RowPowers(q / 2, 2 * p, base + p) == all
    ensures q % 2 == 0 ==> done + RowPowers(q / 2, 2 * p, base) == all
  {
    if q % 2 == 1 {
      var rest := RowPowers(q / 2, 2 * p, base + p);
      assert done + ([base + p] + rest) == (done + [base + p]) + rest;
    }
  }

  /** The state of `main`'s loop after reading `i` bits of `k`: `e` holds the bits still to read,
      `power_factor` is at power `p == 2^i`, `f` is at power `fn`, one more than the bits read so
      far (`low`), every row printed holds the Fibonacci numbers of its `n`, and the powers of those
      rows followed by the ones still to come make up the whole table `all`. */
  ghost predicate Reading(rows: seq<Row>, k: int, e: int, bits: nat, i: nat, p: nat, low: nat, fn: int, all: seq<int>)
  {
    p == Pow2(i) && low < p && fn == 1 + low &&
    (e < 0 ==> e == k && i == 0 && bits == 0 && low == 0) &&
    (e >= 0 ==> bits == e * p + low) &&
    (forall j :: 0 <= j < |rows| ==> RowOk(rows[j])) &&
    Powers(rows) + RowPowers(e, p, fn) == all
  }

  /** One pass of the loop keeps `Reading`: a set bit adds `p` to `f`'s power and prints a row for it. */
  lemma ReadingStep(rows: seq<Row>, rows': seq<Row>, k: int, e: int, bits: nat, i: nat, p: nat, low: nat, fn: int, all: seq<int>)
    requires e > 0 && Reading(rows, k, e, bits, i, p, low, fn, all)
    requires e % 2 == 1 ==> |rows'| == |rows| + 1 && rows'[..|rows|] == rows
    requires e % 2 == 1 ==> rows'[|rows|].n == fn + p && RowOk(rows'[|rows|])
    requires e % 2 == 0 ==> rows' == rows
    ensures Reading(rows', k, e / 2, bits, i + 1, 2 * p, if e % 2 == 1 then low + p else low,
                    if e % 2 == 1 then fn + p else fn, all)
  {
    var r := e % 2;
    LowBits(bits, i, p, e, r, low);
    PrintStep(Powers(rows), e, p, fn, all);
    if r == 1 {
      assert rows' == rows + [rows'[|rows|]];
      assert Powers(rows') == Powers(rows) + [fn + p];
      forall j | 0 <= j < |rows'|
        ensures RowOk(rows'[j])
      {
        if j < |rows| {
          assert rows'[j] == rows[j];
        }
      }
    }
  }

  /** `main`'s loop: squares `power_factor` once per bit of `k`, from the lowest, and multiplies
      it into `f`, recording a row, at each set bit. */
  method FibTable(k: int) returns (f: Fmatrix, rows: seq<Row>)
    ensures f.Valid() && f.n == 1 + (if k > 0 then k else 0)
    ensures f.a == Fib(f.n + 1) && f.b == Fib(f.n)
    ensures RowsOk(rows) && |rows| == Popcount(if k > 0 then k else 0)
    ensures |rows| > 0 ==> rows[|rows| - 1].n == f.n
    ensures Powers(rows) == Printed(k)
  {
    ghost var bits: nat := if k > 0 then k else 0;
    ghost var all := Printed(k);
    f := new Fmatrix();
    var powerFactor := new Fmatrix();
    rows := [];
    var e := k;
    ghost var i: nat := 0;
    ghost var p: nat := 1;
    ghost var low: nat := 0;
    while e > 0
      invariant f != powerFactor && f.Valid() && powerFactor.Valid() && powerFactor.n == p
      invariant Reading(rows, k, e, bits, i, p, low, f.n, all)
      decreases e
    {
      var r := e % 2;
      ghost var e0, rows0, fn0 := e, rows, f.n;
      e := e / 2;
      rows := Pass(f, powerFactor, rows, r);
      ReadingStep(rows0, rows, k, e0, bits, i, p, low, fn0, all);
      i := i + 1;
      low := if r == 1 then low + p else low;
      p := 2 * p;
    }
    ValidFib(f.Value(), f.n);
    TableShape(rows, k, all);
  }

  /** The rows whose powers are the whole table are in order and end at power `1 + k`. */
  lemma TableShape(rows: seq<Row>, k: int, all: seq<int>)
    requires all == Printed(k) && Powers(rows) == all
    requires forall j :: 0 <= j < |rows| ==> RowOk(rows[j])
    ensures RowsOk(rows) && |rows| == Popcount(if k > 0 then k else 0)
    ensures |rows| > 0 ==> rows[|rows| - 1].n == 1 + k
  {
    RowPowersShape(k, 1, 1);
    forall j | 0 < j < |rows|
      ensures rows[j - 1].n < rows[j].n
    {
      assert rows[j - 1].n == all[j - 1] && rows[j].n == all[j];
    }
    if |rows| > 0 {
      assert rows[|rows| - 1].n == all[|all| - 1];
    }
  }

  /** The exponent `main` uses: one less than 2048, because `f` starts at power 1. */
  const Limit: int := 2047

  /** `main` ends with `f` at power 2048, after printing eleven rows for `n = 2, 4, ..., 2048`. */
  method MainTable() returns (f: Fmatrix, rows: seq<Row>)
    ensures f.n == 2048 && f.a == Fib(f.n + 1) && f.b == Fib(f.n)
    ensures |rows| == 11 && RowsOk(rows)
    ensures forall j :: 0 <= j < 11 ==> rows[j].n == Pow2(j + 1)
  {
    f, rows := FibTable(Limit);
    LimitBits(Limit);
    LimitRows(rows);
  }

  /** The rows printed for `k = 2047` are for `n = 2, 4, ..., 2048`. */
  lemma LimitRows(rows: seq<Row>)
    requires Powers(rows) == Printed(Limit)
    ensures |rows| == 11 && forall j :: 0 <= j < 11 ==> rows[j].n == Pow2(j + 1)
  {
    assert Pow2(11) == 2048 && Ones(11) == Limit;
    RowPowersOnes(11, 1);
    forall j | 0 <= j < 11
      ensures rows[j].n == Pow2(j + 1)
    {
      PowersAt(rows, j);
    }
  }

  /** 2047 has eleven bits set. */
  lemma LimitBits(k: nat)
    requires k == 2047
    ensures Popcount(k) == 11
  {
    Pow2Byte(3);
    assert Pow2(3) == 8;
    PopcountOnes(11);
  }
}
