// The grading computation of the report tool: from the table of a class
// sheet it builds the header, the norm row and the subheader, folds every
// student row into totals and per-test statistics, and stacks the pieces into
// one report sheet. Unsigned arithmetic wraps at 2^32, as `unsigned int`
// does; the percentages that the tool computes in floating point are kept as
// exact quotients.

module Grading {
  import opened Numerals
  import opened Gu
  import opened SheetAlgebra

  /** Why `main` stops instead of printing a report: a score cell that is
      neither missing nor an integer (`main` returns 1), or an exception that
      the outer `catch` turns into return code 1. */
  datatype ExitReason = NonIntegerScore | Thrown(kind: ConvError)

  datatype Outcome<T> = Done(value: T) | Exit(reason: ExitReason)

  /** `unsigned int` addition and multiplication. */
  function Add32(a: nat, b: nat): nat { (a + b) % Two32 }

  function Mul32(a: nat, b: nat): nat { (a * b) % Two32 }

  /** The geometry `main` uses: three student-information columns, two header
      rows, the norms in row 1. */
  const MainGeometry := Geometry(3, 2, 1)

  // ---------------------------------------------------------------------------
  // Percentages.

  /** An IEEE value the computation can reach: a finite quotient, or what a
      division by zero gives. */
  datatype Percent = Finite(value: real) | NaN | Infinity

  /** `100.0 * num / den` for unsigned `num` and `den`. */
  function Ratio(num: nat, den: nat): (p: Percent)
    ensures den > 0 ==> p == Finite(100.0 * num as real / den as real)
    ensures den == 0 ==> p == if num == 0 then NaN else Infinity
  {
    if den == 0 then (if num == 0 then NaN else Infinity)
    else Finite(100.0 * num as real / den as real)
  }

  /** `final < 50.0`: false for a NaN and for infinity. */
  predicate Below50(p: Percent)
  {
    p.Finite? && p.value < 50.0
  }

  /** A score is below half marks exactly when twice the score is below the
      norm, with no floating point involved. */
  lemma Below50Ratio(score: nat, norm: nat)
    ensures Below50(Ratio(score, norm)) <==> 2 * score < norm
  {
    if norm > 0 {
      DivLess(100.0 * score as real, 50.0 * norm as real, norm as real);
      assert 50.0 * norm as real / norm as real == 50.0;
    }
  }

  /** Division by a positive number keeps the order. */
  lemma DivLess(a: real, b: real, n: real)
    requires n > 0.0
    ensures a / n < b / n <==> a < b
  {
    var x, y := a / n, b / n;
    assert x * n == a && y * n == b;
    assert (y - x) * n == b - a;
    if x < y {
      assert (y - x) * n > 0.0;
    } else {
      assert (x - y) * n >= 0.0;
    }
  }

  /** `acc + x`. */
  function AddPercent(a: Percent, b: Percent): (c: Percent)
    ensures a.NaN? || b.NaN? ==> c.NaN?
    ensures a.Finite? && b.Finite? ==> c == Finite(a.value + b.value)
  {
    match (a, b)
    case (Finite(x), Finite(y)) => Finite(x + y)
    case (NaN, _) => NaN
    case (_, NaN) => NaN
    case _ => Infinity
  }

  /** `acc / (double)count` for a non-negative accumulator. */
  function Mean(acc: Percent, count: nat): (m: Percent)
    requires acc.Finite? ==> acc.value >= 0.0
    ensures count > 0 && acc.Finite? ==> m == Finite(acc.value / count as real)
    ensures count == 0 && acc.Finite? ==> m == if acc.value == 0.0 then NaN else Infinity
    ensures acc.NaN? ==> m.NaN?
  {
    match acc
    case Finite(x) => if count > 0 then Finite(x / count as real) else if x == 0.0 then NaN else Infinity
    case NaN => NaN
    case Infinity => Infinity
  }

  // ---------------------------------------------------------------------------
  // Header, norm and subheader rows.

  /** A header cell: `ordinal` becomes `#`, anything else is upper-cased. */
  function HeaderCell(h: string): string
  {
    if h == "ordinal" then "#" else Upcased(h)
  }

  /** The header row: the first table row edited cell by cell, then `TOTAL`
      and `SCORE`. */
  function HeaderRow(front: seq<string>): seq<string>
  {
    seq(|front|, k requires 0 <= k < |front| => HeaderCell(front[k])) + ["TOTAL", "SCORE"]
  }

  /** The loop that builds the header in place. */
  method MakeHeader(front: seq<string>) returns (header: seq<string>)
    ensures header == HeaderRow(front)
    ensures |header| == |front| + 2
    ensures forall k :: 0 <= k < |front| ==> header[k] == HeaderCell(front[k])
    ensures header[|front|] == "TOTAL" && header[|front| + 1] == "SCORE"
  {
    header := front;
    var k := 0;
    while k < |header|
      invariant 0 <= k <= |header| == |front|
      invariant forall i :: 0 <= i < |front| ==> header[i] == if i < k then HeaderCell(front[i]) else front[i]
    {
      if header[k] == "ordinal" {
        header := header[k := "#"];
      } else {
        header := header[k := Upcased(header[k])];
      }
      k := k + 1;
    }
    header := header + ["TOTAL"];
    header := header + ["SCORE"];
  }

  /** The norm row: row `normRowIndex` without its student-information cells.
      `at` throws `out_of_range` past the last row. */
  function NormRow(table: Table, g: Geometry): (r: Outcome<seq<string>>)
    requires g.normRowIndex < |table| ==> g.studentInfoColumns <= |table[g.normRowIndex]|
    ensures r.Exit? <==> g.normRowIndex >= |table|
    ensures r.Exit? ==> r.reason == Thrown(OutOfRange)
    ensures r.Done? ==> table[g.normRowIndex] == table[g.normRowIndex][..g.studentInfoColumns] + r.value
  {
    if g.normRowIndex >= |table| then Exit(Thrown(OutOfRange))
    else Done(table[g.normRowIndex][g.studentInfoColumns..])
  }

  /** The subheader: a blank per student-information column, `/` and the
      norm for each test, then a blank and `/100`. */
  function SubheaderRow(norm: seq<string>, sic: nat): seq<string>
  {
    Fill(sic, " ") + seq(|norm|, k requires 0 <= k < |norm| => "/" + norm[k]) + [" ", "/100"]
  }

  method MakeSubheader(norm: seq<string>, sic: nat) returns (sub: seq<string>)
    ensures sub == SubheaderRow(norm, sic)
    ensures |sub| == sic + |norm| + 2
    ensures sub[..sic] == Fill(sic, " ")
    ensures forall k :: 0 <= k < |norm| ==> sub[sic + k] == "/" + norm[k]
    ensures sub[sic + |norm|] == " " && sub[sic + |norm| + 1] == "/100"
  {
    sub := Fill(sic, " ");
    var k := 0;
    while k < |norm|
      invariant 0 <= k <= |norm|
      invariant |sub| == sic + k && sub[..sic] == Fill(sic, " ")
      invariant forall i :: 0 <= i < k ==> sub[sic + i] == "/" + norm[i]
    {
      sub := sub + ["/" + norm[k]];
      k := k + 1;
    }
    sub := sub + [" "];
    sub := sub + ["/100"];
  }

  // ---------------------------------------------------------------------------
  // The fold over one student's score cells.

  /** What the fold carries: this student's totals and the class-wide sum and
      sample size of every test. */
  datatype Tally = Tally(score: nat, norm: nat, sums: seq<nat>, counts: seq<nat>)

  /** One pass of the inner loop: test `j`, score cell `s`, norm cell `n`. A
      missing score changes nothing; an integer adds its value and its norm
      (the norm converted first) and counts the test once; anything else
      stops `main`. */
  function ScoreCell(t: Tally, s: string, n: string, j: nat): (r: Outcome<Tally>)
    requires j < |t.sums| && j < |t.counts|
    ensures r.Done? ==> |r.value.sums| == |t.sums| && |r.value.counts| == |t.counts|
  {
    if IsNa(s) then Done(t)
    else if !IsInteger(s) then Exit(NonIntegerScore)
    else match StringToUint(n)
      case Failure(e) => Exit(Thrown(e))
      case Success(nv) =>
        match StringToUint(s)
        case Failure(e) => Exit(Thrown(e))
        case Success(sv) =>
          Done(Tally(Add32(t.score, sv), Add32(t.norm, nv),
                     t.sums[j := Add32(t.sums[j], sv)], t.counts[j := Add32(t.counts[j], 1)]))
  }

  /** How many passes the inner loop makes: it stops at the end of the norms,
      of the student's cells, or of either accumulator. */
  function Passes(u: seq<string>, norm: seq<string>, sic: nat, t: Tally): nat
    requires sic <= |u|
  {
    var a := if |norm| < |u| - sic then |norm| else |u| - sic;
    var b := if |t.sums| < |t.counts| then |t.sums| else |t.counts|;
    if a < b then a else b
  }

  /** The first `m` passes of the inner loop, from `t`. */
  function ScoreCells(t: Tally, u: seq<string>, norm: seq<string>, sic: nat, m: nat): (r: Outcome<Tally>)
    requires sic + m <= |u| && m <= |norm| && m <= |t.sums| && m <= |t.counts|
    ensures r.Done? ==> |r.value.sums| == |t.sums| && |r.value.counts| == |t.counts|
    decreases m
  {
    if m == 0 then Done(t)
    else match ScoreCells(t, u, norm, sic, m - 1)
      case Exit(e) => Exit(e)
      case Done(t1) => ScoreCell(t1, u[sic + m - 1], norm[m - 1], m - 1)
  }

  /** The inner loop of `main` for student row `u`: totals start at 0, the
      test accumulators are carried over. */
  method ScoreStudent(u: seq<string>, norm: seq<string>, sic: nat, sums: seq<nat>, counts: seq<nat>)
    returns (r: Outcome<Tally>)
    requires sic <= |u|
    ensures r == ScoreCells(Tally(0, 0, sums, counts), u, norm, sic, Passes(u, norm, sic, Tally(0, 0, sums, counts)))
  {
    var t0 := Tally(0, 0, sums, counts);
    var m := Passes(u, norm, sic, t0);
    var scoreTotal, normTotal := 0, 0;
    var tsa: seq<nat>, tssa: seq<nat> := sums, counts;
    var j := 0;
    while j < m
      invariant 0 <= j <= m
      invariant ScoreCells(t0, u, norm, sic, j) == Done(Tally(scoreTotal, normTotal, tsa, tssa))
    {
      ghost var before := Tally(scoreTotal, normTotal, tsa, tssa);
      var s := u[sic + j];
      if !IsNa(s) {
        if IsInteger(s) {
          var nv := StringToUint(norm[j]);
          if nv.Failure? {
            PassStops(t0, u, norm, sic, j, m, before, Thrown(nv.error));
            return Exit(Thrown(nv.error));
          }
          var sv := StringToUint(s);
          if sv.Failure? {
            PassStops(t0, u, norm, sic, j, m, before, Thrown(sv.error));
            return Exit(Thrown(sv.error));
          }
          normTotal := Add32(normTotal, nv.value);
          scoreTotal := Add32(scoreTotal, sv.value);
          tsa := tsa[j := Add32(tsa[j], sv.value)];
          tssa := tssa[j := Add32(tssa[j], 1)];
        } else {
          PassStops(t0, u, norm, sic, j, m, before, NonIntegerScore);
          return Exit(NonIntegerScore);
        }
      }
      PassContinues(t0, u, norm, sic, j, before, Tally(scoreTotal, normTotal, tsa, tssa));
      j := j + 1;
    }
    return Done(Tally(scoreTotal, normTotal, tsa, tssa));
  }

  /** A pass that gets past its cell extends the fold by one step. */
  lemma PassContinues(t: Tally, u: seq<string>, norm: seq<string>, sic: nat, j: nat, before: Tally, after: Tally)
    requires sic + j < |u| && j < |norm| && j < |t.sums| && j < |t.counts|
    requires ScoreCells(t, u, norm, sic, j) == Done(before)
    requires ScoreCell(before, u[sic + j], norm[j], j) == Done(after)
    ensures ScoreCells(t, u, norm, sic, j + 1) == Done(after)
  {
  }

  /** A pass that stops `main` ends the whole fold. */
  lemma PassStops(t: Tally, u: seq<string>, norm: seq<string>, sic: nat, j: nat, m: nat, before: Tally, e: ExitReason)
    requires j < m && sic + m <= |u| && m <= |norm| && m <= |t.sums| && m <= |t.counts|
    requires ScoreCells(t, u, norm, sic, j) == Done(before)
    requires ScoreCell(before, u[sic + j], norm[j], j) == Exit(e)
    ensures ScoreCells(t, u, norm, sic, m) == Exit(e)
  {
    ExitStays(t, u, norm, sic, j + 1, m);
  }

  /** Once a pass stops `main`, the later passes do not run. */
  lemma {:induction false} ExitStays(t: Tally, u: seq<string>, norm: seq<string>, sic: nat, j: nat, m: nat)
    requires j <= m && sic + m <= |u| && m <= |norm| && m <= |t.sums| && m <= |t.counts|
    requires ScoreCells(t, u, norm, sic, j).Exit?
    ensures ScoreCells(t, u, norm, sic, m) == ScoreCells(t, u, norm, sic, j)
    decreases m
  {
    if j < m {
      ExitStays(t, u, norm, sic, j, m - 1);
    }
  }

  // The meaning of the fold.

  /** A cell the inner loop gets past: missing, or an integer whose value and
      whose norm both convert. */
  predicate CellOk(s: string, n: string)
  {
    IsNa(s) || (IsInteger(s) && StringToUint(n).Success? && StringToUint(s).Success?)
  }

  /** A cell that counts: present and convertible. */
  predicate Counted(s: string, n: string)
  {
    !IsNa(s) && IsInteger(s) && StringToUint(n).Success? && StringToUint(s).Success?
  }

  function ScoreValue(s: string, n: string): nat
  {
    if Counted(s, n) then StringToUint(s).value else 0
  }

  function NormValue(s: string, n: string): nat
  {
    if Counted(s, n) then StringToUint(n).value else 0
  }

  /** The plain sums, without wrap-around, of the scores and of the norms of
      the counted cells among the first `m`. */
  function ScoreSum(u: seq<string>, norm: seq<string>, sic: nat, m: nat): nat
    requires sic + m <= |u| && m <= |norm|
  {
    if m == 0 then 0 else ScoreSum(u, norm, sic, m - 1) + ScoreValue(u[sic + m - 1], norm[m - 1])
  }

  function NormSum(u: seq<string>, norm: seq<string>, sic: nat, m: nat): nat
    requires sic + m <= |u| && m <= |norm|
  {
    if m == 0 then 0 else NormSum(u, norm, sic, m - 1) + NormValue(u[sic + m - 1], norm[m - 1])
  }

  /** Every accumulator holds an `unsigned int`. */
  predicate Bounded(t: Tally)
  {
    t.score < Two32 && t.norm < Two32 &&
    (forall j :: 0 <= j < |t.sums| ==> t.sums[j] < Two32) &&
    (forall j :: 0 <= j < |t.counts| ==> t.counts[j] < Two32)
  }

  lemma ModAdd(a: nat, b: nat, c: nat)
    ensures ((a + b) % Two32 + c) % Two32 == (a + b + c) % Two32
  {
  }

  /** The closed form of the fold: the totals are the sums of the counted
      scores and norms cut to 32 bits, each of the first `m` tests' sums grows
      by its score and its sample size by one exactly when its cell counts, and
      the other tests are untouched. */
  function Expected(t: Tally, u: seq<string>, norm: seq<string>, sic: nat, m: nat): Tally
    requires sic + m <= |u| && m <= |norm| && m <= |t.sums| && m <= |t.counts|
  {
    Tally((t.score + ScoreSum(u, norm, sic, m)) % Two32,
          (t.norm + NormSum(u, norm, sic, m)) % Two32,
          seq(|t.sums|, j requires 0 <= j < |t.sums| =>
            if j < m then (t.sums[j] + ScoreValue(u[sic + j], norm[j])) % Two32 else t.sums[j]),
          seq(|t.counts|, j requires 0 <= j < |t.counts| =>
            if j < m && Counted(u[sic + j], norm[j]) then (t.counts[j] + 1) % Two32 else t.counts[j]))
  }

  lemma ExpectedStep(t: Tally, u: seq<string>, norm: seq<string>, sic: nat, m: nat)
    requires 0 < m && sic + m <= |u| && m <= |norm| && m <= |t.sums| && m <= |t.counts|
    requires Bounded(t)
    requires CellOk(u[sic + m - 1], norm[m - 1])
    ensures ScoreCell(Expected(t, u, norm, sic, m - 1), u[sic + m - 1], norm[m - 1], m - 1) == Done(Expected(t, u, norm, sic, m))
  {
    if Counted(u[sic + m - 1], norm[m - 1]) {
      ExpectedStepCounted(t, u, norm, sic, m);
    } else {
      var e0 := Expected(t, u, norm, sic, m - 1);
      var e1 := Expected(t, u, norm, sic, m);
      assert e0.sums == e1.sums;
      assert e0.counts == e1.counts;
    }
  }

  lemma ExpectedStepCounted(t: Tally, u: seq<string>, norm: seq<string>, sic: nat, m: nat)
    requires 0 < m && sic + m <= |u| && m <= |norm| && m <= |t.sums| && m <= |t.counts|
    requires Counted(u[sic + m - 1], norm[m - 1])
    ensures ScoreCell(Expected(t, u, norm, sic, m - 1), u[sic + m - 1], norm[m - 1], m - 1) == Done(Expected(t, u, norm, sic, m))
  {
    var e0 := Expected(t, u, norm, sic, m - 1);
    var e1 := Expected(t, u, norm, sic, m);
    var s, n := u[sic + m - 1], norm[m - 1];
    var sv, nv := StringToUint(s).value, StringToUint(n).value;
    assert ScoreCell(e0, s, n, m - 1) == Done(Tally(Add32(e0.score, sv), Add32(e0.norm, nv),
      e0.sums[m - 1 := Add32(e0.sums[m - 1], sv)], e0.counts[m - 1 := Add32(e0.counts[m - 1], 1)]));
    ModAdd(t.score, ScoreSum(u, norm, sic, m - 1), sv);
    ModAdd(t.norm, NormSum(u, norm, sic, m - 1), nv);
    assert e0.sums[m - 1 := Add32(e0.sums[m - 1], sv)] == e1.sums;
    assert e0.counts[m - 1 := Add32(e0.counts[m - 1], 1)] == e1.counts;
  }

  /** When every cell gets past the loop, the fold ends in its closed form. */
  lemma {:induction false} ScoreCellsTotals(t: Tally, u: seq<string>, norm: seq<string>, sic: nat, m: nat)
    requires sic + m <= |u| && m <= |norm| && m <= |t.sums| && m <= |t.counts|
    requires Bounded(t)
    requires forall j :: 0 <= j < m ==> CellOk(u[sic + j], norm[j])
    ensures ScoreCells(t, u, norm, sic, m) == Done(Expected(t, u, norm, sic, m))
    decreases m
  {
    if m == 0 {
      assert Expected(t, u, norm, sic, 0).sums == t.sums;
      assert Expected(t, u, norm, sic, 0).counts == t.counts;
    } else {
      ScoreCellsTotals(t, u, norm, sic, m - 1);
      ExpectedStep(t, u, norm, sic, m);
    }
  }

  /** The first cell the loop cannot get past decides how `main` stops. */
  lemma {:induction false} ScoreCellsStops(t: Tally, u: seq<string>, norm: seq<string>, sic: nat, m: nat, k: nat)
    requires sic + m <= |u| && m <= |norm| && m <= |t.sums| && m <= |t.counts|
    requires Bounded(t) && k < m
    requires forall j :: 0 <= j < k ==> CellOk(u[sic + j], norm[j])
    requires !CellOk(u[sic + k], norm[k])
    ensures ScoreCells(t, u, norm, sic, m) == Exit(CellFailure(u[sic + k], norm[k]))
    decreases m
  {
    if m == k + 1 {
      ScoreCellsTotals(t, u, norm, sic, k);
    } else {
      ScoreCellsStops(t, u, norm, sic, m - 1, k);
    }
  }

  /** Why a cell the loop cannot get past stops `main`. */
  function CellFailure(s: string, n: string): ExitReason
    requires !CellOk(s, n)
  {
    if !IsInteger(s) then NonIntegerScore
    else if StringToUint(n).Failure? then Thrown(StringToUint(n).error)
    else Thrown(StringToUint(s).error)
  }

  // ---------------------------------------------------------------------------
  // The fold over the student rows.

  /** What the outer loop carries from one student to the next: the test
      sums and sample sizes, the sum and count of the students' percentages,
      and the result rows so far. */
  datatype ClassState = ClassState(sums: seq<nat>, counts: seq<nat>, finalAcc: Percent, finalCount: nat, results: Table)

  /** The state before the first student: a zero sum and a zero sample size
      per cell of the first table row. */
  function Start(w: nat): ClassState
  {
    ClassState(Fill(w, 0), Fill(w, 0), Finite(0.0), 0, [])
  }

  /** A student's result cells: `NA` twice when every score cell is exactly
      `NA`; otherwise the fraction, the percentage as `fmt` writes it, and a
      star exactly when the score is below half the norm. */
  function StudentResult(u: seq<string>, sic: nat, score: nat, norm: nat, fmt: Percent -> string): (r: seq<string>)
    requires sic <= |u|
    ensures AllScoresNa(u, sic) ==> r == ["NA", "NA"]
    ensures !AllScoresNa(u, sic) ==>
      |r| == 3 && r[0] == NatToString(score) + "/" + NatToString(norm) && r[1] == fmt(Ratio(score, norm)) &&
      (r[2] == "*" <==> 2 * score < norm) && (r[2] == "*" || r[2] == " ")
  {
    Below50Ratio(score, norm);
    if AllScoresNa(u, sic) then ["NA", "NA"]
    else
      var f := Ratio(score, norm);
      [NatToString(score) + "/" + NatToString(norm), fmt(f), if Below50(f) then "*" else " "]
  }

  /** The state after student `u`, whose fold ended in `t`: only a student
      with some score cell other than `NA` adds to the class average. */
  function AfterStudent(c: ClassState, u: seq<string>, sic: nat, t: Tally, fmt: Percent -> string): (r: ClassState)
    requires sic <= |u|
    ensures r.sums == t.sums && r.counts == t.counts
    ensures r.results == c.results + [StudentResult(u, sic, t.score, t.norm, fmt)]
  {
    var row := StudentResult(u, sic, t.score, t.norm, fmt);
    if AllScoresNa(u, sic) then ClassState(t.sums, t.counts, c.finalAcc, c.finalCount, c.results + [row])
    else ClassState(t.sums, t.counts, AddPercent(c.finalAcc, Ratio(t.score, t.norm)), Add32(c.finalCount, 1), c.results + [row])
  }

  /** Every student row has its information cells. */
  predicate RowsReach(students: Table, sic: nat)
  {
    forall k :: 0 <= k < |students| ==> sic <= |students[k]|
  }

  /** The first `i` passes of the outer loop, from `c0`. */
  function ScoreStudents(c0: ClassState, students: Table, norm: seq<string>, sic: nat, fmt: Percent -> string, i: nat): Outcome<ClassState>
    requires i <= |students| && RowsReach(students, sic)
    decreases i
  {
    if i == 0 then Done(c0)
    else match ScoreStudents(c0, students, norm, sic, fmt, i - 1)
      case Exit(e) => Exit(e)
      case Done(c) =>
        var u := students[i - 1];
        var t0 := Tally(0, 0, c.sums, c.counts);
        match ScoreCells(t0, u, norm, sic, Passes(u, norm, sic, t0))
        case Exit(e) => Exit(e)
        case Done(t) => Done(AfterStudent(c, u, sic, t, fmt))
  }

  /** The outer loop of `main`: every student row in turn. */
  method ScoreClass(students: Table, norm: seq<string>, sic: nat, w: nat, fmt: Percent -> string) returns (r: Outcome<ClassState>)
    requires RowsReach(students, sic)
    ensures r == ScoreStudents(Start(w), students, norm, sic, fmt, |students|)
  {
    var c := Start(w);
    var i := 0;
    while i < |students|
      invariant 0 <= i <= |students|
      invariant ScoreStudents(Start(w), students, norm, sic, fmt, i) == Done(c)
    {
      var u := students[i];
      var t := ScoreStudent(u, norm, sic, c.sums, c.counts);
      if t.Exit? {
        StudentStops(Start(w), students, norm, sic, fmt, i + 1);
        return Exit(t.reason);
      }
      var results, acc, count := c.results, c.finalAcc, c.finalCount;
      if AllScoresNa(u, sic) {
        results := results + [["NA", "NA"]];
      } else {
        var final := Ratio(t.value.score, t.value.norm);
        acc := AddPercent(acc, final);
        count := Add32(count, 1);
        var rational := NatToString(t.value.score) + "/" + NatToString(t.value.norm);
        if Below50(final) {
          results := results + [[rational, fmt(final), "*"]];
        } else {
          results := results + [[rational, fmt(final), " "]];
        }
      }
      StudentContinues(Start(w), students, norm, sic, fmt, i, c, t.value);
      c := ClassState(t.value.sums, t.value.counts, acc, count, results);
      i := i + 1;
    }
    return Done(c);
  }

  /** A student whose fold ends normally extends the outer fold by one step. */
  lemma StudentContinues(c0: ClassState, students: Table, norm: seq<string>, sic: nat, fmt: Percent -> string, i: nat, c: ClassState, t: Tally)
    requires i < |students| && RowsReach(students, sic)
    requires ScoreStudents(c0, students, norm, sic, fmt, i) == Done(c)
    requires var t0 := Tally(0, 0, c.sums, c.counts);
      ScoreCells(t0, students[i], norm, sic, Passes(students[i], norm, sic, t0)) == Done(t)
    ensures ScoreStudents(c0, students, norm, sic, fmt, i + 1) == Done(AfterStudent(c, students[i], sic, t, fmt))
  {
  }

  /** Once a student stops `main`, the later students are not scored. */
  lemma {:induction false} StudentStops(c0: ClassState, students: Table, norm: seq<string>, sic: nat, fmt: Percent -> string, i: nat)
    requires 0 < i <= |students| && RowsReach(students, sic)
    requires ScoreStudents(c0, students, norm, sic, fmt, i).Exit?
    ensures ScoreStudents(c0, students, norm, sic, fmt, |students|) == ScoreStudents(c0, students, norm, sic, fmt, i)
    decreases |students| - i
  {
    if i < |students| {
      StudentStops(c0, students, norm, sic, fmt, i + 1);
    }
  }

  // The meaning of the outer fold.

  /** How many score cells of `u` the inner loop visits when the test
      accumulators have `w` entries. */
  function Cap(u: seq<string>, norm: seq<string>, sic: nat, w: nat): nat
    requires sic <= |u|
  {
    var a := if |norm| < |u| - sic then |norm| else |u| - sic;
    if a < w then a else w
  }

  /** Every score cell the inner loop visits gets past it. */
  predicate StudentOk(u: seq<string>, norm: seq<string>, sic: nat, w: nat)
    requires sic <= |u|
  {
    forall j :: 0 <= j < Cap(u, norm, sic, w) ==> CellOk(u[sic + j], norm[j])
  }

  /** A student's `score_total` and `norm_total`: the sums of the counted
      cells, cut to 32 bits. */
  function StudentScore(u: seq<string>, norm: seq<string>, sic: nat, w: nat): nat
    requires sic <= |u|
  {
    ScoreSum(u, norm, sic, Cap(u, norm, sic, w)) % Two32
  }

  function StudentNorm(u: seq<string>, norm: seq<string>, sic: nat, w: nat): nat
    requires sic <= |u|
  {
    NormSum(u, norm, sic, Cap(u, norm, sic, w)) % Two32
  }

  /** The result rows of the first `i` students, each from its own totals. */
  function ExpectedResults(students: Table, norm: seq<string>, sic: nat, w: nat, fmt: Percent -> string, i: nat): Table
    requires i <= |students| && RowsReach(students, sic)
  {
    if i == 0 then []
    else
      var u := students[i - 1];
      ExpectedResults(students, norm, sic, w, fmt, i - 1) + [StudentResult(u, sic, StudentScore(u, norm, sic, w), StudentNorm(u, norm, sic, w), fmt)]
  }

  /** The accumulators of a state: one entry per column of the first row,
      each an `unsigned int`. */
  predicate ClassShape(c: ClassState, w: nat)
  {
    |c.sums| == w && |c.counts| == w &&
    (forall j :: 0 <= j < w ==> c.sums[j] < Two32) &&
    (forall j :: 0 <= j < w ==> c.counts[j] < Two32)
  }

  /** When every visited cell of the first `i` students gets past the loop,
      the outer fold ends normally. */
  lemma {:induction false} ClassDone(c0: ClassState, students: Table, norm: seq<string>, sic: nat, w: nat, fmt: Percent -> string, i: nat)
    requires i <= |students| && RowsReach(students, sic) && ClassShape(c0, w)
    requires forall k :: 0 <= k < i ==> StudentOk(students[k], norm, sic, w)
    ensures ScoreStudents(c0, students, norm, sic, fmt, i).Done?
    ensures ClassShape(ScoreStudents(c0, students, norm, sic, fmt, i).value, w)
    decreases i
  {
    if i > 0 {
      ClassDone(c0, students, norm, sic, w, fmt, i - 1);
      var c := ScoreStudents(c0, students, norm, sic, fmt, i - 1).value;
      StudentDone(c0, c, students, norm, sic, w, fmt, i);
      var u := students[i - 1];
      ExpectedBounded(Tally(0, 0, c.sums, c.counts), u, norm, sic, Cap(u, norm, sic, w));
    }
  }

  /** Then each student's result row comes from the plain sums of its counted
      cells, cut to 32 bits. */
  lemma {:induction false} ClassTotals(c0: ClassState, students: Table, norm: seq<string>, sic: nat, w: nat, fmt: Percent -> string, i: nat)
    requires i <= |students| && RowsReach(students, sic) && ClassShape(c0, w)
    requires forall k :: 0 <= k < i ==> StudentOk(students[k], norm, sic, w)
    ensures ScoreStudents(c0, students, norm, sic, fmt, i).Done?
    ensures ScoreStudents(c0, students, norm, sic, fmt, i).value.results == c0.results + ExpectedResults(students, norm, sic, w, fmt, i)
    decreases i
  {
    if i > 0 {
      ClassDone(c0, students, norm, sic, w, fmt, i - 1);
      var c := ScoreStudents(c0, students, norm, sic, fmt, i - 1).value;
      var e := ExpectedResults(students, norm, sic, w, fmt, i - 1);
      ClassTotals(c0, students, norm, sic, w, fmt, i - 1);
      assert c.results == c0.results + e;
      StudentDone(c0, c, students, norm, sic, w, fmt, i);
      var u := students[i - 1];
      var t := Expected(Tally(0, 0, c.sums, c.counts), u, norm, sic, Cap(u, norm, sic, w));
      assert t.score == StudentScore(u, norm, sic, w) && t.norm == StudentNorm(u, norm, sic, w);
      var row := StudentResult(u, sic, t.score, t.norm, fmt);
      assert NextClass(c, u, norm, sic, w, fmt).results == c.results + [row];
      ExpectedResultsStep(students, norm, sic, w, fmt, i);
      assert (c0.results + e) + [row] == c0.results + (e + [row]);
    }
  }

  lemma ExpectedResultsStep(students: Table, norm: seq<string>, sic: nat, w: nat, fmt: Percent -> string, i: nat)
    requires 0 < i <= |students| && RowsReach(students, sic)
    ensures var u := students[i - 1];
      ExpectedResults(students, norm, sic, w, fmt, i) ==
      ExpectedResults(students, norm, sic, w, fmt, i - 1) + [StudentResult(u, sic, StudentScore(u, norm, sic, w), StudentNorm(u, norm, sic, w), fmt)]
  {
  }

  /** The state after student `i - 1` whose visited cells all get past the loop. */
  function NextClass(c: ClassState, u: seq<string>, norm: seq<string>, sic: nat, w: nat, fmt: Percent -> string): ClassState
    requires sic <= |u| && |c.sums| == w && |c.counts| == w
  {
    AfterStudent(c, u, sic, Expected(Tally(0, 0, c.sums, c.counts), u, norm, sic, Cap(u, norm, sic, w)), fmt)
  }

  lemma StudentDone(c0: ClassState, c: ClassState, students: Table, norm: seq<string>, sic: nat, w: nat, fmt: Percent -> string, i: nat)
    requires 0 < i <= |students| && RowsReach(students, sic)
    requires ClassShape(c, w)
    requires StudentOk(students[i - 1], norm, sic, w)
    requires ScoreStudents(c0, students, norm, sic, fmt, i - 1) == Done(c)
    ensures ScoreStudents(c0, students, norm, sic, fmt, i) == Done(NextClass(c, students[i - 1], norm, sic, w, fmt))
  {
    var u := students[i - 1];
    var t := Expected(Tally(0, 0, c.sums, c.counts), u, norm, sic, Cap(u, norm, sic, w));
    StudentTally(c, u, norm, sic, w);
    StudentContinues(c0, students, norm, sic, fmt, i - 1, c, t);
  }

  /** A student whose visited cells all get past the loop ends its fold in the
      closed form. */
  lemma StudentTally(c: ClassState, u: seq<string>, norm: seq<string>, sic: nat, w: nat)
    requires sic <= |u| && ClassShape(c, w)
    requires StudentOk(u, norm, sic, w)
    ensures var t0 := Tally(0, 0, c.sums, c.counts);
      Passes(u, norm, sic, t0) == Cap(u, norm, sic, w) &&
      ScoreCells(t0, u, norm, sic, Passes(u, norm, sic, t0)) == Done(Expected(t0, u, norm, sic, Cap(u, norm, sic, w)))
  {
    var t0 := Tally(0, 0, c.sums, c.counts);
    ScoreCellsTotals(t0, u, norm, sic, Cap(u, norm, sic, w));
  }

  /** The closed form keeps every test accumulator within 32 bits. */
  lemma ExpectedBounded(t: Tally, u: seq<string>, norm: seq<string>, sic: nat, m: nat)
    requires sic + m <= |u| && m <= |norm| && m <= |t.sums| && m <= |t.counts|
    requires Bounded(t)
    ensures var e := Expected(t, u, norm, sic, m);
      (forall j :: 0 <= j < |e.sums| ==> e.sums[j] < Two32) && (forall j :: 0 <= j < |e.counts| ==> e.counts[j] < Two32)
  {
  }

  /** How many of the first `i` students have a score cell other than `NA`. */
  function Scored(students: Table, sic: nat, i: nat): nat
    requires i <= |students| && RowsReach(students, sic)
  {
    if i == 0 then 0 else Scored(students, sic, i - 1) + (if AllScoresNa(students[i - 1], sic) then 0 else 1)
  }

  /** A percentage the class accumulator can hold: never negative. */
  predicate NonNegative(p: Percent)
  {
    p.Finite? ==> p.value >= 0.0
  }

  /** Whenever the outer fold ends normally: there is one result row per
      student, of two cells exactly when every score cell is `NA` and of three
      otherwise; the class sample size counts the other students, cut to 32
      bits; the accumulated percentage never goes negative, and once it is a
      NaN it stays one. */
  lemma {:induction false} ClassAverage(c0: ClassState, students: Table, norm: seq<string>, sic: nat, fmt: Percent -> string, i: nat)
    requires i <= |students| && RowsReach(students, sic) && c0.finalCount < Two32
    requires ScoreStudents(c0, students, norm, sic, fmt, i).Done?
    ensures var c := ScoreStudents(c0, students, norm, sic, fmt, i).value;
      |c.results| == |c0.results| + i && c.results[..|c0.results|] == c0.results &&
      (forall k :: |c0.results| <= k < |c.results| ==> (|c.results[k]| == 2 <==> AllScoresNa(students[k - |c0.results|], sic))) &&
      (forall k :: |c0.results| <= k < |c.results| ==> |c.results[k]| == 2 || |c.results[k]| == 3) &&
      c.finalCount == (c0.finalCount + Scored(students, sic, i)) % Two32 &&
      (NonNegative(c0.finalAcc) ==> NonNegative(c.finalAcc)) &&
      (c0.finalAcc.NaN? ==> c.finalAcc.NaN?)
  {
    ClassRows(c0, students, norm, sic, fmt, i);
    ClassCount(c0, students, norm, sic, fmt, i);
    ClassPercent(c0, students, norm, sic, fmt, i);
  }

  /** The pass of the outer loop over student `i - 1`, when it ends normally. */
  lemma StudentStep(c0: ClassState, students: Table, norm: seq<string>, sic: nat, fmt: Percent -> string, i: nat)
      returns (c: ClassState, t: Tally)
    requires 0 < i <= |students| && RowsReach(students, sic)
    requires ScoreStudents(c0, students, norm, sic, fmt, i).Done?
    ensures ScoreStudents(c0, students, norm, sic, fmt, i - 1) == Done(c) && sic <= |students[i - 1]|
    ensures ScoreStudents(c0, students, norm, sic, fmt, i).value == AfterStudent(c, students[i - 1], sic, t, fmt)
  {
    c := ScoreStudents(c0, students, norm, sic, fmt, i - 1).value;
    var u := students[i - 1];
    var t0 := Tally(0, 0, c.sums, c.counts);
    t := ScoreCells(t0, u, norm, sic, Passes(u, norm, sic, t0)).value;
  }

  /** The result rows part of `ClassAverage`. */
  lemma {:induction false} ClassRows(c0: ClassState, students: Table, norm: seq<string>, sic: nat, fmt: Percent -> string, i: nat)
    requires i <= |students| && RowsReach(students, sic)
    requires ScoreStudents(c0, students, norm, sic, fmt, i).Done?
    ensures var c := ScoreStudents(c0, students, norm, sic, fmt, i).value;
      |c.results| == |c0.results| + i && c.results[..|c0.results|] == c0.results &&
      (forall k :: |c0.results| <= k < |c.results| ==> (|c.results[k]| == 2 <==> AllScoresNa(students[k - |c0.results|], sic))) &&
      (forall k :: |c0.results| <= k < |c.results| ==> |c.results[k]| == 2 || |c.results[k]| == 3)
    decreases i
  {
    if i > 0 {
      var c, t := StudentStep(c0, students, norm, sic, fmt, i);
      ClassRows(c0, students, norm, sic, fmt, i - 1);
      var u := students[i - 1];
      var row := StudentResult(u, sic, t.score, t.norm, fmt);
      var c1 := AfterStudent(c, u, sic, t, fmt);
      assert c1.results == c.results + [row];
      assert c1.results[..|c.results|] == c.results;
      assert c1.results[..|c0.results|] == c.results[..|c0.results|];
      assert forall k :: 0 <= k < |c.results| ==> c1.results[k] == c.results[k];
    }
  }

  /** The sample size part of `ClassAverage`. */
  lemma {:induction false} ClassCount(c0: ClassState, students: Table, norm: seq<string>, sic: nat, fmt: Percent -> string, i: nat)
    requires i <= |students| && RowsReach(students, sic) && c0.finalCount < Two32
    requires ScoreStudents(c0, students, norm, sic, fmt, i).Done?
    ensures ScoreStudents(c0, students, norm, sic, fmt, i).value.finalCount == (c0.finalCount + Scored(students, sic, i)) % Two32
    decreases i
  {
    if i > 0 {
      var c, t := StudentStep(c0, students, norm, sic, fmt, i);
      ClassCount(c0, students, norm, sic, fmt, i - 1);
      var u := students[i - 1];
      AverageStep(c, u, sic, t, fmt);
      var d := if AllScoresNa(u, sic) then 0 else 1;
      var c1 := AfterStudent(c, u, sic, t, fmt);
      assert c1.finalCount == if d == 0 then c.finalCount else Add32(c.finalCount, 1);
      assert Scored(students, sic, i) == Scored(students, sic, i - 1) + d;
      CountStep(c.finalCount, c0.finalCount, Scored(students, sic, i - 1), d, c1.finalCount);
    }
  }

  lemma CountStep(x: nat, a: nat, b: nat, d: nat, y: nat)
    requires x == (a + b) % Two32 && d <= 1 && y == (if d == 0 then x else Add32(x, 1))
    ensures y == (a + (b + d)) % Two32
  {
    ModAdd(a, b, d);
  }

  /** The percentage part of `ClassAverage`. */
  lemma {:induction false} ClassPercent(c0: ClassState, students: Table, norm: seq<string>, sic: nat, fmt: Percent -> string, i: nat)
    requires i <= |students| && RowsReach(students, sic)
    requires ScoreStudents(c0, students, norm, sic, fmt, i).Done?
    ensures var c := ScoreStudents(c0, students, norm, sic, fmt, i).value;
      (NonNegative(c0.finalAcc) ==> NonNegative(c.finalAcc)) && (c0.finalAcc.NaN? ==> c.finalAcc.NaN?)
    decreases i
  {
    if i > 0 {
      var c, t := StudentStep(c0, students, norm, sic, fmt, i);
      ClassPercent(c0, students, norm, sic, fmt, i - 1);
      AverageStep(c, students[i - 1], sic, t, fmt);
    }
  }

  /** One student keeps the accumulated percentage non-negative and a NaN a
      NaN, and adds a row of two or three cells. */
  lemma AverageStep(c: ClassState, u: seq<string>, sic: nat, t: Tally, fmt: Percent -> string)
    requires sic <= |u|
    ensures var c1 := AfterStudent(c, u, sic, t, fmt);
      (NonNegative(c.finalAcc) ==> NonNegative(c1.finalAcc)) && (c.finalAcc.NaN? ==> c1.finalAcc.NaN?) &&
      c1.finalCount == if AllScoresNa(u, sic) then c.finalCount else Add32(c.finalCount, 1)
  {
    if t.norm > 0 {
      assert 100.0 * t.score as real / t.norm as real >= 0.0;
    }
  }

  /** The first cell of the first student that the inner loop cannot get
      past decides how `main` stops: the error message for a score that is
      not an integer, or the exception of the conversion that fails. */
  lemma ClassStops(c0: ClassState, students: Table, norm: seq<string>, sic: nat, w: nat, fmt: Percent -> string, k: nat, j: nat)
    requires k < |students| && RowsReach(students, sic) && ClassShape(c0, w)
    requires forall k' :: 0 <= k' < k ==> StudentOk(students[k'], norm, sic, w)
    requires j < Cap(students[k], norm, sic, w)
    requires forall j' :: 0 <= j' < j ==> CellOk(students[k][sic + j'], norm[j'])
    requires !CellOk(students[k][sic + j], norm[j])
    ensures ScoreStudents(c0, students, norm, sic, fmt, |students|) == Exit(CellFailure(students[k][sic + j], norm[j]))
  {
    ClassDone(c0, students, norm, sic, w, fmt, k);
    var c := ScoreStudents(c0, students, norm, sic, fmt, k).value;
    var u := students[k];
    var t0 := Tally(0, 0, c.sums, c.counts);
    assert Passes(u, norm, sic, t0) == Cap(u, norm, sic, w);
    ScoreCellsStops(t0, u, norm, sic, Cap(u, norm, sic, w), j);
    assert ScoreStudents(c0, students, norm, sic, fmt, k + 1) == Exit(CellFailure(u[sic + j], norm[j]));
    StudentStops(c0, students, norm, sic, fmt, k + 1);
  }

  // ---------------------------------------------------------------------------
  // The scoring test vectors: four tests of norm 50.

  const Fifty: seq<string> := ["50", "50", "50", "50"]
  const FullRow: seq<string> := ["1", "a", "b", "40", "40", "40", "40"]
  const GappedRow: seq<string> := ["2", "c", "d", "NA", "40", "NA", "40"]
  const ZeroRow: seq<string> := ["3", "e", "f", "0", "0", "0", "0"]
  const MissingRow: seq<string> := ["4", "g", "h", "NA", "NA", "NA", "NA"]

  /** A present integer cell with a 32-bit value and a 32-bit norm counts both. */
  lemma CountedCell(s: string, n: string, a: nat, b: nat)
    requires !IsNa(s) && IsInteger(s) && IsInteger(n) && DecimalValue(s) == a && DecimalValue(n) == b
    requires a < Two32 && b < Two32
    ensures CellOk(s, n) && Counted(s, n) && ScoreValue(s, n) == a && NormValue(s, n) == b
  {
    StringToUintOfSmall(s, a);
    StringToUintOfSmall(n, b);
  }

  lemma MissingCell(s: string, n: string)
    requires IsNa(s)
    ensures CellOk(s, n) && !Counted(s, n) && ScoreValue(s, n) == 0 && NormValue(s, n) == 0
  {
  }

  lemma SumsOfFour(u: seq<string>, norm: seq<string>, sic: nat)
    requires sic + 4 <= |u| && 4 <= |norm|
    ensures ScoreSum(u, norm, sic, 4) ==
      ScoreValue(u[sic], norm[0]) + ScoreValue(u[sic + 1], norm[1]) + ScoreValue(u[sic + 2], norm[2]) + ScoreValue(u[sic + 3], norm[3])
    ensures NormSum(u, norm, sic, 4) ==
      NormValue(u[sic], norm[0]) + NormValue(u[sic + 1], norm[1]) + NormValue(u[sic + 2], norm[2]) + NormValue(u[sic + 3], norm[3])
  {
    assert ScoreSum(u, norm, sic, 1) == ScoreValue(u[sic], norm[0]);
    assert NormSum(u, norm, sic, 1) == NormValue(u[sic], norm[0]);
    assert ScoreSum(u, norm, sic, 2) == ScoreSum(u, norm, sic, 1) + ScoreValue(u[sic + 1], norm[1]);
    assert NormSum(u, norm, sic, 2) == NormSum(u, norm, sic, 1) + NormValue(u[sic + 1], norm[1]);
    assert ScoreSum(u, norm, sic, 4) == ScoreSum(u, norm, sic, 2) + ScoreValue(u[sic + 2], norm[2]) + ScoreValue(u[sic + 3], norm[3]);
    assert NormSum(u, norm, sic, 4) == NormSum(u, norm, sic, 2) + NormValue(u[sic + 2], norm[2]) + NormValue(u[sic + 3], norm[3]);
  }

  /** The first three result rows, each from its own totals. */
  lemma ThreeResults(students: Table, norm: seq<string>, sic: nat, w: nat, fmt: Percent -> string)
    requires |students| == 3 && RowsReach(students, sic)
    ensures ExpectedResults(students, norm, sic, w, fmt, 3) ==
      [StudentResult(students[0], sic, StudentScore(students[0], norm, sic, w), StudentNorm(students[0], norm, sic, w), fmt),
       StudentResult(students[1], sic, StudentScore(students[1], norm, sic, w), StudentNorm(students[1], norm, sic, w), fmt),
       StudentResult(students[2], sic, StudentScore(students[2], norm, sic, w), StudentNorm(students[2], norm, sic, w), fmt)]
  {
    assert ExpectedResults(students, norm, sic, w, fmt, 1) ==
      [StudentResult(students[0], sic, StudentScore(students[0], norm, sic, w), StudentNorm(students[0], norm, sic, w), fmt)];
  }

  /** The result row of a student with some score present. */
  lemma ResultOf(u: seq<string>, sic: nat, score: nat, norm: nat, fmt: Percent -> string, p: real)
    requires sic <= |u| && !AllScoresNa(u, sic) && norm > 0 && 100.0 * (score as real) == p * (norm as real)
    ensures StudentResult(u, sic, score, norm, fmt) ==
      [NatToString(score) + "/" + NatToString(norm), fmt(Finite(p)), if 2 * score < norm then "*" else " "]
  {
    var n := norm as real;
    assert 100.0 * (score as real) / n == p * n / n;
    assert p * n / n == p;
    assert Ratio(score, norm) == Finite(p);
  }

  lemma Numerals4050()
    ensures IsInteger("40") && DecimalValue("40") == 40 && !IsNa("40")
    ensures IsInteger("50") && DecimalValue("50") == 50
    ensures IsInteger("0") && DecimalValue("0") == 0 && !IsNa("0")
  {
    assert "40"[..1] == "4" && "50"[..1] == "5";
  }

  lemma FullRowTotals()
    ensures StudentOk(FullRow, Fifty, 3, 7) && StudentScore(FullRow, Fifty, 3, 7) == 160 && StudentNorm(FullRow, Fifty, 3, 7) == 200
    ensures !AllScoresNa(FullRow, 3)
  {
    Numerals4050();
    CountedCell("40", "50", 40, 50);
    assert Cap(FullRow, Fifty, 3, 7) == 4;
    SumsOfFour(FullRow, Fifty, 3);
  }

  lemma GappedRowTotals()
    ensures StudentOk(GappedRow, Fifty, 3, 7) && StudentScore(GappedRow, Fifty, 3, 7) == 80 && StudentNorm(GappedRow, Fifty, 3, 7) == 100
    ensures !AllScoresNa(GappedRow, 3)
  {
    Numerals4050();
    CountedCell("40", "50", 40, 50);
    MissingCell("NA", "50");
    assert Cap(GappedRow, Fifty, 3, 7) == 4;
    SumsOfFour(GappedRow, Fifty, 3);
  }

  lemma ZeroRowTotals()
    ensures StudentOk(ZeroRow, Fifty, 3, 7) && StudentScore(ZeroRow, Fifty, 3, 7) == 0 && StudentNorm(ZeroRow, Fifty, 3, 7) == 200
    ensures !AllScoresNa(ZeroRow, 3)
  {
    Numerals4050();
    CountedCell("0", "50", 0, 50);
    assert Cap(ZeroRow, Fifty, 3, 7) == 4;
    SumsOfFour(ZeroRow, Fifty, 3);
  }

  lemma TotalsWritten()
    ensures NatToString(160) == "160" && NatToString(200) == "200"
    ensures NatToString(80) == "80" && NatToString(100) == "100" && NatToString(0) == "0"
  {
    Written160();
    Written200();
    Written80();
    Written100();
  }

  lemma Written160()
    ensures NatToString(160) == "160"
  {
    assert NatToString(1) == "1";
    NatToStringAppend("1", '6', 1);
    NatToStringAppend("16", '0', 16);
  }

  lemma Written200()
    ensures NatToString(200) == "200"
  {
    assert NatToString(2) == "2";
    NatToStringAppend("2", '0', 2);
    NatToStringAppend("20", '0', 20);
  }

  lemma Written80()
    ensures NatToString(80) == "80"
  {
    assert NatToString(8) == "8";
    NatToStringAppend("8", '0', 8);
  }

  lemma Written100()
    ensures NatToString(100) == "100"
  {
    assert NatToString(1) == "1";
    NatToStringAppend("1", '0', 1);
    NatToStringAppend("10", '0', 10);
  }

  /** The rows of the three test students, each from its own totals. */
  lemma VectorRows(fmt: Percent -> string)
    ensures StudentResult(FullRow, 3, 160, 200, fmt) == ["160" + "/" + "200", fmt(Finite(80.0)), " "]
    ensures StudentResult(GappedRow, 3, 80, 100, fmt) == ["80" + "/" + "100", fmt(Finite(80.0)), " "]
    ensures StudentResult(ZeroRow, 3, 0, 200, fmt) == ["0" + "/" + "200", fmt(Finite(0.0)), "*"]
  {
    NotAllNa();
    FullRowResult(fmt);
    GappedRowResult(fmt);
    ZeroRowResult(fmt);
  }

  lemma FullRowResult(fmt: Percent -> string)
    requires !AllScoresNa(FullRow, 3)
    ensures StudentResult(FullRow, 3, 160, 200, fmt) == ["160" + "/" + "200", fmt(Finite(80.0)), " "]
  {
    Written160();
    Written200();
    ResultOf(FullRow, 3, 160, 200, fmt, 80.0);
  }

  lemma GappedRowResult(fmt: Percent -> string)
    requires !AllScoresNa(GappedRow, 3)
    ensures StudentResult(GappedRow, 3, 80, 100, fmt) == ["80" + "/" + "100", fmt(Finite(80.0)), " "]
  {
    Written80();
    Written100();
    ResultOf(GappedRow, 3, 80, 100, fmt, 80.0);
  }

  lemma ZeroRowResult(fmt: Percent -> string)
    requires !AllScoresNa(ZeroRow, 3)
    ensures StudentResult(ZeroRow, 3, 0, 200, fmt) == ["0" + "/" + "200", fmt(Finite(0.0)), "*"]
  {
    Written200();
    assert NatToString(0) == "0";
    ResultOf(ZeroRow, 3, 0, 200, fmt, 0.0);
  }

  lemma NotAllNa()
    ensures !AllScoresNa(FullRow, 3) && !AllScoresNa(GappedRow, 3) && !AllScoresNa(ZeroRow, 3)
    ensures AllScoresNa(MissingRow, 3)
  {
    assert FullRow[3] != "NA" && GappedRow[4] != "NA" && ZeroRow[3] != "NA";
  }

  lemma VectorsOk()
    ensures var students := [FullRow, GappedRow, ZeroRow];
      RowsReach(students, 3) && forall k :: 0 <= k < 3 ==> StudentOk(students[k], Fifty, 3, 7)
  {
    FullRowTotals();
    GappedRowTotals();
    ZeroRowTotals();
  }

  lemma VectorTotals()
    ensures StudentScore(FullRow, Fifty, 3, 7) == 160 && StudentNorm(FullRow, Fifty, 3, 7) == 200
    ensures StudentScore(GappedRow, Fifty, 3, 7) == 80 && StudentNorm(GappedRow, Fifty, 3, 7) == 100
    ensures StudentScore(ZeroRow, Fifty, 3, 7) == 0 && StudentNorm(ZeroRow, Fifty, 3, 7) == 200
  {
    FullRowTotals();
    GappedRowTotals();
    ZeroRowTotals();
  }

  lemma VectorResults(fmt: Percent -> string)
    ensures var students := [FullRow, GappedRow, ZeroRow];
      RowsReach(students, 3) &&
      ExpectedResults(students, Fifty, 3, 7, fmt, 3) ==
        [["160" + "/" + "200", fmt(Finite(80.0)), " "],
         ["80" + "/" + "100", fmt(Finite(80.0)), " "],
         ["0" + "/" + "200", fmt(Finite(0.0)), "*"]]
  {
    VectorTotals();
    ThreeResults([FullRow, GappedRow, ZeroRow], Fifty, 3, 7, fmt);
    VectorRows(fmt);
  }

  /** At norms 50, 50, 50, 50: four scores of 40 give 160/200, two of them
      missing give 80/100, four zeros give 0/200 and a star. */
  lemma ScoreVectors(fmt: Percent -> string)
    ensures var r := ScoreStudents(Start(7), [FullRow, GappedRow, ZeroRow], Fifty, 3, fmt, 3);
      r.Done? && r.value.results ==
        [["160" + "/" + "200", fmt(Finite(80.0)), " "],
         ["80" + "/" + "100", fmt(Finite(80.0)), " "],
         ["0" + "/" + "200", fmt(Finite(0.0)), "*"]]
  {
    VectorsOk();
    VectorResults(fmt);
    ClassTotals(Start(7), [FullRow, GappedRow, ZeroRow], Fifty, 3, 7, fmt, 3);
  }

  lemma MissingRowOk()
    ensures StudentOk(MissingRow, Fifty, 3, 7)
  {
    assert IsNa("NA");
    assert Cap(MissingRow, Fifty, 3, 7) == 4;
  }

  lemma SampleRowsOk()
    ensures var students := [FullRow, MissingRow, ZeroRow];
      RowsReach(students, 3) && forall k :: 0 <= k < 3 ==> StudentOk(students[k], Fifty, 3, 7)
  {
    FullRowTotals();
    MissingRowOk();
    ZeroRowTotals();
  }

  /** A student whose every score is `NA` gets a two-cell row and stays out of
      the class sample size. */
  lemma SampleSize(fmt: Percent -> string)
    ensures var r := ScoreStudents(Start(7), [FullRow, MissingRow, ZeroRow], Fifty, 3, fmt, 3);
      r.Done? && r.value.finalCount == 2 && |r.value.results| == 3 &&
      |r.value.results[0]| == 3 && |r.value.results[1]| == 2 && |r.value.results[2]| == 3
  {
    SampleDone(fmt);
    NotAllNa();
    MiddleMissing([FullRow, MissingRow, ZeroRow], Fifty, 3, 7, fmt);
  }

  lemma SampleDone(fmt: Percent -> string)
    ensures RowsReach([FullRow, MissingRow, ZeroRow], 3)
    ensures ScoreStudents(Start(7), [FullRow, MissingRow, ZeroRow], Fifty, 3, fmt, 3).Done?
  {
    SampleRowsOk();
    ClassDone(Start(7), [FullRow, MissingRow, ZeroRow], Fifty, 3, 7, fmt, 3);
  }

  lemma MiddleMissing(students: Table, norm: seq<string>, sic: nat, w: nat, fmt: Percent -> string)
    requires |students| == 3 && RowsReach(students, sic)
    requires ScoreStudents(Start(w), students, norm, sic, fmt, 3).Done?
    requires !AllScoresNa(students[0], sic) && AllScoresNa(students[1], sic) && !AllScoresNa(students[2], sic)
    ensures var r := ScoreStudents(Start(w), students, norm, sic, fmt, 3);
      r.Done? && r.value.finalCount == 2 && |r.value.results| == 3 &&
      |r.value.results[0]| == 3 && |r.value.results[1]| == 2 && |r.value.results[2]| == 3
  {
    ClassAverage(Start(w), students, norm, sic, fmt, 3);
    ThreeScored(students, sic);
  }

  lemma ThreeScored(students: Table, sic: nat)
    requires |students| == 3 && RowsReach(students, sic)
    ensures Scored(students, sic, 3) ==
      (if AllScoresNa(students[0], sic) then 0 else 1) + (if AllScoresNa(students[1], sic) then 0 else 1) +
      (if AllScoresNa(students[2], sic) then 0 else 1)
  {
    assert Scored(students, sic, 1) == if AllScoresNa(students[0], sic) then 0 else 1;
  }

  // ---------------------------------------------------------------------------
  // Missing scores written `na`: skipped by the inner loop, yet not caught by
  // `all_scores_NA`, which looks for `NA` only.

  /** Every score cell is `NA` or `na`. */
  predicate AllMissing(u: seq<string>, sic: nat)
  {
    forall j :: sic <= j < |u| ==> IsNa(u[j])
  }

  /** With every visited cell missing, nothing is counted. */
  lemma {:induction false} NothingCounted(u: seq<string>, norm: seq<string>, sic: nat, m: nat)
    requires sic + m <= |u| && m <= |norm|
    requires AllMissing(u, sic)
    ensures ScoreSum(u, norm, sic, m) == 0 && NormSum(u, norm, sic, m) == 0
    decreases m
  {
    if m > 0 {
      NothingCounted(u, norm, sic, m - 1);
      MissingCell(u[sic + m - 1], norm[m - 1]);
    }
  }

  lemma AllMissingOk(u: seq<string>, norm: seq<string>, sic: nat, w: nat)
    requires sic <= |u|
    requires AllMissing(u, sic)
    ensures StudentOk(u, norm, sic, w) && StudentScore(u, norm, sic, w) == 0 && StudentNorm(u, norm, sic, w) == 0
  {
    NothingCounted(u, norm, sic, Cap(u, norm, sic, w));
    forall j | 0 <= j < Cap(u, norm, sic, w)
      ensures CellOk(u[sic + j], norm[j])
    {
      MissingCell(u[sic + j], norm[j]);
    }
  }

  /** A student whose scores are all missing but not all written `NA` gets the
      row `0/0`, NaN, and counts towards the class sample with a NaN, which
      then stays in the class average. */
  lemma UnscoredStudent(c0: ClassState, c: ClassState, students: Table, norm: seq<string>, sic: nat, w: nat, fmt: Percent -> string, i: nat)
    requires 0 < i <= |students| && RowsReach(students, sic) && ClassShape(c, w)
    requires ScoreStudents(c0, students, norm, sic, fmt, i - 1) == Done(c)
    requires AllMissing(students[i - 1], sic)
    requires !AllScoresNa(students[i - 1], sic)
    ensures var r := ScoreStudents(c0, students, norm, sic, fmt, i);
      r.Done? && r.value.finalAcc == NaN && r.value.finalCount == Add32(c.finalCount, 1) &&
      r.value.results == c.results + [["0" + "/" + "0", fmt(NaN), " "]]
  {
    var u := students[i - 1];
    AllMissingOk(u, norm, sic, w);
    StudentDone(c0, c, students, norm, sic, w, fmt, i);
    var t := Expected(Tally(0, 0, c.sums, c.counts), u, norm, sic, Cap(u, norm, sic, w));
    assert t.score == 0 && t.norm == 0;
    assert NatToString(0) == "0";
  }

  const LowerNaRow: seq<string> := ["5", "i", "j", "na", "na", "na", "na"]

  /** One student with every score written `na`: the class average is NaN. */
  lemma LowerNaClass(fmt: Percent -> string)
    ensures var r := ScoreStudents(Start(7), [MissingRow, LowerNaRow], Fifty, 3, fmt, 2);
      r.Done? && r.value.results == [["NA", "NA"], ["0" + "/" + "0", fmt(NaN), " "]] &&
      r.value.finalCount == 1 && Mean(r.value.finalAcc, r.value.finalCount) == NaN
  {
    var students := [MissingRow, LowerNaRow];
    MissingRowOk();
    NotAllNa();
    assert !AllScoresNa(LowerNaRow, 3) by { assert LowerNaRow[3] != "NA"; }
    assert RowsReach(students, 3);
    ClassDone(Start(7), students, Fifty, 3, 7, fmt, 1);
    var c := ScoreStudents(Start(7), students, Fifty, 3, fmt, 1).value;
    assert c.results == [["NA", "NA"]] && c.finalCount == 0 by {
      ClassTotals(Start(7), students, Fifty, 3, 7, fmt, 1);
      ClassAverage(Start(7), students, Fifty, 3, fmt, 1);
    }
    UnscoredStudent(Start(7), c, students, Fifty, 3, 7, fmt, 2);
  }
}
