// The report that `main` writes for one class sheet: the optional dropping of
// the first column, the statistics row, the blank separator row `top_blank`,
// and the stacking of header, subheader, body and statistics into one sheet
// under the meta-data line.

module Report {
  import opened Numerals
  import opened Gu
  import opened SheetAlgebra
  import opened Grading

  // ---------------------------------------------------------------------------
  // `drop-first`.

  /** Every row has a first cell to drop. */
  predicate NoEmptyRow(t: Table)
  {
    forall i :: 0 <= i < |t| ==> |t[i]| >= 1
  }

  /** The table with the first cell of every row erased. */
  function Dropped(table: Table): (t: Table)
    requires NoEmptyRow(table)
    ensures |t| == |table|
    ensures forall i :: 0 <= i < |t| ==> table[i] == [table[i][0]] + t[i]
  {
    seq(|table|, i requires 0 <= i < |table| => table[i][1..])
  }

  /** The loop that erases the first cell of every row, in place. The `assert`
      in the source is a precondition here. */
  method DropFirst(table: Table) returns (t: Table)
    requires NoEmptyRow(table)
    ensures t == Dropped(table)
  {
    t := table;
    var i := 0;
    while i < |t|
      invariant 0 <= i <= |t| == |table|
      invariant forall k :: 0 <= k < |t| ==> t[k] == if k < i then table[k][1..] else table[k]
    {
      t := t[i := t[i][1..]];
      i := i + 1;
    }
  }

  // ---------------------------------------------------------------------------
  // The statistics row.

  /** The class statistic of the first `m` tests: the sum of the test's
      scores over its sample size times its norm, the product cut to 32 bits.
      The norm is converted again here, so a norm cell that no counted score
      ever needed can still throw. The conversion `conv` is `StringToUint` in
      `StatsRow`; as a parameter it keeps the lemmas about the loop apart from
      how a number is parsed. */
  function StatCells(sums: seq<nat>, counts: seq<nat>, norm: seq<string>, conv: string -> Result<nat>, fmt: Percent -> string, m: nat): Outcome<seq<string>>
    requires m <= |sums| && m <= |counts| && m <= |norm|
    decreases m
  {
    if m == 0 then Done([])
    else match StatCells(sums, counts, norm, conv, fmt, m - 1)
      case Exit(e) => Exit(e)
      case Done(cs) =>
        match conv(norm[m - 1])
        case Failure(e) => Exit(Thrown(e))
        case Success(nv) => Done(cs + [fmt(Ratio(sums[m - 1], Mul32(counts[m - 1], nv)))])
  }

  /** How many statistics the loop computes: it stops at the end of either
      accumulator or of the norms. */
  function StatCount(c: ClassState, norm: seq<string>): nat
  {
    Min3(|c.sums|, |c.counts|, |norm|)
  }

  /** The statistics row: blanks under the student information, one statistic
      per test, a blank, and the class average of the final percentages. */
  function StatsRow(c: ClassState, norm: seq<string>, sic: nat, fmt: Percent -> string): Outcome<seq<string>>
    requires NonNegative(c.finalAcc)
  {
    match StatCells(c.sums, c.counts, norm, StringToUint, fmt, StatCount(c, norm))
    case Exit(e) => Exit(e)
    case Done(cs) => Done(Fill(sic, " ") + cs + [" ", fmt(Mean(c.finalAcc, c.finalCount))])
  }

  /** Every norm among the first `m` converts. */
  predicate NormsConvert(norm: seq<string>, conv: string -> Result<nat>, m: nat)
    requires m <= |norm|
  {
    forall j :: 0 <= j < m ==> conv(norm[j]).Success?
  }

  /** Norm `j` is the first of the first `m` that does not convert. */
  predicate FirstFailure(norm: seq<string>, conv: string -> Result<nat>, j: nat, m: nat)
    requires m <= |norm|
  {
    j < m && NormsConvert(norm, conv, j) && conv(norm[j]).Failure?
  }

  /** One more statistic, when its norm converts. */
  lemma StatCellsNext(sums: seq<nat>, counts: seq<nat>, norm: seq<string>, conv: string -> Result<nat>, fmt: Percent -> string, m: nat, cs: seq<string>, nv: nat)
    requires m < |sums| && m < |counts| && m < |norm|
    requires StatCells(sums, counts, norm, conv, fmt, m) == Done(cs) && conv(norm[m]) == Success(nv)
    ensures StatCells(sums, counts, norm, conv, fmt, m + 1) == Done(cs + [fmt(Ratio(sums[m], Mul32(counts[m], nv)))])
  {
  }

  /** A norm that does not convert throws. */
  lemma StatCellsThrow(sums: seq<nat>, counts: seq<nat>, norm: seq<string>, conv: string -> Result<nat>, fmt: Percent -> string, m: nat, cs: seq<string>)
    requires m < |sums| && m < |counts| && m < |norm|
    requires StatCells(sums, counts, norm, conv, fmt, m) == Done(cs) && conv(norm[m]).Failure?
    ensures StatCells(sums, counts, norm, conv, fmt, m + 1) == Exit(Thrown(conv(norm[m]).error))
  {
  }

  /** The statistics are computed exactly when every norm they read converts;
      then statistic `j` is test `j`'s sum over its sample size times its
      norm. */
  lemma {:induction false} StatCellsDone(sums: seq<nat>, counts: seq<nat>, norm: seq<string>, conv: string -> Result<nat>, fmt: Percent -> string, m: nat)
    requires m <= |sums| && m <= |counts| && m <= |norm|
    ensures var r := StatCells(sums, counts, norm, conv, fmt, m);
      (r.Done? <==> NormsConvert(norm, conv, m)) &&
      (r.Done? ==> |r.value| == m) &&
      (r.Done? ==> forall j :: 0 <= j < m ==> r.value[j] == fmt(Ratio(sums[j], Mul32(counts[j], conv(norm[j]).value))))
    decreases m
  {
    if m > 0 {
      StatCellsDone(sums, counts, norm, conv, fmt, m - 1);
      var p := StatCells(sums, counts, norm, conv, fmt, m - 1);
      if p.Exit? {
        StatCellsStop(sums, counts, norm, conv, fmt, m - 1, m);
        assert !NormsConvert(norm, conv, m - 1);
      } else {
        var nv := conv(norm[m - 1]);
        if nv.Failure? {
          StatCellsThrow(sums, counts, norm, conv, fmt, m - 1, p.value);
        } else {
          StatCellsNext(sums, counts, norm, conv, fmt, m - 1, p.value, nv.value);
        }
      }
    }
  }

  /** Otherwise the first norm that fails to convert gives the exception. */
  lemma {:induction false} StatCellsFail(sums: seq<nat>, counts: seq<nat>, norm: seq<string>, conv: string -> Result<nat>, fmt: Percent -> string, m: nat)
    requires m <= |sums| && m <= |counts| && m <= |norm|
    ensures var r := StatCells(sums, counts, norm, conv, fmt, m);
      r.Exit? ==> exists j: nat :: FirstFailure(norm, conv, j, m) && r.reason == Thrown(conv(norm[j]).error)
    decreases m
  {
    if m > 0 {
      StatCellsFail(sums, counts, norm, conv, fmt, m - 1);
      var p := StatCells(sums, counts, norm, conv, fmt, m - 1);
      if p.Exit? {
        StatCellsStop(sums, counts, norm, conv, fmt, m - 1, m);
        var j: nat :| FirstFailure(norm, conv, j, m - 1) && p.reason == Thrown(conv(norm[j]).error);
        assert FirstFailure(norm, conv, j, m);
      } else {
        StatCellsDone(sums, counts, norm, conv, fmt, m - 1);
        var nv := conv(norm[m - 1]);
        if nv.Failure? {
          StatCellsThrow(sums, counts, norm, conv, fmt, m - 1, p.value);
          assert FirstFailure(norm, conv, m - 1, m);
        } else {
          StatCellsNext(sums, counts, norm, conv, fmt, m - 1, p.value, nv.value);
        }
      }
    }
  }

  /** Once a statistic throws, the loop throws. */
  lemma {:induction false} StatCellsStop(sums: seq<nat>, counts: seq<nat>, norm: seq<string>, conv: string -> Result<nat>, fmt: Percent -> string, k: nat, m: nat)
    requires k <= m <= |sums| && m <= |counts| && m <= |norm|
    requires StatCells(sums, counts, norm, conv, fmt, k).Exit?
    ensures StatCells(sums, counts, norm, conv, fmt, m) == StatCells(sums, counts, norm, conv, fmt, k)
    decreases m - k
  {
    if k < m {
      StatCellsStop(sums, counts, norm, conv, fmt, k, m - 1);
    }
  }

  /** The loop over the tests that computes one statistic per test, for a
      conversion `conv` of the norm cells. */
  method StatsLoop(sums: seq<nat>, counts: seq<nat>, norm: seq<string>, conv: string -> Result<nat>, fmt: Percent -> string, lead: seq<string>)
    returns (r: Outcome<seq<string>>)
    ensures match StatCells(sums, counts, norm, conv, fmt, Min3(|sums|, |counts|, |norm|))
      case Exit(e) => r == Exit(e)
      case Done(cs) => r == Done(lead + cs)
  {
    var stats := lead;
    ghost var cs: seq<string> := [];
    var j := 0;
    while j < |sums| && j < |counts| && j < |norm|
      invariant 0 <= j <= Min3(|sums|, |counts|, |norm|)
      invariant StatCells(sums, counts, norm, conv, fmt, j) == Done(cs) && stats == lead + cs
    {
      var nv := conv(norm[j]);
      if nv.Failure? {
        StatCellsThrow(sums, counts, norm, conv, fmt, j, cs);
        StatCellsStop(sums, counts, norm, conv, fmt, j + 1, Min3(|sums|, |counts|, |norm|));
        return Exit(Thrown(nv.error));
      }
      StatCellsNext(sums, counts, norm, conv, fmt, j, cs, nv.value);
      var avg := Ratio(sums[j], Mul32(counts[j], nv.value));
      stats := stats + [fmt(avg)];
      cs := cs + [fmt(avg)];
      j := j + 1;
    }
    return Done(stats);
  }

  /** The statistics loop, then the blank and the class average. */
  method MakeStats(c: ClassState, norm: seq<string>, sic: nat, fmt: Percent -> string) returns (r: Outcome<seq<string>>)
    requires NonNegative(c.finalAcc)
    ensures r == StatsRow(c, norm, sic, fmt)
  {
    r := StatsLoop(c.sums, c.counts, norm, StringToUint, fmt, Fill(sic, " "));
    if r.Done? {
      var final := Mean(c.finalAcc, c.finalCount);
      r := Done(r.value + [" ", fmt(final)]);
    }
  }

  // ---------------------------------------------------------------------------
  // `top_blank`.

  /** `Sheet(1, 1, " ", right) + Sheet(1, sic - 1, " ", left) +
      Sheet(1, cols - sic, " ", right)`. */
  function TopBlank(sic: nat, cols: nat): Layout
    requires 1 <= sic <= cols
  {
    var a := FilledLayout(1, 1, " ", Right);
    var b := FilledLayout(1, sic - 1, " ", Left);
    OperatorsWellFormed(a, b);
    PlusLayout(PlusLayout(a, b), FilledLayout(1, cols - sic, " ", Right))
  }

  /** A one-row grid of blanks has width 1 in every column. */
  lemma BlankWidths(c: nat)
    ensures Widths(Grid(1, c, " "), c) == Fill(c, 1)
  {
    forall k | 0 <= k < c
      ensures ColumnWidth(Grid(1, c, " "), k) == 1
    {
      assert Grid(1, c, " ")[..0] == [];
    }
  }

  /** `top_blank` is one row of `cols` blanks of width 1, aligned right, then
      left for the other student-information columns, then right. */
  lemma TopBlankShape(sic: nat, cols: nat)
    requires 1 <= sic <= cols
    ensures var x := TopBlank(sic, cols);
      WellFormed(x) && x.data == [Fill(cols, " ")] && x.width == Fill(cols, 1) &&
      x.alignment == [Right] + Fill(sic - 1, Left) + Fill(cols - sic, Right)
  {
    BlankWidths(1);
    BlankWidths(sic - 1);
    BlankWidths(cols - sic);
    var a := FilledLayout(1, 1, " ", Right);
    var b := FilledLayout(1, sic - 1, " ", Left);
    var c := FilledLayout(1, cols - sic, " ", Right);
    OperatorsWellFormed(a, b);
    var ab := PlusLayout(a, b);
    assert ab == Layout([Right] + Fill(sic - 1, Left), Fill(sic, 1), [Fill(sic, " ")]) by {
      if sic > 1 {
        PlusOneRow(a, b);
      }
      FillSplit(1, sic - 1, 1);
      FillSplit(1, sic - 1, " ");
    }
    if cols > sic {
      PlusOneRow(ab, c);
      FillSplit(sic, cols - sic, 1);
      FillSplit(sic, cols - sic, " ");
    }
  }

  lemma FillSplit<T>(m: nat, n: nat, x: T)
    ensures Fill(m, x) + Fill(n, x) == Fill(m + n, x)
  {
  }

  /** `+` of two one-row sheets, neither empty. */
  lemma PlusOneRow(x: Layout, y: Layout)
    requires WellFormed(x) && WellFormed(y) && |x.data| == 1 && |y.data| == 1
    requires |x.data[0]| > 0 && |y.data[0]| > 0
    ensures PlusLayout(x, y) == Layout(x.alignment + y.alignment, x.width + y.width, [x.data[0] + y.data[0]])
  {
  }

  /** The loop-free construction of `top_blank` from three sheets. */
  method MakeTopBlank(sic: nat, cols: nat) returns (sh: Sheet)
    requires 1 <= sic <= cols
    ensures fresh(sh) && sh.Value() == TopBlank(sic, cols)
  {
    var a := new Sheet.Filled(1, 1, " ", Right);
    var b := new Sheet.Filled(1, sic - 1, " ", Left);
    var c := new Sheet.Filled(1, cols - sic, " ", Right);
    OperatorsWellFormed(a.Value(), b.Value());
    var ab := Sheet.Plus(a, b);
    sh := Sheet.Plus(ab, c);
  }

  // ---------------------------------------------------------------------------
  // The report sheet.

  /** `*` of a sheet under a non-empty well-formed one is well-formed, not
      empty, and no narrower. */
  lemma Widens(x: Layout, y: Layout)
    requires WellFormed(x) && WellFormed(y) && !EmptyShape(x.data)
    ensures WellFormed(TimesLayout(x, y)) && !EmptyShape(TimesLayout(x, y).data)
    ensures |TimesLayout(x, y).data[0]| >= |x.data[0]|
  {
    OperatorsWellFormed(x, y);
  }

  /** `top_blank * Sheet(header) * Sheet(subheader) * top_blank * body *
      top_blank * Sheet(stats)`, `*` grouping to the left. The body need not
      be well-formed: its rows may have been sorted. */
  function ReportLayout(top: Layout, header: seq<string>, sub: seq<string>, body: Layout, stats: seq<string>): Layout
    requires WellFormed(top) && !EmptyShape(top.data)
    requires |body.data| >= 1 && |body.data[0]| <= |top.data[0]|
  {
    var h := RowLayout(header, Left);
    var s := RowLayout(sub, Left);
    Widens(top, h);
    var x1 := TimesLayout(top, h);
    Widens(x1, s);
    var x2 := TimesLayout(x1, s);
    Widens(x2, top);
    var x3 := TimesLayout(x2, top);
    TimesKeepsAlignment(x3, body);
    var x4 := TimesLayout(x3, body);
    Widens(x4, top);
    var x5 := TimesLayout(x4, top);
    TimesLayout(x5, RowLayout(stats, Left))
  }

  /** The rows a sheet adds when stacked under one whose first row has `c`
      cells: none when it is empty, otherwise every row padded by the
      difference of the first rows. */
  function Under(t: Table, c: nat): Table
    requires |t| >= 1 && |t[0]| <= c
  {
    if EmptyShape(t) then [] else PadRight(t, c - |t[0]|)
  }

  /** A sheet no wider than the upper one adds its rows, padded, below; the
      upper sheet's alignments stay and the widths span its columns. */
  lemma StackNarrower(x: Layout, y: Layout)
    requires WellFormed(x) && !EmptyShape(x.data) && |y.data| >= 1 && |y.data[0]| <= |x.data[0]|
    ensures var z := TimesLayout(x, y);
      WellFormed(z) && z.data == x.data + Under(y.data, |x.data[0]|) && z.alignment == x.alignment &&
      (!EmptyShape(y.data) ==> z.width == Widths(z.data, |x.data[0]|))
  {
    TimesKeepsAlignment(x, y);
    if EmptyShape(y.data) {
      assert x.data + [] == x.data;
    } else if |y.data[0]| == |x.data[0]| {
      assert PadRight(y.data, 0) == y.data by {
        assert forall i :: 0 <= i < |y.data| ==> y.data[i] + Fill(0, "") == y.data[i];
      }
    }
  }

  /** When the header, subheader and statistics rows are no wider than
      `top_blank`, the report has `top_blank`'s alignments and columns, and its
      rows are `top_blank`, the header, the subheader, `top_blank`, the body,
      `top_blank` and the statistics, each padded to the first row. */
  lemma ReportRows(top: Layout, header: seq<string>, sub: seq<string>, body: Layout, stats: seq<string>)
    requires WellFormed(top) && !EmptyShape(top.data) && |top.data| == 1
    requires |body.data| >= 1 && |body.data[0]| <= |top.data[0]|
    requires |header| <= |top.data[0]| && |sub| <= |top.data[0]| && |stats| <= |top.data[0]|
    ensures var r := ReportLayout(top, header, sub, body, stats);
      var c := |top.data[0]|;
      WellFormed(r) && r.alignment == top.alignment && |r.data[0]| == c &&
      r.data == top.data + Under([header], c) + Under([sub], c) + top.data + Under(body.data, c) + top.data + Under([stats], c)
  {
    var c := |top.data[0]|;
    var h := RowLayout(header, Left);
    var s := RowLayout(sub, Left);
    StackNarrower(top, h);
    var x1 := TimesLayout(top, h);
    StackNarrower(x1, s);
    var x2 := TimesLayout(x1, s);
    StackNarrower(x2, top);
    var x3 := TimesLayout(x2, top);
    StackNarrower(x3, body);
    var x4 := TimesLayout(x3, body);
    StackNarrower(x4, top);
    var x5 := TimesLayout(x4, top);
    StackNarrower(x5, RowLayout(stats, Left));
  }

  /** Only the first `n` cells of a row are read. */
  lemma {:induction false} RenderCellsAgree(row: seq<string>, other: seq<string>, w: seq<nat>, a: seq<Format>, n: nat)
    requires n <= |row| && n <= |other| && n <= |w| && n <= |a|
    requires forall k :: 0 <= k < n ==> row[k] == other[k]
    ensures RenderCells(row, w, a, n) == RenderCells(other, w, a, n)
  {
    if n > 0 {
      RenderCellsAgree(row, other, w, a, n - 1);
    }
  }

  /** Row `4 + k` of the report is body row `k`, padded to the first row. */
  lemma ReportBodyRow(top: Layout, header: seq<string>, sub: seq<string>, body: Layout, stats: seq<string>, k: nat)
    requires WellFormed(top) && !EmptyShape(top.data) && |top.data| == 1
    requires |body.data| >= 1 && |body.data[0]| <= |top.data[0]|
    requires 1 <= |header| <= |top.data[0]| && 1 <= |sub| <= |top.data[0]| && |stats| <= |top.data[0]|
    requires k < |body.data| && !EmptyShape(body.data)
    ensures var r := ReportLayout(top, header, sub, body, stats);
      WellFormed(r) && |r.width| == |r.alignment| == |top.data[0]| &&
      4 + k < |r.data| && r.data[4 + k] == PadRight(body.data, |top.data[0]| - |body.data[0]|)[k]
  {
    var c := |top.data[0]|;
    ReportRows(top, header, sub, body, stats);
    var pre := top.data + Under([header], c) + Under([sub], c) + top.data;
    assert |pre| == 4;
  }

  /** A body row longer than the body's first row loses its last cells in the
      report: the report has as many widths and alignments as the first row
      has cells. With the rows unsorted and an all-`NA` first student, every
      other student's `*` or blank marker is dropped from the output. */
  lemma LongRowCut(top: Layout, header: seq<string>, sub: seq<string>, body: Layout, stats: seq<string>, k: nat)
    requires WellFormed(top) && |top.data| == 1 && |body.data| >= 1 && |body.data[0]| == |top.data[0]| >= 1
    requires 1 <= |header| <= |top.data[0]| && 1 <= |sub| <= |top.data[0]| && |stats| <= |top.data[0]|
    requires k < |body.data| && |body.data[k]| > |body.data[0]|
    ensures var r := ReportLayout(top, header, sub, body, stats);
      var c := |body.data[0]|;
      4 + k < |r.data| && r.data[4 + k] == body.data[k] &&
      RenderRow(r.data[4 + k], r.width, r.alignment) == RenderRow(body.data[k][..c], r.width, r.alignment)
  {
    var r := ReportLayout(top, header, sub, body, stats);
    var c := |body.data[0]|;
    ReportBodyRow(top, header, sub, body, stats, k);
    assert PadRight(body.data, 0)[k] == body.data[k] + Fill(0, "");
    RenderCellsAgree(body.data[k], body.data[k][..c], r.width, r.alignment, c);
  }

  // ---------------------------------------------------------------------------
  // One class sheet, from the parsed table to the report text.

  /** The options `sort-ord` and `sort-final`: `sort-ord` is checked first. */
  datatype Order = Unsorted | ByOrdinal | ByFinal

  /** The table `main` works on, after the optional `drop-first`. */
  function Prepared(table: Table, dropFirst: bool): Table
    requires dropFirst ==> NoEmptyRow(table)
  {
    if dropFirst then Dropped(table) else table
  }

  /** What `main` relies on without checking: a first row (`front`), a
      first column for `drop-first` to erase, and at least one
      student-information column (`student_info_columns - 1` is unsigned).
      A missing norm row is checked (`at` throws); once the norm row is
      there, `main` also relies on student information in it and in every
      student row (the iterators `begin() + student_info_columns`) and on
      at least one student row (`Sheet(student_record)` reads its
      `front`). */
  predicate GradePre(table: Table, g: Geometry, dropFirst: bool)
  {
    |table| >= 1 && (dropFirst ==> NoEmptyRow(table)) && g.studentInfoColumns >= 1 &&
    var t := Prepared(table, dropFirst);
    (g.normRowIndex < |t| ==>
      g.studentInfoColumns <= |t[g.normRowIndex]| &&
      g.numHeaderRows < |t| && RowsReach(t[g.numHeaderRows..], g.studentInfoColumns))
  }

  /** What the scoring leaves for the report: the first row, the norms, the
      student rows and the class state. */
  datatype Scoring = Scoring(front: seq<string>, norm: seq<string>, students: Table, c: ClassState)

  /** The norm row, then the fold over the students. */
  function Score(table: Table, g: Geometry, dropFirst: bool, fmt: Percent -> string): Outcome<Scoring>
    requires GradePre(table, g, dropFirst)
  {
    var t := Prepared(table, dropFirst);
    var sic := g.studentInfoColumns;
    match NormRow(t, g)
    case Exit(e) => Exit(e)
    case Done(norm) =>
      var students := t[g.numHeaderRows..];
      match ScoreStudents(Start(|t[0]|), students, norm, sic, fmt, |students|)
      case Exit(e) => Exit(e)
      case Done(c) => Done(Scoring(t[0], norm, students, c))
  }

  /** A sheet without its norm row stops `main` with `out_of_range`
      before any student is scored. */
  lemma NormRowMissing(table: Table, g: Geometry, dropFirst: bool, fmt: Percent -> string)
    requires GradePre(table, g, dropFirst) && g.normRowIndex >= |Prepared(table, dropFirst)|
    ensures Score(table, g, dropFirst, fmt) == Exit(Thrown(OutOfRange))
  {
  }

  /** With the program's geometry (`Geometry g(3, 2, 1)`), a sheet holding
      only its header row is accepted and stops with `out_of_range`. */
  lemma HeaderOnlySheet(header: seq<string>, fmt: Percent -> string)
    ensures GradePre([header], Geometry(3, 2, 1), false)
    ensures Score([header], Geometry(3, 2, 1), false, fmt) == Exit(Thrown(OutOfRange))
  {
    NormRowMissing([header], Geometry(3, 2, 1), false, fmt);
  }

  /** What a scoring that ends normally satisfies: one result row of two or
      three cells per student, and a class accumulator that is not
      negative. */
  predicate ScoringOk(sc: Scoring, sic: nat)
  {
    |sc.students| >= 1 && |sc.c.results| == |sc.students| && RowsReach(sc.students, sic) &&
    (forall k :: 0 <= k < |sc.c.results| ==> |sc.c.results[k]| == 2 || |sc.c.results[k]| == 3) &&
    NonNegative(sc.c.finalAcc)
  }

  lemma ScoreOk(table: Table, g: Geometry, dropFirst: bool, fmt: Percent -> string)
    requires GradePre(table, g, dropFirst)
    ensures Score(table, g, dropFirst, fmt).Done? ==> ScoringOk(Score(table, g, dropFirst, fmt).value, g.studentInfoColumns)
  {
    var t := Prepared(table, dropFirst);
    var n := NormRow(t, g);
    if n.Done? {
      var students := t[g.numHeaderRows..];
      var sic := g.studentInfoColumns;
      if ScoreStudents(Start(|t[0]|), students, n.value, sic, fmt, |students|).Done? {
        ClassAverage(Start(|t[0]|), students, n.value, sic, fmt, |students|);
      }
    }
  }

  /** `Sheet(student_record) + Sheet(student_result)`. */
  function Body(sc: Scoring, sic: nat): Layout
    requires ScoringOk(sc, sic)
  {
    PlusLayout(TableLayout(sc.students, Left), TableLayout(sc.c.results, Left))
  }

  /** Body row `k` is student row `k` followed by that student's result, so
      every body row has at least `sic + 2` cells. */
  lemma BodyRows(sc: Scoring, sic: nat)
    requires ScoringOk(sc, sic) && sic >= 1
    ensures var b := Body(sc, sic);
      WellFormed(b) && b.data == Beside(sc.students, sc.c.results) &&
      forall k :: 0 <= k < |b.data| ==> |b.data[k]| >= sic + 2
  {
    var b := Body(sc, sic);
    assert |sc.students[0]| >= sic;
    assert |sc.c.results[0]| >= 2;
    OperatorsWellFormed(TableLayout(sc.students, Left), TableLayout(sc.c.results, Left));
    forall k | 0 <= k < |b.data|
      ensures |b.data[k]| >= sic + 2
    {
      assert |sc.students[k]| >= sic;
      assert |sc.c.results[k]| >= 2;
    }
  }

  /** The column `main` sorts by: the ordinal, or `n_cols() - 2`, the
      percentage column of the first body row. */
  function SortColumn(order: Order, body: Table): nat
    requires |body| >= 1 && |body[0]| >= 2
  {
    if order == ByFinal then |body[0]| - 2 else 0
  }

  function SortKind(order: Order): SortType
  {
    if order == ByFinal then NumericDesc else NumericAsc
  }

  /** The sort throws `out_of_range` from `at(col)` when two rows are compared
      and some row stops short of the column. */
  predicate SortThrows(order: Order, body: Table)
    requires |body| >= 1 && |body[0]| >= 2
  {
    order != Unsorted && |body| >= 2 && !Reaches(body, SortColumn(order, body))
  }

  /** Sorting by the ordinal never throws: every body row has its
      student-information cells. Sorting by the percentage throws exactly when
      some row is shorter than the first one's percentage column. */
  lemma SortThrowsWhen(sc: Scoring, sic: nat)
    requires ScoringOk(sc, sic) && sic >= 1
    ensures var b := Body(sc, sic).data;
      |b| >= 1 && |b[0]| >= 2 &&
      !SortThrows(ByOrdinal, b) && !SortThrows(Unsorted, b) &&
      (SortThrows(ByFinal, b) <==> |b| >= 2 && exists k :: 0 <= k < |b| && |b[k]| <= |b[0]| - 2)
  {
    BodyRows(sc, sic);
  }

  /** The rows after the optional sort: as they were, or a reordering of them
      in which the sort column is in order. */
  predicate SortedAs(order: Order, body: Table, sorted: Table, key: string -> real)
    requires |body| >= 1 && |body[0]| >= 2
  {
    if order == Unsorted then sorted == body
    else
      multiset(sorted) == multiset(body) &&
      (|body| >= 2 ==> Reaches(sorted, SortColumn(order, body)) && SortedBy(sorted, SortColumn(order, body), SortKind(order), key))
  }

  /** A reordering of rows that all have at least `n` cells has a first row
      with at least `n` cells. */
  lemma PermutedFirstRow(body: Table, sorted: Table, n: nat)
    requires |body| >= 1 && multiset(sorted) == multiset(body)
    requires forall k :: 0 <= k < |body| ==> |body[k]| >= n
    ensures |sorted| == |body| && |sorted[0]| >= n
  {
    assert |sorted| == |multiset(sorted)| == |multiset(body)| == |body|;
    assert sorted[0] in multiset(body);
  }

  /** The report text after the sort: the statistics row, the meta-data line,
      and the stacked sheet written out, `top_blank` as wide as the first
      sorted row. */
  function Finish(sc: Scoring, sic: nat, body: Layout, sorted: Table, stem: string, fmt: Percent -> string): Outcome<string>
    requires NonNegative(sc.c.finalAcc) && |sorted| >= 1 && 1 <= sic <= |sorted[0]|
  {
    match StatsRow(sc.c, sc.norm, sic, fmt)
    case Exit(e) => Exit(e)
    case Done(stats) =>
      match MetaDataString(stem)
      case Failure(e) => Exit(Thrown(e))
      case Success(meta) =>
        TopBlankShape(sic, |sorted[0]|);
        var x := ReportLayout(TopBlank(sic, |sorted[0]|), HeaderRow(sc.front), SubheaderRow(sc.norm, sic),
          Layout(body.alignment, body.width, sorted), stats);
        Done(meta + "\n" + RenderRows(x.data, x.width, x.alignment) + "\n")
  }

  /** What follows a scoring that ends normally: the sort, which can throw,
      then the rest of the report. `sorted` is the order the sort left the
      body rows in. */
  ghost predicate Reported(sc: Scoring, sic: nat, order: Order, stem: string, fmt: Percent -> string,
                           key: string -> real, r: Outcome<string>, sorted: Table)
    requires ScoringOk(sc, sic) && sic >= 1
  {
    BodyRows(sc, sic);
    var body := Body(sc, sic);
    if SortThrows(order, body.data) then r == Exit(Thrown(OutOfRange))
    else
      SortedAs(order, body.data, sorted, key) && |sorted| >= 1 && sic <= |sorted[0]| &&
      r == Finish(sc, sic, body, sorted, stem, fmt)
  }

  /** The report for one class sheet, in the order `main` can fail: the norm
      row, a score cell, the sort, a norm in the statistics, the year in the
      file name. */
  ghost predicate Graded(table: Table, g: Geometry, dropFirst: bool, order: Order, stem: string,
                         fmt: Percent -> string, key: string -> real, r: Outcome<string>, sorted: Table)
    requires GradePre(table, g, dropFirst)
  {
    ScoreOk(table, g, dropFirst, fmt);
    match Score(table, g, dropFirst, fmt)
    case Exit(e) => r == Exit(e)
    case Done(sc) => Reported(sc, g.studentInfoColumns, order, stem, fmt, key, r, sorted)
  }

  /** The body of the loop over the class sheets in `main`, for one sheet:
      `stem` is the file name without its extension, `fmt` stands for
      `double_to_string` and `key` for `atof`. */
  method Grade(table: Table, g: Geometry, dropFirst: bool, order: Order, stem: string,
               fmt: Percent -> string, key: string -> real) returns (r: Outcome<string>, ghost sorted: Table)
    requires GradePre(table, g, dropFirst)
    ensures Graded(table, g, dropFirst, order, stem, fmt, key, r, sorted)
    ensures g.normRowIndex >= |Prepared(table, dropFirst)| ==> r == Exit(Thrown(OutOfRange))
  {
    var sic := g.studentInfoColumns;
    var t := table;
    if dropFirst {
      t := DropFirst(table);
    }
    var norm := NormRow(t, g);
    if norm.Exit? {
      return Exit(norm.reason), [];
    }
    var students := t[g.numHeaderRows..];
    var scored := ScoreClass(students, norm.value, sic, |t[0]|, fmt);
    if scored.Exit? {
      return Exit(scored.reason), [];
    }
    var sc := Scoring(t[0], norm.value, students, scored.value);
    ScoreOk(table, g, dropFirst, fmt);
    assert Score(table, g, dropFirst, fmt) == Done(sc);
    r, sorted := Publish(sc, sic, order, stem, fmt, key);
  }

  /** From the header to the report text, once the class is scored. */
  method Publish(sc: Scoring, sic: nat, order: Order, stem: string, fmt: Percent -> string, key: string -> real)
    returns (r: Outcome<string>, ghost sorted: Table)
    requires ScoringOk(sc, sic) && sic >= 1
    ensures Reported(sc, sic, order, stem, fmt, key, r, sorted)
  {
    var header := MakeHeader(sc.front);
    var subheader := MakeSubheader(sc.norm, sic);
    BodyRows(sc, sic);
    var body := MakeBody(sc, sic);
    ghost var unsorted := body.Value();
    if order != Unsorted {
      var col := if order == ByFinal then body.NCols() - 2 else 0;
      if |body.data| >= 2 && !Reaches(body.data, col) {
        return Exit(Thrown(OutOfRange)), [];
      }
      body.SortByColumn(col, SortKind(order), key);
    }
    sorted := body.data;
    PermutedFirstRow(unsorted.data, sorted, sic + 2);
    r := Conclude(sc, sic, header, subheader, body, stem, fmt);
  }

  /** `Sheet(student_record) + Sheet(student_result)`. */
  method MakeBody(sc: Scoring, sic: nat) returns (body: Sheet)
    requires ScoringOk(sc, sic)
    ensures fresh(body) && body.Value() == Body(sc, sic)
  {
    var records := new Sheet.FromTable(sc.students, Left);
    var results := new Sheet.FromTable(sc.c.results, Left);
    body := Sheet.Plus(records, results);
  }

  /** `top_blank`, the statistics row, the meta-data line and the stacked
      sheet, after the sort. */
  method Conclude(sc: Scoring, sic: nat, header: seq<string>, subheader: seq<string>, body: Sheet, stem: string, fmt: Percent -> string)
    returns (r: Outcome<string>)
    requires NonNegative(sc.c.finalAcc) && |body.data| >= 1 && 1 <= sic <= |body.data[0]|
    requires header == HeaderRow(sc.front) && subheader == SubheaderRow(sc.norm, sic)
    ensures r == Finish(sc, sic, body.Value(), body.data, stem, fmt)
  {
    var top := MakeTopBlank(sic, body.NCols());
    TopBlankShape(sic, body.NCols());
    var stats := MakeStats(sc.c, sc.norm, sic, fmt);
    if stats.Exit? {
      return Exit(stats.reason);
    }
    var meta := MetaDataString(stem);
    if meta.Failure? {
      return Exit(Thrown(meta.error));
    }
    var text := Stack(top, header, subheader, body, stats.value);
    r := Done(meta.value + "\n" + text + "\n");
  }

  /** `(top * Sheet(header) * Sheet(subheader) * top * body * top *
      Sheet(stats)).to_string()`. */
  method Stack(top: Sheet, header: seq<string>, sub: seq<string>, body: Sheet, stats: seq<string>) returns (text: string)
    requires WellFormed(top.Value()) && !EmptyShape(top.data)
    requires |body.data| >= 1 && |body.data[0]| <= |top.data[0]|
    ensures var x := ReportLayout(top.Value(), header, sub, body.Value(), stats);
      text == RenderRows(x.data, x.width, x.alignment)
  {
    var h := new Sheet.FromRow(header, Left);
    var s := new Sheet.FromRow(sub, Left);
    var st := new Sheet.FromRow(stats, Left);
    Widens(top.Value(), h.Value());
    var x1 := Sheet.Times(top, h);
    Widens(x1.Value(), s.Value());
    var x2 := Sheet.Times(x1, s);
    Widens(x2.Value(), top.Value());
    var x3 := Sheet.Times(x2, top);
    TimesKeepsAlignment(x3.Value(), body.Value());
    var x4 := Sheet.Times(x3, body);
    Widens(x4.Value(), top.Value());
    var x5 := Sheet.Times(x4, top);
    var x6 := Sheet.Times(x5, st);
    text := x6.ToString();
  }
}
