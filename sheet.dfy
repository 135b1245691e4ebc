// A model of the sheet algebra of the grading tool: a grid of text cells with
// a width and an alignment per column, glued side by side (`+`) and stacked
// (`*`), rendered as padded text, and sorted by a column.

module SheetAlgebra {

  /** The two column alignments, `text_left` and `text_right`. */
  datatype Format = Left | Right

  /** The three orders `sort_by_column` knows. */
  datatype SortType = Text | NumericAsc | NumericDesc

  type Table = seq<seq<string>>

  function Max(a: nat, b: nat): nat { if a < b then b else a }

  /** `n` copies of `x`. */
  function Fill<T>(n: nat, x: T): (r: seq<T>)
    ensures |r| == n && forall k :: 0 <= k < n ==> r[k] == x
  {
    seq(n, _ => x)
  }

  /** Every row as long as the first. */
  predicate Rectangular(t: Table)
  {
    forall r :: 0 <= r < |t| ==> |t[r]| == |t[0]|
  }

  // ---------------------------------------------------------------------------
  // Column widths.

  /** The length of the longest cell in column `j`, over the rows that reach
      that column (0 when none does). */
  function ColumnWidth(t: Table, j: nat): nat
    decreases |t|
  {
    if t == [] then 0
    else Max(ColumnWidth(t[..|t| - 1], j), if j < |t[|t| - 1]| then |t[|t| - 1][j]| else 0)
  }

  /** What `compute_widths` leaves in a width row `w` that it widens over the
      rows of `t`: each entry raised to its column's longest cell. */
  function Widened(w: seq<nat>, t: Table): seq<nat>
  {
    seq(|w|, k requires 0 <= k < |w| => Max(w[k], ColumnWidth(t, k)))
  }

  /** The exact widths of the first `n` columns. */
  function Widths(t: Table, n: nat): seq<nat>
  {
    seq(n, k requires 0 <= k < n => ColumnWidth(t, k))
  }

  /** `ColumnWidth` is the longest cell of the column: no cell is longer, and
      some cell has exactly that length unless it is 0. */
  lemma {:induction false} ColumnWidthIsLongest(t: Table, j: nat)
    ensures forall r :: 0 <= r < |t| && j < |t[r]| ==> |t[r][j]| <= ColumnWidth(t, j)
    ensures ColumnWidth(t, j) == 0 || exists r :: 0 <= r < |t| && j < |t[r]| && |t[r][j]| == ColumnWidth(t, j)
    decreases |t|
  {
    if t != [] {
      var p := t[..|t| - 1];
      ColumnWidthIsLongest(p, j);
      assert forall r :: 0 <= r < |p| ==> p[r] == t[r];
      if ColumnWidth(t, j) != 0 && ColumnWidth(t, j) == ColumnWidth(p, j) {
        var r :| 0 <= r < |p| && j < |p[r]| && |p[r][j]| == ColumnWidth(p, j);
        assert t[r] == p[r];
      }
    }
  }

  /** A column whose every cell is bounded by another column's width is no wider. */
  lemma ColumnWidthAtMost(t: Table, j: nat, m: nat)
    requires forall r :: 0 <= r < |t| && j < |t[r]| ==> |t[r][j]| <= m
    ensures ColumnWidth(t, j) <= m
  {
    ColumnWidthIsLongest(t, j);
  }

  lemma ColumnWidthAppend(t: Table, row: seq<string>, j: nat)
    ensures ColumnWidth(t + [row], j) == Max(ColumnWidth(t, j), if j < |row| then |row[j]| else 0)
  {
    assert (t + [row])[..|t|] == t;
  }

  /** Widening a row of zeros gives the exact widths. */
  lemma WidenedZeros(t: Table, n: nat)
    ensures Widened(Fill(n, 0), t) == Widths(t, n)
  {
  }

  // ---------------------------------------------------------------------------
  // The layout a sheet holds, and the helpers that pad and glue grids.

  /** The three members of a sheet, as a value. */
  datatype Layout = Layout(alignment: seq<Format>, width: seq<nat>, data: Table)

  /** What every sheet built by the constructors and the operators satisfies:
      at least one row, and one width and one alignment per cell of the first row. */
  predicate WellFormed(x: Layout)
  {
    |x.data| >= 1 && |x.alignment| == |x.data[0]| && |x.width| == |x.data[0]|
  }

  /** The default sheet: one row of no cells. */
  const EmptyLayout := Layout([], [], [[]])

  /** What the constructors build: one alignment for every column of the first
      row, and each width the longest cell of its column. */
  function TableLayout(t: Table, f: Format): (x: Layout)
    requires |t| >= 1
    ensures WellFormed(x) && x.data == t
  {
    Layout(Fill(|t[0]|, f), Widths(t, |t[0]|), t)
  }

  function RowLayout(row: seq<string>, f: Format): (x: Layout)
    ensures WellFormed(x) && x.data == [row]
  {
    TableLayout([row], f)
  }

  function FilledLayout(r: nat, c: nat, s: string, f: Format): (x: Layout)
    ensures r >= 1 ==> WellFormed(x) && x == TableLayout(Grid(r, c, s), f)
  {
    Layout(Fill(c, f), Widths(Grid(r, c, s), c), Grid(r, c, s))
  }

  /** `is_empty`: one row of zero columns. */
  predicate EmptyShape(t: Table)
  {
    |t| == 1 && |t[0]| == 0
  }

  /** An `r` by `c` grid of copies of `s`. */
  function Grid(r: nat, c: nat, s: string): Table
  {
    Fill(r, Fill(c, s))
  }

  /** `extend_horizontal(n)`: `n` empty cells at the end of every row. */
  function PadRight(t: Table, n: nat): Table
  {
    seq(|t|, i requires 0 <= i < |t| => t[i] + Fill(n, ""))
  }

  /** `extend_vertical(n)`: `n` rows of empty cells, as wide as the first row. */
  function PadBottom(t: Table, n: nat): Table
    requires |t| >= 1
  {
    t + Grid(n, |t[0]|, "")
  }

  /** `append_horizontal`: row `i` of `u` after row `i` of `t`. */
  function Beside(t: Table, u: Table): Table
    requires |t| == |u|
  {
    seq(|t|, i requires 0 <= i < |t| => t[i] + u[i])
  }

  /** `stack_horizontal`: the shorter grid padded at the bottom, then side by side. */
  function StackedBeside(t: Table, u: Table): Table
    requires |t| >= 1 && |u| >= 1
  {
    if |t| > |u| then Beside(t, PadBottom(u, |t| - |u|))
    else if |t| < |u| then Beside(PadBottom(t, |u| - |t|), u)
    else Beside(t, u)
  }

  /** `stack_vertical`: the narrower grid padded on the right, then one under
      the other. */
  function StackedUnder(t: Table, u: Table): Table
    requires |t| >= 1 && |u| >= 1
  {
    var ca := |t[0]|;
    var cb := |u[0]|;
    if ca > cb then t + PadRight(u, ca - cb)
    else if ca < cb then PadRight(t, cb - ca) + u
    else t + u
  }

  /** `operator+` on the values. */
  function PlusLayout(x: Layout, y: Layout): Layout
    requires WellFormed(x) && WellFormed(y)
  {
    if EmptyShape(x.data) then y
    else if EmptyShape(y.data) then x
    else Layout(x.alignment + y.alignment, x.width + y.width, StackedBeside(x.data, y.data))
  }

  /** What `operator*` needs of its operands: a well-formed upper sheet, and a
      lower sheet with a row and, when it is the wider, alignments beyond the
      upper sheet's last column. A lower sheet whose rows were reordered need
      not be well-formed. */
  predicate Stackable(x: Layout, y: Layout)
  {
    WellFormed(x) && |y.data| >= 1 &&
    (!EmptyShape(x.data) && |x.data[0]| < |y.data[0]| ==> |x.data[0]| <= |y.alignment|)
  }

  /** `operator*` on the values. */
  function TimesLayout(x: Layout, y: Layout): Layout
    requires Stackable(x, y)
  {
    if EmptyShape(x.data) then y
    else if EmptyShape(y.data) then x
    else
      var d := StackedUnder(x.data, y.data);
      var ca := |x.data[0]|;
      var cb := |y.data[0]|;
      Layout(x.alignment + (if ca < cb then y.alignment[ca..] else []), Widths(d, |d[0]|), d)
  }

  // ---------------------------------------------------------------------------
  // The laws of the algebra.

  /** A sheet is empty exactly when it is the default sheet. */
  lemma EmptyIsDefault(x: Layout)
    requires WellFormed(x)
    ensures EmptyShape(x.data) <==> x == EmptyLayout
  {
    if EmptyShape(x.data) {
      assert x.data[0] == [];
      assert x.data == [[]];
    }
  }

  /** The empty sheet is a two-sided identity of `+` and of `*`. */
  lemma EmptyIsIdentity(x: Layout)
    requires WellFormed(x)
    ensures PlusLayout(EmptyLayout, x) == x && PlusLayout(x, EmptyLayout) == x
    ensures TimesLayout(EmptyLayout, x) == x && TimesLayout(x, EmptyLayout) == x
  {
    EmptyIsDefault(x);
  }

  /** Shape and contents of `A + B` for non-empty rectangular sheets: as many
      rows as the taller, the columns of both, the shorter padded at the bottom
      with empty cells, and the widths and alignments of both in order. */
  lemma PlusShape(x: Layout, y: Layout)
    requires WellFormed(x) && WellFormed(y) && Rectangular(x.data) && Rectangular(y.data)
    requires !EmptyShape(x.data) && !EmptyShape(y.data)
    ensures var z := PlusLayout(x, y);
      var ra, rb, ca, cb := |x.data|, |y.data|, |x.data[0]|, |y.data[0]|;
      WellFormed(z) && Rectangular(z.data) &&
      |z.data| == Max(ra, rb) && |z.data[0]| == ca + cb &&
      z.alignment == x.alignment + y.alignment && z.width == x.width + y.width &&
      (forall i, j :: 0 <= i < |z.data| && 0 <= j < ca ==> z.data[i][j] == if i < ra then x.data[i][j] else "") &&
      (forall i, j :: 0 <= i < |z.data| && ca <= j < ca + cb ==> z.data[i][j] == if i < rb then y.data[i][j - ca] else "")
  {
    var z := PlusLayout(x, y);
    var ra, rb, ca, cb := |x.data|, |y.data|, |x.data[0]|, |y.data[0]|;
    var xs := if ra < rb then PadBottom(x.data, rb - ra) else x.data;
    var ys := if rb < ra then PadBottom(y.data, ra - rb) else y.data;
    assert z.data == Beside(xs, ys);
    assert forall i :: 0 <= i < |xs| ==> xs[i] == if i < ra then x.data[i] else Fill(ca, "");
    assert forall i :: 0 <= i < |ys| ==> ys[i] == if i < rb then y.data[i] else Fill(cb, "");
  }

  /** Shape and contents of `A * B` for non-empty rectangular sheets: the rows
      of both, A's first, as many columns as the wider, the narrower padded on
      the right with empty cells. */
  lemma TimesShape(x: Layout, y: Layout)
    requires WellFormed(x) && WellFormed(y) && Rectangular(x.data) && Rectangular(y.data)
    requires !EmptyShape(x.data) && !EmptyShape(y.data)
    ensures var z := TimesLayout(x, y);
      var ra, rb, ca, cb := |x.data|, |y.data|, |x.data[0]|, |y.data[0]|;
      WellFormed(z) && Rectangular(z.data) &&
      |z.data| == ra + rb && |z.data[0]| == Max(ca, cb) &&
      (forall i, j :: 0 <= i < ra && 0 <= j < Max(ca, cb) ==> z.data[i][j] == if j < ca then x.data[i][j] else "") &&
      (forall i, j :: ra <= i < ra + rb && 0 <= j < Max(ca, cb) ==> z.data[i][j] == if j < cb then y.data[i - ra][j] else "")
  {
    var z := TimesLayout(x, y);
    var ra, rb, ca, cb := |x.data|, |y.data|, |x.data[0]|, |y.data[0]|;
    var xs := if ca < cb then PadRight(x.data, cb - ca) else x.data;
    var ys := if cb < ca then PadRight(y.data, ca - cb) else y.data;
    assert z.data == xs + ys;
    assert forall i :: 0 <= i < ra ==> xs[i] == if ca < cb then x.data[i] + Fill(cb - ca, "") else x.data[i];
    assert forall i :: 0 <= i < rb ==> ys[i] == if cb < ca then y.data[i] + Fill(ca - cb, "") else y.data[i];
  }

  /** `A * B` keeps A's alignments, and takes B's beyond A's last column only
      when B is wider. */
  lemma TimesAlignments(x: Layout, y: Layout)
    requires WellFormed(x) && WellFormed(y)
    requires !EmptyShape(x.data) && !EmptyShape(y.data)
    ensures var z := TimesLayout(x, y);
      var ca, cb := |x.data[0]|, |y.data[0]|;
      z.alignment[..ca] == x.alignment &&
      (ca >= cb ==> z.alignment == x.alignment) &&
      (ca < cb ==> |z.alignment| == cb && z.alignment[ca..] == y.alignment[ca..])
  {
  }

  /** The widths of `A * B` are recomputed: each is the longer of the two
      operands' longest cells in that column. */
  lemma TimesWidths(x: Layout, y: Layout)
    requires WellFormed(x) && WellFormed(y) && Rectangular(x.data) && Rectangular(y.data)
    requires !EmptyShape(x.data) && !EmptyShape(y.data)
    ensures var z := TimesLayout(x, y);
      |z.width| == |z.data[0]| &&
      forall j :: 0 <= j < |z.width| ==> z.width[j] == Max(ColumnWidth(x.data, j), ColumnWidth(y.data, j))
  {
    var z := TimesLayout(x, y);
    TimesShape(x, y);
    var ra := |x.data|;
    forall j | 0 <= j < |z.width|
      ensures z.width[j] == Max(ColumnWidth(x.data, j), ColumnWidth(y.data, j))
    {
      var m := Max(ColumnWidth(x.data, j), ColumnWidth(y.data, j));
      ColumnWidthIsLongest(x.data, j);
      ColumnWidthIsLongest(y.data, j);
      ColumnWidthIsLongest(z.data, j);
      ColumnWidthAtMost(z.data, j, m);
      if m == ColumnWidth(x.data, j) && m != 0 {
        var r :| 0 <= r < |x.data| && j < |x.data[r]| && |x.data[r][j]| == m;
        assert z.data[r][j] == x.data[r][j];
      } else if m != 0 {
        var r :| 0 <= r < |y.data| && j < |y.data[r]| && |y.data[r][j]| == m;
        assert z.data[ra + r][j] == y.data[r][j];
      }
    }
  }

  /** Both operators build well-formed sheets from well-formed ones; `+` adds
      the column counts and `*` takes the larger. */
  lemma OperatorsWellFormed(x: Layout, y: Layout)
    requires WellFormed(x) && WellFormed(y)
    ensures WellFormed(PlusLayout(x, y)) && WellFormed(TimesLayout(x, y))
    ensures !EmptyShape(x.data) && !EmptyShape(y.data) ==>
      |PlusLayout(x, y).data[0]| == |x.data[0]| + |y.data[0]| &&
      |TimesLayout(x, y).data[0]| == Max(|x.data[0]|, |y.data[0]|)
  {
    if !EmptyShape(x.data) && !EmptyShape(y.data) {
      var ra, rb := |x.data|, |y.data|;
      var p := PlusLayout(x, y).data;
      if ra < rb {
        assert p[0] == x.data[0] + y.data[0];
      } else if rb < ra {
        assert p[0] == x.data[0] + y.data[0];
      }
      var ca, cb := |x.data[0]|, |y.data[0]|;
      var q := TimesLayout(x, y).data;
      if ca < cb {
        assert q[0] == x.data[0] + Fill(cb - ca, "");
      }
    }
  }

  /** Stacking a sheet whose first row is no wider than `x`'s under it keeps
      `x`'s alignments and column count, whatever the lower sheet's own
      alignments are. */
  lemma TimesKeepsAlignment(x: Layout, y: Layout)
    requires WellFormed(x) && !EmptyShape(x.data) && |y.data| >= 1
    requires |y.data[0]| <= |x.data[0]|
    ensures WellFormed(TimesLayout(x, y))
    ensures TimesLayout(x, y).alignment == x.alignment
    ensures |TimesLayout(x, y).data[0]| == |x.data[0]|
  {
  }

  /** Exact widths: every column's width is its longest cell. */
  predicate ExactWidths(x: Layout)
  {
    forall j :: 0 <= j < |x.width| ==> x.width[j] == ColumnWidth(x.data, j)
  }

  /** A column of `t` placed as column `j` of `z`, with only empty cells
      added beneath it, keeps its longest cell. */
  lemma ColumnWidthPadded(t: Table, k: nat, z: Table, j: nat)
    requires |t| <= |z|
    requires forall i :: 0 <= i < |t| ==> k < |t[i]| && j < |z[i]| && z[i][j] == t[i][k]
    requires forall i :: |t| <= i < |z| && j < |z[i]| ==> z[i][j] == ""
    ensures ColumnWidth(z, j) == ColumnWidth(t, k)
  {
    var w := ColumnWidth(t, k);
    ColumnWidthIsLongest(t, k);
    ColumnWidthIsLongest(z, j);
    ColumnWidthAtMost(z, j, w);
    if w != 0 {
      var r :| 0 <= r < |t| && k < |t[r]| && |t[r][k]| == w;
      assert z[r][j] == t[r][k];
    }
  }

  /** `+` of sheets whose widths are exact has exact widths, though it only
      concatenates them. */
  lemma PlusKeepsExactWidths(x: Layout, y: Layout)
    requires WellFormed(x) && WellFormed(y) && Rectangular(x.data) && Rectangular(y.data)
    requires ExactWidths(x) && ExactWidths(y)
    ensures ExactWidths(PlusLayout(x, y))
  {
    if !EmptyShape(x.data) && !EmptyShape(y.data) {
      var z := PlusLayout(x, y);
      PlusShape(x, y);
      var ca := |x.data[0]|;
      forall j | 0 <= j < |z.width|
        ensures z.width[j] == ColumnWidth(z.data, j)
      {
        if j < ca {
          ColumnWidthPadded(x.data, j, z.data, j);
        } else {
          ColumnWidthPadded(y.data, j - ca, z.data, j);
        }
      }
    }
  }

  // ---------------------------------------------------------------------------
  // Rendering.

  /** A cell written with `setw(w)` and `left` or `right`: padded with spaces
      to `w`, never truncated. */
  function PadCell(cell: string, w: nat, f: Format): (p: string)
    ensures |p| == Max(w, |cell|)
    ensures f == Left ==> p[..|cell|] == cell && forall k :: |cell| <= k < |p| ==> p[k] == ' '
    ensures f == Right ==> p[|p| - |cell|..] == cell && forall k :: 0 <= k < |p| - |cell| ==> p[k] == ' '
  {
    if w <= |cell| then cell
    else if f == Left then cell + Fill(w - |cell|, ' ')
    else Fill(w - |cell|, ' ') + cell
  }

  /** The first `n` cells of a row, each padded and followed by two spaces. */
  function RenderCells(row: seq<string>, w: seq<nat>, a: seq<Format>, n: nat): string
    requires n <= |row| && n <= |w| && n <= |a|
  {
    if n == 0 then ""
    else RenderCells(row, w, a, n - 1) + PadCell(row[n - 1], w[n - 1], a[n - 1]) + "  "
  }

  function Min3(a: nat, b: nat, c: nat): nat
  {
    if a <= b && a <= c then a else if b <= c then b else c
  }

  /** One line of `to_string`, without its newline: as many cells as the row,
      the widths and the alignments all have. */
  function RenderRow(row: seq<string>, w: seq<nat>, a: seq<Format>): string
  {
    RenderCells(row, w, a, Min3(|row|, |w|, |a|))
  }

  /** Every row's line, each ended by a newline. */
  function RenderRows(t: Table, w: seq<nat>, a: seq<Format>): string
    decreases |t|
  {
    if t == [] then ""
    else RenderRows(t[..|t| - 1], w, a) + RenderRow(t[|t| - 1], w, a) + "\n"
  }

  lemma RenderRowsStep(t: Table, w: seq<nat>, a: seq<Format>, r: nat)
    requires r < |t|
    ensures RenderRows(t[..r + 1], w, a) == RenderRows(t[..r], w, a) + RenderRow(t[r], w, a) + "\n"
  {
    assert t[..r + 1][..r] == t[..r];
  }

  /** The sum of the widths plus the two separator spaces of each column. */
  function LineLength(w: seq<nat>): nat
  {
    if w == [] then 0 else LineLength(w[..|w| - 1]) + w[|w| - 1] + 2
  }

  lemma {:induction false} RenderCellsLength(row: seq<string>, w: seq<nat>, a: seq<Format>, n: nat)
    requires n <= |row| && n <= |w| && n <= |a|
    requires forall k :: 0 <= k < n ==> |row[k]| <= w[k]
    ensures |RenderCells(row, w, a, n)| == LineLength(w[..n])
  {
    if n > 0 {
      RenderCellsLength(row, w, a, n - 1);
      assert w[..n][..n - 1] == w[..n - 1];
    }
  }

  /** In a rectangular sheet with exact widths every line has the same length,
      so the columns line up. */
  lemma RenderedRowsAlign(x: Layout, r: nat)
    requires WellFormed(x) && Rectangular(x.data) && ExactWidths(x) && r < |x.data|
    ensures |RenderRow(x.data[r], x.width, x.alignment)| == LineLength(x.width)
  {
    var n := |x.width|;
    forall k | 0 <= k < n
      ensures |x.data[r][k]| <= x.width[k]
    {
      ColumnWidthIsLongest(x.data, k);
    }
    RenderCellsLength(x.data[r], x.width, x.alignment, n);
    assert x.width[..n] == x.width;
  }

  // ---------------------------------------------------------------------------
  // Sorting.

  /** `std::string`'s `<`: lexicographic by character. */
  predicate LexLess(s: string, t: string)
    decreases |s|
  {
    |t| > 0 && (|s| == 0 || s[0] < t[0] || (s[0] == t[0] && LexLess(s[1..], t[1..])))
  }

  lemma {:induction false} LexLessAsymmetric(s: string, t: string)
    ensures !(LexLess(s, t) && LexLess(t, s))
    decreases |s|
  {
    if |s| > 0 && |t| > 0 && s[0] == t[0] {
      LexLessAsymmetric(s[1..], t[1..]);
    }
  }

  /** The comparison `sort_by_column` uses on the chosen cells; `key` stands for
      `atof`. */
  predicate CellLess(st: SortType, key: string -> real, s: string, t: string)
  {
    match st
    case Text => LexLess(s, t)
    case NumericAsc => key(s) < key(t)
    case NumericDesc => key(s) > key(t)
  }

  lemma CellLessAsymmetric(st: SortType, key: string -> real, s: string, t: string)
    ensures !(CellLess(st, key, s, t) && CellLess(st, key, t, s))
  {
    if st == Text {
      LexLessAsymmetric(s, t);
    }
  }

  /** Column `col` of the rows is in order: no row's cell is less than the one above. */
  predicate SortedBy(t: Table, col: nat, st: SortType, key: string -> real)
    requires Reaches(t, col)
  {
    forall i :: 0 < i < |t| ==> !CellLess(st, key, t[i][col], t[i - 1][col])
  }

  // ---------------------------------------------------------------------------
  // The sheet object.

  class Sheet {
    var alignment: seq<Format>
    var width: seq<nat>
    var data: Table

    ghost function Value(): Layout
      reads this
    {
      Layout(alignment, width, data)
    }

    ghost predicate Valid()
      reads this
    {
      WellFormed(Value())
    }

    /** The default sheet. */
    constructor ()
      ensures Value() == EmptyLayout
    {
      alignment, width, data := [], [], [[]];
    }

    /** `Sheet(row, f)`; `Sheet(row)` is this with `Left`. */
    constructor FromRow(row: seq<string>, f: Format)
      ensures Value() == RowLayout(row, f)
    {
      data := [row];
      width := Fill(|row|, 0);
      alignment := Fill(|row|, f);
      new;
      ComputeWidths();
      WidenedZeros([row], |row|);
    }

    /** `Sheet(r, c, s, f)`; `Sheet(r, c, s)` is this with `Left`. */
    constructor Filled(r: nat, c: nat, s: string, f: Format)
      ensures Value() == FilledLayout(r, c, s, f)
    {
      data := Grid(r, c, s);
      width := Fill(c, 0);
      alignment := Fill(c, f);
      new;
      ComputeWidths();
      WidenedZeros(Grid(r, c, s), c);
    }

    /** `Sheet(table, f)`; `Sheet(table)` is this with `Left`. Widths and
        alignments are sized by the first row only. */
    constructor FromTable(t: Table, f: Format)
      requires |t| >= 1
      ensures Value() == TableLayout(t, f)
    {
      data := t;
      width := Fill(|t[0]|, 0);
      alignment := Fill(|t[0]|, f);
      new;
      ComputeWidths();
      WidenedZeros(t, |t[0]|);
    }

    /** The copy constructor. */
    constructor Copy(other: Sheet)
      ensures Value() == other.Value()
    {
      alignment, width, data := other.alignment, other.width, other.data;
    }

    /** `compute_widths`: raises each width to the longest cell of its column. */
    method ComputeWidths()
      modifies this`width
      ensures width == Widened(old(width), data)
    {
      ghost var w0 := width;
      var r := 0;
      while r < |data|
        invariant 0 <= r <= |data|
        invariant width == Widened(w0, data[..r])
      {
        var row := data[r];
        ghost var before := width;
        var j := 0;
        while j < |row| && j < |width|
          invariant 0 <= j <= |row| && |width| == |before| && j <= |width|
          invariant forall k :: 0 <= k < |width| ==> width[k] == if k < j then Max(before[k], |row[k]|) else before[k]
        {
          width := width[j := Max(width[j], |row[j]|)];
          j := j + 1;
        }
        assert data[..r + 1] == data[..r] + [row];
        forall k | 0 <= k < |width|
          ensures width[k] == Max(w0[k], ColumnWidth(data[..r + 1], k))
        {
          ColumnWidthAppend(data[..r], row, k);
        }
        r := r + 1;
      }
      assert data[..r] == data;
    }

    function NRows(): nat
      reads this
    {
      |data|
    }

    function NCols(): nat
      reads this
      requires |data| >= 1
    {
      |data[0]|
    }

    /** `is_empty`. */
    predicate IsEmpty()
      reads this
    {
      EmptyShape(data)
    }

    /** `extend_horizontal(n)`. */
    method ExtendHorizontal(n: nat)
      modifies this`data
      ensures data == PadRight(old(data), n)
    {
      ghost var t := data;
      var i := 0;
      while i < |data|
        invariant 0 <= i <= |data| == |t|
        invariant forall k :: 0 <= k < |data| ==> data[k] == if k < i then t[k] + Fill(n, "") else t[k]
      {
        data := data[i := data[i] + Fill(n, "")];
        i := i + 1;
      }
    }

    /** `extend_vertical(n)`. */
    method ExtendVertical(n: nat)
      requires |data| >= 1
      modifies this`data
      ensures data == PadBottom(old(data), n)
    {
      var fill := Fill(NCols(), "");
      ghost var t := data;
      var i := 0;
      while i < n
        invariant 0 <= i <= n
        invariant data == t + Fill(i, fill)
      {
        data := data + [fill];
        i := i + 1;
      }
    }

    /** `append_horizontal(other)`: the row counts must agree. */
    method AppendHorizontal(other: Sheet)
      requires other != this && |data| == |other.data|
      modifies this`data
      ensures data == Beside(old(data), other.data)
    {
      ghost var t := data;
      var i := 0;
      while i < |data|
        invariant 0 <= i <= |data| == |t|
        invariant forall k :: 0 <= k < |data| ==> data[k] == if k < i then t[k] + other.data[k] else t[k]
      {
        data := data[i := data[i] + other.data[i]];
        i := i + 1;
      }
    }

    /** `append_vertical(other)`: the column counts must agree. */
    method AppendVertical(other: Sheet)
      requires |data| >= 1 && |other.data| >= 1 && NCols() == other.NCols()
      modifies this`data
      ensures data == old(data) + old(other.data)
    {
      data := data + other.data;
    }

    /** `stack_horizontal(other)`. */
    method StackHorizontal(other: Sheet)
      requires other != this && |data| >= 1 && |other.data| >= 1
      modifies this`data
      ensures data == StackedBeside(old(data), other.data)
    {
      var ra := NRows();
      var rb := other.NRows();
      if ra > rb {
        var shb := new Sheet.FromTable(other.data, Left);
        shb.ExtendVertical(ra - rb);
        AppendHorizontal(shb);
      } else if ra < rb {
        ExtendVertical(rb - ra);
        AppendHorizontal(other);
      } else {
        AppendHorizontal(other);
      }
    }

    /** `stack_vertical(other)`. */
    method StackVertical(other: Sheet)
      requires other != this && |data| >= 1 && |other.data| >= 1
      modifies this`data
      ensures data == StackedUnder(old(data), other.data)
    {
      var ca := NCols();
      var cb := other.NCols();
      if ca > cb {
        var shb := new Sheet.FromTable(other.data, Left);
        shb.ExtendHorizontal(ca - cb);
        assert shb.data[0] == other.data[0] + Fill(ca - cb, "");
        AppendVertical(shb);
      } else if ca < cb {
        ghost var d0 := data;
        ExtendHorizontal(cb - ca);
        assert data[0] == d0[0] + Fill(cb - ca, "");
        AppendVertical(other);
      } else {
        AppendVertical(other);
      }
    }

    /** `operator+`: a new sheet; the operands are not changed. */
    static method Plus(a: Sheet, b: Sheet) returns (sh: Sheet)
      requires a.Valid() && b.Valid()
      ensures fresh(sh) && sh.Value() == PlusLayout(a.Value(), b.Value())
    {
      if a.IsEmpty() {
        sh := new Sheet.Copy(b);
        return;
      } else if b.IsEmpty() {
        sh := new Sheet.Copy(a);
        return;
      }
      sh := new Sheet.Copy(a);
      sh.StackHorizontal(b);
      sh.alignment := sh.alignment + b.alignment;
      sh.width := sh.width + b.width;
    }

    /** `operator*`: a new sheet; the operands are not changed. The widths are
        zeroed and widened again over the stacked rows. */
    static method Times(a: Sheet, b: Sheet) returns (sh: Sheet)
      requires Stackable(a.Value(), b.Value())
      ensures fresh(sh) && sh.Value() == TimesLayout(a.Value(), b.Value())
    {
      if a.IsEmpty() {
        sh := new Sheet.Copy(b);
        return;
      } else if b.IsEmpty() {
        sh := new Sheet.Copy(a);
        return;
      }
      sh := new Sheet.Copy(a);
      sh.StackVertical(b);
      var ca := a.NCols();
      var cb := b.NCols();
      if ca < cb {
        sh.alignment := sh.alignment + b.alignment[ca..];
      }
      sh.width := Fill(sh.NCols(), 0);
      sh.ComputeWidths();
      WidenedZeros(sh.data, |sh.data[0]|);
    }

    /** `operator==`: cells, widths and alignments all equal. */
    static predicate Equal(a: Sheet, b: Sheet)
      reads a, b
      ensures Equal(a, b) <==> a.Value() == b.Value()
    {
      a.data == b.data && a.width == b.width && a.alignment == b.alignment
    }

    /** `to_string`. */
    method ToString() returns (s: string)
      ensures s == RenderRows(data, width, alignment)
    {
      s := "";
      var r := 0;
      while r < |data|
        invariant 0 <= r <= |data|
        invariant s == RenderRows(data[..r], width, alignment)
      {
        var row := data[r];
        var line := "";
        var k := 0;
        while k < |row| && k < |width| && k < |alignment|
          invariant 0 <= k <= |row| && k <= |width| && k <= |alignment|
          invariant line == RenderCells(row, width, alignment, k)
        {
          line := line + PadCell(row[k], width[k], alignment[k]) + "  ";
          k := k + 1;
        }
        assert line == RenderRow(row, width, alignment);
        RenderRowsStep(data, width, alignment, r);
        s := s + line + "\n";
        r := r + 1;
      }
      assert data[..r] == data;
    }

    /** `sort_by_column(col, st)`: reorders the rows so that column `col` is in
        order; `key` stands for `atof`. With two rows or more every row is
        compared, and `at(col)` needs every row to reach that column. */
    method SortByColumn(col: nat, st: SortType, key: string -> real)
      requires |data| < 2 || Reaches(data, col)
      modifies this`data
      ensures multiset(data) == multiset(old(data))
      ensures |data| >= 2 ==> Reaches(data, col) && SortedBy(data, col, st, key)
    {
      if |data| < 2 {
        return;
      }
      data := SortRows(data, col, st, key);
    }
  }

  /** All rows reach column `col`. */
  predicate Reaches(t: Table, col: nat)
  {
    forall r :: 0 <= r < |t| ==> col < |t[r]|
  }

  /** Insertion sort of the rows by column `col`. */
  method SortRows(t: Table, col: nat, st: SortType, key: string -> real) returns (a: Table)
    requires Reaches(t, col)
    ensures multiset(a) == multiset(t) && Reaches(a, col) && SortedBy(a, col, st, key)
  {
    a := t;
    if |a| == 0 {
      return;
    }
    var i := 1;
    while i < |a|
      invariant 1 <= i <= |a| == |t|
      invariant multiset(a) == multiset(t) && Reaches(a, col)
      invariant SortedBy(a[..i], col, st, key)
    {
      a := InsertRow(a, i, col, st, key);
      i := i + 1;
    }
    assert a[..|a|] == a;
  }

  /** The state of `InsertRow` with row `i` moved up to position `j`: every
      adjacent pair in the first `i + 1` rows is in order except the one ending
      at `j`, and the rows on either side of `j` are in order. */
  predicate Inserting(a: Table, i: nat, j: nat, col: nat, st: SortType, key: string -> real)
  {
    j <= i < |a| && Reaches(a, col) &&
    (forall m :: 0 < m <= i && m != j ==> !CellLess(st, key, a[m][col], a[m - 1][col])) &&
    (0 < j < i ==> !CellLess(st, key, a[j + 1][col], a[j - 1][col]))
  }

  lemma SwapKeepsInserting(a: Table, i: nat, j: nat, col: nat, st: SortType, key: string -> real)
    requires Inserting(a, i, j, col, st, key) && 0 < j && CellLess(st, key, a[j][col], a[j - 1][col])
    ensures Inserting(Swap(a, j - 1, j), i, j - 1, col, st, key)
  {
    CellLessAsymmetric(st, key, a[j][col], a[j - 1][col]);
  }

  /** Moves row `i` up past every row above it whose cell is greater, leaving
      the first `i + 1` rows in order. */
  method InsertRow(t: Table, i: nat, col: nat, st: SortType, key: string -> real) returns (a: Table)
    requires i < |t| && Reaches(t, col) && SortedBy(t[..i], col, st, key)
    ensures |a| == |t| && multiset(a) == multiset(t) && Reaches(a, col)
    ensures SortedBy(a[..i + 1], col, st, key)
  {
    a := t;
    var j := i;
    InsertingStarts(a, i, col, st, key);
    while 0 < j && CellLess(st, key, a[j][col], a[j - 1][col])
      invariant 0 <= j && |a| == |t| && multiset(a) == multiset(t)
      invariant Inserting(a, i, j, col, st, key)
    {
      SwapKeepsInserting(a, i, j, col, st, key);
      a := Swap(a, j - 1, j);
      j := j - 1;
    }
    InsertingEnds(a, i, j, col, st, key);
  }

  lemma InsertingStarts(a: Table, i: nat, col: nat, st: SortType, key: string -> real)
    requires i < |a| && Reaches(a, col) && SortedBy(a[..i], col, st, key)
    ensures Inserting(a, i, i, col, st, key)
  {
    forall m | 0 < m < i
      ensures !CellLess(st, key, a[m][col], a[m - 1][col])
    {
      assert a[..i][m] == a[m] && a[..i][m - 1] == a[m - 1];
    }
  }

  lemma InsertingEnds(a: Table, i: nat, j: nat, col: nat, st: SortType, key: string -> real)
    requires Inserting(a, i, j, col, st, key)
    requires j == 0 || !CellLess(st, key, a[j][col], a[j - 1][col])
    ensures SortedBy(a[..i + 1], col, st, key)
  {
    var b := a[..i + 1];
    forall m | 0 < m < |b|
      ensures !CellLess(st, key, b[m][col], b[m - 1][col])
    {
      assert b[m] == a[m] && b[m - 1] == a[m - 1];
    }
  }

  /** Exchanges two entries; the multiset of entries is unchanged. */
  function Swap<T>(a: seq<T>, i: nat, j: nat): (b: seq<T>)
    requires i < |a| && j < |a|
    ensures |b| == |a| && b[i] == a[j] && b[j] == a[i]
    ensures forall k :: 0 <= k < |a| && k != i && k != j ==> b[k] == a[k]
    ensures multiset(b) == multiset(a)
  {
    a[i := a[j]][j := a[i]]
  }

  // ---------------------------------------------------------------------------
  // The operator tests, as obligations on the model.

  method SheetTests() returns (hstack: seq<seq<string>>, vstack: seq<seq<string>>)
    ensures hstack == [["a", "b", "c", "a"], ["", "", "", "b"], ["", "", "", "c"]]
    ensures vstack == [["a", "b", "c"], ["a", "", ""], ["b", "", ""], ["c", "", ""]]
  {
    var empty := new Sheet();
    assert empty.IsEmpty();
    var a1 := new Sheet.FromTable([["a", "b", "c"]], Left);
    var a2 := new Sheet.FromTable([["a"], ["b"], ["c"]], Left);
    assert a1.NRows() == 1 && a1.NCols() == 3;
    assert a2.NRows() == 3 && a2.NCols() == 1;
    var h12 := Sheet.Plus(a1, a2);
    assert Fill(3, "") == ["", "", ""];
    assert PadBottom(a1.data, 2) == [["a", "b", "c"], ["", "", ""], ["", "", ""]];
    var e12 := new Sheet.FromTable([["a", "b", "c", "a"], ["", "", "", "b"], ["", "", "", "c"]], Left);
    assert |h12.data| == 3 && h12.data[0] == ["a", "b", "c", "a"];
    assert h12.data[1] == ["", "", "", "b"] && h12.data[2] == ["", "", "", "c"];
    assert h12.data == e12.data;
    var v12 := Sheet.Times(a1, a2);
    var f12 := new Sheet.FromTable([["a", "b", "c"], ["a", "", ""], ["b", "", ""], ["c", "", ""]], Left);
    assert Fill(2, "") == ["", ""];
    assert |v12.data| == 4 && v12.data[0] == ["a", "b", "c"] && v12.data[1] == ["a", "", ""];
    assert v12.data[2] == ["b", "", ""] && v12.data[3] == ["c", "", ""];
    assert v12.data == f12.data;
    hstack, vstack := h12.data, v12.data;
  }
}
