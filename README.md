# chrysalis core, modelled in Dafny

This project models the core of the *chrysalis* repository, a collection of small C++
programs:

- **gu**, a grading utility. It has four parts.
  - *shrdlu* is a CSV reader with field, record and document parsers over a character stream.
    It reads quoted fields with doubled quotes and rejects stray quotes.
  - *sheet* is a table algebra. `+` sets two sheets side by side and `*` sets one above the other.
    It also computes column widths, sorts by a column and renders with padding.
  - *gu* holds the utilities: upcasing, `string_to_uint`, the `title` of a course code,
    file-name validation and the LaTeX document wrapper.
  - *main* does the grading. Under `--drop-first` it erases the first cell of every row. It
    scores each student's row of test results against the norm row, computes class
    statistics and stacks the report sheets.
- **math/prime_heap**
  - a binary min-heap of prime powers `p^(2^k)`, ordered by that value;
  - a sieve of Eratosthenes;
  - a factor accumulator that multiplies prime powers modulo a modulus and renders the
    factorisation.
- **amir**, the covering-set search. Tickets are 49-bit words with popcount 6 (six numbers
  out of 49), and `main` steps through all of them with Gosper's hack. It builds a set
  greedily: each ticket, and then its 49-bit mirror image, joins the set unless some member
  already shares at least three numbers with it.
- **math/nthroot**, Fibonacci numbers by fast exponentiation of the matrix [[1,1],[1,0]], and
  the table of F(2^k).
- **natural-language/anagrams**. It tokenizes lines into lower-case words and keys every word
  by its letter counts. It groups words into anagram classes and prints the classes with more
  than one member, in ragged lines that fit in 80 columns unless a line holds a single
  longer word.
- **natural-language/markov_text**. It maps the 31-symbol alphabet to trie slots and counts
  every window of n characters of the text in a trie. It also prettifies generated text:
  capitalisation, the pronoun "I", wrapping, and an ellipsis when a sentence is unfinished.

Each C++ file becomes one Dafny module, and each module lives in its own .dfy file.

- The modules are `Shrdlu`, `SheetAlgebra`, `Gu`, `Grading` and `Report` (together gu/main.cc),
  `PrimeHeap`, `Amir`, `NthRoot`, `Anagrams` and `Markov`.
- They share two helper modules. `Words` holds powers of two, popcount and bitwise operations
  on unbounded naturals. `Numerals` holds decimal rendering.
- Code that works by updating objects becomes a Dafny class whose methods are proved against a
  specification function: the parsers, the sheet, the heap, the sieve, the accumulator, the trie
  builder and the anagram corpus.
- Loops become methods with invariants.
- Pure code becomes functions with lemmas.

## Model

| member | source | states |
|---|---|---|
| Shrdlu.Scan | gu/shrdlu.cc:20-85 | the field state machine of `read_field` (start, unquoted and quoted states) as a function of the text and position; it only moves forward, and it reports end of file only at the end of the text (a scan can also stop at the end of the text without end of file, as on `a,`) |
| Shrdlu.RecordScan | gu/shrdlu.cc:120-128 | `read_record` reads fields until one is last or the stream fails; a record always holds at least one field, and reading stops past its start or at end of file |
| Shrdlu.DocScan | gu/shrdlu.cc:165-174 | `read_document` reads records until end of file, which it always reaches, dropping blank records |
| Shrdlu.Escape | gu/shrdlu.cc:73-74 | escaping doubles every quote, which is the inverse of the quoted state's `""` rule; it never shortens a field |
| Shrdlu.UnquotedRun | gu/shrdlu.cc:45-60 | in the unquoted state every ordinary character is appended to the field in order |
| Shrdlu.UnquotedField | gu/shrdlu.cc:28-60 | an unquoted field is the run of ordinary characters up to the first delimiter, newline, quote or end; each of the four terminators gives its own outcome (a delimiter continues the record, a newline or end ends it, a quote fails) |
| Shrdlu.UnquotedScanIsPlain | gu/shrdlu.cc:45-60 | what the unquoted state accumulates never holds a quote, delimiter or newline |
| Shrdlu.UnquotedFieldIsPlain | gu/shrdlu.cc:28-60 | a field that does not start with a quote never holds a quote, delimiter or newline |
| Shrdlu.QuotedRun | gu/shrdlu.cc:61-82 | in the quoted state, reading the escaped form of a string appends exactly that string |
| Shrdlu.QuotedFieldRoundTrip | gu/shrdlu.cc:61-82 | a quoted, escaped field is read back as the original string, and reading ends just after the closing quote with the outcome chosen by the character after it |
| Shrdlu.QuoteReadBack | gu/shrdlu.cc:61-82 | parsing `QuoteField(s)` alone succeeds, returns `s`, and marks the field as last |
| Shrdlu.PairedRun | gu/shrdlu.cc:61-82 | a stretch of the quoted state made of ordinary characters and doubled quotes never leaves the quoted state |
| Shrdlu.QuotedRejects | gu/shrdlu.cc:62-77 | a quoted field fails only when it is unterminated at end of file or its closing quote is followed by junk |
| Shrdlu.UnquotedRejects | gu/shrdlu.cc:50-51 | an unquoted field fails only at a stray quote |
| Shrdlu.FieldRejects | gu/shrdlu.cc:20-85 | a field fails if and only if it has a stray quote in an unquoted field, an unterminated quoted field, or junk after a closing quote |
| Shrdlu.RecordRoundTrip | gu/shrdlu.cc:120-128 | reading a formatted record (quoted fields joined by the delimiter and ended by a newline) gives back exactly its fields and stops after the newline |
| Shrdlu.RecordRoundTripMany | gu/shrdlu.cc:120-128 | the round trip for records with two or more fields |
| Shrdlu.OnlyField | gu/shrdlu.cc:61-72 | a one-field record is read as one last field ending at the newline |
| Shrdlu.FirstOfMany | gu/shrdlu.cc:61-69 | the first field of a longer record ends at its delimiter and is not last |
| Shrdlu.QuotedThenDelimiter | gu/shrdlu.cc:63-69 | a closing quote followed by the delimiter ends a field that is not last |
| Shrdlu.RecordAdvance | gu/shrdlu.cc:124-127 | one iteration of the record loop appends the field just read and continues from where it stopped |
| Shrdlu.RecordScanLast | gu/shrdlu.cc:124-127 | a record stops after a field that is last or hits end of file |
| Shrdlu.RecordScanStep | gu/shrdlu.cc:124-127 | otherwise the record is that field followed by the rest of the record |
| Shrdlu.DocumentRoundTrip | gu/shrdlu.cc:165-174 | reading a formatted document gives back its records, less the blank ones |
| Shrdlu.DocCons | gu/shrdlu.cc:169-173 | one iteration of the document loop keeps a record unless it is blank |
| Shrdlu.DocumentEnd | gu/shrdlu.cc:169 | at end of file a document holds no records |
| Shrdlu.DocScanStep | gu/shrdlu.cc:169-173 | a document is its first record, kept unless blank, followed by the rest of the document |
| Shrdlu.DocumentHasNoBlank | gu/shrdlu.cc:130-172 | no record of a document read is blank (a single empty field) |
| Shrdlu.DocStep | gu/shrdlu.cc:169-173 | the document loop step, stated for the method's invariant |
| Shrdlu.Stream.constructor | gu/shrdlu.cc:20 | a stream over a text starts at position 0 with neither end of file nor failure |
| Shrdlu.Stream.Get | gu/shrdlu.cc:26 | `get` returns the next character and advances; at the end it returns EOF and sets eof and fail; a failed stream keeps returning EOF |
| Shrdlu.Stream.Unget | gu/shrdlu.cc:76 | `unget` steps back one character and clears end of file |
| Shrdlu.Stream.SetFail | gu/shrdlu.cc:92 | `setstate(failbit)` sets fail and changes nothing else |
| Shrdlu.Parser.constructor | gu/shrdlu.cc:4-5 | the default parser uses ',' as delimiter and starts empty |
| Shrdlu.Parser.WithDelimiter | gu/shrdlu.cc:7-8 | a parser with a given delimiter starts empty |
| Shrdlu.Parser.ReadField | gu/shrdlu.cc:20-85 | the loop of `read_field` returns the same success flag, field, last flag and state as `FieldScan`, and leaves the stream where `FieldScan` stops |
| Shrdlu.Parser.ExtractField | gu/shrdlu.cc:87-95 | `operator>>` for a field reads as `read_field` does and leaves the stream failed exactly when the field was rejected or the end of file was hit |
| Shrdlu.Parser.ReadRecord | gu/shrdlu.cc:120-128 | the record loop yields `RecordScan`'s fields and final state; at end of file it yields an empty record |
| Shrdlu.Parser.ReadDocument | gu/shrdlu.cc:165-174 | the document loop yields `DocScan`'s records and always ends with the stream at end of file and failed |
| Shrdlu.RejectedFields | gu/test_shrdlu.cc:68-102 | the rejected inputs of the `What_should_fail` test fail |
| Shrdlu.PlainFieldsTest | gu/test_shrdlu.cc:12-25 | reading `aaa,bbb,ccc` field by field gives `aaa`, `bbb` and `ccc`, and only the last is marked last |
| Shrdlu.QuoteQuoteFields | gu/test_shrdlu.cc:104-131 | the doubled-quote inputs of the `Quote_quote` tests read as one quote |
| SheetAlgebra.Fill | gu/sheet.cc:20-22 | `n` copies of a value: the vector fill constructor |
| SheetAlgebra.ColumnWidthIsLongest | gu/sheet.cc:8-17 | the width of a column is the length of its longest cell: no cell is longer, and a non-zero width is reached by some cell |
| SheetAlgebra.ColumnWidthAtMost | gu/sheet.cc:8-17 | a column whose cells are all bounded by `m` is no wider than `m` |
| SheetAlgebra.ColumnWidthAppend | gu/sheet.cc:12-16 | one more row raises a column's width to the longer of the old width and the new cell |
| SheetAlgebra.WidenedZeros | gu/sheet.cc:194-201 | widening a row of zeros over a table gives the exact column widths |
| SheetAlgebra.TableLayout | gu/sheet.cc:51-65 | a sheet built from a table holds that table with one alignment and one width per column of its first row |
| SheetAlgebra.RowLayout | gu/sheet.cc:35-49 | a sheet built from a row holds that single row and is well formed |
| SheetAlgebra.FilledLayout | gu/sheet.cc:19-33 | an `r` by `c` sheet of copies of a string is the table sheet of that grid |
| SheetAlgebra.EmptyIsDefault | gu/sheet.cc:77-80 | a well-formed sheet is empty (one row of no cells) exactly when it is the default sheet |
| SheetAlgebra.EmptyIsIdentity | gu/sheet.cc:154-184 | the empty sheet is a two-sided identity of both `+` and `*` |
| SheetAlgebra.PlusShape | gu/sheet.cc:116-172 | `A + B` has as many rows as the taller operand and the columns of both, with the shorter operand padded at the bottom with empty cells, and with the alignments and widths of both in order |
| SheetAlgebra.TimesShape | gu/sheet.cc:132-204 | `A * B` holds A's rows and then B's, as wide as the wider operand, with the narrower one padded on the right with empty cells |
| SheetAlgebra.TimesAlignments | gu/sheet.cc:174-193 | `A * B` keeps A's alignments and takes B's beyond A's last column only when B is wider |
| SheetAlgebra.TimesWidths | gu/sheet.cc:194-201 | the widths of `A * B` are recomputed, each the longer of the two operands' longest cells in that column |
| SheetAlgebra.OperatorsWellFormed | gu/sheet.cc:154-204 | both operators build well-formed sheets from well-formed ones; `+` adds the column counts |
| SheetAlgebra.TimesKeepsAlignment | gu/sheet.cc:185-193 | stacking a sheet no wider than A under A keeps A's alignments and column count |
| SheetAlgebra.ColumnWidthPadded | gu/sheet.cc:116-130 | a column moved into a padded grid keeps its width |
| SheetAlgebra.PlusKeepsExactWidths | gu/sheet.cc:163-171 | `+` of sheets whose widths are exact has exact widths, though it concatenates the widths instead of recomputing them |
| SheetAlgebra.PadCell | gu/sheet.cc:227-238 | a cell written with `setw(w)` is `max(w, length)` long and holds the cell at the left (`text_left`) or the right (`text_right`), padded with spaces |
| SheetAlgebra.RenderRowsStep | gu/sheet.cc:222-241 | `to_string` writes the rows in order, each ended by a newline |
| SheetAlgebra.RenderCellsLength | gu/sheet.cc:223-239 | a line of cells no longer than their widths is as long as the widths plus two separator spaces per column |
| SheetAlgebra.RenderedRowsAlign | gu/sheet.cc:215-243 | in a rectangular sheet with exact widths every rendered line has the same length |
| SheetAlgebra.LexLessAsymmetric | gu/sheet.cc:254-256 | the text comparison of `sort_by_column` is asymmetric |
| SheetAlgebra.CellLessAsymmetric | gu/sheet.cc:254-264 | each of the three comparisons of `sort_by_column` is asymmetric |
| SheetAlgebra.Sheet.constructor | gu/sheet.h:34 | the default sheet is one row of no cells, with no widths or alignments |
| SheetAlgebra.Sheet.FromRow | gu/sheet.cc:35-49 | the sheet of a row is `RowLayout` of it |
| SheetAlgebra.Sheet.Filled | gu/sheet.cc:19-33 | the filled sheet is `FilledLayout` |
| SheetAlgebra.Sheet.FromTable | gu/sheet.cc:51-65 | the sheet of a non-empty table is `TableLayout` of it |
| SheetAlgebra.Sheet.Copy | gu/sheet.cc:157 | the copy holds the same value |
| SheetAlgebra.Sheet.ComputeWidths | gu/sheet.cc:8-17 | `compute_widths` raises each width to the longest cell of its column over the rows that reach it |
| SheetAlgebra.Sheet.ExtendHorizontal | gu/sheet.cc:100-107 | `n` empty cells are appended to every row |
| SheetAlgebra.Sheet.ExtendVertical | gu/sheet.cc:109-114 | `n` rows of empty cells, as wide as the first row, are appended |
| SheetAlgebra.Sheet.AppendHorizontal | gu/sheet.cc:82-93 | row `i` of the other sheet is appended to row `i`; the row counts must agree |
| SheetAlgebra.Sheet.AppendVertical | gu/sheet.cc:95-99 | the other sheet's rows are appended; the column counts must agree |
| SheetAlgebra.Sheet.StackHorizontal | gu/sheet.cc:116-130 | the shorter grid is padded at the bottom, then the grids are put side by side |
| SheetAlgebra.Sheet.StackVertical | gu/sheet.cc:132-146 | the narrower grid is padded on the right, then one grid is put under the other |
| SheetAlgebra.Sheet.Plus | gu/sheet.cc:154-172 | `operator+` returns a new sheet whose value is `PlusLayout` of the operands |
| SheetAlgebra.Sheet.Times | gu/sheet.cc:176-204 | `operator*` returns a new sheet whose value is `TimesLayout` of the operands |
| SheetAlgebra.SheetTests | gu/test_sheet.cc:62-87 | the one-row sheet `a b c` plus the one-column sheet `a b c` is the 3 by 4 table of the test, and times it is the 4 by 3 table |
| SheetAlgebra.Sheet.Equal | gu/sheet.cc:148-152 | two sheets are equal exactly when their cells, widths and alignments are |
| SheetAlgebra.Sheet.ToString | gu/sheet.cc:215-243 | the rendered text is every row's padded cells, each followed by two spaces, one line per row |
| SheetAlgebra.Sheet.SortByColumn | gu/sheet.cc:251-274 | the rows are permuted so that column `col` is in order under the chosen comparison |
| SheetAlgebra.SortRows | gu/sheet.cc:266-271 | sorting yields a permutation of the rows that is in order by the column |
| SheetAlgebra.SwapKeepsInserting | gu/sheet.cc:266-271 | moving the inserted row up past a greater neighbour keeps the insertion invariant |
| SheetAlgebra.InsertRow | gu/sheet.cc:266-271 | inserting row `i` into the sorted rows above it permutes the rows and leaves the first `i+1` sorted |
| SheetAlgebra.InsertingStarts | gu/sheet.cc:266-271 | the insertion invariant holds before the first swap |
| SheetAlgebra.InsertingEnds | gu/sheet.cc:266-271 | when no greater neighbour remains, the first `i+1` rows are sorted |
| SheetAlgebra.Swap | gu/sheet.cc:266-271 | an exchange of two rows keeps the multiset of rows |
| Gu.AllScoresNa | gu/gu.cc:78-86 | `all_scores_NA(v, pos)` holds exactly when every cell from `pos` on is `NA` (the lower-case `na` accepted by `is_na` does not count) |
| Gu.CellTests | gu/test_gu.cc:29-66 | `is_integer` accepts `12345` and rejects `NA`, `zarf`, `123.45` and the empty string; `is_na` accepts `NA` and `na` only |
| Gu.Upcased | gu/gu.cc:15-19 | upper-casing keeps the length and maps every character through `toupper` |
| Gu.UpcasedMeaning | gu/gu.cc:15-19 | upper-casing leaves no lower-case letter, changes nothing else, and is idempotent |
| Gu.UpcasedAppend | gu/gu.cc:15-19 | upper-casing distributes over concatenation |
| Gu.UpcaseString | gu/gu.cc:15-19 | the loop of `upcase_string` upper-cases the array in place |
| Gu.UpcaseTest | gu/test_gu.cc:178-183 | upcasing `zarf1999` gives `ZARF1999` |
| Gu.SkipSpaces | gu/gu.cc:74 | `stoul` skips leading white space: the index returned is the first non-space at or after `i` |
| Gu.SkipDigits | gu/gu.cc:74 | `stoul` reads the longest run of digits that follows |
| Gu.StringToUintOfDigits | gu/gu.cc:72-76 | a digit string below 2^64 converts to its value cut to 32 bits by the `unsigned int` cast |
| Gu.StringToUintRoundTrip | gu/gu.cc:72-76 | writing a 32-bit value in decimal and converting it back gives the value |
| Gu.StringToUintOfSmall | gu/gu.cc:72-76 | a digit string whose value fits in 32 bits converts to that value |
| Gu.StringToUintRejects | gu/gu.cc:72-76 | a string with no digit is rejected with `invalid_argument` |
| Gu.Find | gu/gu.cc:33-41 | `getline`'s search: the first delimiter at or after `i`, or the end, with no delimiter before it |
| Gu.GetLine | gu/gu.cc:33-41 | `getline` stays on the same text and within it |
| Gu.TitleOfDigits | gu/gu.cc:21-47 | for a digit year, the title is group, description, `year-(year+1)` and term joined by two spaces |
| Gu.NextYearOf | gu/gu.cc:39 | the next year is the year's 32-bit value plus one, modulo 2^32 |
| Gu.TitleOfValue | gu/gu.cc:39-46 | the title of a year `stoul` accepts with value `n` shows `n + 1` as the next year |
| Gu.TitleRejects | gu/gu.cc:39 | a year `stoul` rejects makes the whole title fail with the same error |
| Gu.GetLineBeforeDash | gu/gu.cc:33-38 | `getline` on a good stream stops at the next dash and returns the text before it |
| Gu.GetLineToEnd | gu/gu.cc:40-41 | `getline` with no dash left returns the rest of the text |
| Gu.UpcasedNoDash | gu/gu.cc:31 | upper-casing introduces no dash |
| Gu.MetaDataOfUpcasedParts | gu/gu.cc:32-46 | the title of an upper-cased name `G-D-y-T` whose parts hold no dash is assembled from those parts |
| Gu.MetaDataOfParts | gu/gu.cc:21-47 | `make_meta_data_string` of `group-description-year-term` is the upper-cased group, description and term around `year-(year+1)` |
| Gu.MetaDataTest | gu/test_gu.cc:153-157 | `p45-engmath-2011-term2` gives `P45  ENGMATH  2011-2012  TERM2` |
| Gu.UpcasedParts | gu/test_gu.cc:153-157 | the upper-cased parts of the test name |
| Gu.Year2011 | gu/test_gu.cc:153-157 | `2011` is an integer whose next year is written `2012` |
| Gu.Split | gu/gu.cc:88-95 | splitting on a delimiter yields at least one piece |
| Gu.JoinSplit | gu/gu.cc:88-95 | splitting and joining again gives the text back |
| Gu.SplitNoDelimiter | gu/gu.cc:88-95 | a text with no delimiter is one piece |
| Gu.SplitPiece | gu/gu.cc:88-95 | a dash-free prefix and a dash split off as the first piece |
| Gu.WordHasNoDash | gu/gu.cc:90 | neither a word of `[a-zA-Z0-9_]` nor a digit string holds a dash |
| Gu.ValidFilenameIsPattern | gu/gu.cc:88-95 | the explicit four-part test and the regular expression `([a-zA-Z0-9_]+)-([a-zA-Z0-9_]+)-([0-9]+)-([a-zA-Z0-9_]+)` accept the same names |
| Gu.PatternSplits | gu/gu.cc:88-95 | four dash-free parts joined by dashes split back into those four parts |
| Gu.FivePartsRejected | gu/gu.cc:88-95 | a name of five dash-free parts is rejected |
| Gu.FiveParts | gu/gu.cc:88-95 | five dash-free parts split into five pieces |
| Gu.FilenameAccepted | gu/test_gu.cc:159-168 | `p55-engsci-2013-term1` is a valid name |
| Gu.FilenameWithoutDashes | gu/test_gu.cc:159-168 | `foo_goo_soo` is not |
| Gu.FilenameWithFiveParts | gu/test_gu.cc:159-168 | `foo-p44-engmath-2000-term2` is not |
| Gu.JoinedSnoc | gu/gu.cc:107-115 | one more piece extends the joined text by the separator and the piece |
| Gu.JoinedStep | gu/gu.cc:107-115 | one pass of the page loop keeps the document equal to the preamble and the pages so far |
| Gu.MakeLatexDoc | gu/gu.cc:97-118 | the document is the preamble, every report on a page of its own with a page break between consecutive pages, and the closer |
| Gu.PagesStructure | gu/gu.cc:113-114 | the last page is not followed by a page break |
| Words.Negate | amir/amir.cc:58 | unsigned negation `-a` of a 64-bit word is `2^64 - a` for non-zero `a` |
| Words.PopcountSplit | amir/amir.cc:25-27 | the popcount of a word is the popcount of its high part plus that of its low part |
| Words.BitwiseSplit | amir/amir.cc:58-60 | and, or and xor act separately on the high and the low part of a word |
| Amir.ChooseAbove | amir/amir.cc:38-49 | there is no way to choose more than `n` |
| Amir.ChooseAll | amir/amir.cc:40 | choosing all `n` can be done in one way, the `n == k` case of `binomial` |
| Amir.ChooseSymmetry | amir/amir.cc:41 | choosing `k` is choosing `n - k`, the reduction `binomial` makes |
| Amir.ChooseAbsorb | amir/amir.cc:43-47 | `k * C(n, k) == n * C(n-1, k-1)`, the identity that keeps each division exact |
| Amir.ChooseStep | amir/amir.cc:43-47 | one round of the loop: `C(n, i-1) * (n-i+1) == C(n, i) * i` |
| Amir.ChooseSixOfFortyNine | amir/amir.cc:33 | `num_combinations` is C(49, 6) |
| Amir.Binomial | amir/amir.cc:38-49 | `binomial(n, k)` is C(n, k) for `0 <= k <= n` and 1 otherwise |
| Amir.WordOp | amir/amir.cc:58-60 | the bitwise operators keep a result within 64 bits |
| Amir.BitwiseCommutes | amir/amir.cc:85 | bitwise and, or and xor are commutative |
| Amir.KernighanStep | amir/amir.cc:86-87 | `n & (n - 1)` clears exactly one set bit of a non-zero word and leaves zero at zero |
| Amir.EquivalentIff | amir/amir.cc:79-89 | `equivalent(a, b)` holds exactly when the tickets share at least three numbers (`a & b` has popcount at least 3) |
| Amir.EquivalentSymmetric | amir/amir.cc:83-89 | equivalence is symmetric |
| Amir.LowBitPositive | amir/amir.cc:58 | `a & -a` of a non-zero word is a non-zero part of it |
| Amir.LowBitIs | amir/amir.cc:58 | `a & -a` is the lowest set bit |
| Amir.NextValue | amir/amir.cc:58-60 | Gosper's step moves the lowest run of ones: the run's top bit goes up one place and the rest drop to the bottom |
| Amir.NextIsSuccessor | amir/amir.cc:51-63 | when `a + (a & -a)` does not wrap, Gosper's step gives the next larger word with the same popcount: no word strictly between has that popcount |
| Amir.Reverse | amir/amir.cc:65-77 | the mirror of the low `w` bits fits in `w` bits |
| Amir.ReverseIgnoresHigh | amir/amir.cc:70-75 | the mirror reads only the low `width` bits |
| Amir.ReverseInvolution | amir/amir.cc:65-77 | mirroring twice gives the word back |
| Amir.ReversePopcount | amir/amir.cc:65-77 | mirroring keeps the popcount |
| Amir.Mirror | amir/amir.cc:65-77 | the loop of `mirror_combination` computes the mirror of the low `width` bits, cut to 64 bits |
| Amir.MirrorWord | amir/amir.cc:111-118 | the mirror of a `w`-bit word is a `w`-bit word with the same popcount, and mirroring it back gives the word |
| Amir.MirrorTicket | amir/amir.cc:111-118 | the 49-bit mirror of a ticket is a ticket |
| Amir.SelfEquivalent | amir/amir.cc:95 | a ticket is equivalent to itself |
| Amir.AddedIndependent | amir/amir.cc:91-101 | adding keeps the set free of equivalent pairs |
| Amir.AddedCovers | amir/amir.cc:91-101 | after adding `p`, some member is equivalent to `p` |
| Amir.AddedKeeps | amir/amir.cc:91-101 | adding keeps every ticket covered that was covered before |
| Amir.AddedIff | amir/amir.cc:91-101 | `p` is appended exactly when no member is equivalent to it, and the set is unchanged exactly when some member is |
| Amir.AmirSet.constructor | amir/amir.cc:109 | the set starts empty |
| Amir.AmirSet.Add | amir/amir.cc:91-101 | the loop of `add_to_amir_set` leaves the set as `Added(old set, p)` |
| Amir.CountSplit | amir/amir.cc:116-122 | the number of words of popcount `j` in a range adds up over a split of the range |
| Amir.CountPowers | amir/amir.cc:25-27 | there are C(k, j) words of `k` bits with popcount `j` |
| Amir.TicketCount | amir/amir.cc:33 | there are `num_combinations` 49-bit words with popcount 6 |
| Amir.NoneBelowFirst | amir/amir.cc:113-114 | 63 is the least word with popcount 6 |
| Amir.CountStep | amir/amir.cc:116-122 | each round moves to the next word of popcount 6, so the count of such words below `a` goes up by one |
| Amir.RankBound | amir/amir.cc:116 | a word of popcount 6 with fewer than `num_combinations` such words below it is a 49-bit word |
| Amir.AllBelow | amir/amir.cc:116-122 | after `num_combinations` rounds every ticket lies below `a` |
| Amir.NoWrap | amir/amir.cc:119-120 | for a 49-bit word, `a + (a & -a)` does not wrap around 64 bits |
| Amir.MembersStep | amir/amir.cc:117-118 | adding a ticket and its mirror keeps the set independent and made of tickets |
| Amir.CoverStep | amir/amir.cc:116-122 | after a round, every ticket below the next word is covered |
| Amir.Start | amir/amir.cc:113-114 | coverage holds before the first round |
| Amir.Round | amir/amir.cc:116-122 | one round of `main`'s loop adds `a`, then its 49-bit mirror, each unless a member is equivalent to it, moves to Gosper's successor of `a`, and keeps the coverage invariant |
| Amir.GreedyStep | amir/amir.cc:116-122 | one round of the reference greedy set adds `a` and its mirror and moves to the successor |
| Amir.Cover | amir/amir.cc:103-122 | `main`'s set is exactly the greedy set `Greedy` built from the seed and its mirror over the `num_combinations` tickets in increasing order; it is made of tickets, holds no two equivalent tickets, and covers every ticket: each shares at least three numbers with some member |
| Amir.SeedTicket | amir/amir.cc:108 | the seed `0b111111000000000000000000` is a ticket |
| NthRoot.PowerAdd | math/nthroot.cpp:28-49 | `b^(x+y) == b^x * b^y`, the law the binary method rests on |
| NthRoot.PowerSquare | math/nthroot.cpp:36-37 | squaring the base halves the exponent |
| NthRoot.ExptStep | math/nthroot.cpp:55-60 | one halving of `k` keeps `result * power_factor^k` unchanged |
| NthRoot.FastExpt | math/nthroot.cpp:50-62 | `fast_expt(n, k)` is `n^k` for positive `k` and 1 when `k <= 0` |
| NthRoot.TimesQIsMul | math/nthroot.cpp:83-84 | adding entries as in the comment is the product with `[1 1; 1 0]` |
| NthRoot.QPowFib | math/nthroot.cpp:74-78 | `[1 1; 1 0]^n == [f(n+1) f(n); f(n) f(n-1)]` for `n >= 1` |
| NthRoot.MulQAssoc | math/nthroot.cpp:80-84 | multiplying by `[1 1; 1 0]` on the right commutes with a product on the left |
| NthRoot.QPowAdd | math/nthroot.cpp:96-107 | `Q^m * Q^n == Q^(m+n)`, which makes the `n += rhs.n` bookkeeping of `*=` correct |
| NthRoot.Fmatrix.constructor | math/nthroot.cpp:88-95 | a default Fmatrix is `[1 1; 1 0]` with `n = 1`, and it is valid (it holds `Q^n`) |
| NthRoot.Fmatrix.MulAssign | math/nthroot.cpp:98-107 | `*=` stores the matrix product with `rhs`, which may be the same matrix, adds `rhs.n` to `n`, and keeps an Fmatrix holding `Q^n` |
| NthRoot.ValidFib | math/nthroot.cpp:77-78 | a valid Fmatrix holds `f(n+1)`, `f(n)`, `f(n)` and `f(n-1)` |
| NthRoot.RowsIncreasing | math/nthroot.cpp:144-163 | the printed rows are in strictly increasing order of `n` |
| NthRoot.LowBits | math/nthroot.cpp:146-147 | reading bit `i` of `k` moves it from the bits still to read to the bits read so far, and adds it to their count |
| NthRoot.Record | math/nthroot.cpp:148-161 | at a set bit, `f *= power_factor`, and the row printed holds `f(n+1)` and `f(n)` for the new `n` |
| NthRoot.Pass | math/nthroot.cpp:144-162 | one pass of the loop body: a set bit adds `power_factor`'s power to `f` and prints its row, a clear bit leaves `f` and the rows alone, and `power_factor` doubles its power |
| NthRoot.RowPowersShape | math/nthroot.cpp:140-163 | the reference table has one row per set bit of the exponent, in increasing order of `n`, the last at the full power |
| NthRoot.RowPowersOnes | math/nthroot.cpp:142-163 | an exponent of `m` ones prints the powers `2, 4, ..., 2^m` |
| NthRoot.PrintStep | math/nthroot.cpp:146-162 | one bit moves the first entry still to come into the printed rows when it is set |
| NthRoot.ReadingStep | math/nthroot.cpp:144-162 | one pass keeps the loop state: bits read and still to read, the power of `f`, and the rows printed followed by the rows to come |
| NthRoot.TableShape | math/nthroot.cpp:140-163 | rows whose powers are the reference table are in order and end at power `1 + k` |
| NthRoot.PowersAt | math/nthroot.cpp:154-156 | entry `j` of the printed powers is row `j`'s `n` |
| NthRoot.FibTable | math/nthroot.cpp:140-163 | the loop leaves `f` at power `1 + k` holding `f(n+1)` and `f(n)`, after printing one row per set bit of `k`, in increasing order of `n`; row `j` is printed at the `j`-th set bit `b` and shows `n = 1 + (k mod 2^(b+1))`, as the reference table `Printed(k)` lists |
| NthRoot.MainTable | math/nthroot.cpp:139-163 | with `k = 2047`, `f` ends at power 2048 after eleven rows, for `n = 2, 4, ..., 2048` |
| NthRoot.LimitRows | math/nthroot.cpp:142-163 | the reference table for `k = 2047` is `2, 4, ..., 2048` |
| NthRoot.LimitBits | math/nthroot.cpp:142 | 2047 has eleven bits set |
| PrimeHeap.Succsq | math/prime_heap.cpp:61-69 | the loop of `succsq` squares `n` once per unit of `k`, in 64-bit arithmetic |
| PrimeHeap.PowSquare | math/prime_heap.cpp:61-69 | `(b*b)^e == b^(2e)` |
| PrimeHeap.SquaredIsPower | math/prime_heap.cpp:61-69 | when `n^(2^k)` fits in 64 bits, `succsq(n, k)` is `n^(2^k)` |
| PrimeHeap.NewPrimePower | math/prime_heap.cpp:71-79 | `Prime_power(p, k)` holds `p`, exponent `1 << k == 2^k` and the value `succsq(p, k)`, which is `p^(2^k)` when it fits |
| PrimeHeap.RootIsLeast | math/prime_heap.cpp:92-106 | in heap order on `1..n` the root is no greater, by `operator<`, than any element |
| PrimeHeap.SwapInRange | math/prime_heap.cpp:159-162 | exchanging two elements keeps the multiset of elements |
| PrimeHeap.MoveHole | math/prime_heap.cpp:199-228 | moving an element into the hole and the hole to its place keeps the multiset of elements |
| PrimeHeap.RisingStep | math/prime_heap.cpp:159-162 | moving the hole up past a greater parent keeps the sift-up invariant; the sentinel stops it before index 1 is passed |
| PrimeHeap.RisingEnd | math/prime_heap.cpp:163 | storing the new element where its parent is no greater restores heap order |
| PrimeHeap.RisingStart | math/prime_heap.cpp:157-158 | pushing a slot and incrementing `heapsize` starts the sift-up with the hole at the end |
| PrimeHeap.Heap.constructor | math/prime_heap.cpp:120-121 | a new heap holds only the sentinel `Prime_power(1, 0)` and has `heapsize` 0 |
| PrimeHeap.Heap.Empty | math/prime_heap.cpp:124-127 | `empty()` holds exactly when the heap has no elements |
| PrimeHeap.Heap.Insert | math/prime_heap.cpp:138-164 | `insert` adds one element and one slot, keeps heap order, and leaves the old elements plus the new one; an element no less than its parent stays at the end |
| PrimeHeap.Heap.Pop | math/prime_heap.cpp:166-231 | (corrected) `pop` returns the root, which is the minimum, decrements `heapsize`, keeps heap order and the slot count, and leaves the old elements less the returned one |
| PrimeHeap.Heap.PopAsWritten | math/prime_heap.cpp:166-231 | `pop` as written returns the root, which is the minimum, decrements `heapsize`, and leaves the vector as `SiftDownAsWritten` does; heap order holds in every branch, and the elements are the old ones less the root except in the one-child branch, which drops `temp` and leaves a second copy of the element at the last slot |
| PrimeHeap.SiftUp | math/prime_heap.cpp:159-163 | the sift-up loop restores heap order and places the new element, keeping the multiset |
| PrimeHeap.SinkingStart | math/prime_heap.cpp:197-199 | taking the root out and the last element into `temp` starts the sift-down with the hole at 1; the root is the minimum |
| PrimeHeap.SinkingStep | math/prime_heap.cpp:218-229 | moving the smaller of two children up keeps the sift-down invariant |
| PrimeHeap.SinkingStore | math/prime_heap.cpp:204-220 | storing `temp` where no child is smaller restores heap order |
| PrimeHeap.SinkingLast | math/prime_heap.cpp:208-216 | in the one-child case, moving the child up and then storing `temp` in the child's place restores heap order |
| PrimeHeap.SiftDown | math/prime_heap.cpp:197-230 | the corrected sift-down restores heap order and keeps the multiset of elements with `temp` at the root |
| PrimeHeap.SiftDownAsWritten | math/prime_heap.cpp:201-230 | the sift-down as written changes no slot beyond the last element, except the one it writes |
| PrimeHeap.SiftDownAsWrittenOrders | math/prime_heap.cpp:197-230 | the sift-down as written restores heap order in every branch, the one-child branch included |
| PrimeHeap.SiftDownAsWrittenCounts | math/prime_heap.cpp:197-230 | the sift-down as written keeps the elements with `temp` in the hole, except in the one-child branch, where `temp` is replaced by a second copy of the last element |
| PrimeHeap.MoveHoleWhole | math/prime_heap.cpp:212-214 | copying a child into the hole and moving the hole to that child keeps the elements, with `temp` counted in the hole |
| PrimeHeap.SinkingDrop | math/prime_heap.cpp:208-216 | in the one-child branch as written, copying the child into the hole keeps heap order |
| PrimeHeap.PopAsWrittenKeeps | math/prime_heap.cpp:166-231 | `pop` as written keeps heap order, returns the minimum, and keeps the elements less the root except that a dropped `temp` is replaced by a copy of the element at the new last slot |
| PrimeHeap.PopAsWrittenCounts | math/prime_heap.cpp:197-230 | on any vector, the elements after `pop` as written are the old ones less the root, or with `temp` traded for a copy of the element at the new last slot when `temp` is dropped |
| PrimeHeap.SinkAsWritten | math/prime_heap.cpp:199-230 | the loop as written computes `SiftDownAsWritten` |
| PrimeHeap.PopAsWrittenLosesLast | math/prime_heap.cpp:208-216 | on the heap holding 2, 3 and 4, `pop` as written leaves `[3, 3]`: the 4 is lost |
| PrimeHeap.ThreeInserts | math/prime_heap.cpp:138-164 | inserting 2, 3 and 4 into a new heap builds `[sentinel, 2, 3, 4]` |
| PrimeHeap.PopAfterThreeInserts | math/prime_heap.cpp:166-231 | after those inserts, the corrected `pop` keeps 3 and 4 where `pop` as written keeps 3 and 3 |
| PrimeHeap.PrimesBelowExactly | math/prime_heap.cpp:257-259 | `PrimesBelow(n)` holds exactly the primes below `n`, in ascending order |
| PrimeHeap.SurvivesAll | math/prime_heap.cpp:252-255 | an index that survives crossing out by every `p < n` is prime |
| PrimeHeap.CompositeCrossed | math/prime_heap.cpp:252-255 | multiples of a crossed-out number are already crossed out, so skipping it loses nothing |
| PrimeHeap.PrimeSieve.constructor | math/prime_heap.cpp:239-244 | a sieve of `N` bits starts all clear, with no primes |
| PrimeHeap.PrimeSieve.Build | math/prime_heap.cpp:246-260 | `build` leaves exactly the primes set in the bit vector and appends all primes below `N` in ascending order |
| PrimeHeap.PrimeSieve.SetAll | math/prime_heap.cpp:248-251 | all bits are set, then 0 and 1 are reset |
| PrimeHeap.PrimeSieve.CrossOutAll | math/prime_heap.cpp:252-255 | the outer loop crosses out the proper multiples of every surviving `p` |
| PrimeHeap.PrimeSieve.CrossOutMultiples | math/prime_heap.cpp:253-255 | one surviving `p` has its multiples `2p, 3p, ...` below `N` crossed out |
| PrimeHeap.PrimeSieve.Collect | math/prime_heap.cpp:257-259 | the collecting loop appends the set indices in ascending order, which are exactly the primes |
| PrimeHeap.PrimeSieve.CrossOut | math/prime_heap.cpp:254-255 | `sieve.reset(k*p)` crosses out exactly `k*p` |
| PrimeHeap.ModMul | math/prime_heap.cpp:290 | multiplying in 64 bits step by step is the product modulo 2^64 |
| PrimeHeap.CountAppend | math/prime_heap.cpp:296-302 | counting a character distributes over concatenation |
| PrimeHeap.FactorsCount | math/prime_heap.cpp:293-304 | the rendered factorisation has one `(` per factor inserted |
| PrimeHeap.Accumulator.constructor | math/prime_heap.cpp:277-284 | a new accumulator has no factors and value 1 |
| PrimeHeap.Accumulator.Insert | math/prime_heap.cpp:286-291 | `insert` appends prime and exponent in lockstep and multiplies `value` by the inserted value modulo 2^64, so `value` stays the 64-bit product of the inserted values |
| PrimeHeap.Accumulator.ToString | math/prime_heap.cpp:293-304 | the text is `(p)` for exponent 1 and `(p^e)` otherwise, for each factor in order |
| Grading.Ratio | gu/main.cc:169-170 | `100.0 * num / den` is the finite quotient for a non-zero denominator, NaN for `0/0` and infinity otherwise |
| Grading.Below50Ratio | gu/main.cc:169-177 | `final < 50.0` holds exactly when twice the score is below the norm total |
| Grading.AddPercent | gu/main.cc:170 | adding to the class accumulator keeps a NaN a NaN and adds finite values |
| Grading.Mean | gu/main.cc:216 | the class average is the accumulator over the sample size; an empty sample gives NaN or infinity, and a NaN accumulator gives NaN |
| Grading.MakeHeader | gu/main.cc:108-115 | the header is the first row with `ordinal` turned into `#` and every other cell upper-cased, then `TOTAL` and `SCORE` |
| Grading.NormRow | gu/main.cc:117-119 | the norms are row `norm_row_index` without its first `student_info_columns` cells; `at` throws `out_of_range` exactly when that row does not exist |
| Grading.MakeSubheader | gu/main.cc:121-125 | the subheader is a blank per student-information column, `/` and the norm for each test, then a blank and `/100` |
| Grading.ScoreCell | gu/main.cc:153-163 | one pass of the inner loop keeps the number of per-test sums and counts |
| Grading.ScoreCells | gu/main.cc:143-164 | the passes of the inner loop keep the number of per-test accumulators |
| Grading.ScoreStudent | gu/main.cc:137-164 | the inner loop for one student is the fold `ScoreCells` over as many passes as the shortest of its four ranges allows, from zero totals and the carried test accumulators |
| Grading.PassContinues | gu/main.cc:143-164 | a pass that gets past its cell extends the fold by one step |
| Grading.PassStops | gu/main.cc:159-162 | a pass at a non-integer cell stops `main` and ends the fold |
| Grading.ExitStays | gu/main.cc:159-162 | once `main` stops, the later passes do not run |
| Grading.ModAdd | gu/main.cc:155-157 | adding in 32 bits step by step is the sum modulo 2^32 |
| Grading.ExpectedStep | gu/main.cc:153-158 | one pass over a cell that gets past the loop moves the closed form of `m - 1` cells to that of `m` cells, whether the cell counts or not |
| Grading.ExpectedStepCounted | gu/main.cc:154-158 | a pass over an integer cell adds the score to `score_total` and the test's sum, the norm to `norm_total`, and one to the test's count |
| Grading.ScoreCellsTotals | gu/main.cc:143-164 | when every cell gets past the loop, the fold ends in the closed form: the totals are the 32-bit sums of the counted scores and norms, each test's sum grows by its score and its count by one exactly when its cell counts |
| Grading.ScoreCellsStops | gu/main.cc:153-163 | the first cell the loop cannot get past decides how `main` stops (`CellFailure` of that cell and its norm), whatever follows it |
| Grading.StudentResult | gu/main.cc:166-181 | an all-`NA` student gets `["NA", "NA"]`; any other gets `score/norm`, the formatted percentage, and `*` exactly when twice the score is below the norm |
| Grading.AfterStudent | gu/main.cc:166-181 | after a student, the test accumulators are the fold's and exactly one result row is appended |
| Grading.ScoreClass | gu/main.cc:130-182 | the outer loop over student rows computes the fold `ScoreStudents` from zero accumulators |
| Grading.StudentContinues | gu/main.cc:135-182 | a student whose fold ends normally extends the outer fold by one step |
| Grading.StudentStops | gu/main.cc:159-162 | once a student stops `main`, the later students are not scored |
| Grading.ClassDone | gu/main.cc:130-182 | when every visited cell of the students gets past the loop, the fold ends normally with one accumulator per column of the first row |
| Grading.ClassTotals | gu/main.cc:130-182 | then each student's result row comes from the 32-bit sums of its own counted cells |
| Grading.ExpectedResultsStep | gu/main.cc:135-182 | the result rows grow by one student at a time |
| Grading.StudentDone | gu/main.cc:135-182 | a student whose cells all get past the loop moves the class state to `NextClass` |
| Grading.StudentTally | gu/main.cc:137-164 | such a student's fold ends in the closed form |
| Grading.ExpectedBounded | gu/main.cc:130-132 | the test accumulators stay `unsigned int` values |
| Grading.ClassAverage | gu/main.cc:166-171 | every student adds one row; only students with some score other than `NA` add to the sample size; the accumulated percentage stays non-negative, and once NaN it stays NaN |
| Grading.StudentStep | gu/main.cc:135-182 | the outer pass over one student, when it ends normally |
| Grading.ClassRows | gu/main.cc:166-181 | the result rows of the class are the rows before plus one of two or three cells per student |
| Grading.ClassCount | gu/main.cc:171 | the sample size counts the students with some score other than `NA`, in 32 bits |
| Grading.ClassPercent | gu/main.cc:169-170 | the accumulated percentage stays non-negative and a NaN stays NaN |
| Grading.AverageStep | gu/main.cc:166-181 | one student keeps the accumulated percentage non-negative and adds a row of two or three cells |
| Grading.ClassStops | gu/main.cc:159-162 | the first cell of the first student that cannot get past the loop decides how `main` stops |
| Grading.CountedCell | gu/main.cc:154-158 | an integer cell with a 32-bit value and a 32-bit norm is counted with both values |
| Grading.MissingCell | gu/main.cc:153 | an `NA` cell is passed and counts nothing |
| Grading.SumsOfFour | gu/main.cc:143-164 | over four tests the sums are the sums of the four cells |
| Grading.ThreeResults | gu/main.cc:135-182 | the first three result rows, each from its own totals |
| Grading.ResultOf | gu/main.cc:168-180 | the result row of a student with some score present |
| Grading.Numerals4050 | gu/test_gu.cc:58-66 | the test cells `40`, `50` and `0` are integers with those values |
| Grading.FullRowTotals | gu/test_gu.cc:68-74 | four scores of 40 at norms of 50 total 160 out of 200 |
| Grading.GappedRowTotals | gu/test_gu.cc:76-82 | `NA, 40, NA, 40` totals 80 out of 100 |
| Grading.ZeroRowTotals | gu/test_gu.cc:92-98 | four zeros total 0 out of 200 |
| Grading.TotalsWritten | gu/test_gu.cc:68-98 | the totals are written `160`, `200`, `80`, `100` and `0` |
| Grading.VectorRows | gu/test_gu.cc:68-98 | the three result rows are `160/200` and `80/100`, both at 80% with no star, and `0/200` at 0% with a star |
| Grading.FullRowResult | gu/test_gu.cc:68-74 | the result row for `40, 40, 40, 40` |
| Grading.GappedRowResult | gu/test_gu.cc:76-82 | the result row for `NA, 40, NA, 40` |
| Grading.ZeroRowResult | gu/test_gu.cc:92-98 | the result row for `0, 0, 0, 0` |
| Grading.NotAllNa | gu/test_gu.cc:84-90 | only the `NA, NA, NA, NA` row is all `NA` |
| Grading.VectorsOk | gu/test_gu.cc:68-98 | every cell of the three scored rows gets past the loop |
| Grading.VectorTotals | gu/test_gu.cc:68-98 | the totals of the three scored rows |
| Grading.VectorResults | gu/test_gu.cc:68-98 | the closed-form result rows of the three scored rows |
| Grading.ScoreVectors | gu/test_gu.cc:68-98 | at norms 50, 50, 50, 50, the class fold over the three rows ends normally with the rows `160/200`, `80/100` and `0/200 *` |
| Grading.MissingRowOk | gu/test_gu.cc:84-90 | the all-`NA` row gets past the loop |
| Grading.SampleRowsOk | gu/test_gu.cc:111-121 | every cell of the sample rows gets past the loop |
| Grading.SampleSize | gu/test_gu.cc:111-121 | a student whose every score is `NA` gets a two-cell row and stays out of the sample size |
| Grading.SampleDone | gu/test_gu.cc:111-121 | the fold over the sample rows ends normally |
| Grading.MiddleMissing | gu/main.cc:166-171 | with the middle one of three students all `NA`, the sample size is 2 and there are three rows |
| Grading.ThreeScored | gu/main.cc:171 | the sample size of three students counts those not all `NA` |
| Grading.NothingCounted | gu/main.cc:153 | with every visited cell missing nothing is counted |
| Grading.AllMissingOk | gu/main.cc:153 | a row of `NA` and `na` cells gets past the loop with zero totals |
| Grading.UnscoredStudent | gu/gu.cc:60-86 | a student whose scores are all `na` is not all `NA`, so it enters the class average with `0/0`: the accumulator becomes NaN and the sample size grows |
| Grading.LowerNaClass | gu/main.cc:166-216 | after an all-`NA` student and an all-`na` student, the rows are `["NA","NA"]` and `0/0` with a NaN percentage, and the class average is NaN |
| Report.Dropped | gu/main.cc:102-106 | every row keeps its length less one and is its old first cell followed by the new row |
| Report.DropFirst | gu/main.cc:102-106 | the loop that erases the first cell of every row, in place, leaves `Dropped` of the table |
| Report.StatCellsNext | gu/main.cc:207-214 | a statistic whose norm converts appends `100 * sum / (count * norm)`, the product cut to 32 bits |
| Report.StatCellsThrow | gu/main.cc:212 | a statistic whose norm does not convert throws that conversion's exception |
| Report.StatCellsDone | gu/main.cc:205-214 | the statistics are computed exactly when every norm they read converts, one per test, each the test's sum over its sample size times its norm |
| Report.StatCellsFail | gu/main.cc:205-214 | otherwise the loop throws the exception of the first norm that fails to convert |
| Report.StatCellsStop | gu/main.cc:205-214 | once a statistic throws, the later tests are not reached |
| Report.StatsLoop | gu/main.cc:200-214 | the loop over the tests stops at the end of the shortest of the sums, the sample sizes and the norms, and appends the statistics to its leading cells or throws as `StatCells` does |
| Report.MakeStats | gu/main.cc:200-217 | the statistics row is the blanks, the statistics, a blank and the class average, as `StatsRow` defines |
| Report.BlankWidths | gu/main.cc:190-198 | a one-row grid of blanks is one character wide in every column |
| Report.TopBlankShape | gu/main.cc:190-198 | `top_blank` is one row of `n_cols()` blanks, each column one wide, aligned right, then left under the other student-information columns, then right |
| Report.PlusOneRow | gu/main.cc:190-198 | `+` of two one-row sheets joins their row, widths and alignments |
| Report.MakeTopBlank | gu/main.cc:190-198 | the three `Sheet` constructions and their `+` give a fresh sheet holding `TopBlank` |
| Report.Widens | gu/main.cc:220-226 | stacking under a well-formed non-empty sheet keeps it well-formed, non-empty and no narrower |
| Report.StackNarrower | gu/main.cc:220-226 | stacking a sheet no wider than the upper one adds its rows padded below, keeps the upper alignments, and the widths span the upper columns |
| Report.ReportRows | gu/main.cc:220-226 | when the header, subheader and statistics rows are no wider than `top_blank`, the report keeps `top_blank`'s alignments and its rows are `top_blank`, header, subheader, `top_blank`, body, `top_blank` and statistics, each padded to the first row |
| Report.RenderCellsAgree | gu/sheet.cc:223-239 | writing a row reads only as many of its cells as there are columns |
| Report.ReportBodyRow | gu/main.cc:220-226 | row `4 + k` of the report is body row `k` padded to the width of `top_blank` |
| Report.LongRowCut | gu/main.cc:184-226 | a body row longer than the body's first row is written without its extra cells, so after an all-`NA` first student the other students' `*` markers are dropped from the report |
| Report.ScoreOk | gu/main.cc:117-182 | a scoring that ends normally leaves one result row of two or three cells per student and a non-negative class accumulator |
| Report.BodyRows | gu/main.cc:184 | body row `k` is student row `k` followed by that student's result, so every body row has at least `student_info_columns + 2` cells |
| Report.SortThrowsWhen | gu/main.cc:185-188 | sorting by the ordinal never throws; sorting by the percentage column `n_cols() - 2` throws exactly when there are two or more rows and some row stops short of that column |
| Report.PermutedFirstRow | gu/main.cc:185-188 | a reordering of rows that all have at least `n` cells keeps the number of rows and has a first row with at least `n` cells |
| Report.Grade | gu/main.cc:101-228 | one class sheet becomes its report text, or stops `main` where the source does: at the norm row (a sheet without it, such as a header-only sheet, throws `out_of_range`), a score cell, the sort, a norm in the statistics or the year of the file name |
| Report.NormRowMissing | gu/main.cc:117-119 | a sheet with no row at `norm_row_index` stops with the `out_of_range` of `table.at` |
| Report.HeaderOnlySheet | gu/main.cc:117-119 | a sheet that is only its header row is accepted as input and stops with `out_of_range` |
| Report.Publish | gu/main.cc:108-228 | once the class is scored: an `out_of_range` from the sort when `SortThrows`, otherwise a reordering of the body as the sort option asks, then the statistics, the meta-data line and the stacked sheet |
| Report.MakeBody | gu/main.cc:184 | `Sheet(student_record) + Sheet(student_result)` is a fresh sheet holding `Body` |
| Report.Conclude | gu/main.cc:190-226 | `top_blank`, the statistics, the meta-data line and the stacked sheet after the sort give `Finish` of the sorted rows |
| Report.Stack | gu/main.cc:220-226 | the text of the stacked sheet is the rendering of `ReportLayout` |
| Numerals.DigitChar | gu/main.cc:172-174 | the digit written for a value below ten reads back as that value |
| Numerals.NatToString | gu/main.cc:172-174 | `std::to_string` of an unsigned value is a canonical numeral whose value is the number |
| Numerals.DecimalValueBound | gu/gu.cc:72-76 | a canonical numeral of two or more digits is worth at least ten |
| Numerals.NatToStringOfValue | gu/gu.cc:72-76 | reading a canonical numeral and writing its value gives the numeral back |
| Numerals.NatToStringAppend | gu/main.cc:172-174 | appending a digit to the numeral of a positive value writes ten times the value plus the digit |
| Numerals.NatToStringInjective | gu/main.cc:172-174 | different values are written differently |
| Anagrams.ToLower | natural-language/anagrams.cpp:85-100 | `std::tolower` turns a letter into a lower-case letter and keeps every character that is not an upper-case letter |
| Anagrams.SlotInjective | natural-language/anagrams.cpp:54-60 | distinct key characters increment distinct slots of the key |
| Anagrams.CountMultiset | natural-language/anagrams.cpp:54-60 | the count of a character in a word is its multiplicity |
| Anagrams.Key | natural-language/anagrams.cpp:43-61 | a key has 28 entries |
| Anagrams.KeyAppend | natural-language/anagrams.cpp:54-60 | one more character increments its own slot modulo 256 and no other |
| Anagrams.MakeAnagramKey | natural-language/anagrams.cpp:50-61 | `make_anagram_key` leaves the array holding `Key(word)`: zeroed, then one increment per character |
| Anagrams.SumCounts | natural-language/anagrams.cpp:54-60 | the unwrapped counts of a word of key characters add up to its length |
| Anagrams.NoWrap | natural-language/anagrams.cpp:43-60 | a word shorter than 256 characters never wraps a `uint8_t` slot |
| Anagrams.KeySum | natural-language/anagrams.cpp:54-60 | the entries of the key of such a word add up to its length |
| Anagrams.KeyAnagram | natural-language/anagrams.cpp:29-61 | two such words have the same key exactly when they are anagrams, that is the same multiset of characters |
| Anagrams.ScanPrefix | natural-language/anagrams.cpp:80-122 | the scan is inside a word exactly after a letter, or a joiner between two letters |
| Anagrams.RunStart | natural-language/anagrams.cpp:82-103 | a word runs from a position not preceded by a word character |
| Anagrams.Lowered | natural-language/anagrams.cpp:85-100 | the lower-cased word keeps its length and lower-cases every character |
| Anagrams.ScanWord | natural-language/anagrams.cpp:82-103 | inside a word, the word being built is the lower-cased run so far |
| Anagrams.ScanSound | natural-language/anagrams.cpp:105-121 | every word recorded is the empty word or a word closed before the current position |
| Anagrams.ScanComplete | natural-language/anagrams.cpp:105-121 | every word closed by a character before the current position has been recorded |
| Anagrams.SingleWordLost | natural-language/anagrams.cpp:80-122 | a line that is one word ends the scan with the word built and nothing recorded |
| Anagrams.ScanAsWritten | natural-language/anagrams.cpp:73-122 | the scan of one line as the source writes it computes `ScanPrefix` of the whole line |
| Anagrams.Tokenize | natural-language/anagrams.cpp:73-122 | the corrected scan returns the recorded words and then the word still open at the end of the line |
| Anagrams.TokensComplete | natural-language/anagrams.cpp:80-122 | the corrected tokens hold every word of the line, and every token is a word of the line or the empty word |
| Anagrams.RunShape | natural-language/anagrams.cpp:82-103 | every word of a line is made of lower-case letters, with joiners only between letters |
| Anagrams.TokensKeyChars | natural-language/anagrams.cpp:50-61 | every token has only characters with a slot in the key, so `key[ch-97]` stays in the array |
| Anagrams.InsertOk | natural-language/anagrams.cpp:111-119 | recording keeps every group free of repeats, non-empty, and each word of the set in the group of its key |
| Anagrams.InsertWords | natural-language/anagrams.cpp:111-112 | recording adds the word to the set, and changes nothing when it is already there |
| Anagrams.InsertGroups | natural-language/anagrams.cpp:113-118 | after recording, the word is in the group of its key and every group keeps its earlier words in order |
| Anagrams.Elements | natural-language/anagrams.cpp:67 | the set of the words of a sequence |
| Anagrams.InsertAllOk | natural-language/anagrams.cpp:111-119 | recording a sequence of words adds exactly its words to the set and keeps the index well formed |
| Anagrams.Corpus.constructor | natural-language/anagrams.cpp:66-67 | the set and the map start empty |
| Anagrams.Corpus.Record | natural-language/anagrams.cpp:111-119 | the recording step updates the set and the map in place as `Insert` does |
| Anagrams.Corpus.AddLine | natural-language/anagrams.cpp:73-122 | (corrected) one line records its tokens in order, the word still open at the end included |
| Anagrams.Corpus.AddLineAsWritten | natural-language/anagrams.cpp:73-122 | one line as written records, in order, only the words its scan closed |
| Anagrams.InsertAllAppend | natural-language/anagrams.cpp:71-123 | recording the words of one line and then another is recording both in order |
| Anagrams.ReadCorpus | natural-language/anagrams.cpp:71-123 | (corrected) after reading every line, the set holds exactly the tokens of the text and the index is well formed |
| Anagrams.ReadCorpusAsWritten | natural-language/anagrams.cpp:71-123 | as written, after reading every line the set holds exactly the words the scans closed, and the index is well formed |
| Anagrams.OneWordLinesLost | natural-language/anagrams.cpp:80-122 | a text whose lines are single words records nothing as written, while the corrected reading holds every one of those words |
| Anagrams.NewLine | natural-language/anagrams.cpp:131-133 | a word that does not fit starts a new line one word wide |
| Anagrams.SameLine | natural-language/anagrams.cpp:134-136 | a word that fits is added to the last line, which grows by its length plus one |
| Anagrams.PlaceWord | natural-language/anagrams.cpp:130-137 | placing a word keeps the layout ragged and the tracked width that of the last line, and adds the word at the end |
| Anagrams.PlaceGroup | natural-language/anagrams.cpp:130-138 | placing a group adds its words in order |
| Anagrams.Display | natural-language/anagrams.cpp:125-140 | the display is a ragged layout of exactly the words of the groups of more than one word, in key order |
| Anagrams.PrintedGroups | natural-language/anagrams.cpp:128-130 | a word is shown exactly when it is in a group of more than one word |
| Anagrams.ShownHasAnagram | natural-language/anagrams.cpp:111-139 | a shown word is in the set together with another word of the same key |
| Anagrams.AnagramShown | natural-language/anagrams.cpp:111-139 | a word of the set that shares its key with another word of the set is shown |
| Anagrams.ShownIffAnagram | natural-language/anagrams.cpp:111-139 | the display shows exactly the words of the set that have an anagram in it |
| Markov.IndexOf | natural-language/markov_text.cpp:33-67 | `get_next` picks a slot below 31 whose symbol in `character_set` is the character itself |
| Markov.IndexToChar | natural-language/markov_text.cpp:94-98 | `index_to_char` of a slot is one of the 31 symbols |
| Markov.SlotRoundTrip | natural-language/markov_text.cpp:53-98 | the slot of the symbol of a slot is that slot |
| Markov.IndexInjective | natural-language/markov_text.cpp:53-67 | distinct symbols branch to distinct slots |
| Markov.TallyCounts | natural-language/markov_text.cpp:142-153 | a walk along `w` adds one to the frequency of exactly the nodes at the non-empty prefixes of `w`, creating the missing ones |
| Markov.WindowStep | natural-language/markov_text.cpp:139-156 | one more character adds at most the window of length `N` that it ends |
| Markov.WindowLength | natural-language/markov_text.cpp:141-153 | only paths of at most `N` characters are counted |
| Markov.WindowMonotone | natural-language/markov_text.cpp:142-153 | frequencies do not grow going down the trie |
| Markov.WindowTotal | natural-language/markov_text.cpp:139-156 | the windows counted in a text of length `L` are `L - N + 1`, or none when the text is shorter |
| Markov.TrieBuilder.constructor | natural-language/markov_text.cpp:138 | a builder over a fresh root holds no characters and only the root, with frequency zero |
| Markov.TrieBuilder.Walk | natural-language/markov_text.cpp:142-153 | the walk from the root along the key updates the trie as `Tally` does and nothing else |
| Markov.TrieBuilder.Feed | natural-language/markov_text.cpp:139-156 | `operator()` keeps the builder valid: it holds the last `N - 1` characters, and every node but the root exists exactly for the paths some window of length `N` starts with, holding how many do |
| Markov.NodeStep | natural-language/markov_text.cpp:141-155 | after one character a node exists exactly for a path that starts some window of the longer text, and holds that count |
| Markov.PendingStep | natural-language/markov_text.cpp:140-154 | a character completes a window exactly when `N` characters are then pending, and that window is the last `N` fed |
| Markov.BuildTrie | natural-language/markov_text.cpp:137-156 | feeding a whole text leaves a valid builder that has been fed exactly that text |
| Markov.FindSpace | natural-language/markov_text.cpp:401-405 | `find(' ')` is the first space, or `npos` exactly when there is no space |
| Markov.SplitRoundTrip | natural-language/markov_text.cpp:405-447 | the space-terminated tokens and what is left rebuild the text |
| Markov.RestNoSpace | natural-language/markov_text.cpp:405 | what the loop leaves holds no space |
| Markov.TokensNoSpace | natural-language/markov_text.cpp:406 | no token holds a space |
| Markov.FirstTokenIgnored | natural-language/markov_text.cpp:400-402 | the first token is thrown out: replacing it leaves the rest unchanged |
| Markov.FixShape | natural-language/markov_text.cpp:408-420 | a fixed token keeps its length and all but its first character, which is upper-cased outside a sentence or for the pronoun `i` |
| Markov.FixEnd | natural-language/markov_text.cpp:408-423 | a fixed token ends in a period exactly when the token does, and holds a newline exactly when the token does |
| Markov.EmitToken | natural-language/markov_text.cpp:406-446 | one pass of the loop computes `Emit` of the state and the token |
| Markov.EmitAll | natural-language/markov_text.cpp:405-447 | the loop emits every space-terminated token in order and leaves the rest in `text` |
| Markov.Prettify | natural-language/markov_text.cpp:390-455 | `prettify` returns the prose of `Prettified` and leaves the fragment after the last space in `text`; a text with no space gives no prose and stays as it was |
| Markov.EmitSentence | natural-language/markov_text.cpp:423-443 | after a token the sentence is open exactly when the token does not end in a period, and a closed sentence leaves the prose ending in a blank line |
| Markov.RenderSentence | natural-language/markov_text.cpp:405-447 | the same holds after the whole loop for its last token |
| Markov.Ellipsis | natural-language/markov_text.cpp:449-452 | the prose ends in `...` exactly when some token follows the first one and the last token does not end in a period |
| Markov.Leftover | natural-language/markov_text.cpp:400-447 | what is left in `text` holds no space, ends the text, and follows a space unless the text has none |
| Markov.LineExtended | natural-language/markov_text.cpp:439-440 | writing text without a newline lengthens the last line by its length |
| Markov.LineAfterNewline | natural-language/markov_text.cpp:425-436 | after a newline the last line is what follows it |
| Markov.EmitLine | natural-language/markov_text.cpp:423-443 | `line_length` is the length of the last line written, as long as no token holds a newline, and it reaches `line_width` only for a line of one token |
| Markov.RenderLine | natural-language/markov_text.cpp:405-447 | over the whole loop `line_length` stays the length of the last line written |

## Left out

- Option parsing and I/O of `gu` (the `App` class, boost::program_options, the file checks and `ifstream` reading at gu/main.cc:24-100) are not modelled: `Grade` starts from the parsed table of one file, and its file name stem is a parameter.
- Writing the LaTeX file and printing the reports (gu/main.cc:231-239) are not modelled; `Gu.MakeLatexDoc` builds the text that would be written.
- `double_to_string` (gu/gu.cc:65-70) is an uninterpreted parameter `fmt`, and the percentages of gu/main.cc:169, 212 and 216 are exact quotients in the `Percent` datatype (a real, NaN or infinity) rather than IEEE doubles, so rounding is not modelled.
- The numeric sort of `sort_by_column` (gu/sheet.cc:258-264) orders rows through an abstract key standing for `atof`; `atof` itself is not modelled.
- `std::regex` in `is_valid_filename` (gu/gu.cc:88-95) is replaced by an explicit predicate for the pattern.
- `check_anomalies` (gu/gu.cc:120-132) has an empty body and is not modelled; `Computation` and `all_na` exist only in gu/test_gu.cc, whose vectors are restated against `Grading.ScoreStudents` instead.
- Grading.ClassTotals: closes the class fold for the result rows and the sample size only; the per-test class sums and counts are stated one student at a time (`Grading.StudentTally`), not in a closed form over the class.
- The record-level literal test vectors of gu/test_shrdlu.cc:133-193 are not restated one literal at a time; they are covered by the general round-trip lemmas such as `Shrdlu.RecordRoundTrip`.
- Shrdlu.Parser.ReadRecord, Shrdlu.Parser.ReadDocument: `read_record` and `read_document` are declared `bool` but flow off their end without a `return` (gu/shrdlu.cc:120-128 and 165-174), which is undefined behaviour in C++ on every call, through `operator>>` (lines 135-139 and 176-180) and through the call at line 170. The model returns no value from either and does not model that undefined behaviour; their callers ignore the value anyway.
- Shrdlu.Parser.ReadField: requires that a failed stream has also hit end of input; from a stream that failed without eof the source loop never ends, because `get` keeps returning EOF without setting eofbit.
- Amir.Binomial: does not model `int` overflow: `result *= n` wraps for large arguments. `main` never calls `binomial`; `num_combinations` (amir/amir.cc:33) is a constant, which `Amir.ChooseSixOfFortyNine` shows to be C(49, 6).
- The 14-million-entry array of `make_all_combinations` (amir/amir.cc:51-63) is not built; the Gosper step it applies and the covering loop over the same sequence are modelled.
- The boost timing and the bitset printing of amir (amir/amir.cc:105, 124-131) are not modelled.
- The `bigfloat` Newton iteration `nthroot`, the values of phi and the printing in math/nthroot.cpp:64-72, 120-135 and 150-160 are not modelled; `bigint` is Dafny's unbounded `int`.
- The `main` of math/prime_heap.cpp (306-368), which prints the A037992 table, and the `operator<<` functions are not modelled.
- Anagrams.KeySum: requires a word shorter than 256 characters, because the key is an array of `uint8_t` that wraps at 256 (`Anagrams.Key` models the wrap).
- Anagrams.KeyAnagram: requires words shorter than 256 characters, for the same reason.
- Anagrams.Tokenize: requires `SafeLine`, because the scan reads `*(it+1)` past the end of a line that ends in a joiner right after a letter (natural-language/anagrams.cpp:99), which is undefined behaviour.
- Markov.Prettify: requires `Prettifiable`, because `token[token.size()-1]` on an empty token (natural-language/markov_text.cpp:423) is undefined behaviour; `line_width` is taken as a `nat`.
- Markov.TrieBuilder.Feed: requires every character fed to be one of the 31 symbols, where the source asserts this only when a window is walked.
- The trie of linked `Node` objects in markov_text.cpp is a map from each root-to-node path to its frequency: the `next` arrays of addresses, `delete_trie` (natural-language/markov_text.cpp:101-123) and the memory it frees are not modelled.
- `Node::predict`, `Text_generator`, the random number generator and the option handling of markov_text.cpp (21-22, 70-89, 173-383) are not modelled: they are random or I/O.
- Report.Publish: the percentage sort compares `atof` of cells that `double_to_string` wrote, and a NaN percentage (`0 / 0`, a student scoring 0 against norms that sum to 0) makes that comparison a non-strict-weak order, with which `std::sort` has undefined behaviour; the model sorts by the abstract key as if it were a strict weak order.
- PrimeHeap.NewPrimePower: requires `k <= 30`, because `1 << k` (math/prime_heap.cpp:71-79) shifts an `int`, which is undefined behaviour from k = 31 on; `main` uses only small exponents.
- Report.Grade: requires `GradePre`, the conditions `main` (gu/main.cc:101-228) relies on without checking: a non-empty table, `student_info_columns >= 1` (`student_info_columns - 1` is unsigned), student information in the norm row and in every student row, and at least one student row; without them the source reads past the end of a vector, which is undefined behaviour. A missing norm row is checked, and is modelled.
- PrimeHeap.Heap.Insert: requires a value of at least 1, because the sentinel's value is 1 and a value 0 would pass it and loop at index 0 for ever (math/prime_heap.cpp:159-162); every prime power is at least 2.
- PrimeHeap.PrimeSieve.Build: requires `N >= 2`, because `reset(1)` on a bitset of fewer than two bits throws `out_of_range` (math/prime_heap.cpp:249-251).
- SheetAlgebra.Sheet.Filled: with zero rows the sheet has `c` widths and alignments and no row, as in the source, so it is not `WellFormed`; `FilledLayout` promises well-formedness only for `r >= 1`.
- Strings are sequences of characters, not bytes: the byte lengths that `setw` pads to (gu/sheet.cc:227) and that `word.length()` adds up in the anagram display (natural-language/anagrams.cpp:126-136) are character counts here, so multi-byte UTF-8 text is not modelled.

## Findings

| source | as written | input that shows it | evidently intended | confidence | as-written member | corrected member |
|---|---|---|---|---|---|---|
| math/prime_heap.cpp:212-215 | in the one-child branch of `pop`, the child moves up and the loop breaks without storing `temp` | insert the prime powers 2, 3 and 4, then pop: the heap holds `[3, 3]` and 4 is lost | store `temp` at the child's place, so that `pop` keeps every element but the one returned | not executed | PrimeHeap.Heap.PopAsWritten, PrimeHeap.PopAsWrittenLosesLast | PrimeHeap.Heap.Pop |
| natural-language/anagrams.cpp:80-122 | a word is recorded only when a character that does not belong to it follows it | the one-word line `listen`: the scan ends with nothing recorded | record the word still open at the end of the line | not executed | Anagrams.ScanAsWritten, Anagrams.Corpus.AddLineAsWritten, Anagrams.ReadCorpusAsWritten, Anagrams.SingleWordLost, Anagrams.OneWordLinesLost | Anagrams.Tokenize, Anagrams.TokensComplete, Anagrams.Corpus.AddLine (corrected), Anagrams.ReadCorpus (corrected) |
