// The cell predicates and string helpers of the grading tool: what counts as a
// score or as a missing score, upper-casing, `stoul`, the report title built
// from a file name, the file-name pattern, and the LaTeX wrapper.

module Gu {
  import opened Numerals

  /** Where the student columns, the header rows and the norm row are. */
  datatype Geometry = Geometry(studentInfoColumns: nat, numHeaderRows: nat, normRowIndex: nat)

  // ---------------------------------------------------------------------------
  // Cells.

  /** `is_integer`: a non-empty run of decimal digits. */
  predicate IsInteger(s: string)
  {
    |s| > 0 && AllDigits(s)
  }

  /** `is_na`: a missing score, written `NA` or `na`. */
  predicate IsNa(s: string)
  {
    s == "NA" || s == "na"
  }

  /** `all_scores_NA(v, pos)`: every cell from `pos` on is exactly `NA`. */
  function AllScoresNa(v: seq<string>, pos: nat): (r: bool)
    requires pos <= |v|
    ensures r <==> forall k :: pos <= k < |v| ==> v[k] == "NA"
    decreases |v| - pos
  {
    pos == |v| || (v[pos] == "NA" && AllScoresNa(v, pos + 1))
  }

  lemma CellTests()
    ensures IsInteger("12345") && !IsInteger("NA") && !IsInteger("zarf") && !IsInteger("123.45") && !IsInteger("")
    ensures IsNa("NA") && IsNa("na") && !IsNa("") && !IsNa("12345")
  {
    assert "NA"[0] == 'N' && "zarf"[0] == 'z' && "123.45"[3] == '.';
  }

  // ---------------------------------------------------------------------------
  // Upper-casing.

  /** `toupper` in the C locale. */
  function Upper(c: char): char
  {
    if 'a' <= c <= 'z' then ((c as int) - 32) as char else c
  }

  function Upcased(s: string): (u: string)
    ensures |u| == |s| && forall k :: 0 <= k < |s| ==> u[k] == Upper(s[k])
  {
    seq(|s|, k requires 0 <= k < |s| => Upper(s[k]))
  }

  /** Upper-casing leaves no lower-case letter and changes nothing else. */
  lemma UpcasedMeaning(s: string)
    ensures forall k :: 0 <= k < |s| ==> !('a' <= Upcased(s)[k] <= 'z')
    ensures forall k :: 0 <= k < |s| && !('a' <= s[k] <= 'z') ==> Upcased(s)[k] == s[k]
    ensures Upcased(Upcased(s)) == Upcased(s)
  {
  }

  lemma UpcasedAppend(a: string, b: string)
    ensures Upcased(a + b) == Upcased(a) + Upcased(b)
  {
  }

  /** `upcase_string`: upper-cases the string in place. */
  method UpcaseString(s: array<char>)
    modifies s
    ensures s[..] == Upcased(old(s[..]))
  {
    var i := 0;
    while i < s.Length
      invariant 0 <= i <= s.Length
      invariant forall k :: 0 <= k < i ==> s[k] == Upper(old(s[k]))
      invariant forall k :: i <= k < s.Length ==> s[k] == old(s[k])
    {
      s[i] := Upper(s[i]);
      i := i + 1;
    }
  }

  /** The upcase test: `zarf1999` becomes `ZARF1999`. */
  method UpcaseTest() returns (z: string)
    ensures z == "ZARF1999"
  {
    var a := new char[8];
    a[0], a[1], a[2], a[3], a[4], a[5], a[6], a[7] := 'z', 'a', 'r', 'f', '1', '9', '9', '9';
    assert a[..] == "zarf1999";
    UpcaseString(a);
    z := a[..];
  }

  // ---------------------------------------------------------------------------
  // `string_to_uint`: `stoul(str, 0, 10)` cast to 32 bits.

  datatype ConvError = InvalidArgument | OutOfRange

  datatype Result<T> = Success(value: T) | Failure(error: ConvError)

  const Two32: nat := 0x1_0000_0000
  const Two64: nat := 0x1_0000_0000_0000_0000

  /** `isspace` in the C locale. */
  predicate IsSpace(c: char)
  {
    c == ' ' || c == '\t' || c == '\n' || c == '\U{B}' || c == '\U{C}' || c == '\r'
  }

  /** The index of the first character at or after `i` that does not satisfy
      the test: leading white space, or a run of digits. */
  function SkipSpaces(s: string, i: nat): (j: nat)
    requires i <= |s|
    ensures i <= j <= |s| && (j == |s| || !IsSpace(s[j]))
    ensures forall k :: i <= k < j ==> IsSpace(s[k])
    decreases |s| - i
  {
    if i < |s| && IsSpace(s[i]) then SkipSpaces(s, i + 1) else i
  }

  function SkipDigits(s: string, i: nat): (j: nat)
    requires i <= |s|
    ensures i <= j <= |s| && (j == |s| || !IsDigit(s[j]))
    ensures AllDigits(s[i..j])
    decreases |s| - i
  {
    if i < |s| && IsDigit(s[i]) then SkipDigits(s, i + 1) else i
  }

  /** `string_to_uint`: white space, an optional sign and the longest run of
      digits after it; no digit throws `invalid_argument`, a magnitude past 64
      bits throws `out_of_range`, a minus sign negates modulo 2^64, and the cast
      keeps the low 32 bits. */
  function StringToUint(s: string): Result<nat>
  {
    var i := SkipSpaces(s, 0);
    var neg := i < |s| && s[i] == '-';
    var start := if i < |s| && (s[i] == '+' || s[i] == '-') then i + 1 else i;
    var end := SkipDigits(s, start);
    if end == start then Failure(InvalidArgument)
    else
      var m := DecimalValue(s[start..end]);
      if m >= Two64 then Failure(OutOfRange)
      else
        var u := if neg then (Two64 - m) % Two64 else m;
        Success(u % Two32)
  }

  /** A digit string converts to its value, cut to 32 bits. */
  lemma StringToUintOfDigits(s: string)
    requires IsInteger(s) && DecimalValue(s) < Two64
    ensures StringToUint(s) == Success(DecimalValue(s) % Two32)
  {
    assert SkipSpaces(s, 0) == 0;
    assert SkipDigits(s, 0) == |s|;
    assert s[0..|s|] == s;
  }

  /** Writing a 32-bit value and converting it back gives the value. */
  lemma StringToUintRoundTrip(n: nat)
    requires n < Two32
    ensures StringToUint(NatToString(n)) == Success(n)
  {
    StringToUintOfSmall(NatToString(n), n);
  }

  lemma StringToUintOfSmall(s: string, n: nat)
    requires IsInteger(s) && DecimalValue(s) == n && n < Two32
    ensures StringToUint(s) == Success(n)
  {
    StringToUintOfDigits(s);
  }

  /** Text with no digit after the white space and sign is rejected. */
  lemma StringToUintRejects(s: string)
    requires forall k :: 0 <= k < |s| ==> IsSpace(s[k]) || !IsDigit(s[k])
    ensures StringToUint(s) == Failure(InvalidArgument)
  {
  }

  // ---------------------------------------------------------------------------
  // `make_meta_data_string`: reads `-`-separated parts with `getline`.

  /** A string stream read with `getline`. */
  datatype LineStream = LineStream(text: string, pos: nat, eof: bool, fail: bool)

  /** The first `d` at or after `i`, or the end. */
  function Find(s: string, d: char, i: nat): (k: nat)
    requires i <= |s|
    ensures i <= k <= |s| && (k < |s| ==> s[k] == d)
    ensures forall m :: i <= m < k ==> s[m] != d
    decreases |s| - i
  {
    if i == |s| || s[i] == d then i else Find(s, d, i + 1)
  }

  /** `getline(ss, token, d)`: on a stream that is not good, `token` keeps
      `prev` and failbit is set; otherwise the text up to the delimiter (which
      is consumed) or the end (which sets eofbit), with failbit set when
      nothing at all was extracted. */
  function GetLine(ss: LineStream, d: char, prev: string): (r: (string, LineStream))
    requires ss.pos <= |ss.text|
    ensures r.1.text == ss.text && r.1.pos <= |ss.text|
  {
    if ss.eof || ss.fail then (prev, ss.(fail := true))
    else
      var k := Find(ss.text, d, ss.pos);
      if k < |ss.text| then (ss.text[ss.pos..k], ss.(pos := k + 1))
      else (ss.text[ss.pos..], ss.(pos := |ss.text|, eof := true, fail := ss.pos == |ss.text|))
  }

  /** `make_meta_data_string`: group, description, `year-(year+1)` and term,
      upper-cased and separated by two spaces; a year `stoul` rejects throws. */
  function MetaDataString(str: string): Result<string>
  {
    MetaDataOfUpcased(Upcased(str))
  }

  /** The part of `make_meta_data_string` after upper-casing: four `getline`
      calls on one string stream. */
  function MetaDataOfUpcased(u: string): Result<string>
  {
    var r1 := GetLine(LineStream(u, 0, false, false), '-', "");
    var r2 := GetLine(r1.1, '-', r1.0);
    var r3 := GetLine(r2.1, '-', r2.0);
    var r4 := GetLine(r3.1, '-', r3.0);
    Title(r1.0, r2.0, r3.0, r4.0)
  }

  /** The title assembled from the four parts. */
  function Title(group: string, description: string, year: string, term: string): Result<string>
  {
    match StringToUint(year)
    case Failure(e) => Failure(e)
    case Success(y) =>
      Success(group + "  " + description + "  " + year + "-" + NatToString((y + 1) % Two32) + "  " + term)
  }

  lemma TitleOfDigits(g: string, d: string, y: string, t: string)
    requires IsInteger(y) && DecimalValue(y) < Two64
    ensures Title(g, d, y, t) == Success(g + "  " + d + "  " + y + "-" + NextYear(y) + "  " + t)
  {
    var n := DecimalValue(y) % Two32;
    NextYearOf(y, n);
    StringToUintOfDigits(y);
    TitleOfValue(g, d, y, t, n, NextYear(y));
  }

  lemma NextYearOf(y: string, n: nat)
    requires IsInteger(y) && n == DecimalValue(y) % Two32
    ensures NextYear(y) == NatToString((n + 1) % Two32)
  {
  }

  /** The year after a digit string, written out in 32 bits. */
  function NextYear(y: string): string
    requires IsInteger(y)
  {
    NatToString((DecimalValue(y) % Two32 + 1) % Two32)
  }

  /** A year `stoul` accepts is followed by its successor, cut to 32 bits. */
  lemma TitleOfValue(g: string, d: string, y: string, t: string, n: nat, next: string)
    requires StringToUint(y) == Success(n) && next == NatToString((n + 1) % Two32)
    ensures Title(g, d, y, t) == Success(g + "  " + d + "  " + y + "-" + next + "  " + t)
  {
  }

  /** A year `stoul` rejects makes the whole title fail. */
  lemma TitleRejects(g: string, d: string, y: string, t: string)
    requires StringToUint(y).Failure?
    ensures Title(g, d, y, t) == Failure(StringToUint(y).error)
  {
  }

  predicate NoDash(s: string) { forall k :: 0 <= k < |s| ==> s[k] != '-' }

  /** `getline` on a good stream at `i` where the text holds `a` and then a
      dash: it reads `a` and stops after the dash. */
  lemma GetLineBeforeDash(t: string, i: nat, a: string, prev: string)
    requires i + |a| < |t| && t[i..i + |a|] == a && NoDash(a) && t[i + |a|] == '-'
    ensures GetLine(LineStream(t, i, false, false), '-', prev) == (a, LineStream(t, i + |a| + 1, false, false))
  {
    assert forall m :: i <= m < i + |a| ==> t[m] == a[m - i];
    assert Find(t, '-', i) == i + |a|;
  }

  /** `getline` on a good stream at `i` where the rest of the text is `a`
      without a dash: it reads `a` and sets eofbit. */
  lemma GetLineToEnd(t: string, i: nat, a: string, prev: string)
    requires i + |a| == |t| && t[i..] == a && NoDash(a)
    ensures GetLine(LineStream(t, i, false, false), '-', prev).0 == a
  {
    assert forall m :: i <= m < i + |a| ==> t[m] == a[m - i];
    assert Find(t, '-', i) == |t|;
  }

  lemma UpcasedNoDash(s: string)
    requires NoDash(s)
    ensures NoDash(Upcased(s))
  {
  }

  /** The title of an upper-cased name `G-D-y-T` whose parts hold no dash. */
  lemma MetaDataOfUpcasedParts(g: string, d: string, y: string, t: string)
    requires NoDash(g) && NoDash(d) && NoDash(t)
    requires IsInteger(y) && DecimalValue(y) < Two64
    ensures MetaDataOfUpcased(g + "-" + d + "-" + y + "-" + t) ==
      Success(g + "  " + d + "  " + y + "-" + NextYear(y) + "  " + t)
  {
    var u := g + "-" + d + "-" + y + "-" + t;
    var i1 := |g| + 1;
    var i2 := i1 + |d| + 1;
    var i3 := i2 + |y| + 1;
    assert u[..|g|] == g && u[|g|] == '-';
    assert u[i1..i1 + |d|] == d && u[i1 + |d|] == '-';
    assert u[i2..i2 + |y|] == y && u[i2 + |y|] == '-';
    assert u[i3..] == t;
    var s0 := LineStream(u, 0, false, false);
    var s1 := LineStream(u, i1, false, false);
    var s2 := LineStream(u, i2, false, false);
    var s3 := LineStream(u, i3, false, false);
    GetLineBeforeDash(u, 0, g, "");
    GetLineBeforeDash(u, i1, d, g);
    GetLineBeforeDash(u, i2, y, d);
    GetLineToEnd(u, i3, t, y);
    assert GetLine(s0, '-', "") == (g, s1);
    assert GetLine(s1, '-', g) == (d, s2);
    assert GetLine(s2, '-', d) == (y, s3);
    assert GetLine(s3, '-', y).0 == t;
    assert MetaDataOfUpcased(u) == Title(g, d, y, t);
    TitleOfDigits(g, d, y, t);
  }

  /** The title of a file named `group-description-year-term` whose parts hold
      no dash: the parts upper-cased, two spaces apart, the year followed by the
      next year. */
  lemma MetaDataOfParts(g: string, d: string, y: string, t: string)
    requires NoDash(g) && NoDash(d) && NoDash(t)
    requires IsInteger(y) && DecimalValue(y) < Two64
    ensures MetaDataString(g + "-" + d + "-" + y + "-" + t) ==
      Success(Upcased(g) + "  " + Upcased(d) + "  " + y + "-" + NextYear(y) + "  " + Upcased(t))
  {
    var s := g + "-" + d + "-" + y + "-" + t;
    UpcasedAppend(g, "-");
    UpcasedAppend(g + "-", d);
    UpcasedAppend(g + "-" + d, "-");
    UpcasedAppend(g + "-" + d + "-", y);
    UpcasedAppend(g + "-" + d + "-" + y, "-");
    UpcasedAppend(g + "-" + d + "-" + y + "-", t);
    assert Upcased("-") == "-" && Upcased(y) == y;
    UpcasedNoDash(g);
    UpcasedNoDash(d);
    UpcasedNoDash(t);
    MetaDataOfUpcasedParts(Upcased(g), Upcased(d), y, Upcased(t));
  }

  lemma MetaDataTest()
    ensures MetaDataString("p45" + "-" + "engmath" + "-" + "2011" + "-" + "term2") == Success("P45" + "  " + "ENGMATH" + "  " + "2011" + "-" + "2012" + "  " + "TERM2")
  {
    Year2011();
    MetaDataOfParts("p45", "engmath", "2011", "term2");
    UpcasedParts();
  }

  lemma UpcasedParts()
    ensures Upcased("p45") == "P45" && Upcased("engmath") == "ENGMATH" && Upcased("term2") == "TERM2"
  {
    UpcasedIs("p45", "P45");
    UpcasedIs("engmath", "ENGMATH");
    UpcasedIs("term2", "TERM2");
  }

  lemma UpcasedIs(s: string, u: string)
    requires |s| == |u| && forall k :: 0 <= k < |s| ==> Upper(s[k]) == u[k]
    ensures Upcased(s) == u
  {
  }

  lemma Year2011()
    ensures IsInteger("2011") && DecimalValue("2011") == 2011 && NextYear("2011") == "2012"
  {
    assert "2011"[..3] == "201" && "201"[..2] == "20" && "20"[..1] == "2" && "2"[..0] == "";
    NatToStringAppend("20", '1', 20);
    NatToStringAppend("201", '2', 201);
  }

  // ---------------------------------------------------------------------------
  // `is_valid_filename`.

  /** `[a-zA-Z0-9_]` */
  predicate WordChar(c: char)
  {
    'a' <= c <= 'z' || 'A' <= c <= 'Z' || IsDigit(c) || c == '_'
  }

  /** `[a-zA-Z0-9_]+` */
  predicate Word(s: string)
  {
    |s| >= 1 && forall k :: 0 <= k < |s| ==> WordChar(s[k])
  }

  /** The pattern `([a-zA-Z0-9_]+)-([a-zA-Z0-9_]+)-([0-9]+)-([a-zA-Z0-9_]+)`
      matched against the whole name. */
  ghost predicate MatchesFilenamePattern(s: string)
  {
    exists a, b, c, d :: Word(a) && Word(b) && IsInteger(c) && Word(d) && s == a + "-" + b + "-" + c + "-" + d
  }

  /** The pieces of `s` between the `d`s. */
  function Split(s: string, d: char): (p: seq<string>)
    ensures |p| >= 1
    decreases |s|
  {
    var k := Find(s, d, 0);
    if k == |s| then [s] else [s[..k]] + Split(s[k + 1..], d)
  }

  /** `is_valid_filename`: four `-`-separated parts, word characters only, the
      third all digits. */
  predicate IsValidFilename(s: string)
  {
    var p := Split(s, '-');
    |p| == 4 && Word(p[0]) && Word(p[1]) && IsInteger(p[2]) && Word(p[3])
  }

  /** The pieces joined back with the delimiter. */
  function Join(p: seq<string>, d: char): string
    requires |p| >= 1
    decreases |p|
  {
    if |p| == 1 then p[0] else p[0] + [d] + Join(p[1..], d)
  }

  /** Splitting and joining again gives the text back. */
  lemma {:induction false} JoinSplit(s: string, d: char)
    ensures Join(Split(s, d), d) == s
    decreases |s|
  {
    var k := Find(s, d, 0);
    if k < |s| {
      var rest := s[k + 1..];
      var p := Split(s, d);
      assert p == [s[..k]] + Split(rest, d);
      assert p[1..] == Split(rest, d);
      JoinSplit(rest, d);
      assert Join(p, d) == s[..k] + [d] + Join(Split(rest, d), d);
      assert s == s[..k] + [d] + rest;
    }
  }

  lemma SplitNoDelimiter(s: string, d: char)
    requires forall k :: 0 <= k < |s| ==> s[k] != d
    ensures Split(s, d) == [s]
  {
    assert Find(s, d, 0) == |s|;
  }

  lemma SplitPiece(a: string, d: char, rest: string)
    requires forall k :: 0 <= k < |a| ==> a[k] != d
    ensures Split(a + [d] + rest, d) == [a] + Split(rest, d)
  {
    var s := a + [d] + rest;
    assert forall m :: 0 <= m < |a| ==> s[m] == a[m];
    assert s[|a|] == d;
    assert Find(s, d, 0) == |a|;
    assert s[..|a|] == a && s[|a| + 1..] == rest;
  }

  lemma WordHasNoDash(s: string)
    requires Word(s) || IsInteger(s)
    ensures NoDash(s)
  {
  }

  /** The explicit test and the pattern accept the same names. */
  lemma ValidFilenameIsPattern(s: string)
    ensures IsValidFilename(s) <==> MatchesFilenamePattern(s)
  {
    if MatchesFilenamePattern(s) {
      var a, b, c, d :| Word(a) && Word(b) && IsInteger(c) && Word(d) && s == a + "-" + b + "-" + c + "-" + d;
      PatternSplits(a, b, c, d);
    }
    if IsValidFilename(s) {
      var p := Split(s, '-');
      JoinSplit(s, '-');
      assert p[1..][1..][1..] == [p[3]] && p[1..][1..][0] == p[2] && p[1..][0] == p[1];
      assert Join(p[1..][1..], '-') == p[2] + ['-'] + p[3];
      assert Join(p[1..], '-') == p[1] + ['-'] + (p[2] + ['-'] + p[3]);
      assert s == p[0] + ['-'] + (p[1] + ['-'] + (p[2] + ['-'] + p[3]));
      Joined4(p[0], p[1], p[2], p[3]);
    }
  }

  /** Two bracketings of four parts joined by dashes. */
  lemma Joined4(a: string, b: string, c: string, d: string)
    ensures a + "-" + b + "-" + c + "-" + d == a + ['-'] + (b + ['-'] + (c + ['-'] + d))
  {
    var t := c + ['-'] + d;
    var u := b + ['-'] + t;
    assert a + ['-'] + u == a + ['-'] + b + ['-'] + t;
    assert a + ['-'] + b + ['-'] + t == a + ['-'] + b + ['-'] + c + ['-'] + d;
  }

  lemma PatternSplits(a: string, b: string, c: string, d: string)
    requires NoDash(a) && NoDash(b) && NoDash(c) && NoDash(d)
    ensures Split(a + "-" + b + "-" + c + "-" + d, '-') == [a, b, c, d]
  {
    var r2 := c + ['-'] + d;
    var r1 := b + ['-'] + r2;
    var r0 := a + ['-'] + r1;
    SplitNoDelimiter(d, '-');
    SplitPiece(c, '-', d);
    assert Split(r2, '-') == [c, d];
    SplitPiece(b, '-', r2);
    assert Split(r1, '-') == [b, c, d];
    SplitPiece(a, '-', r1);
    assert Split(r0, '-') == [a, b, c, d];
    Joined4(a, b, c, d);
  }

  /** A name with a dash-free fifth part is rejected. */
  lemma FivePartsRejected(a: string, b: string, c: string, d: string, e: string)
    requires NoDash(a) && NoDash(b) && NoDash(c) && NoDash(d) && NoDash(e)
    ensures !IsValidFilename(a + "-" + b + "-" + c + "-" + d + "-" + e)
  {
    FiveParts(a, b, c, d, e);
  }

  lemma FiveParts(a: string, b: string, c: string, d: string, e: string)
    requires NoDash(a) && NoDash(b) && NoDash(c) && NoDash(d) && NoDash(e)
    ensures |Split(a + "-" + b + "-" + c + "-" + d + "-" + e, '-')| == 5
  {
    var r := b + "-" + c + "-" + d + "-" + e;
    FirstPiece(a, b, c, d, e);
    PatternSplits(b, c, d, e);
    SplitPiece(a, '-', r);
  }

  lemma FirstPiece(a: string, b: string, c: string, d: string, e: string)
    ensures a + "-" + b + "-" + c + "-" + d + "-" + e == a + ['-'] + (b + "-" + c + "-" + d + "-" + e)
  {
    Regroup(a + "-", b + "-", c + "-", d + "-", e);
  }

  lemma FilenameAccepted()
    ensures IsValidFilename("p55" + "-" + "engsci" + "-" + "2013" + "-" + "term1")
  {
    PatternSplits("p55", "engsci", "2013", "term1");
  }

  lemma FilenameWithoutDashes()
    ensures !IsValidFilename("foo_goo_soo")
  {
    SplitNoDelimiter("foo_goo_soo", '-');
  }

  lemma FilenameWithFiveParts()
    ensures !IsValidFilename("foo" + "-" + "p44" + "-" + "engmath" + "-" + "2000" + "-" + "term2")
  {
    FivePartsRejected("foo", "p44", "engmath", "2000", "term2");
  }

  // ---------------------------------------------------------------------------
  // `make_latex_doc`.

  const Preamble := "\\documentclass[10pt,a4paper]{memoir}\n" +
                    "\\setlrmarginsandblock{0.5in}{0.5in}{*}\n" +
                    "\\setulmarginsandblock{0.5in}{0.5in}{8}\n" +
                    "\\fixthelayout\n" +
                    "\\begin{document}\n"
  const Closer := "\\end{document}\n"
  const NewPage := "\\newpage\n"
  const ThisPageStyle := "\\thispagestyle{empty}\n"
  const BeginVerbatim := "\\begin{verbatim}\n"
  const EndVerbatim := "\\end{verbatim}\n"

  /** One report on a page of its own, verbatim. */
  function Page(report: string): string
  {
    ThisPageStyle + BeginVerbatim + report + EndVerbatim
  }

  /** The pages in order, with a page break between consecutive ones. */
  function Pages(reports: seq<string>): string
    decreases |reports|
  {
    Joined(seq(|reports|, k requires 0 <= k < |reports| => Page(reports[k])), NewPage)
  }

  /** The pieces in order, with `sep` between consecutive ones. */
  function Joined(pieces: seq<string>, sep: string): string
    decreases |pieces|
  {
    if pieces == [] then []
    else if |pieces| == 1 then pieces[0]
    else Joined(pieces[..|pieces| - 1], sep) + sep + pieces[|pieces| - 1]
  }

  lemma JoinedSnoc(pieces: seq<string>, sep: string, i: nat)
    requires i < |pieces|
    ensures Joined(pieces[..i + 1], sep) == Joined(pieces[..i], sep) + (if i > 0 then sep else []) + pieces[i]
  {
    assert pieces[..i + 1][..i] == pieces[..i];
  }

  /** One pass of a loop that writes `pieces` with `sep` between them. */
  lemma JoinedStep(pre: string, pieces: seq<string>, sep: string, i: nat, before: string, piece: string)
    requires i < |pieces| && piece == pieces[i]
    requires before == pre + Joined(pieces[..i], sep) + (if 0 < i then sep else [])
    ensures before + piece == pre + Joined(pieces[..i + 1], sep)
  {
    JoinedSnoc(pieces, sep, i);
    Regroup(pre, Joined(pieces[..i], sep), if 0 < i then sep else [], piece, []);
  }

  /** Concatenation regrouped to the right. */
  lemma Regroup(a: string, b: string, c: string, d: string, e: string)
    ensures a + b + c + d + e == a + (b + c + d + e)
  {
  }

  /** `make_latex_doc`. */
  method MakeLatexDoc(reports: seq<string>) returns (doc: string)
    ensures doc == Preamble + Pages(reports) + Closer
  {
    ghost var pages := seq(|reports|, k requires 0 <= k < |reports| => Page(reports[k]));
    doc := Preamble;
    var i := 0;
    while i < |reports|
      invariant 0 <= i <= |reports|
      invariant doc == Preamble + Joined(pages[..i], NewPage) + (if 0 < i < |reports| then NewPage else [])
    {
      ghost var before := doc;
      doc := doc + ThisPageStyle;
      doc := doc + BeginVerbatim;
      doc := doc + reports[i];
      doc := doc + EndVerbatim;
      Regroup(before, ThisPageStyle, BeginVerbatim, reports[i], EndVerbatim);
      JoinedStep(Preamble, pages, NewPage, i, before, Page(reports[i]));
      if i + 1 != |reports| {
        doc := doc + NewPage;
      }
      i := i + 1;
    }
    assert pages[..i] == pages;
    doc := doc + Closer;
  }

  /** The last page is not followed by a page break. */
  lemma PagesStructure(reports: seq<string>)
    requires |reports| >= 1
    ensures Pages(reports) == Pages(reports[..|reports| - 1]) + (if |reports| > 1 then NewPage else "") + Page(reports[|reports| - 1])
  {
    var n := |reports|;
    var p := seq(n, k requires 0 <= k < n => Page(reports[k]));
    var q := seq(n - 1, k requires 0 <= k < n - 1 => Page(reports[..n - 1][k]));
    assert q == p[..n - 1];
    JoinedSnoc(p, NewPage, n - 1);
    assert p[..n] == p;
  }
}
