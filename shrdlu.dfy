/** Delimited-text reader: a three-state field machine, a record reader and a
    document reader over a character stream (gu/shrdlu.cc). */
module Shrdlu {

  const Quote: char := '"'
  const Newline: char := '\n'
  /** The character `ss.get()` yields once the stream has failed: `(char)EOF`. */
  const EofChar: char := '\U{FF}'

  datatype State = Start | Unquoted | Quoted

  // ---------------------------------------------------------------------------
  // The field machine as a function of the text and the read position.

  /** What one run of the field machine leaves behind: whether it accepted, the
      field text, whether the field ended its record, the read position, whether
      a read ran past the end (eofbit and failbit), and the final machine state. */
  datatype Outcome = Outcome(ok: bool, field: string, last: bool, pos: nat, eof: bool, state: State)

  predicate Special(c: char, d: char) { c == Quote || c == d || c == Newline }

  /** Runs the machine from state `st` at position `i` with `acc` read so far.
      Every run that does not hit the end of the text consumes a character. */
  function Scan(t: string, d: char, st: State, i: nat, acc: string): (o: Outcome)
    requires i <= |t|
    ensures i <= o.pos <= |t|
    ensures o.eof ==> o.pos == |t|
    ensures !o.eof ==> i < o.pos
    decreases |t| - i
  {
    match st
    case Start =>
      if i == |t| then Outcome(true, acc, true, i, true, Start)
      else if t[i] == Quote then Scan(t, d, Quoted, i + 1, acc)
      else if t[i] == d then Outcome(true, acc, false, i + 1, false, Start)
      else if t[i] == Newline then Outcome(true, acc, true, i + 1, false, Start)
      else Scan(t, d, Unquoted, i + 1, acc + [t[i]])
    case Unquoted =>
      if i == |t| then Outcome(true, acc, true, i, true, Unquoted)
      else if t[i] == Quote then Outcome(false, acc, false, i + 1, false, Unquoted)
      else if t[i] == d then Outcome(true, acc, false, i + 1, false, Unquoted)
      else if t[i] == Newline then Outcome(true, acc, true, i + 1, false, Unquoted)
      else Scan(t, d, Unquoted, i + 1, acc + [t[i]])
    case Quoted =>
      if i == |t| then Outcome(false, acc, false, i, true, Quoted)
      else if t[i] == Quote then
        if i + 1 == |t| then Outcome(true, acc, true, i + 1, true, Quoted)
        else if t[i + 1] == d then Outcome(true, acc, false, i + 2, false, Quoted)
        else if t[i + 1] == Newline then Outcome(true, acc, true, i + 2, false, Quoted)
        else if t[i + 1] == Quote then Scan(t, d, Quoted, i + 2, acc + [Quote])
        else Outcome(false, acc, false, i + 1, false, Quoted)  // the peeked character is put back
      else Scan(t, d, Quoted, i + 1, acc + [t[i]])
  }

  /** One `read_field` call on the text from position `i`. */
  function FieldScan(t: string, d: char, i: nat): Outcome
    requires i <= |t|
  {
    Scan(t, d, Start, i, "")
  }

  // ---------------------------------------------------------------------------
  // Records and documents as functions of the text.

  /** The fields one `read_record` call collects from a good stream at `i`, and
      the outcome of its final `read_field`. */
  datatype RecordOutcome = RecordOutcome(fields: seq<string>, final: Outcome)

  function RecordScan(t: string, d: char, i: nat): (r: RecordOutcome)
    requires i <= |t|
    ensures |r.fields| >= 1
    ensures i < r.final.pos <= |t| || (r.final.eof && r.final.pos == |t|)
    ensures r.final.eof ==> r.final.pos == |t|
    decreases |t| - i
  {
    var o := FieldScan(t, d, i);
    if o.last || o.eof then RecordOutcome([o.field], o)
    else
      var rest := RecordScan(t, d, o.pos);
      RecordOutcome([o.field] + rest.fields, rest.final)
  }

  predicate IsBlankRecord(r: seq<string>) { |r| == 1 && r[0] == "" }

  /** The records one `read_document` call keeps from a good stream at `i`, and
      the last record it read (kept or not). */
  datatype DocOutcome = DocOutcome(records: seq<seq<string>>, lastRecord: RecordOutcome)

  function DocScan(t: string, d: char, i: nat): (r: DocOutcome)
    requires i <= |t|
    ensures r.lastRecord.final.eof && r.lastRecord.final.pos == |t|
    decreases |t| - i
  {
    var rec := RecordScan(t, d, i);
    var kept := if IsBlankRecord(rec.fields) then [] else [rec.fields];
    if rec.final.eof then DocOutcome(kept, rec)
    else
      var rest := DocScan(t, d, rec.final.pos);
      DocOutcome(kept + rest.records, rest.lastRecord)
  }

  // ---------------------------------------------------------------------------
  // Writing fields: the quoting that the reader undoes.

  /** Doubles every quote character. */
  function Escape(s: string): (e: string)
    ensures |e| >= |s|
  {
    if s == [] then []
    else (if s[0] == Quote then [Quote, Quote] else [s[0]]) + Escape(s[1..])
  }

  /** A quoted field: the escaped text between two quotes. */
  function QuoteField(s: string): string
  {
    [Quote] + Escape(s) + [Quote]
  }

  /** Text in which every quote is one of an adjacent pair (the body of a
      quoted field that has not yet reached its closing quote). */
  predicate AllPaired(u: string)
    decreases |u|
  {
    u == [] ||
    (u[0] != Quote && AllPaired(u[1..])) ||
    (|u| >= 2 && u[0] == Quote && u[1] == Quote && AllPaired(u[2..]))
  }

  /** Writes one record: every field quoted, separated by `d`, ended by a newline. */
  function FormatRecord(r: seq<string>, d: char): string
    requires |r| >= 1
  {
    if |r| == 1 then QuoteField(r[0]) + [Newline]
    else QuoteField(r[0]) + [d] + FormatRecord(r[1..], d)
  }

  function FormatDocument(rs: seq<seq<string>>, d: char): string
    requires forall k :: 0 <= k < |rs| ==> |rs[k]| >= 1
  {
    if rs == [] then [] else FormatRecord(rs[0], d) + FormatDocument(rs[1..], d)
  }

  function NonBlank(rs: seq<seq<string>>): seq<seq<string>>
  {
    if rs == [] then []
    else (if IsBlankRecord(rs[0]) then [] else [rs[0]]) + NonBlank(rs[1..])
  }

  // ---------------------------------------------------------------------------
  // Properties of the field machine.

  /** Ordinary characters are copied while the machine stays unquoted. */
  lemma {:induction false} UnquotedRun(t: string, d: char, i: nat, j: nat, acc: string)
    requires i <= j <= |t|
    requires forall k :: i <= k < j ==> !Special(t[k], d)
    ensures Scan(t, d, Unquoted, i, acc) == Scan(t, d, Unquoted, j, acc + t[i..j])
    decreases j - i
  {
    if i < j {
      UnquotedRun(t, d, i + 1, j, acc + [t[i]]);
      assert acc + [t[i]] + t[i + 1..j] == acc + t[i..j];
    } else {
      assert acc + t[i..j] == acc;
    }
  }

  /** An unquoted field is the run of ordinary characters from `i` to the first
      special character `t[j]` (or the end): it ends its record at a newline or
      the end, not at the delimiter, and a quote there rejects it. */
  lemma UnquotedField(t: string, d: char, i: nat, j: nat)
    requires i <= j <= |t|
    requires forall k :: i <= k < j ==> !Special(t[k], d)
    requires j == |t| || Special(t[j], d)
    requires i == j ==> j == |t| || t[j] != Quote
    ensures FieldScan(t, d, i).field == t[i..j]
    ensures j == |t| ==> FieldScan(t, d, i) == Outcome(true, t[i..j], true, j, true, FieldScan(t, d, i).state)
    ensures j < |t| && t[j] == Quote ==> !FieldScan(t, d, i).ok && FieldScan(t, d, i).pos == j + 1
    ensures j < |t| && t[j] != Quote && t[j] == d ==>
      FieldScan(t, d, i) == Outcome(true, t[i..j], false, j + 1, false, FieldScan(t, d, i).state)
    ensures j < |t| && t[j] != Quote && t[j] != d ==>
      FieldScan(t, d, i) == Outcome(true, t[i..j], true, j + 1, false, FieldScan(t, d, i).state)
  {
    var o := FieldScan(t, d, i);
    if i < j {
      assert "" + [t[i]] == [t[i]];
      assert o == Scan(t, d, Unquoted, i + 1, [t[i]]);
      UnquotedRun(t, d, i + 1, j, [t[i]]);
      assert [t[i]] + t[i + 1..j] == t[i..j];
      assert o == Scan(t, d, Unquoted, j, t[i..j]);
    } else {
      assert t[i..j] == [];
    }
  }

  /** The machine never puts a quote, the delimiter or a newline into a field
      that does not start with a quote. */
  lemma {:induction false} UnquotedScanIsPlain(t: string, d: char, i: nat, acc: string)
    requires i <= |t|
    requires forall k :: 0 <= k < |acc| ==> !Special(acc[k], d)
    ensures forall k :: 0 <= k < |Scan(t, d, Unquoted, i, acc).field| ==> !Special(Scan(t, d, Unquoted, i, acc).field[k], d)
    decreases |t| - i
  {
    if i < |t| && !Special(t[i], d) {
      UnquotedScanIsPlain(t, d, i + 1, acc + [t[i]]);
    }
  }

  lemma UnquotedFieldIsPlain(t: string, d: char, i: nat)
    requires i < |t| && t[i] != Quote
    ensures forall k :: 0 <= k < |FieldScan(t, d, i).field| ==> !Special(FieldScan(t, d, i).field[k], d)
  {
    if !Special(t[i], d) {
      assert "" + [t[i]] == [t[i]];
      assert FieldScan(t, d, i) == Scan(t, d, Unquoted, i + 1, [t[i]]);
      UnquotedScanIsPlain(t, d, i + 1, [t[i]]);
    }
  }

  /** An escaped body is read back, unescaped, without leaving the quoted state. */
  lemma {:induction false} QuotedRun(t: string, d: char, i: nat, s: string, acc: string)
    requires d != Quote
    requires i + |Escape(s)| <= |t| && t[i..i + |Escape(s)|] == Escape(s)
    ensures Scan(t, d, Quoted, i, acc) == Scan(t, d, Quoted, i + |Escape(s)|, acc + s)
    decreases |s|
  {
    if s != [] {
      var e := Escape(s);
      var n := if s[0] == Quote then 2 else 1;
      assert e == (if s[0] == Quote then [Quote, Quote] else [s[0]]) + Escape(s[1..]);
      assert t[i] == e[0];
      if s[0] == Quote {
        assert t[i + 1] == e[1] == Quote;
      }
      assert t[i + n..i + n + |Escape(s[1..])|] == e[n..] == Escape(s[1..]);
      QuotedRun(t, d, i + n, s[1..], acc + [s[0]]);
      assert acc + [s[0]] + s[1..] == acc + s;
    } else {
      assert acc + s == acc;
    }
  }

  /** Reading a quoted field gives back exactly the text that was quoted, and the
      character after the closing quote decides where the field ends. */
  lemma QuotedFieldRoundTrip(t: string, d: char, i: nat, s: string)
    requires d != Quote
    requires i + |QuoteField(s)| <= |t| && t[i..i + |QuoteField(s)|] == QuoteField(s)
    ensures var j := i + |QuoteField(s)|;
      var o := FieldScan(t, d, i);
      (j == |t| || t[j] != Quote ==> o.field == s) &&
      (j == |t| ==> o.ok && o.last && o.eof) &&
      (j < |t| && t[j] == d ==> o.ok && !o.last && o.pos == j + 1 && !o.eof) &&
      (j < |t| && t[j] != d && t[j] == Newline ==> o.ok && o.last && o.pos == j + 1 && !o.eof) &&
      (j < |t| && !Special(t[j], d) ==> !o.ok && o.pos == j)
  {
    var e := Escape(s);
    var q := QuoteField(s);
    assert forall k :: 0 <= k < |q| ==> t[i + k] == q[k];
    assert t[i] == q[0] == Quote;
    assert forall k :: 0 <= k < |e| ==> t[i + 1 + k] == q[1 + k] == e[k];
    assert t[i + 1..i + 1 + |e|] == e;
    QuotedRun(t, d, i + 1, s, "");
    assert "" + s == s;
    var c := i + 1 + |e|;
    assert t[c] == q[1 + |e|] == Quote;
    assert FieldScan(t, d, i) == Scan(t, d, Quoted, i + 1, "") == Scan(t, d, Quoted, c, s);
  }

  /** The quoted field alone (the whole input) reads back as the original text. */
  lemma QuoteReadBack(s: string, d: char)
    requires d != Quote
    ensures FieldScan(QuoteField(s), d, 0).ok
    ensures FieldScan(QuoteField(s), d, 0).field == s
    ensures FieldScan(QuoteField(s), d, 0).last
  {
    QuotedFieldRoundTrip(QuoteField(s), d, 0, s);
  }

  // ---------------------------------------------------------------------------
  // The three ways `read_field` rejects, and nothing else.

  /** A quote inside an unquoted field. */
  ghost predicate StrayQuote(t: string, d: char, i: nat)
  {
    exists j :: i < j < |t| && t[j] == Quote && forall k :: i <= k < j ==> !Special(t[k], d)
  }

  /** A quoted field with no closing quote. */
  predicate Unterminated(t: string, i: nat)
  {
    i < |t| && t[i] == Quote && AllPaired(t[i + 1..])
  }

  /** A closing quote followed by something other than delimiter, newline, quote or end. */
  ghost predicate JunkAfterClose(t: string, d: char, i: nat)
  {
    i < |t| && t[i] == Quote &&
    exists k :: i < k && k + 1 < |t| && AllPaired(t[i + 1..k]) && t[k] == Quote && !Special(t[k + 1], d)
  }

  lemma {:induction false} AllPairedExtend(u: string, c: char)
    requires AllPaired(u) && c != Quote
    ensures AllPaired(u + [c])
    decreases |u|
  {
    if u != [] {
      if u[0] != Quote && AllPaired(u[1..]) {
        AllPairedExtend(u[1..], c);
        assert (u + [c])[1..] == u[1..] + [c];
      } else {
        AllPairedExtend(u[2..], c);
        assert (u + [c])[2..] == u[2..] + [c];
      }
    }
  }

  lemma {:induction false} AllPairedExtendPair(u: string)
    requires AllPaired(u)
    ensures AllPaired(u + [Quote, Quote])
    decreases |u|
  {
    if u == [] {
      assert (u + [Quote, Quote])[2..] == [];
    } else if u[0] != Quote && AllPaired(u[1..]) {
      AllPairedExtendPair(u[1..]);
      assert (u + [Quote, Quote])[1..] == u[1..] + [Quote, Quote];
    } else {
      AllPairedExtendPair(u[2..]);
      assert (u + [Quote, Quote])[2..] == u[2..] + [Quote, Quote];
    }
  }

  /** A paired body reads through to its end in the quoted state. */
  lemma {:induction false} PairedRun(t: string, d: char, i: nat, j: nat, acc: string)
    requires d != Quote
    requires i <= j <= |t| && AllPaired(t[i..j])
    ensures exists acc' :: Scan(t, d, Quoted, i, acc) == Scan(t, d, Quoted, j, acc')
    decreases j - i
  {
    if i == j {
      assert Scan(t, d, Quoted, i, acc) == Scan(t, d, Quoted, j, acc);
    } else if t[i] != Quote && AllPaired(t[i + 1..j]) {
      PairedRun(t, d, i + 1, j, acc + [t[i]]);
    } else {
      assert t[i..j][1] == t[i + 1] == Quote;
      assert t[i..j][2..] == t[i + 2..j];
      PairedRun(t, d, i + 2, j, acc + [Quote]);
    }
  }

  /** From the quoted state on a paired prefix `t[i0..i]`, a rejection is either
      an unterminated field or junk after the closing quote. */
  lemma {:induction false} QuotedRejects(t: string, d: char, i0: nat, i: nat, acc: string)
    requires d != Quote
    requires 0 < i0 <= i <= |t| && t[i0 - 1] == Quote && AllPaired(t[i0..i])
    requires !Scan(t, d, Quoted, i, acc).ok
    ensures Unterminated(t, i0 - 1) || JunkAfterClose(t, d, i0 - 1)
    decreases |t| - i
  {
    if i == |t| {
      assert t[i0 - 1 + 1..] == t[i0..i];
    } else if t[i] == Quote {
      if t[i + 1] == Quote {
        AllPairedExtendPair(t[i0..i]);
        assert t[i0..i] + [Quote, Quote] == t[i0..i + 2];
        QuotedRejects(t, d, i0, i + 2, acc + [Quote]);
      } else {
        assert t[i0 - 1 + 1..i] == t[i0..i];
        assert JunkAfterClose(t, d, i0 - 1);
      }
    } else {
      AllPairedExtend(t[i0..i], t[i]);
      assert t[i0..i] + [t[i]] == t[i0..i + 1];
      QuotedRejects(t, d, i0, i + 1, acc + [t[i]]);
    }
  }

  lemma {:induction false} UnquotedRejects(t: string, d: char, i: nat, j: nat, acc: string)
    requires i < j <= |t|
    requires forall k :: i <= k < j ==> !Special(t[k], d)
    requires !Scan(t, d, Unquoted, j, acc).ok
    ensures StrayQuote(t, d, i)
    decreases |t| - j
  {
    if t[j] == Quote {
      assert StrayQuote(t, d, i);
    } else {
      UnquotedRejects(t, d, i, j + 1, acc + [t[j]]);
    }
  }

  /** `read_field` rejects exactly in the three documented cases. */
  lemma FieldRejects(t: string, d: char, i: nat)
    requires d != Quote && i <= |t|
    ensures !FieldScan(t, d, i).ok <==> StrayQuote(t, d, i) || Unterminated(t, i) || JunkAfterClose(t, d, i)
  {
    if i == |t| {
    } else if t[i] == Quote {
      assert !StrayQuote(t, d, i);
      if !FieldScan(t, d, i).ok {
        assert t[i + 1..i + 1] == [];
        QuotedRejects(t, d, i + 1, i + 1, "");
      }
      if Unterminated(t, i) {
        assert t[i + 1..] == t[i + 1..|t|];
        PairedRun(t, d, i + 1, |t|, "");
      }
      if JunkAfterClose(t, d, i) {
        var k :| i < k && k + 1 < |t| && AllPaired(t[i + 1..k]) && t[k] == Quote && !Special(t[k + 1], d);
        PairedRun(t, d, i + 1, k, "");
      }
    } else if t[i] == d || t[i] == Newline {
      assert !StrayQuote(t, d, i);
    } else {
      assert "" + [t[i]] == [t[i]];
      if !FieldScan(t, d, i).ok {
        UnquotedRejects(t, d, i, i + 1, [t[i]]);
      }
      if StrayQuote(t, d, i) {
        var j :| i < j < |t| && t[j] == Quote && forall k :: i <= k < j ==> !Special(t[k], d);
        UnquotedField(t, d, i, j);
      }
    }
  }

  // ---------------------------------------------------------------------------
  // Records and documents written with quoted fields read back unchanged.

  lemma SplitSlice(t: string, i: nat, a: string, b: string)
    requires i + |a| + |b| <= |t| && t[i..i + |a| + |b|] == a + b
    ensures t[i..i + |a|] == a
    ensures t[i + |a|..i + |a| + |b|] == b
  {
    assert forall k :: i <= k < i + |a| ==> t[k] == (a + b)[k - i] == a[k - i];
    assert forall k :: i + |a| <= k < i + |a| + |b| ==> t[k] == (a + b)[k - i] == b[k - i - |a|];
  }

  lemma {:induction false} RecordRoundTrip(t: string, d: char, i: nat, r: seq<string>)
    requires d != Quote && d != Newline && |r| >= 1
    requires i + |FormatRecord(r, d)| <= |t| && t[i..i + |FormatRecord(r, d)|] == FormatRecord(r, d)
    ensures RecordScan(t, d, i).fields == r
    ensures RecordScan(t, d, i).final.pos == i + |FormatRecord(r, d)|
    ensures !RecordScan(t, d, i).final.eof && RecordScan(t, d, i).final.last
    decreases |r|, 1
  {
    if |r| == 1 {
      OnlyField(t, d, i, r);
      RecordScanLast(t, d, i);
      assert [FieldScan(t, d, i).field] == r;
    } else {
      RecordRoundTripMany(t, d, i, r);
    }
  }

  /** The case of `RecordRoundTrip` with two fields or more. */
  lemma {:induction false} RecordRoundTripMany(t: string, d: char, i: nat, r: seq<string>)
    requires d != Quote && d != Newline && |r| >= 2
    requires i + |FormatRecord(r, d)| <= |t| && t[i..i + |FormatRecord(r, d)|] == FormatRecord(r, d)
    ensures RecordScan(t, d, i).fields == r
    ensures RecordScan(t, d, i).final.pos == i + |FormatRecord(r, d)|
    ensures !RecordScan(t, d, i).final.eof && RecordScan(t, d, i).final.last
    decreases |r|, 0
  {
    var q := QuoteField(r[0]);
    var h := FormatRecord(r[1..], d);
    var j := i + |q|;
    assert FormatRecord(r, d) == (q + [d]) + h;
    assert |FormatRecord(r, d)| == |q| + 1 + |h|;
    FirstOfMany(t, d, i, r[0], h);
    RecordRoundTrip(t, d, j + 1, r[1..]);
    var rest := RecordScan(t, d, j + 1);
    RecordScanStep(t, d, i);
    assert RecordScan(t, d, i) == RecordOutcome([r[0]] + rest.fields, rest.final);
    assert [r[0]] + r[1..] == r;
  }

  /** The field of a record of one field. */
  lemma OnlyField(t: string, d: char, i: nat, r: seq<string>)
    requires d != Quote && d != Newline && |r| == 1
    requires i + |FormatRecord(r, d)| <= |t| && t[i..i + |FormatRecord(r, d)|] == FormatRecord(r, d)
    ensures var o := FieldScan(t, d, i);
      o.ok && o.last && o.pos == i + |QuoteField(r[0])| + 1 && !o.eof && o.field == r[0] &&
      |FormatRecord(r, d)| == |QuoteField(r[0])| + 1
  {
    var q := QuoteField(r[0]);
    assert FormatRecord(r, d) == q + [Newline];
    SplitSlice(t, i, q, [Newline]);
    assert t[i + |q|] == [Newline][0];
    QuotedFieldRoundTrip(t, d, i, r[0]);
  }

  /** A quoted field, the delimiter and then the text `h`: the first field
      and where `h` is. */
  lemma FirstOfMany(t: string, d: char, i: nat, s: string, h: string)
    requires d != Quote
    requires i + |QuoteField(s)| + 1 + |h| <= |t| && t[i..i + |QuoteField(s)| + 1 + |h|] == (QuoteField(s) + [d]) + h
    ensures var j := i + |QuoteField(s)|;
      var o := FieldScan(t, d, i);
      o.ok && !o.last && o.pos == j + 1 && !o.eof && o.field == s &&
      t[j + 1..j + 1 + |h|] == h
  {
    var q := QuoteField(s);
    var j := i + |q|;
    assert |q + [d]| == |q| + 1;
    SplitSlice(t, i, q + [d], h);
    assert t[j + 1..j + 1 + |h|] == h;
    SplitSlice(t, i, q, [d]);
    assert t[j] == [d][0];
    QuotedThenDelimiter(t, d, i, s);
  }

  /** A quoted field followed by the delimiter. */
  lemma QuotedThenDelimiter(t: string, d: char, i: nat, s: string)
    requires d != Quote && i + |QuoteField(s)| < |t|
    requires t[i..i + |QuoteField(s)|] == QuoteField(s) && t[i + |QuoteField(s)|] == d
    ensures var o := FieldScan(t, d, i);
      o.ok && !o.last && o.pos == i + |QuoteField(s)| + 1 && !o.eof && o.field == s
  {
    QuotedFieldRoundTrip(t, d, i, s);
  }

  /** One `read_field` inside `read_record`: the fields collected so far and
      those still to be read make up the record. */
  lemma RecordAdvance(t: string, d: char, p: nat, before: seq<string>, goal: RecordOutcome)
    requires p <= |t| && before + RecordScan(t, d, p).fields == goal.fields && RecordScan(t, d, p).final == goal.final
    ensures var o := FieldScan(t, d, p);
      (!o.last && !o.eof ==>
        o.pos <= |t| && (before + [o.field]) + RecordScan(t, d, o.pos).fields == goal.fields &&
        RecordScan(t, d, o.pos).final == goal.final) &&
      (o.last || o.eof ==> before + [o.field] == goal.fields && o == goal.final)
  {
    var o := FieldScan(t, d, p);
    if !o.last && !o.eof {
      RecordScanStep(t, d, p);
      assert before + ([o.field] + RecordScan(t, d, o.pos).fields) == (before + [o.field]) + RecordScan(t, d, o.pos).fields;
    } else {
      RecordScanLast(t, d, p);
    }
  }

  /** A field that ends the record or the stream is its last one. */
  lemma RecordScanLast(t: string, d: char, i: nat)
    requires i <= |t| && (FieldScan(t, d, i).last || FieldScan(t, d, i).eof)
    ensures RecordScan(t, d, i) == RecordOutcome([FieldScan(t, d, i).field], FieldScan(t, d, i))
  {
  }

  /** A field that ends neither the record nor the stream is followed by the
      rest of the record. */
  lemma RecordScanStep(t: string, d: char, i: nat)
    requires i <= |t| && !FieldScan(t, d, i).last && !FieldScan(t, d, i).eof
    ensures var o := FieldScan(t, d, i);
      RecordScan(t, d, i) == RecordOutcome([o.field] + RecordScan(t, d, o.pos).fields, RecordScan(t, d, o.pos).final)
  {
  }

  /** Reading a document written with quoted fields gives back its non-blank
      records in order: the blank ones (and the empty record after the final
      newline) are dropped. */
  lemma {:induction false} DocumentRoundTrip(t: string, d: char, i: nat, rs: seq<seq<string>>)
    requires d != Quote && d != Newline
    requires forall k :: 0 <= k < |rs| ==> |rs[k]| >= 1
    requires i <= |t| && t[i..] == FormatDocument(rs, d)
    ensures DocScan(t, d, i).records == NonBlank(rs)
    decreases |rs|
  {
    if rs == [] {
      assert i == |t|;
      DocumentEnd(t, d, i);
    } else {
      var f := FormatRecord(rs[0], d);
      var g := FormatDocument(rs[1..], d);
      assert FormatDocument(rs, d) == f + g;
      SplitTail(t, i, f, g);
      RecordRoundTrip(t, d, i, rs[0]);
      DocumentRoundTrip(t, d, i + |f|, rs[1..]);
      DocCons(t, d, i, rs, i + |f|);
    }
  }

  /** The records of a document whose first record reads back as `rs[0]` and
      whose rest reads back as the rest of `rs`. */
  lemma DocCons(t: string, d: char, i: nat, rs: seq<seq<string>>, p: nat)
    requires |rs| >= 1 && i <= |t| && !RecordScan(t, d, i).final.eof
    requires RecordScan(t, d, i).fields == rs[0] && RecordScan(t, d, i).final.pos == p
    requires p <= |t| && DocScan(t, d, p).records == NonBlank(rs[1..])
    ensures DocScan(t, d, i).records == NonBlank(rs)
  {
    DocScanStep(t, d, i, rs[0], p);
    assert NonBlank(rs) == (if IsBlankRecord(rs[0]) then [] else [rs[0]]) + NonBlank(rs[1..]);
  }

  /** At the end of the text `read_document` reads one blank record and
      keeps nothing. */
  lemma DocumentEnd(t: string, d: char, i: nat)
    requires i == |t|
    ensures DocScan(t, d, i).records == []
  {
    assert RecordScan(t, d, i).fields == [""];
  }

  lemma SplitTail(t: string, i: nat, f: string, g: string)
    requires i <= |t| && t[i..] == f + g
    ensures i + |f| <= |t| && t[i..i + |f|] == f && t[i + |f|..] == g
  {
    assert t[i..i + |f|] == (f + g)[..|f|];
    assert t[i + |f|..] == (f + g)[|f|..];
  }

  /** A record that does not end the text is followed by the rest of the
      document. */
  lemma DocScanStep(t: string, d: char, i: nat, r: seq<string>, p: nat)
    requires i <= |t| && !RecordScan(t, d, i).final.eof
    requires RecordScan(t, d, i).fields == r && RecordScan(t, d, i).final.pos == p
    ensures p <= |t| && DocScan(t, d, i).records == (if IsBlankRecord(r) then [] else [r]) + DocScan(t, d, p).records
  {
  }

  /** No record that `read_document` keeps is blank. */
  lemma {:induction false} DocumentHasNoBlank(t: string, d: char, i: nat)
    requires i <= |t|
    ensures forall k :: 0 <= k < |DocScan(t, d, i).records| ==> !IsBlankRecord(DocScan(t, d, i).records[k])
    decreases |t| - i
  {
    var rec := RecordScan(t, d, i);
    if !rec.final.eof {
      DocumentHasNoBlank(t, d, rec.final.pos);
    }
  }

  /** One step of `read_document`: reading the record at `p` moves the kept
      records from what is still to be read to what has been read. */
  lemma DocStep(t: string, d: char, p: nat, before: seq<seq<string>>, goal: DocOutcome)
    requires p <= |t|
    requires before + DocScan(t, d, p).records == goal.records && DocScan(t, d, p).lastRecord == goal.lastRecord
    ensures var rec := RecordScan(t, d, p);
      var after := before + (if IsBlankRecord(rec.fields) then [] else [rec.fields]);
      (rec.final.eof ==> after == goal.records && rec == goal.lastRecord) &&
      (!rec.final.eof ==> after + DocScan(t, d, rec.final.pos).records == goal.records &&
                          DocScan(t, d, rec.final.pos).lastRecord == goal.lastRecord)
  {
    var rec := RecordScan(t, d, p);
    var kept := if IsBlankRecord(rec.fields) then [] else [rec.fields];
    if !rec.final.eof {
      assert DocScan(t, d, p).records == kept + DocScan(t, d, rec.final.pos).records;
      assert before + kept + DocScan(t, d, rec.final.pos).records == before + (kept + DocScan(t, d, rec.final.pos).records);
    }
  }

  // ---------------------------------------------------------------------------
  // The stream and the parser objects.

  /** An input stream over a fixed text: `pos` is the read position, `eof` and
      `fail` the stream's eofbit and failbit. */
  class Stream {
    const text: string
    var pos: nat
    var eof: bool
    var fail: bool

    ghost predicate Valid()
      reads this
    {
      pos <= |text| && (eof ==> fail && pos == |text|)
    }

    constructor (t: string)
      ensures Valid() && text == t && pos == 0 && !eof && !fail
    {
      text := t;
      pos, eof, fail := 0, false, false;
    }

    /** `get()`: the next character; at the end it sets eofbit and failbit, and on
        a failed stream it only (re)sets failbit. */
    method Get() returns (c: char)
      requires Valid()
      modifies this
      ensures Valid()
      ensures !old(fail) && old(pos) < |text| ==> c == text[old(pos)] && pos == old(pos) + 1 && !eof && !fail
      ensures !old(fail) && old(pos) == |text| ==> c == EofChar && pos == old(pos) && eof && fail
      ensures old(fail) ==> c == EofChar && pos == old(pos) && eof == old(eof) && fail
    {
      if fail {
        c := EofChar;
      } else if pos < |text| {
        c := text[pos];
        pos := pos + 1;
      } else {
        c := EofChar;
        eof, fail := true, true;
      }
    }

    /** `unget()` right after a successful `get()`. */
    method Unget()
      requires Valid() && !fail && 0 < pos
      modifies this
      ensures Valid() && pos == old(pos) - 1 && !eof && !fail
    {
      pos := pos - 1;
    }

    /** `setstate(failbit)`. */
    method SetFail()
      requires Valid()
      modifies this
      ensures Valid() && fail && pos == old(pos) && eof == old(eof)
    {
      fail := true;
    }
  }

  /** The parser object: the members of `Field_parser` (delimiter, state, field,
      last), the record `Record_parser` adds and the document `Document_parser`
      adds. */
  class Parser {
    const delimiter: char
    var state: State
    var field: string
    var last: bool
    var record: seq<string>
    var document: seq<seq<string>>

    constructor ()
      ensures delimiter == ',' && state == Start && field == "" && !last && record == [] && document == []
    {
      delimiter := ',';
      state, field, last, record, document := Start, "", false, [], [];
    }

    constructor WithDelimiter(d: char)
      ensures delimiter == d && state == Start && field == "" && !last && record == [] && document == []
    {
      delimiter := d;
      state, field, last, record, document := Start, "", false, [], [];
    }

    /** `read_field`: runs the field machine on the stream. */
    method ReadField(s: Stream) returns (ok: bool)
      requires s.Valid() && (s.fail ==> s.eof)
      modifies this`state, this`field, this`last, s
      ensures s.Valid()
      ensures var o := FieldScan(s.text, delimiter, old(s.pos));
        ok == o.ok && field == o.field && last == o.last && state == o.state &&
        s.pos == o.pos && s.eof == o.eof && s.fail == o.eof
    {
      last := false;
      state := Start;
      field := "";
      ghost var goal := FieldScan(s.text, delimiter, s.pos);
      while true
        invariant s.Valid() && (s.fail ==> s.eof)
        invariant !last
        invariant s.eof ==> state == Start && field == ""
        invariant Scan(s.text, delimiter, state, s.pos, field) == goal
        decreases |s.text| - s.pos
      {
        var c := s.Get();
        match state
        case Start =>
          if s.eof {
            last := true;
            return true;
          }
          if c == Quote {
            state := Quoted;
          } else if c == delimiter {
            return true;
          } else if c == Newline {
            last := true;
            return true;
          } else {
            state := Unquoted;
            field := field + [c];
          }
        case Unquoted =>
          if s.eof {
            last := true;
            return true;
          }
          if c == Quote {
            return false;
          } else if c == delimiter {
            return true;
          } else if c == Newline {
            last := true;
            return true;
          } else {
            field := field + [c];
          }
        case Quoted =>
          if s.eof {
            return false;
          }
          if c == Quote {
            var cnext := s.Get();
            if s.eof {
              last := true;
              return true;
            } else if cnext == delimiter {
              return true;
            } else if cnext == Newline {
              last := true;
              return true;
            } else if cnext == Quote {
              field := field + [Quote];
            } else {
              s.Unget();
              return false;
            }
          } else {
            field := field + [c];
          }
      }
    }

    /** `is >> field_parser`: reads a field and sets failbit when it is rejected. */
    method ExtractField(s: Stream)
      requires s.Valid() && (s.fail ==> s.eof)
      modifies this`state, this`field, this`last, s
      ensures s.Valid()
      ensures var o := FieldScan(s.text, delimiter, old(s.pos));
        field == o.field && last == o.last && state == o.state &&
        s.pos == o.pos && s.eof == o.eof && s.fail == (o.eof || !o.ok)
    {
      var ok := ReadField(s);
      if !ok {
        s.SetFail();
      }
    }

    /** `read_record`: reads fields until one is last or the stream fails; a
        rejected field does not stop the record. */
    method ReadRecord(s: Stream)
      requires s.Valid() && (s.fail ==> s.eof)
      modifies this`state, this`field, this`last, this`record, s
      ensures s.Valid() && (s.fail ==> s.eof)
      ensures old(s.eof) ==> record == [] && !last && field == old(field) && state == old(state) && s.pos == old(s.pos) && s.eof
      ensures !old(s.eof) ==> var r := RecordScan(s.text, delimiter, old(s.pos));
        record == r.fields && field == r.final.field && last == r.final.last && state == r.final.state &&
        s.pos == r.final.pos && s.eof == r.final.eof
    {
      ghost var wasEof := s.eof;
      ghost var goal := RecordScan(s.text, delimiter, s.pos);
      ghost var field0, state0, pos0 := field, state, s.pos;
      record := [];
      last := false;
      while !last && !s.fail
        invariant s.Valid() && (s.fail ==> s.eof)
        invariant wasEof ==> record == [] && !last && field == field0 && state == state0 && s.pos == pos0 && s.eof
        invariant !wasEof && !last && !s.fail ==>
          record + RecordScan(s.text, delimiter, s.pos).fields == goal.fields &&
          RecordScan(s.text, delimiter, s.pos).final == goal.final
        invariant !wasEof && (last || s.fail) ==>
          record == goal.fields && field == goal.final.field && last == goal.final.last &&
          state == goal.final.state && s.pos == goal.final.pos && s.eof == goal.final.eof
        decreases |s.text| - s.pos + (if s.eof then 0 else 1)
      {
        if !wasEof {
          RecordAdvance(s.text, delimiter, s.pos, record, goal);
        }
        var ok := ReadField(s);
        record := record + [field];
      }
    }

    /** `is_blank`: the record is exactly one empty field. */
    predicate IsBlank()
      reads this
    {
      |record| == 1 && record[0] == ""
    }

    /** `read_document`: reads records until the stream fails, keeping the
        non-blank ones. */
    method ReadDocument(s: Stream)
      requires s.Valid() && (s.fail ==> s.eof)
      modifies this`state, this`field, this`last, this`record, this`document, s
      ensures s.Valid() && s.eof && s.fail
      ensures old(s.eof) ==> document == [] && !last && field == old(field) && state == old(state) && record == old(record)
      ensures !old(s.eof) ==> var r := DocScan(s.text, delimiter, old(s.pos));
        document == r.records && record == r.lastRecord.fields &&
        field == r.lastRecord.final.field && last == r.lastRecord.final.last && state == r.lastRecord.final.state
    {
      document := [];
      last := false;
      if s.eof {
        // the loop below would not run
        return;
      }
      ghost var goal := DocScan(s.text, delimiter, s.pos);
      while !s.eof && !s.fail
        invariant s.Valid() && (s.fail ==> s.eof)
        invariant !s.eof ==>
          document + DocScan(s.text, delimiter, s.pos).records == goal.records &&
          DocScan(s.text, delimiter, s.pos).lastRecord == goal.lastRecord
        invariant s.eof ==>
          document == goal.records && record == goal.lastRecord.fields &&
          field == goal.lastRecord.final.field && last == goal.lastRecord.final.last &&
          state == goal.lastRecord.final.state
        decreases |s.text| - s.pos + (if s.eof then 0 else 1)
      {
        ghost var p := s.pos;
        DocStep(s.text, delimiter, p, document, goal);
        ReadRecord(s);
        if !IsBlank() {
          document := document + [record];
        }
      }
    }
  }

  // ---------------------------------------------------------------------------
  // The unit tests of the parser, as obligations on the model.

  /** Three plain fields, read one at a time through the stream. */
  method PlainFieldsTest() returns (fields: seq<string>, lasts: seq<bool>)
    ensures fields == ["aaa", "bbb", "ccc"] && lasts == [false, false, true]
  {
    var ss := new Stream("aaa,bbb,ccc");
    var fp := new Parser();
    fp.ExtractField(ss);
    assert fp.field == "aaa" && !fp.last;
    fields, lasts := [fp.field], [fp.last];
    fp.ExtractField(ss);
    assert fp.field == "bbb" && !fp.last;
    fields, lasts := fields + [fp.field], lasts + [fp.last];
    fp.ExtractField(ss);
    assert fp.field == "ccc" && fp.last;
    fields, lasts := fields + [fp.field], lasts + [fp.last];
  }

  /** Every text in the rejection test leaves the stream failed. */
  lemma RejectedFields()
    ensures !FieldScan("ab\"cd", ',', 0).ok
    ensures !FieldScan("abcd\",", ',', 0).ok
    ensures !FieldScan("abcd\"\n", ',', 0).ok
    ensures !FieldScan("ab\"\"cd", ',', 0).ok
    ensures !FieldScan("\"abcd", ',', 0).ok
    ensures !FieldScan("abcd\"", ',', 0).ok
    ensures !FieldScan("\"abcd\"e", ',', 0).ok
  {
  }

  /** Doubled quotes inside a quoted field stand for one quote. */
  lemma QuoteQuoteFields()
    ensures FieldScan("\"\"\"abcd\"", ',', 0).field == "\"abcd"
    ensures FieldScan("\"ab\"\"cd\"", ',', 0).field == "ab\"cd"
    ensures FieldScan("\"abcd\"\"\"", ',', 0).field == "abcd\""
  {
  }
}
