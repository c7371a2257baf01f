/**
 The CSV reader of src/App.js (`parseCSV`). Each line is scanned character by
 character with an in-quotes flag: a double quote flips the flag and is
 dropped, a comma outside quotes ends a field, and each finished field is
 trimmed. The first line names the columns; every later line that is not
 blank becomes one record, its fields matched to the columns by position.
 */
module Csv {
  import opened Wrappers
  import opened Strings
  import opened Seqs
  import opened Dataset

  /* ---------------------------------------------------------------------- */
  /* Fields                                                                 */
  /* ---------------------------------------------------------------------- */

  /** The characters of `s` other than the double quote, in order. */
  function Unquoted(s: string): (r: string)
    ensures '"' !in r
  {
    if s == [] then ""
    else Unquoted(s[..|s| - 1]) + (if s[|s| - 1] == '"' then "" else [s[|s| - 1]])
  }

  lemma {:induction false} UnquotedAppend(a: string, b: string)
    ensures Unquoted(a + b) == Unquoted(a) + Unquoted(b)
    decreases |b|
  {
    if b == [] {
      assert a + b == a;
    } else {
      var b' := b[..|b| - 1];
      assert (a + b)[..|a + b| - 1] == a + b';
      UnquotedAppend(a, b');
    }
  }

  lemma {:induction false} UnquotedOfPlain(s: string)
    requires '"' !in s
    ensures Unquoted(s) == s
  {
    if s != [] {
      UnquotedOfPlain(s[..|s| - 1]);
    }
  }

  /** Quote stripping: one double quote is removed from each end, where there is one. */
  function StripOuterQuotes(s: string): (r: string)
    ensures '"' !in s ==> r == s
  {
    var lo := if |s| > 0 && s[0] == '"' then 1 else 0;
    var hi := if |s| > lo && s[|s| - 1] == '"' then |s| - 1 else |s|;
    s[lo..hi]
  }

  /** How a finished field is cleaned before it is kept: trimmed, then quote-stripped. */
  function CleanField(current: string): string {
    StripOuterQuotes(Trim(current))
  }

  /* ---------------------------------------------------------------------- */
  /* The scanner, as written: one step per character                        */
  /* ---------------------------------------------------------------------- */

  datatype ScanState = ScanState(inQuotes: bool, current: string, fields: seq<string>)

  const Start := ScanState(false, "", [])

  /** Cleaning a field with no double quote in it is trimming it, and leaves no quote. */
  lemma CleanFieldOfPlain(current: string)
    ensures '"' !in current ==> CleanField(current) == Trim(current)
    ensures '"' !in current ==> '"' !in CleanField(current) && IsTrimmed(CleanField(current))
  {
    TrimKeepsChars(current, '"');
  }

  /**
   The loop body of the line scan in `parseCSV`. How a finished field is
   cleaned is a parameter (`parseCSV` passes `CleanField`): where the line
   splits does not depend on it.
   */
  function Step(clean: string -> string, st: ScanState, c: char): ScanState {
    if c == '"' then st.(inQuotes := !st.inQuotes)
    else if c == ',' && !st.inQuotes then ScanState(st.inQuotes, "", st.fields + [clean(st.current)])
    else st.(current := st.current + [c])
  }

  /** The state after scanning `s` from state `st`. */
  function Run(clean: string -> string, st: ScanState, s: string): ScanState
    decreases |s|
  {
    if s == [] then st else Step(clean, Run(clean, st, s[..|s| - 1]), s[|s| - 1])
  }

  /** The scan of one line: the kept fields, then the last one flushed at the end. */
  function ScanLine(clean: string -> string, line: string): (fields: seq<string>)
    ensures |fields| >= 1
  {
    var st := Run(clean, Start, line);
    st.fields + [clean(st.current)]
  }

  /** `parseCSV`'s reading of one line into fields. */
  function Tokenize(line: string): seq<string> {
    ScanLine(CleanField, line)
  }

  /* ---------------------------------------------------------------------- */
  /* Where a line splits, stated without the scanner                        */
  /* ---------------------------------------------------------------------- */

  /** Position `i` lies inside quotes: an odd number of double quotes precede it. */
  predicate InQuotesAt(line: string, i: nat)
    requires i <= |line|
  {
    multiset(line[..i])['"'] % 2 == 1
  }

  /** A comma that is not inside quotes. */
  predicate IsSplitComma(line: string, i: nat)
    requires i < |line|
  {
    line[i] == ',' && !InQuotesAt(line, i)
  }

  /** Positions in increasing order, all below `n`. */
  predicate Positions(d: seq<nat>, n: nat) {
    && (forall k :: 0 <= k < |d| ==> d[k] < n)
    && (forall a, b :: 0 <= a < b < |d| ==> d[a] < d[b])
  }

  /** The positions below `n` of the commas outside quotes, in increasing order. */
  function SplitCommas(line: string, n: nat): (d: seq<nat>)
    requires n <= |line|
    ensures Positions(d, n)
  {
    if n == 0 then []
    else SplitCommas(line, n - 1) + (if IsSplitComma(line, n - 1) then [n - 1] else [])
  }

  /** The split commas are exactly the commas outside quotes. */
  lemma {:induction false} SplitCommasExact(line: string, n: nat)
    requires n <= |line|
    ensures forall i :: 0 <= i < n ==> (i in SplitCommas(line, n) <==> IsSplitComma(line, i))
  {
    if n > 0 {
      SplitCommasExact(line, n - 1);
    }
  }

  function FieldStart(d: seq<nat>, k: nat): nat
    requires k <= |d|
  {
    if k == 0 then 0 else d[k - 1] + 1
  }

  function FieldEnd(d: seq<nat>, k: nat, n: nat): nat
    requires k <= |d|
  {
    if k < |d| then d[k] else n
  }

  /** The text of field `k` as it stands in the line: between two split commas, or an end of the line. */
  function RawField(line: string, k: nat): string
    requires k <= |SplitCommas(line, |line|)|
  {
    var d := SplitCommas(line, |line|);
    line[FieldStart(d, k)..FieldEnd(d, k, |line|)]
  }

  /** The cleaned text before each split position `d[k]`, back to the previous one. */
  function KeptFields(clean: string -> string, line: string, d: seq<nat>): (fs: seq<string>)
    requires Positions(d, |line|)
    ensures |fs| == |d|
  {
    if d == [] then []
    else
      var n := |d| - 1;
      KeptFields(clean, line, d[..n]) + [clean(Unquoted(line[FieldStart(d, n)..d[n]]))]
  }

  lemma {:induction false} KeptFieldsAt(clean: string -> string, line: string, d: seq<nat>, k: nat)
    requires Positions(d, |line|) && k < |d|
    ensures KeptFields(clean, line, d)[k] == clean(Unquoted(line[FieldStart(d, k)..d[k]]))
    decreases |d|
  {
    var n := |d| - 1;
    var init := d[..n];
    assert Positions(init, |line|);
    var fs := KeptFields(clean, line, init);
    assert KeptFields(clean, line, d) == fs + [clean(Unquoted(line[FieldStart(d, n)..d[n]]))];
    if k < n {
      KeptFieldsAt(clean, line, init, k);
      assert FieldStart(init, k) == FieldStart(d, k);
      assert init[k] == d[k];
    }
  }

  /** What the scanner holds after the first `i` characters, stated through the split commas before `i`. */
  ghost predicate ScannedPrefix(clean: string -> string, line: string, i: nat, st: ScanState)
    requires i <= |line|
  {
    var d := SplitCommas(line, i);
    && st.inQuotes == InQuotesAt(line, i)
    && st.fields == KeptFields(clean, line, d)
    && st.current == Unquoted(line[FieldStart(d, |d|)..i])
  }

  lemma QuoteParityStep(line: string, j: nat)
    requires j < |line|
    ensures InQuotesAt(line, j + 1) == (InQuotesAt(line, j) != (line[j] == '"'))
  {
    assert line[..j + 1] == line[..j] + [line[j]];
  }

  lemma UnquotedStep(line: string, lo: nat, j: nat)
    requires lo <= j < |line|
    ensures Unquoted(line[lo..j + 1]) == Unquoted(line[lo..j]) + (if line[j] == '"' then "" else [line[j]])
  {
    assert line[lo..j + 1][..j - lo] == line[lo..j];
  }

  /** One character: the scanner state and the split-comma description move together. */
  lemma ScanStep(clean: string -> string, line: string, j: nat, st: ScanState)
    requires j < |line| && ScannedPrefix(clean, line, j, st)
    ensures ScannedPrefix(clean, line, j + 1, Step(clean, st, line[j]))
  {
    if line[j] == ',' && !st.inQuotes {
      ScanSplitComma(clean, line, j, st);
    } else {
      ScanKept(clean, line, j, st);
    }
  }

  /** A comma outside quotes: the pending field is cleaned and kept, and a new one starts. */
  lemma ScanSplitComma(clean: string -> string, line: string, j: nat, st: ScanState)
    requires j < |line| && ScannedPrefix(clean, line, j, st)
    requires line[j] == ',' && !st.inQuotes
    ensures ScannedPrefix(clean, line, j + 1, ScanState(false, "", st.fields + [clean(st.current)]))
  {
    QuoteParityStep(line, j);
    SplitAtComma(clean, line, j);
    assert line[j + 1..j + 1] == [];
  }

  /** Any other character: a quote flips the flag, anything else joins the pending field. */
  lemma ScanKept(clean: string -> string, line: string, j: nat, st: ScanState)
    requires j < |line| && ScannedPrefix(clean, line, j, st)
    requires !(line[j] == ',' && !st.inQuotes)
    ensures ScannedPrefix(clean, line, j + 1, Step(clean, st, line[j]))
  {
    var d := SplitCommas(line, j);
    QuoteParityStep(line, j);
    UnquotedStep(line, FieldStart(d, |d|), j);
    assert SplitCommas(line, j + 1) == d;
  }

  /** A comma outside quotes closes the pending field. */
  lemma SplitAtComma(clean: string -> string, line: string, j: nat)
    requires j < |line| && IsSplitComma(line, j)
    ensures var d := SplitCommas(line, j);
      && SplitCommas(line, j + 1) == d + [j]
      && KeptFields(clean, line, d + [j]) == KeptFields(clean, line, d) + [clean(Unquoted(line[FieldStart(d, |d|)..j]))]
      && FieldStart(d + [j], |d| + 1) == j + 1
  {
    var d := SplitCommas(line, j);
    var d' := d + [j];
    assert SplitCommas(line, j + 1) == d';
    assert d'[..|d|] == d;
    assert FieldStart(d', |d|) == FieldStart(d, |d|);
  }

  lemma {:induction false} ScanInvariant(clean: string -> string, line: string, i: nat)
    requires i <= |line|
    ensures ScannedPrefix(clean, line, i, Run(clean, Start, line[..i]))
  {
    if i > 0 {
      var j := i - 1;
      ScanInvariant(clean, line, j);
      assert line[..i][..j] == line[..j];
      ScanStep(clean, line, j, Run(clean, Start, line[..j]));
    }
  }

  /**
   The fields of a line are the pieces between the commas that stand outside
   quotes, each with its double quotes removed and then trimmed.
   */
  lemma TokenizeSplitsAtUnquotedCommas(line: string)
    ensures |Tokenize(line)| == |SplitCommas(line, |line|)| + 1
    ensures forall k :: 0 <= k < |Tokenize(line)| ==> Tokenize(line)[k] == CleanField(Unquoted(RawField(line, k)))
  {
    ScanLineSplits(CleanField, line);
  }

  lemma ScanLineCount(clean: string -> string, line: string)
    ensures |ScanLine(clean, line)| == |SplitCommas(line, |line|)| + 1
  {
    assert line[..|line|] == line;
    ScanInvariant(clean, line, |line|);
  }

  lemma ScanLineSplits(clean: string -> string, line: string)
    ensures |ScanLine(clean, line)| == |SplitCommas(line, |line|)| + 1
    ensures forall k :: 0 <= k < |ScanLine(clean, line)| ==> ScanLine(clean, line)[k] == clean(Unquoted(RawField(line, k)))
  {
    var d := SplitCommas(line, |line|);
    var st := Run(clean, Start, line);
    assert line[..|line|] == line;
    ScanInvariant(clean, line, |line|);
    assert st.fields == KeptFields(clean, line, d);
    forall k | 0 <= k < |d| ensures ScanLine(clean, line)[k] == clean(Unquoted(RawField(line, k))) {
      KeptFieldsAt(clean, line, d, k);
    }
  }

  /** No field keeps a double quote or whitespace at either end. */
  lemma TokenizeFieldsClean(line: string)
    ensures forall f <- Tokenize(line) :: '"' !in f && IsTrimmed(f)
  {
    TokenizeSplitsAtUnquotedCommas(line);
    forall f <- Tokenize(line) ensures '"' !in f && IsTrimmed(f) {
      var k :| 0 <= k < |Tokenize(line)| && Tokenize(line)[k] == f;
      CleanFieldOfPlain(Unquoted(RawField(line, k)));
    }
  }

  /** The number of fields is one more than the number of commas outside quotes. */
  lemma FieldCount(line: string)
    ensures |Tokenize(line)| == |set i | 0 <= i < |line| && IsSplitComma(line, i)| + 1
  {
    ScanLineCount(CleanField, line);
    SplitCommaCount(line);
    assert Tokenize(line) == ScanLine(CleanField, line);
  }

  /** The split positions are as many as the commas outside quotes. */
  lemma SplitCommaCount(line: string)
    ensures |SplitCommas(line, |line|)| == |set i | 0 <= i < |line| && IsSplitComma(line, i)|
  {
    var d := SplitCommas(line, |line|);
    assert Distinct(d);
    DistinctCardinality(d);
    SplitCommasExact(line, |line|);
    var commas := set i | 0 <= i < |line| && IsSplitComma(line, i);
    assert Elements(d) == commas by {
      forall x | x in d ensures x in commas {
        var k :| 0 <= k < |d| && d[k] == x;
      }
    }
  }

  /* ---------------------------------------------------------------------- */
  /* Records                                                                */
  /* ---------------------------------------------------------------------- */

  /** The cell at a column's position, or the empty string when the row has no such cell or an empty one. */
  function Cell(vals: seq<string>, i: nat): string {
    if i < |vals| then vals[i] else ""
  }

  /** No later column has the same name. */
  predicate LastOccurrence(headers: seq<string>, i: nat)
    requires i < |headers|
  {
    forall j :: i < j < |headers| ==> headers[j] != headers[i]
  }

  /**
   The object built for one line: for each column name in order, the name is
   set to the cell at the same position, or to `''` when the line has no such
   cell or an empty one, so a later duplicate name overwrites an earlier one.
   */
  function MakeRecord(headers: seq<string>, vals: seq<string>): (r: Record)
    ensures r.Keys == Elements(headers)
    decreases |headers|
  {
    if headers == [] then map[]
    else
      var n := |headers| - 1;
      assert Elements(headers) == Elements(headers[..n]) + {headers[n]} by {
        assert headers == headers[..n] + [headers[n]];
      }
      MakeRecord(headers[..n], vals)[headers[n] := Cell(vals, n)]
  }

  /** A column holds the cell at the position where its name last occurs. */
  lemma {:induction false} MakeRecordCell(headers: seq<string>, vals: seq<string>, i: nat)
    requires i < |headers| && LastOccurrence(headers, i)
    ensures MakeRecord(headers, vals)[headers[i]] == Cell(vals, i)
    decreases |headers|
  {
    var n := |headers| - 1;
    assert MakeRecord(headers, vals) == MakeRecord(headers[..n], vals)[headers[n] := Cell(vals, n)];
    if i < n {
      assert headers[n] != headers[i];
      assert LastOccurrence(headers[..n], i) by {
        forall j | i < j < n ensures headers[..n][j] != headers[..n][i] {
          assert headers[j] != headers[i];
        }
      }
      MakeRecordCell(headers[..n], vals, i);
      assert headers[..n][i] == headers[i];
    }
  }

  /** Cells beyond the last column never reach the record. */
  lemma {:induction false} ExtraCellsDropped(headers: seq<string>, vals: seq<string>)
    requires |vals| > |headers|
    ensures MakeRecord(headers, vals) == MakeRecord(headers, vals[..|headers|])
    decreases |headers|
  {
    if headers != [] {
      var n := |headers| - 1;
      var cut := vals[..|headers|];
      ExtraCellsDropped(headers[..n], vals);
      ExtraCellsDropped(headers[..n], cut);
      assert cut[..n] == vals[..n];
      assert Cell(cut, n) == Cell(vals, n);
    }
  }

  /** A line that `line.trim()` leaves non-empty. */
  predicate HasContent(line: string) {
    Trim(line) != ""
  }

  /** Each line's fields zipped against the column names. */
  function RecordsOf(headers: seq<string>, kept: seq<string>): (rows: seq<Record>)
    ensures |rows| == |kept|
  {
    if kept == [] then [] else [MakeRecord(headers, Tokenize(kept[0]))] + RecordsOf(headers, kept[1..])
  }

  /**
   The data lines, skipping blank ones, each zipped against the column names.
   Blank lines are dropped before the zipping; `AsWrittenIsRecords` shows this
   gives what the source's map-to-null-then-filter pipeline gives.
   */
  function Records(headers: seq<string>, lines: seq<string>): (rows: seq<Record>)
    ensures |rows| <= |lines|
  {
    RecordsOf(headers, Filter(HasContent, lines))
  }

  /** What the source makes of one data line: null when blank, otherwise its record. */
  function LineRecord(headers: seq<string>, line: string): Option<Record> {
    if !HasContent(line) then None else Some(MakeRecord(headers, Tokenize(line)))
  }

  /** Every data line turned into a record or null, in order. */
  function LineRecords(headers: seq<string>, lines: seq<string>): (rs: seq<Option<Record>>)
    ensures |rs| == |lines|
  {
    if lines == [] then [] else [LineRecord(headers, lines[0])] + LineRecords(headers, lines[1..])
  }

  /** The records of `rs` with the nulls dropped, in order. */
  function NonNull(rs: seq<Option<Record>>): seq<Record> {
    if rs == [] then [] else (if rs[0].Some? then [rs[0].value] else []) + NonNull(rs[1..])
  }

  /**
   Mapping every line to a record or null and then dropping the nulls gives
   exactly the records of the non-blank lines, in the same order.
   */
  lemma {:induction false} AsWrittenIsRecords(headers: seq<string>, lines: seq<string>)
    ensures NonNull(LineRecords(headers, lines)) == Records(headers, lines)
  {
    if lines != [] {
      var l, rest := lines[0], lines[1..];
      assert lines == [l] + rest;
      AsWrittenIsRecords(headers, rest);
      ConsFilter(HasContent, l, rest);
      var rs := LineRecords(headers, lines);
      assert rs[1..] == LineRecords(headers, rest);
      if HasContent(l) {
        var r0 := MakeRecord(headers, Tokenize(l));
        assert rs[0] == Some(r0);
        assert NonNull(rs) == [r0] + NonNull(LineRecords(headers, rest));
        var kept := Filter(HasContent, lines);
        assert kept == [l] + Filter(HasContent, rest);
        assert kept[1..] == Filter(HasContent, rest);
        assert RecordsOf(headers, kept) == [r0] + RecordsOf(headers, kept[1..]);
      } else {
        assert rs[0] == None;
        assert NonNull(rs) == NonNull(LineRecords(headers, rest));
        assert Filter(HasContent, lines) == Filter(HasContent, rest);
      }
    }
  }


  /** One record per non-blank line, in order, built from that line's fields. */
  lemma {:induction false} RecordsOfContentLines(headers: seq<string>, lines: seq<string>)
    ensures |Records(headers, lines)| == |Filter(HasContent, lines)|
    ensures forall k :: 0 <= k < |Records(headers, lines)| ==>
      Records(headers, lines)[k] == MakeRecord(headers, Tokenize(Filter(HasContent, lines)[k]))
  {
    var kept := Filter(HasContent, lines);
    forall k | 0 <= k < |kept| ensures RecordsOf(headers, kept)[k] == MakeRecord(headers, Tokenize(kept[k])) {
      RecordsOfAt(headers, kept, k);
    }
  }

  lemma {:induction false} RecordsOfAt(headers: seq<string>, kept: seq<string>, k: nat)
    requires k < |kept|
    ensures RecordsOf(headers, kept)[k] == MakeRecord(headers, Tokenize(kept[k]))
  {
    RecordsOfSuffix(headers, kept, k);
    var t := kept[k..];
    assert RecordsOf(headers, kept)[k] == RecordsOf(headers, t)[0];
    assert RecordsOf(headers, t) == [MakeRecord(headers, Tokenize(t[0]))] + RecordsOf(headers, t[1..]);
    assert t[0] == kept[k];
  }

  lemma {:induction false} RecordsOfSuffix(headers: seq<string>, kept: seq<string>, k: nat)
    requires k <= |kept|
    ensures RecordsOf(headers, kept)[k..] == RecordsOf(headers, kept[k..])
  {
    if k > 0 {
      RecordsOfSuffix(headers, kept[1..], k - 1);
      assert kept[1..][k - 1..] == kept[k..];
      ConsDrop(MakeRecord(headers, Tokenize(kept[0])), RecordsOf(headers, kept[1..]), k);
    }
  }

  /** The text, trimmed, cut at every newline. */
  function Lines(text: string): (lines: seq<string>)
    ensures |lines| >= 1
  {
    SplitOn(Trim(text), '\n')
  }

  /** The column names: the fields of the first line. */
  function Header(text: string): seq<string> {
    Tokenize(Lines(text)[0])
  }

  /** `parseCSV(text)`. */
  function ParseCsv(text: string): (rows: seq<Record>)
    ensures |rows| <= |Lines(text)| - 1
  {
    var lines := Lines(text);
    Records(Tokenize(lines[0]), lines[1..])
  }

  /**
   Every record has exactly the header's column names as keys, and there is
   one record per non-blank data line.
   */
  lemma ParseCsvShape(text: string)
    ensures var rows := ParseCsv(text);
      && |rows| == |Filter(HasContent, Lines(text)[1..])|
      && forall m <- rows :: m.Keys == Elements(Header(text))
  {
    var lines := Lines(text);
    RecordsOfContentLines(Header(text), lines[1..]);
  }

  /* ---------------------------------------------------------------------- */
  /* Writing a table back out, and reading it again                         */
  /* ---------------------------------------------------------------------- */

  /** A cell the format can carry through a quoted round trip. */
  predicate Plain(f: string) {
    '"' !in f && '\n' !in f && IsTrimmed(f)
  }

  function Quote(f: string): string {
    ['"'] + f + ['"']
  }

  /** One line of quoted cells separated by commas. */
  function RowText(fields: seq<string>): string {
    Join(Map(Quote, fields), ',')
  }

  /** The header line and then one line per row. */
  function Serialize(headers: seq<string>, rows: seq<seq<string>>): string {
    Join([RowText(headers)] + Map(RowText, rows), '\n')
  }

  lemma {:induction false} RunAppend(clean: string -> string, st: ScanState, a: string, b: string)
    ensures Run(clean, st, a + b) == Run(clean, Run(clean, st, a), b)
    decreases |b|
  {
    if b == [] {
      assert a + b == a;
    } else {
      var b' := b[..|b| - 1];
      assert (a + b)[..|a + b| - 1] == a + b';
      RunAppend(clean, st, a, b');
    }
  }

  lemma RunOne(clean: string -> string, st: ScanState, c: char)
    ensures Run(clean, st, [c]) == Step(clean, st, c)
  {
    assert [c][..0] == [];
  }

  /** Inside quotes, characters other than a double quote (commas too) are kept as they are. */
  lemma {:induction false} RunInsideQuotes(clean: string -> string, st: ScanState, s: string)
    requires st.inQuotes && '"' !in s
    ensures Run(clean, st, s) == st.(current := st.current + s)
    decreases |s|
  {
    if s == [] {
      assert st.current + s == st.current;
    } else {
      var s' := s[..|s| - 1];
      RunInsideQuotes(clean, st, s');
      assert st.current + s' + [s[|s| - 1]] == st.current + s;
    }
  }

  lemma RunQuoted(clean: string -> string, st: ScanState, f: string)
    requires !st.inQuotes && '"' !in f
    ensures Run(clean, st, Quote(f)) == st.(current := st.current + f)
  {
    RunOne(clean, st, '"');
    RunAppend(clean, st, ['"'], f);
    RunInsideQuotes(clean, st.(inQuotes := true), f);
    RunAppend(clean, st, ['"'] + f, ['"']);
    RunOne(clean, Run(clean, st, ['"'] + f), '"');
  }

  lemma RowTextSnoc(fields: seq<string>, f: string)
    requires |fields| >= 1
    ensures RowText(fields + [f]) == RowText(fields) + [','] + Quote(f)
  {
    assert Map(Quote, fields + [f]) == Map(Quote, fields) + [Quote(f)];
    JoinSnoc(Map(Quote, fields), Quote(f), ',');
  }

  /** After a row of quoted cells the last cell is pending and the others are kept. */
  lemma {:induction false} RunRow(clean: string -> string, fields: seq<string>)
    requires |fields| >= 1
    requires forall f <- fields :: '"' !in f && clean(f) == f
    ensures Run(clean, Start, RowText(fields)) == ScanState(false, fields[|fields| - 1], fields[..|fields| - 1])
    decreases |fields|
  {
    var n := |fields| - 1;
    if n == 0 {
      assert Map(Quote, fields) == [Quote(fields[0])];
      RunQuoted(clean, Start, fields[0]);
      assert "" + fields[0] == fields[0];
    } else {
      var init := fields[..n];
      assert fields == init + [fields[n]];
      RunRow(clean, init);
      RunRowStep(clean, init, fields[n]);
    }
  }

  /** Appending one more quoted cell to a row: the pending cell is kept and the new one is pending. */
  lemma RunRowStep(clean: string -> string, init: seq<string>, f: string)
    requires |init| >= 1 && '"' !in f
    requires clean(init[|init| - 1]) == init[|init| - 1]
    requires Run(clean, Start, RowText(init)) == ScanState(false, init[|init| - 1], init[..|init| - 1])
    ensures Run(clean, Start, RowText(init + [f])) == ScanState(false, f, init)
  {
    var n := |init|;
    RowTextSnoc(init, f);
    var mid := Run(clean, Start, RowText(init));
    RunAppend(clean, Start, RowText(init) + [','], Quote(f));
    RunAppend(clean, Start, RowText(init), [',']);
    RunOne(clean, mid, ',');
    var afterComma := Step(clean, mid, ',');
    assert init[..n - 1] + [init[n - 1]] == init;
    assert afterComma == ScanState(false, "", init);
    RunQuoted(clean, afterComma, f);
    assert "" + f == f;
  }

  /** Reading a line of quoted cells gives the cells back, embedded commas and all. */
  lemma TokenizeRowText(fields: seq<string>)
    requires |fields| >= 1
    requires forall f <- fields :: '"' !in f && IsTrimmed(f)
    ensures Tokenize(RowText(fields)) == fields
  {
    forall f <- fields ensures CleanField(f) == f {
      CleanFieldOfPlain(f);
    }
    RunRow(CleanField, fields);
    assert fields[..|fields| - 1] + [fields[|fields| - 1]] == fields;
  }

  /** A comma inside quotes does not split: `"Alpha, Beta"` is one field. */
  lemma QuotedCommaExample()
    ensures Tokenize("\"" + "Alpha, Beta" + "\"") == ["Alpha, Beta"]
  {
    var cell := "Alpha, Beta";
    assert IsTrimmed(cell) && '"' !in cell;
    TokenizeRowText([cell]);
    assert Map(Quote, [cell]) == [Quote(cell)];
    assert RowText([cell]) == Quote(cell);
    assert Quote(cell) == "\"" + cell + "\"";
  }

  lemma RowTextShape(fields: seq<string>)
    requires |fields| >= 1
    ensures var t := RowText(fields); |t| >= 2 && t[0] == '"' && t[|t| - 1] == '"'
  {
    var qs := Map(Quote, fields);
    JoinHead(qs, ',');
    JoinLast(qs, ',');
  }

  lemma RowTextChars(fields: seq<string>, c: char)
    requires c in RowText(fields)
    ensures c == ',' || c == '"' || exists f <- fields :: c in f
  {
    var qs := Map(Quote, fields);
    JoinChars(qs, ',', c);
    if c != ',' {
      var q :| q in qs && c in q;
      var k :| 0 <= k < |qs| && qs[k] == q;
      assert c in fields[k] || c == '"';
    }
  }

  lemma RowTextOneLine(fields: seq<string>)
    requires forall f <- fields :: '\n' !in f
    ensures '\n' !in RowText(fields)
  {
    if '\n' in RowText(fields) {
      RowTextChars(fields, '\n');
    }
  }

  /** A header and rows of plain cells, every row as long as the header. */
  predicate Table(headers: seq<string>, rows: seq<seq<string>>) {
    && |headers| >= 1
    && (forall h <- headers :: Plain(h))
    && (forall k :: 0 <= k < |rows| ==> |rows[k]| == |headers|)
    && (forall row <- rows, f <- row :: Plain(f))
  }

  /** A row of plain cells occupies one non-blank line. */
  lemma RowLine(fields: seq<string>)
    requires |fields| >= 1 && forall f <- fields :: Plain(f)
    ensures '\n' !in RowText(fields) && HasContent(RowText(fields))
  {
    RowTextOneLine(fields);
    RowHasContent(fields);
  }

  lemma RowHasContent(fields: seq<string>)
    requires |fields| >= 1
    ensures HasContent(RowText(fields))
  {
    var t := RowText(fields);
    RowTextShape(fields);
    TrimBlank(t);
    assert !IsSpace(t[0]);
  }

  /** The written text splits back into the header line and one line per row. */
  lemma SerializeLines(headers: seq<string>, rows: seq<seq<string>>)
    requires Table(headers, rows)
    ensures Lines(Serialize(headers, rows)) == [RowText(headers)] + Map(RowText, rows)
  {
    var lines := [RowText(headers)] + Map(RowText, rows);
    var text := Serialize(headers, rows);
    forall l <- lines ensures '\n' !in l {
      var k :| 0 <= k < |lines| && lines[k] == l;
      if k == 0 {
        RowLine(headers);
      } else {
        RowLine(rows[k - 1]);
      }
    }
    RowTextShape(headers);
    JoinHead(lines, '\n');
    assert text[0] == '"';
    if rows == [] {
      assert text == RowText(headers);
    } else {
      RowTextShape(rows[|rows| - 1]);
      JoinLast(lines, '\n');
      assert lines[|lines| - 1] == RowText(rows[|rows| - 1]);
    }
    assert IsTrimmed(text);
    SplitJoin(lines, '\n');
  }

  /** A written row read back under distinct column names gives each column its cell. */
  lemma RowRecord(headers: seq<string>, row: seq<string>, i: nat)
    requires Distinct(headers) && i < |headers| == |row|
    requires forall f <- row :: Plain(f)
    ensures MakeRecord(headers, Tokenize(RowText(row)))[headers[i]] == row[i]
  {
    TokenizeRowText(row);
    MakeRecordCell(headers, row, i);
  }

  lemma RowLinesHaveContent(headers: seq<string>, rows: seq<seq<string>>)
    requires Table(headers, rows)
    ensures Filter(HasContent, Map(RowText, rows)) == Map(RowText, rows)
  {
    var body := Map(RowText, rows);
    forall l <- body ensures HasContent(l) {
      var k :| 0 <= k < |body| && body[k] == l;
      RowLine(rows[k]);
    }
    FilterKeepsAll(HasContent, body);
  }

  /** Each written row comes back as the record built from that row's line. */
  lemma ParsedRows(headers: seq<string>, rows: seq<seq<string>>)
    requires Table(headers, rows)
    ensures Header(Serialize(headers, rows)) == headers
    ensures var out := ParseCsv(Serialize(headers, rows));
      && |out| == |rows|
      && (forall k :: 0 <= k < |rows| ==> out[k] == MakeRecord(headers, Tokenize(RowText(rows[k]))))
  {
    var body := Map(RowText, rows);
    var text := Serialize(headers, rows);
    var lines := Lines(text);
    SerializeLines(headers, rows);
    assert lines[0] == RowText(headers);
    assert lines[1..] == body;
    TokenizeRowText(headers);
    assert Tokenize(lines[0]) == headers;
    assert ParseCsv(text) == Records(Tokenize(lines[0]), lines[1..]);
    RowLinesHaveContent(headers, rows);
    RecordsOfContentLines(headers, body);
  }

  /**
   Parsing a written table gives one record per row, holding each row's cells
   under its column names: the round trip of the reader.
   */
  lemma ParseSerialize(headers: seq<string>, rows: seq<seq<string>>)
    requires Table(headers, rows) && Distinct(headers)
    ensures Header(Serialize(headers, rows)) == headers
    ensures var out := ParseCsv(Serialize(headers, rows));
      && |out| == |rows|
      && (forall k :: 0 <= k < |rows| ==> out[k].Keys == Elements(headers))
      && (forall k, i :: 0 <= k < |rows| && 0 <= i < |headers| ==> out[k][headers[i]] == rows[k][i])
  {
    ParsedRows(headers, rows);
    var out := ParseCsv(Serialize(headers, rows));
    forall k, i | 0 <= k < |rows| && 0 <= i < |headers| ensures out[k][headers[i]] == rows[k][i] {
      RowRecord(headers, rows[k], i);
    }
  }
}
