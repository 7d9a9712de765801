/** What the report parser promises, stated over the declarative reading `Report.Parse`. */
module ReportProperties {
  import opened Wrappers
  import opened Text
  import opened Report

  // ---------------------------------------------------------------------------------------------
  // The header predicate and the row decoder.

  /** A line is the header exactly when it splits into `Value`, `Percentile` and two more fields of any content. */
  lemma HeaderShape(line: string)
    ensures IsHeader(line) <==> exists c, d :: Split(line) == ["Value", "Percentile", c, d]
  {
    if IsHeader(line) {
      var f := Split(line);
      assert f == ["Value", "Percentile", f[2], f[3]];
    }
  }

  /** The third and fourth fields of the header are never inspected, and the spacing around the fields does not matter. */
  lemma HeaderIgnoresLastFields(gaps: seq<string>, c: string, d: string)
    requires Separators(gaps, 4)
    requires IsWord(c) && IsWord(d)
    ensures IsHeader(Layout(gaps, ["Value", "Percentile", c, d]))
  {
    var words := ["Value", "Percentile", c, d];
    assert IsWord("Value") && IsWord("Percentile");
    SplitLayout(gaps, words);
  }

  /** A whitespace-only line is neither the header nor a row. */
  lemma BlankLineIsNothing(rd: NumberReader, line: string)
    requires IsBlank(line)
    ensures !IsHeader(line) && DecodeRow(rd, line) == None
  {
    BlankIffNoFields(line);
  }

  /** A header-shaped line never decodes as a row, because `Value` is not a number. */
  lemma HeaderNeverDecodes(rd: NumberReader, line: string)
    requires RejectsValueWord(rd)
    requires IsHeader(line)
    ensures DecodeRow(rd, line) == None
  {
  }

  /**
   * On success the four fields land, in order, in value, percentile, total count and inverse
   * percentile; if any field does not read as its number, the row fails.
   */
  lemma DecodeRowFields(rd: NumberReader, line: string, b: Bucket)
    ensures DecodeRow(rd, line) == Some(b) <==>
      var f := Split(line);
      |f| == 4 && rd.readFloat(f[0]) == Some(b.value) && rd.readFloat(f[1]) == Some(b.percentile) &&
      rd.readInt(f[2]) == Some(b.totalCount) && rd.readFloat(f[3]) == Some(b.invPercentile)
  {
  }

  /** The rendering of numbers into fields by the program that writes the report. */
  datatype NumberWriter = NumberWriter(showFloat: real -> string, showInt: int -> string)

  /** Each field `wr` writes for `b` is a single word that `rd` reads back as the same number. */
  predicate ReadsBack(rd: NumberReader, wr: NumberWriter, b: Bucket) {
    IsWord(wr.showFloat(b.value)) && rd.readFloat(wr.showFloat(b.value)) == Some(b.value) &&
    IsWord(wr.showFloat(b.percentile)) && rd.readFloat(wr.showFloat(b.percentile)) == Some(b.percentile) &&
    IsWord(wr.showInt(b.totalCount)) && rd.readInt(wr.showInt(b.totalCount)) == Some(b.totalCount) &&
    IsWord(wr.showFloat(b.invPercentile)) && rd.readFloat(wr.showFloat(b.invPercentile)) == Some(b.invPercentile)
  }

  /** Any four words laid out with whitespace around them decode, field by field, as a row. */
  lemma DecodeLaidOutRow(rd: NumberReader, gaps: seq<string>, fields: seq<string>, b: Bucket)
    requires Separators(gaps, 4) && |fields| == 4
    requires forall i :: 0 <= i < 4 ==> IsWord(fields[i])
    requires rd.readFloat(fields[0]) == Some(b.value) && rd.readFloat(fields[1]) == Some(b.percentile)
    requires rd.readInt(fields[2]) == Some(b.totalCount) && rd.readFloat(fields[3]) == Some(b.invPercentile)
    ensures !IsBlank(Layout(gaps, fields))
    ensures DecodeRow(rd, Layout(gaps, fields)) == Some(b)
  {
    SplitLayout(gaps, fields);
    BlankIffNoFields(Layout(gaps, fields));
  }

  /** `width` minus the length of `s` spaces (none if `s` fills the column): what right-aligns `s`. */
  function Pad(width: nat, s: string): string {
    Repeat(' ', if |s| < width then width - |s| else 0)
  }

  /** The gaps of a line of right-aligned columns one space apart, ended by a newline. */
  function ColumnGaps(widths: seq<nat>, words: seq<string>): (gaps: seq<string>)
    requires |widths| == |words|
  {
    seq(|words| + 1, i requires 0 <= i < |words| + 1 =>
      if i == |words| then "\n" else (if i == 0 then "" else " ") + Pad(widths[i], words[i]))
  }

  lemma ColumnGapsSeparate(widths: seq<nat>, words: seq<string>)
    requires |widths| == |words|
    ensures Separators(ColumnGaps(widths, words), |words|)
  {
    var gaps := ColumnGaps(widths, words);
    forall i | 0 <= i < |gaps| ensures IsBlank(gaps[i]) {
      if i < |words| {
        var g := (if i == 0 then "" else " ") + Pad(widths[i], words[i]);
        assert gaps[i] == g;
        forall j | 0 <= j < |g| ensures IsSpace(g[j]) {
          assert g[j] == ' ';
        }
      }
    }
  }

  /** The column widths of the percentile table: 12, 14, 10 and 14 characters. */
  const Widths: seq<nat> := [12, 14, 10, 14]

  /** The header's words. */
  const HeaderWords: seq<string> := ["Value", "Percentile", "TotalCount", "1/(1-Percentile)"]

  /** The header line HdrHistogram writes: the header words right-aligned in the table's columns. */
  const HeaderLine: string := Layout(ColumnGaps(Widths, HeaderWords), HeaderWords)

  /** The four fields written for `b`. */
  function RowFields(wr: NumberWriter, b: Bucket): seq<string> {
    [wr.showFloat(b.value), wr.showFloat(b.percentile), wr.showInt(b.totalCount), wr.showFloat(b.invPercentile)]
  }

  /** One table row as the report writes it: the fields right-aligned in the table's columns. */
  function FormatRow(wr: NumberWriter, b: Bucket): string {
    Layout(ColumnGaps(Widths, RowFields(wr, b)), RowFields(wr, b))
  }

  /** The rows of a table, one per bucket. */
  function FormatRows(wr: NumberWriter, buckets: seq<Bucket>): (rows: seq<string>)
    ensures |rows| == |buckets|
    ensures forall i :: 0 <= i < |rows| ==> rows[i] == FormatRow(wr, buckets[i])
  {
    if buckets == [] then [] else [FormatRow(wr, buckets[0])] + FormatRows(wr, buckets[1..])
  }

  /** Decoding a written row gives the bucket back. */
  lemma DecodeFormatRow(rd: NumberReader, wr: NumberWriter, b: Bucket)
    requires ReadsBack(rd, wr, b)
    ensures !IsBlank(FormatRow(wr, b))
    ensures DecodeRow(rd, FormatRow(wr, b)) == Some(b)
  {
    var fields := RowFields(wr, b);
    ColumnGapsSeparate(Widths, fields);
    DecodeLaidOutRow(rd, ColumnGaps(Widths, fields), fields, b);
  }

  lemma HeaderLineIsHeader()
    ensures IsHeader(HeaderLine) && !IsBlank(HeaderLine)
  {
    assert IsWord("TotalCount") && IsWord("1/(1-Percentile)");
    ColumnGapsSeparate(Widths, HeaderWords);
    HeaderIgnoresLastFields(ColumnGaps(Widths, HeaderWords), "TotalCount", "1/(1-Percentile)");
    BlankIffNoFields(HeaderLine);
  }

  /** The header's gaps: padding to the column widths, a space between columns, and the newline. */
  lemma HeaderGaps()
    ensures ColumnGaps(Widths, HeaderWords) == ["       ", "     ", " ", " ", "\n"]
  {
    var gaps := ColumnGaps(Widths, HeaderWords);
    assert |HeaderWords[0]| == 5 && |HeaderWords[1]| == 10 && |HeaderWords[2]| == 10 && |HeaderWords[3]| == 16;
    var spaces7, spaces4 := Repeat(' ', 7), Repeat(' ', 4);
    assert spaces7 == "       " by {
      forall i | 0 <= i < 7 ensures spaces7[i] == "       "[i] { }
    }
    assert spaces4 == "    " by {
      forall i | 0 <= i < 4 ensures spaces4[i] == "    "[i] { }
    }
    assert gaps[0] == "       ";
    assert gaps[1] == " " + spaces4 == "     ";
    assert gaps[2] == " " && gaps[3] == " " && gaps[4] == "\n";
  }

  /** The header line: seven spaces, `Value`, five spaces, `Percentile`, a space, `TotalCount`, a space, `1/(1-Percentile)`, a newline. */
  lemma HeaderLineText()
    ensures HeaderLine == Layout(["       ", "     ", " ", " ", "\n"], ["Value", "Percentile", "TotalCount", "1/(1-Percentile)"])
  {
    HeaderGaps();
  }

  // ---------------------------------------------------------------------------------------------
  // The scan.

  lemma {:induction false} NonBlankIdempotent(lines: seq<string>)
    ensures NonBlank(NonBlank(lines)) == NonBlank(lines)
  {
    if lines != [] {
      NonBlankIdempotent(lines[1..]);
      var head := if IsBlank(lines[0]) then [] else [lines[0]];
      NonBlankAppend(head, NonBlank(lines[1..]));
      if head != [] {
        assert head[1..] == [];
      }
    }
  }

  /** Dropping every whitespace-only line leaves the result unchanged. */
  lemma BlankLinesIgnored(rd: NumberReader, lines: seq<string>)
    ensures Parse(rd, NonBlank(lines)) == Parse(rd, lines)
  {
    NonBlankIdempotent(lines);
  }

  /** Inserting a whitespace-only line anywhere leaves the result unchanged. */
  lemma BlankLineAnywhere(rd: NumberReader, a: seq<string>, blank: string, b: seq<string>)
    requires IsBlank(blank)
    ensures Parse(rd, a + [blank] + b) == Parse(rd, a + b)
  {
    NonBlankAppend(a + [blank], b);
    NonBlankAppend(a, [blank]);
    NonBlankAppend(a, b);
    assert NonBlank([blank]) == [] by {
      assert [blank][0] == blank && [blank][1..] == [];
    }
    assert NonBlank(a + [blank] + b) == NonBlank(a + b);
  }

  /** Lines that hold no header leave no header after blank lines are dropped. */
  lemma {:induction false} NoHeaderAmong(lines: seq<string>)
    requires forall i :: 0 <= i < |lines| ==> !IsHeader(lines[i])
    ensures FirstHeader(NonBlank(lines)) == None
  {
    if lines != [] {
      NoHeaderAmong(lines[1..]);
      var head := if IsBlank(lines[0]) then [] else [lines[0]];
      FirstHeaderAppend(head, NonBlank(lines[1..]));
      if head != [] {
        assert !IsHeader(head[0]);
      }
    }
  }

  /** A file without a header line yields no buckets, whatever else it holds. */
  lemma NoHeaderNoBuckets(rd: NumberReader, lines: seq<string>)
    requires forall i :: 0 <= i < |lines| ==> !IsHeader(lines[i])
    ensures Parse(rd, lines) == []
  {
    NoHeaderAmong(lines);
  }

  /**
   * Only the first header counts: whatever precedes it (if not itself a header) is ignored, and the
   * result is the decodable run of the non-blank lines after it.
   */
  lemma PreambleIgnored(rd: NumberReader, pre: seq<string>, header: string, post: seq<string>)
    requires forall i :: 0 <= i < |pre| ==> !IsHeader(pre[i])
    requires IsHeader(header)
    ensures Parse(rd, pre + [header] + post) == DecodeRun(rd, NonBlank(post))
  {
    var seen := NonBlank(pre);
    var rows := seen + ([header] + NonBlank(post));
    BlankIffNoFields(header);
    NonBlankCons(header, post);
    NonBlankAppend(pre, [header] + post);
    assert pre + [header] + post == pre + ([header] + post);
    assert NonBlank(pre + [header] + post) == rows;
    NoHeaderAmong(pre);
    FirstHeaderAppend(seen, [header] + NonBlank(post));
    assert FirstHeader(rows) == Some(|seen|);
    assert rows[|seen| + 1..] == NonBlank(post);
  }

  lemma NonBlankCons(line: string, rest: seq<string>)
    requires !IsBlank(line)
    ensures NonBlank([line] + rest) == [line] + NonBlank(rest)
  {
    assert ([line] + rest)[0] == line;
    assert ([line] + rest)[1..] == rest;
  }

  /** A header whose next non-blank line does not decode yields no buckets. */
  lemma HeaderThenFailure(rd: NumberReader, pre: seq<string>, header: string, gap: seq<string>, bad: string, post: seq<string>)
    requires forall i :: 0 <= i < |pre| ==> !IsHeader(pre[i])
    requires IsHeader(header)
    requires forall i :: 0 <= i < |gap| ==> IsBlank(gap[i])
    requires !IsBlank(bad) && DecodeRow(rd, bad) == None
    ensures Parse(rd, pre + [header] + (gap + [bad] + post)) == []
  {
    PreambleIgnored(rd, pre, header, gap + [bad] + post);
    assert gap + [bad] + post == gap + ([bad] + post);
    NonBlankAppend(gap, [bad] + post);
    AllBlank(gap);
    NonBlankCons(bad, post);
    var rows := [bad] + NonBlank(post);
    assert NonBlank(gap + [bad] + post) == rows;
    assert rows[0] == bad;
  }

  lemma {:induction false} AllBlank(lines: seq<string>)
    requires forall i :: 0 <= i < |lines| ==> IsBlank(lines[i])
    ensures NonBlank(lines) == []
  {
    if lines != [] {
      AllBlank(lines[1..]);
    }
  }

  /**
   * A later header-shaped line is read as a row, fails because `Value` is not a number, and ends
   * collection: no bucket comes from it or from anything after it.
   */
  lemma LaterHeaderEndsCollection(rd: NumberReader, lines: seq<string>, h: nat, k: nat)
    requires RejectsValueWord(rd)
    requires FirstHeader(NonBlank(lines)) == Some(h)
    requires h < k < |NonBlank(lines)| && IsHeader(NonBlank(lines)[k])
    ensures |Parse(rd, lines)| <= k - h - 1
  {
    var rows := NonBlank(lines);
    var after := rows[h + 1..];
    assert after[k - h - 1] == rows[k];
    HeaderNeverDecodes(rd, rows[k]);
    DecodeRunIsLongestPrefix(rd, after);
  }

  /**
   * There are never more buckets than non-blank lines after the header, and none when there is no
   * header; each bucket decodes the line at its position after the header.
   */
  lemma ParseBound(rd: NumberReader, lines: seq<string>)
    ensures FirstHeader(NonBlank(lines)).None? ==> Parse(rd, lines) == []
    ensures FirstHeader(NonBlank(lines)).Some? ==>
      var rows := NonBlank(lines);
      var h := FirstHeader(rows).value;
      |Parse(rd, lines)| <= |rows| - h - 1 &&
      forall i :: 0 <= i < |Parse(rd, lines)| ==> DecodeRow(rd, rows[h + 1 + i]) == Some(Parse(rd, lines)[i])
  {
    var rows := NonBlank(lines);
    if FirstHeader(rows).Some? {
      RunDecodesRows(rd, rows, FirstHeader(rows).value + 1);
    }
  }

  lemma RunDecodesRows(rd: NumberReader, rows: seq<string>, k: nat)
    requires k <= |rows|
    ensures |DecodeRun(rd, rows[k..])| <= |rows| - k
    ensures forall i :: 0 <= i < |DecodeRun(rd, rows[k..])| ==> DecodeRow(rd, rows[k + i]) == Some(DecodeRun(rd, rows[k..])[i])
  {
    var after := rows[k..];
    DecodeRunIsLongestPrefix(rd, after);
    forall i | 0 <= i < |DecodeRun(rd, after)| ensures DecodeRow(rd, rows[k + i]) == Some(DecodeRun(rd, after)[i]) {
      assert after[i] == rows[k + i];
    }
  }

  /** Non-blank rows that each decode form one decodable run: their buckets, in order. */
  lemma {:induction false} DecodeRows(rd: NumberReader, rows: seq<string>, buckets: seq<Bucket>)
    requires |rows| == |buckets|
    requires forall i :: 0 <= i < |rows| ==> !IsBlank(rows[i]) && DecodeRow(rd, rows[i]) == Some(buckets[i])
    ensures NonBlank(rows) == rows
    ensures DecodeRun(rd, rows) == buckets
  {
    if rows != [] {
      DecodeRows(rd, rows[1..], buckets[1..]);
      assert buckets == [buckets[0]] + buckets[1..];
    }
  }

  /**
   * A well-formed report: prose without a header, a header line, one non-blank decodable row per
   * bucket, and a trailer whose first non-blank line is not a row. Parsing it gives back exactly
   * the buckets, in order, whatever the whitespace inside and around each line.
   */
  lemma WellFormedReport(rd: NumberReader, pre: seq<string>, header: string, rows: seq<string>, buckets: seq<Bucket>, trailer: seq<string>)
    requires forall i :: 0 <= i < |pre| ==> !IsHeader(pre[i])
    requires IsHeader(header)
    requires |rows| == |buckets|
    requires forall i :: 0 <= i < |rows| ==> !IsBlank(rows[i]) && DecodeRow(rd, rows[i]) == Some(buckets[i])
    requires NonBlank(trailer) == [] || DecodeRow(rd, NonBlank(trailer)[0]) == None
    ensures Parse(rd, pre + [header] + (rows + trailer)) == buckets
  {
    PreambleIgnored(rd, pre, header, rows + trailer);
    NonBlankAppend(rows, trailer);
    DecodeRows(rd, rows, buckets);
    DecodeRunAppend(rd, rows, NonBlank(trailer));
  }

  /** The decodable run of written rows is all of them, in order. */
  lemma DecodeFormatRows(rd: NumberReader, wr: NumberWriter, buckets: seq<Bucket>)
    requires forall i :: 0 <= i < |buckets| ==> ReadsBack(rd, wr, buckets[i])
    ensures NonBlank(FormatRows(wr, buckets)) == FormatRows(wr, buckets)
    ensures DecodeRun(rd, FormatRows(wr, buckets)) == buckets
  {
    var rows := FormatRows(wr, buckets);
    forall i | 0 <= i < |rows| ensures !IsBlank(rows[i]) && DecodeRow(rd, rows[i]) == Some(buckets[i]) {
      DecodeFormatRow(rd, wr, buckets[i]);
    }
    DecodeRows(rd, rows, buckets);
  }

  /** A report as HdrHistogram writes it, with the model's writer, parses back to exactly its buckets. */
  lemma WrittenReport(rd: NumberReader, wr: NumberWriter, pre: seq<string>, buckets: seq<Bucket>, trailer: seq<string>)
    requires forall i :: 0 <= i < |pre| ==> !IsHeader(pre[i])
    requires forall i :: 0 <= i < |buckets| ==> ReadsBack(rd, wr, buckets[i])
    requires NonBlank(trailer) == [] || DecodeRow(rd, NonBlank(trailer)[0]) == None
    ensures Parse(rd, pre + [HeaderLine] + (FormatRows(wr, buckets) + trailer)) == buckets
  {
    HeaderLineIsHeader();
    var rows := FormatRows(wr, buckets);
    forall i | 0 <= i < |rows| ensures !IsBlank(rows[i]) && DecodeRow(rd, rows[i]) == Some(buckets[i]) {
      DecodeFormatRow(rd, wr, buckets[i]);
    }
    WellFormedReport(rd, pre, HeaderLine, rows, buckets, trailer);
  }
}

/** A worked instance: a header, three rows and a `#End` trailer. */
module ReportExample {
  import opened Wrappers
  import opened Text
  import opened Report
  import ReportProperties

  /** The report's lines; a row is its fields separated by single spaces. */
  const Lines: seq<string> := [
    JoinSpaced(ReportProperties.HeaderWords),
    JoinSpaced(["1.0", "50.0", "100", "2.0"]),
    JoinSpaced(["2.0", "90.0", "180", "10.0"]),
    JoinSpaced(["3.0", "99.0", "198", "100.0"]),
    "#End"
  ]

  /** `float()` and `int()` read the example's fields as the numbers they spell. */
  predicate ReadsExampleFields(rd: NumberReader) {
    rd.readFloat("1.0") == Some(1.0) && rd.readFloat("2.0") == Some(2.0) && rd.readFloat("3.0") == Some(3.0) &&
    rd.readFloat("10.0") == Some(10.0) && rd.readFloat("100.0") == Some(100.0) &&
    rd.readFloat("50.0") == Some(50.0) && rd.readFloat("90.0") == Some(90.0) && rd.readFloat("99.0") == Some(99.0) &&
    rd.readInt("100") == Some(100) && rd.readInt("180") == Some(180) && rd.readInt("198") == Some(198)
  }

  /** A row written as four single-space-separated words decodes field by field. */
  lemma RowDecodes(rd: NumberReader, line: string, a: string, b: string, c: string, d: string, bucket: Bucket)
    requires line == JoinSpaced([a, b, c, d])
    requires IsWord(a) && IsWord(b) && IsWord(c) && IsWord(d)
    requires rd.readFloat(a) == Some(bucket.value) && rd.readFloat(b) == Some(bucket.percentile)
    requires rd.readInt(c) == Some(bucket.totalCount) && rd.readFloat(d) == Some(bucket.invPercentile)
    ensures !IsBlank(line) && DecodeRow(rd, line) == Some(bucket)
  {
    SplitJoinSpaced([a, b, c, d]);
    BlankIffNoFields(line);
  }

  /** Three decodable rows and a failing line after them: the run is the three buckets. */
  lemma ThreeRowsThenStop(rd: NumberReader, rows: seq<string>, b0: Bucket, b1: Bucket, b2: Bucket)
    requires |rows| == 4
    requires !IsBlank(rows[0]) && DecodeRow(rd, rows[0]) == Some(b0)
    requires !IsBlank(rows[1]) && DecodeRow(rd, rows[1]) == Some(b1)
    requires !IsBlank(rows[2]) && DecodeRow(rd, rows[2]) == Some(b2)
    requires !IsBlank(rows[3]) && DecodeRow(rd, rows[3]) == None
    ensures NonBlank(rows) == rows
    ensures DecodeRun(rd, rows) == [b0, b1, b2]
  {
    ReportProperties.NonBlankCons(rows[3], []);
    assert rows[3..] == [rows[3]] + [];
    ReportProperties.NonBlankCons(rows[2], rows[3..]);
    assert rows[2..] == [rows[2]] + rows[3..];
    ReportProperties.NonBlankCons(rows[1], rows[2..]);
    assert rows[1..] == [rows[1]] + rows[2..];
    ReportProperties.NonBlankCons(rows[0], rows[1..]);
    assert rows == [rows[0]] + rows[1..];
    assert DecodeRun(rd, rows[3..]) == [];
    assert DecodeRun(rd, rows[2..]) == [b2];
    assert DecodeRun(rd, rows[1..]) == [b1, b2];
  }

  lemma ExampleHeader()
    ensures IsHeader(Lines[0])
  {
    assert IsWord("Value") && IsWord("Percentile") && IsWord("TotalCount") && IsWord("1/(1-Percentile)");
    SplitJoinSpaced(ReportProperties.HeaderWords);
  }

  lemma ExampleRow1(rd: NumberReader)
    requires ReadsExampleFields(rd)
    ensures !IsBlank(Lines[1]) && DecodeRow(rd, Lines[1]) == Some(Bucket(1.0, 50.0, 100, 2.0))
  {
    assert IsWord("1.0") && IsWord("50.0") && IsWord("100") && IsWord("2.0");
    RowDecodes(rd, Lines[1], "1.0", "50.0", "100", "2.0", Bucket(1.0, 50.0, 100, 2.0));
  }

  lemma ExampleRow2(rd: NumberReader)
    requires ReadsExampleFields(rd)
    ensures !IsBlank(Lines[2]) && DecodeRow(rd, Lines[2]) == Some(Bucket(2.0, 90.0, 180, 10.0))
  {
    assert IsWord("2.0") && IsWord("90.0") && IsWord("180") && IsWord("10.0");
    RowDecodes(rd, Lines[2], "2.0", "90.0", "180", "10.0", Bucket(2.0, 90.0, 180, 10.0));
  }

  lemma ExampleRow3(rd: NumberReader)
    requires ReadsExampleFields(rd)
    ensures !IsBlank(Lines[3]) && DecodeRow(rd, Lines[3]) == Some(Bucket(3.0, 99.0, 198, 100.0))
  {
    assert IsWord("3.0") && IsWord("99.0") && IsWord("198") && IsWord("100.0");
    RowDecodes(rd, Lines[3], "3.0", "99.0", "198", "100.0", Bucket(3.0, 99.0, 198, 100.0));
  }

  lemma ExampleTrailer(rd: NumberReader)
    ensures !IsBlank(Lines[4]) && DecodeRow(rd, Lines[4]) == None
  {
    assert IsWord("#End");
    SplitJoinSpaced(["#End"]);
    BlankIffNoFields(Lines[4]);
  }

  /** The three rows come back as three buckets, in order; the trailer is ignored. */
  lemma ExampleParses(rd: NumberReader)
    requires ReadsExampleFields(rd)
    ensures Parse(rd, Lines) == [Bucket(1.0, 50.0, 100, 2.0), Bucket(2.0, 90.0, 180, 10.0), Bucket(3.0, 99.0, 198, 100.0)]
  {
    ExampleHeader();
    ExampleRow1(rd);
    ExampleRow2(rd);
    ExampleRow3(rd);
    ExampleTrailer(rd);
    TableOfThree(rd, Lines, Bucket(1.0, 50.0, 100, 2.0), Bucket(2.0, 90.0, 180, 10.0), Bucket(3.0, 99.0, 198, 100.0));
  }

  lemma TableOfThree(rd: NumberReader, lines: seq<string>, b0: Bucket, b1: Bucket, b2: Bucket)
    requires |lines| == 5 && IsHeader(lines[0])
    requires !IsBlank(lines[1]) && DecodeRow(rd, lines[1]) == Some(b0)
    requires !IsBlank(lines[2]) && DecodeRow(rd, lines[2]) == Some(b1)
    requires !IsBlank(lines[3]) && DecodeRow(rd, lines[3]) == Some(b2)
    requires !IsBlank(lines[4]) && DecodeRow(rd, lines[4]) == None
    ensures Parse(rd, lines) == [b0, b1, b2]
  {
    var post := lines[1..];
    ThreeRowsThenStop(rd, post, b0, b1, b2);
    ReportProperties.PreambleIgnored(rd, [], lines[0], post);
    assert [] + [lines[0]] + post == lines;
  }
}
