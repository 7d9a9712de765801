/**
 * The histogram report parser: `Histogram.from_file`, `Histogram.__is_header` and `Bucket.from_line`.
 * A report is the percentile table that HdrHistogram's `outputPercentileDistribution` writes:
 * prose, a header line `Value Percentile TotalCount 1/(1-Percentile)`, one row of four numbers
 * per bucket, and summary lines after the table.
 */
module Report {
  import opened Wrappers
  import opened Text

  /** One row of the table. */
  datatype Bucket = Bucket(value: real, percentile: real, totalCount: int, invPercentile: real)

  /** The buckets of one report, in input order. */
  datatype Histogram = Histogram(buckets: seq<Bucket>)

  /**
   * Python's `float()` and `int()` applied to one field; `None` stands for the `ValueError`
   * they raise. Their lexical rules are not part of this model.
   */
  datatype NumberReader = NumberReader(readFloat: string -> Option<real>, readInt: string -> Option<int>)

  /** The one fact about `float()` the parser's behaviour depends on: the header's first field is not a number. */
  predicate RejectsValueWord(rd: NumberReader) {
    rd.readFloat("Value") == None
  }

  /** `Histogram.__is_header`: four fields, the first two `Value` and `Percentile`; the last two are not looked at. */
  predicate IsHeader(line: string) {
    var fields := Split(line);
    |fields| == 4 && fields[0] == "Value" && fields[1] == "Percentile"
  }

  /**
   * `Bucket.from_line`: exactly four fields, read as float, float, int, float into
   * value, percentile, total count and inverse percentile. Anything else raises (`None`).
   */
  function DecodeRow(rd: NumberReader, line: string): (r: Option<Bucket>)
    ensures |Split(line)| != 4 ==> r == None
  {
    var fields := Split(line);
    if |fields| != 4 then None
    else
      match (rd.readFloat(fields[0]), rd.readFloat(fields[1]), rd.readInt(fields[2]), rd.readFloat(fields[3]))
      case (Some(v), Some(p), Some(n), Some(inv)) => Some(Bucket(v, p, n, inv))
      case _ => None
  }

  // ---------------------------------------------------------------------------------------------
  // The declarative reading of `from_file`: drop blank lines, find the first header, and decode the
  // longest run of rows after it that all decode.

  /** The lines that are not whitespace-only, in input order. */
  function NonBlank(lines: seq<string>): (rows: seq<string>)
    ensures |rows| <= |lines|
  {
    if lines == [] then []
    else (if IsBlank(lines[0]) then [] else [lines[0]]) + NonBlank(lines[1..])
  }

  /** The position of the first header among `rows`, if there is one. */
  function FirstHeader(rows: seq<string>): (h: Option<nat>)
    ensures h.Some? ==> h.value < |rows|
  {
    if rows == [] then None
    else if IsHeader(rows[0]) then Some(0)
    else match FirstHeader(rows[1..])
      case None => None
      case Some(j) => Some(j + 1)
  }

  /** The decodings of the longest prefix of `rows` in which every row decodes (see `DecodeRunIsLongestPrefix`). */
  function DecodeRun(rd: NumberReader, rows: seq<string>): (buckets: seq<Bucket>)
    ensures |buckets| <= |rows|
  {
    if rows == [] then []
    else match DecodeRow(rd, rows[0])
      case None => []
      case Some(b) => [b] + DecodeRun(rd, rows[1..])
  }

  /** What `from_file` returns for a file with these lines. */
  function Parse(rd: NumberReader, lines: seq<string>): (buckets: seq<Bucket>)
  {
    var rows := NonBlank(lines);
    match FirstHeader(rows)
    case None => []
    case Some(h) => DecodeRun(rd, rows[h + 1..])
  }

  /** The scan has met the header and every non-blank line after it decoded to `buckets`. */
  ghost predicate Collecting(rd: NumberReader, rows: seq<string>, buckets: seq<Bucket>) {
    match FirstHeader(rows)
    case None => false
    case Some(h) => buckets == DecodeRun(rd, rows[h + 1..]) && |buckets| == |rows| - h - 1
  }

  /**
   * `Histogram.from_file` over the lines of the file: skip blank lines, wait for the first header,
   * then append one bucket per line until a line fails to decode.
   */
  method FromFile(rd: NumberReader, lines: seq<string>) returns (histogram: Histogram)
    ensures histogram.buckets == Parse(rd, lines)
  {
    var foundHeader := false;
    var buckets: seq<Bucket> := [];
    ghost var seen: seq<string> := [];
    ghost var stopped := false;
    for i := 0 to |lines|
      invariant seen == NonBlank(lines[..i]) && !stopped
      invariant !foundHeader ==> FirstHeader(seen).None? && buckets == []
      invariant foundHeader ==> Collecting(rd, seen, buckets)
    {
      var line := lines[i];
      NonBlankPrefix(lines, i);
      if IsBlank(line) {
        continue;
      }
      if !foundHeader && IsHeader(line) {
        HeaderStartsCollecting(rd, seen, line);
        seen := seen + [line];
        foundHeader := true;
        continue;
      }
      if foundHeader {
        match DecodeRow(rd, line)
        case None =>
          CollectingStopsAt(rd, lines, i, buckets);
          stopped := true;
          break;
        case Some(bucket) =>
          CollectingGrows(rd, seen, line, buckets, bucket);
          buckets := buckets + [bucket];
      } else {
        FirstHeaderSnoc(seen, line);
      }
      seen := seen + [line];
    }
    if !stopped {
      assert lines[..|lines|] == lines;
      ScanEnd(rd, lines, foundHeader, buckets);
    }
    histogram := Histogram(buckets);
  }

  // ---------------------------------------------------------------------------------------------
  // Lemmas about the pieces.

  /** `FirstHeader` finds the header that no earlier row matches, and finds none only when no row is a header. */
  lemma {:induction false} FirstHeaderIsFirst(rows: seq<string>)
    ensures FirstHeader(rows).Some? ==>
      var h := FirstHeader(rows).value;
      IsHeader(rows[h]) && forall j :: 0 <= j < h ==> !IsHeader(rows[j])
    ensures FirstHeader(rows).None? ==> forall j :: 0 <= j < |rows| ==> !IsHeader(rows[j])
  {
    if rows != [] && !IsHeader(rows[0]) {
      FirstHeaderIsFirst(rows[1..]);
      forall j | 0 < j < |rows| ensures rows[j] == rows[1..][j - 1] {}
    }
  }

  /**
   * `DecodeRun` is the longest decodable prefix: each bucket is the decoding of the row at its
   * position, and the row just after the last one, if any, fails to decode.
   */
  lemma {:induction false} DecodeRunIsLongestPrefix(rd: NumberReader, rows: seq<string>)
    ensures forall i :: 0 <= i < |DecodeRun(rd, rows)| ==> DecodeRow(rd, rows[i]) == Some(DecodeRun(rd, rows)[i])
    ensures |DecodeRun(rd, rows)| < |rows| ==> DecodeRow(rd, rows[|DecodeRun(rd, rows)|]) == None
  {
    if rows != [] && DecodeRow(rd, rows[0]).Some? {
      DecodeRunIsLongestPrefix(rd, rows[1..]);
      var r := DecodeRun(rd, rows);
      assert r == [DecodeRow(rd, rows[0]).value] + DecodeRun(rd, rows[1..]);
      forall i | 0 < i < |r| ensures rows[i] == rows[1..][i - 1] && r[i] == DecodeRun(rd, rows[1..])[i - 1] {}
    }
  }

  lemma {:induction false} NonBlankAppend(a: seq<string>, b: seq<string>)
    ensures NonBlank(a + b) == NonBlank(a) + NonBlank(b)
  {
    if a == [] {
      assert a + b == b;
    } else {
      var head := if IsBlank(a[0]) then [] else [a[0]];
      assert (a + b)[0] == a[0];
      assert (a + b)[1..] == a[1..] + b;
      NonBlankAppend(a[1..], b);
      calc {
        NonBlank(a + b);
        head + NonBlank(a[1..] + b);
        head + (NonBlank(a[1..]) + NonBlank(b));
        (head + NonBlank(a[1..])) + NonBlank(b);
        NonBlank(a) + NonBlank(b);
      }
    }
  }

  lemma NonBlankSnoc(a: seq<string>, line: string)
    ensures NonBlank(a + [line]) == NonBlank(a) + (if IsBlank(line) then [] else [line])
  {
    NonBlankAppend(a, [line]);
    assert [line][1..] == [];
  }

  lemma {:induction false} FirstHeaderAppend(a: seq<string>, b: seq<string>)
    ensures FirstHeader(a + b) ==
      match FirstHeader(a)
      case Some(h) => Some(h)
      case None => (match FirstHeader(b) case None => None case Some(j) => Some(|a| + j))
  {
    if a == [] {
      assert a + b == b;
    } else {
      assert (a + b)[0] == a[0];
      assert (a + b)[1..] == a[1..] + b;
      FirstHeaderAppend(a[1..], b);
    }
  }

  lemma CollectingStopsAt(rd: NumberReader, lines: seq<string>, i: nat, buckets: seq<Bucket>)
    requires i < |lines| && Collecting(rd, NonBlank(lines[..i]), buckets)
    requires !IsBlank(lines[i]) && DecodeRow(rd, lines[i]) == None
    ensures Parse(rd, lines) == buckets
  {
    CollectingStops(rd, lines[..i], lines[i], lines[i + 1..], buckets);
    assert lines[..i] + [lines[i]] + lines[i + 1..] == lines;
  }

  lemma ScanEnd(rd: NumberReader, lines: seq<string>, foundHeader: bool, buckets: seq<Bucket>)
    requires !foundHeader ==> FirstHeader(NonBlank(lines)).None? && buckets == []
    requires foundHeader ==> Collecting(rd, NonBlank(lines), buckets)
    ensures Parse(rd, lines) == buckets
  {
  }

  lemma NonBlankPrefix(lines: seq<string>, i: nat)
    requires i < |lines|
    ensures NonBlank(lines[..i + 1]) == NonBlank(lines[..i]) + (if IsBlank(lines[i]) then [] else [lines[i]])
  {
    assert lines[..i + 1] == lines[..i] + [lines[i]];
    NonBlankSnoc(lines[..i], lines[i]);
  }

  lemma HeaderStartsCollecting(rd: NumberReader, rows: seq<string>, line: string)
    requires FirstHeader(rows).None? && IsHeader(line)
    ensures Collecting(rd, rows + [line], [])
  {
    FirstHeaderSnoc(rows, line);
    assert (rows + [line])[|rows| + 1..] == [];
  }

  lemma FirstHeaderSnoc(rows: seq<string>, line: string)
    requires FirstHeader(rows).None?
    ensures FirstHeader(rows + [line]) == if IsHeader(line) then Some(|rows|) else None
  {
    FirstHeaderAppend(rows, [line]);
    assert [line][1..] == [];
  }

  /** Once a row fails, nothing after it is decoded; while all rows decode, the run continues into what follows. */
  lemma {:induction false} DecodeRunAppend(rd: NumberReader, a: seq<string>, b: seq<string>)
    ensures DecodeRun(rd, a + b) ==
      if |DecodeRun(rd, a)| < |a| then DecodeRun(rd, a) else DecodeRun(rd, a) + DecodeRun(rd, b)
  {
    if a == [] {
      assert a + b == b;
    } else {
      var row, rest := a[0], a[1..];
      assert a == [row] + rest;
      assert a + b == [row] + (rest + b);
      DecodeRunCons(rd, row, rest);
      DecodeRunCons(rd, row, rest + b);
      DecodeRunAppend(rd, rest, b);
    }
  }

  lemma DecodeRunCons(rd: NumberReader, row: string, rest: seq<string>)
    ensures DecodeRun(rd, [row] + rest) ==
      match DecodeRow(rd, row)
      case None => []
      case Some(x) => [x] + DecodeRun(rd, rest)
  {
    assert ([row] + rest)[0] == row;
    assert ([row] + rest)[1..] == rest;
  }

  lemma CollectingGrows(rd: NumberReader, rows: seq<string>, line: string, buckets: seq<Bucket>, b: Bucket)
    requires Collecting(rd, rows, buckets)
    requires DecodeRow(rd, line) == Some(b)
    ensures Collecting(rd, rows + [line], buckets + [b])
  {
    var h := FirstHeader(rows).value;
    FirstHeaderKept(rows, [line]);
    RunThenRow(rd, rows, h + 1, line, b, buckets);
  }

  lemma RunThenRow(rd: NumberReader, rows: seq<string>, k: nat, line: string, b: Bucket, buckets: seq<Bucket>)
    requires k <= |rows| && DecodeRun(rd, rows[k..]) == buckets && |buckets| == |rows| - k
    requires DecodeRow(rd, line) == Some(b)
    ensures DecodeRun(rd, (rows + [line])[k..]) == buckets + [b]
  {
    SliceOfAppend(rows, [line], k);
    DecodeRunGrows(rd, rows[k..], line, b);
  }

  /** A decodable row right after a fully decoded stretch extends the run by its bucket. */
  lemma DecodeRunGrows(rd: NumberReader, run: seq<string>, line: string, b: Bucket)
    requires |DecodeRun(rd, run)| == |run|
    requires DecodeRow(rd, line) == Some(b)
    ensures DecodeRun(rd, run + [line]) == DecodeRun(rd, run) + [b]
  {
    assert [line][1..] == [];
    assert DecodeRun(rd, [line]) == [b];
    DecodeRunAppend(rd, run, [line]);
  }

  /**
   * Collection stops at the first non-blank line that fails to decode and never resumes: once the
   * header has been met and every row since decoded, a failing line ends the result, whatever follows.
   */
  lemma CollectingStops(rd: NumberReader, pre: seq<string>, line: string, post: seq<string>, buckets: seq<Bucket>)
    requires Collecting(rd, NonBlank(pre), buckets)
    requires !IsBlank(line) && DecodeRow(rd, line) == None
    ensures Parse(rd, pre + [line] + post) == buckets
  {
    var tail := NonBlank([line] + post);
    assert tail == [line] + NonBlank(post) by {
      assert ([line] + post)[0] == line;
      assert ([line] + post)[1..] == post;
    }
    NonBlankAppend(pre, [line] + post);
    assert pre + [line] + post == pre + ([line] + post);
    CollectingThenFailure(rd, NonBlank(pre), tail, buckets);
  }

  lemma CollectingThenFailure(rd: NumberReader, rows: seq<string>, tail: seq<string>, buckets: seq<Bucket>)
    requires Collecting(rd, rows, buckets)
    requires tail != [] && DecodeRow(rd, tail[0]) == None
    ensures FirstHeader(rows + tail) == FirstHeader(rows)
    ensures DecodeRun(rd, (rows + tail)[FirstHeader(rows).value + 1..]) == buckets
  {
    var h := FirstHeader(rows).value;
    FirstHeaderKept(rows, tail);
    RunThenFailure(rd, rows, h + 1, tail, buckets);
  }

  lemma FirstHeaderKept(rows: seq<string>, tail: seq<string>)
    requires FirstHeader(rows).Some?
    ensures FirstHeader(rows + tail) == FirstHeader(rows)
  {
    FirstHeaderAppend(rows, tail);
  }

  lemma RunThenFailure(rd: NumberReader, rows: seq<string>, k: nat, tail: seq<string>, buckets: seq<Bucket>)
    requires k <= |rows| && DecodeRun(rd, rows[k..]) == buckets && |buckets| == |rows| - k
    requires tail != [] && DecodeRow(rd, tail[0]) == None
    ensures DecodeRun(rd, (rows + tail)[k..]) == buckets
  {
    SliceOfAppend(rows, tail, k);
    DecodeRunStops(rd, rows[k..], tail);
  }

  /** A failing row right after a fully decoded stretch ends the run there. */
  lemma DecodeRunStops(rd: NumberReader, run: seq<string>, tail: seq<string>)
    requires |DecodeRun(rd, run)| == |run|
    requires tail != [] && DecodeRow(rd, tail[0]) == None
    ensures DecodeRun(rd, run + tail) == DecodeRun(rd, run)
  {
    assert DecodeRun(rd, tail) == [];
    DecodeRunAppend(rd, run, tail);
  }

  lemma SliceOfAppend<T>(a: seq<T>, b: seq<T>, k: nat)
    requires k <= |a|
    ensures (a + b)[k..] == a[k..] + b
  {
  }
}
