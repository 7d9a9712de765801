# hdrhistogram_plot, modelled in Dafny

`hdrhistogram_plot.py` reads the percentile tables that HdrHistogram's
`outputPercentileDistribution` writes and plots each one as a latency curve on a logarithmic
percentile axis. This project models the parts of the script that hold logic:

- `Histogram.__is_header`: the header test.
- `Bucket.from_line`: the row decoder.
- `Histogram.from_file`: the scan over a file's lines.
- the x/y projection in `Histogram.plot`.
- the tick positions and x-axis range that `main` configures.

It then proves what these parts promise.

Modules:

- `Wrappers` (`wrappers.dfy`): `Option`.
- `Text` (`text.dfy`): Python's whitespace (the `str.isspace` set, which `str.split()` and
  `str.strip()` both use), `Split` as maximal runs of non-whitespace, and `Layout`: words
  placed on a line with any whitespace before, between and after them. `split()` recovers the
  words of every layout.
- `Report` (`report.dfy`):
  - `Bucket`, `Histogram`, `IsHeader` and `DecodeRow`.
  - the declarative reading `Parse`: drop blank lines, find the first header, and decode the
    longest run of rows after it in which every row decodes.
  - `FromFile`: the scan loop, written as a method with `continue` and `break`, whose
    postcondition is `Parse`.
- `ReportProperties` (`report_properties.dfy`): the parser's properties, stated over `Parse`.
  - `NumberWriter` and `FormatRow` model the program that writes the table: each field
    right-aligned in its column, one space between columns. They are the partner of
    `DecodeRow` in a round trip.
- `ReportExample` (`report_properties.dfy`): one report, worked through end to end.
- `Chart` (`chart.dfy`):
  - the curve drawn for a histogram.
  - the ticks and x limits.
  - the label text each tick is meant to carry.

Python's `float()` and `int()` are not given a grammar. They are a parameter,
`NumberReader(readFloat, readInt)`, where `None` stands for the `ValueError` they raise. The only
fact about them that any property needs is `RejectsValueWord`: `float("Value")` fails.

## Model

| member | source | states |
|---|---|---|
| Text.WordLengthIsMaximal | hdrhistogram_plot.py:41 | the word `split()` takes at a non-space position is non-empty, holds no whitespace, and ends at the end of the line or at whitespace |
| Text.SplitGivesWords | hdrhistogram_plot.py:41 | every field `split()` returns is non-empty and contains no whitespace |
| Text.SplitKeepsInk | hdrhistogram_plot.py:41 | the fields, joined, are exactly the line's non-whitespace characters in order |
| Text.SplitAfterBlank | hdrhistogram_plot.py:41 | whitespace in front of a line changes nothing about its fields |
| Text.SplitLayout | hdrhistogram_plot.py:41 | for words laid out with any whitespace before, after and (at least one character) between them, `split()` returns exactly those words in order |
| Text.SplitJoinSpaced | hdrhistogram_plot.py:54 | splitting words joined by single spaces gives the same words back |
| Text.BlankIffNoFields | hdrhistogram_plot.py:23 | `len(line.strip()) == 0` holds exactly when `line.split()` is empty |
| Report.DecodeRow | hdrhistogram_plot.py:54-56 | a line with any number of fields other than 4 fails to decode |
| ReportProperties.DecodeRowFields | hdrhistogram_plot.py:53-58 | a line decodes to bucket b iff it has 4 fields and fields 0..3 read as b's value (float), percentile (float), total count (int) and inverse percentile (float) |
| ReportProperties.DecodeLaidOutRow | hdrhistogram_plot.py:53-58 | four words with any whitespace around and between them, read as a bucket's value, percentile, total count and inverse percentile, form a non-blank line that decodes to that bucket |
| ReportProperties.DecodeFormatRow | hdrhistogram_plot.py:53-58 | a row written from a bucket, fields right-aligned in their columns and each read back as its number, is non-blank and decodes to that same bucket |
| ReportProperties.HeaderShape | hdrhistogram_plot.py:40-42 | a line is the header iff it splits into `Value`, `Percentile` and two more fields of any content |
| ReportProperties.HeaderIgnoresLastFields | hdrhistogram_plot.py:40-42 | `Value`, `Percentile` and any two further words, with any whitespace around and between them, form a header |
| ReportProperties.HeaderLineIsHeader | hdrhistogram_plot.py:40-42 | the padded header HdrHistogram writes (its words right-aligned in columns of 12, 14, 10 and 14, with the newline) passes the header test and is not blank |
| ReportProperties.HeaderLineText | hdrhistogram_plot.py:40-42 | that header line is seven spaces, `Value`, five spaces, `Percentile`, a space, `TotalCount`, a space, `1/(1-Percentile)` and a newline |
| ReportProperties.BlankLineIsNothing | hdrhistogram_plot.py:23-24 | a whitespace-only line is neither a header nor a decodable row |
| ReportProperties.HeaderNeverDecodes | hdrhistogram_plot.py:58 | since `float("Value")` fails, a header-shaped line never decodes as a row |
| Report.FromFile | hdrhistogram_plot.py:19-37 | the scan loop returns exactly `Parse` of the lines: blank lines skipped, the first header found, then one bucket per decodable line up to the first failure |
| Report.FirstHeaderIsFirst | hdrhistogram_plot.py:26-28 | the header the scan settles on is a header and no earlier non-blank line is one; if none is found, no line is a header |
| Report.DecodeRunIsLongestPrefix | hdrhistogram_plot.py:30-35 | the collected buckets are the decodings, in order, of a prefix of the rows after the header, and the row right after that prefix (if any) fails to decode |
| Report.CollectingStops | hdrhistogram_plot.py:34-35 | once every row since the header has decoded, the first non-blank line that fails ends the result, and nothing after it is looked at |
| ReportProperties.BlankLinesIgnored | hdrhistogram_plot.py:23-24 | deleting every whitespace-only line leaves the result unchanged |
| ReportProperties.BlankLineAnywhere | hdrhistogram_plot.py:23-24 | inserting a whitespace-only line at any position leaves the result unchanged |
| ReportProperties.NoHeaderNoBuckets | hdrhistogram_plot.py:20-37 | a file with no header line gives no buckets |
| ReportProperties.PreambleIgnored | hdrhistogram_plot.py:26-28 | whatever precedes the first header is ignored; the result is the decodable run of the non-blank lines after that header |
| ReportProperties.HeaderThenFailure | hdrhistogram_plot.py:30-35 | a header whose next non-blank line fails to decode gives no buckets, whatever follows |
| ReportProperties.LaterHeaderEndsCollection | hdrhistogram_plot.py:26-35 | a second header-shaped line at non-blank position k after the first header at h is read as a row, fails, and limits the result to at most k - h - 1 buckets |
| ReportProperties.ParseBound | hdrhistogram_plot.py:30-37 | no header means no buckets; otherwise there are at most as many buckets as non-blank lines after the header, and bucket i decodes the i-th of them |
| ReportProperties.DecodeRows | hdrhistogram_plot.py:30-33 | non-blank rows that each decode are kept whole and decode, as one run, to their buckets in order |
| ReportProperties.DecodeFormatRows | hdrhistogram_plot.py:30-33 | a written table has no blank rows and decodes back to exactly its buckets, in order |
| ReportProperties.WellFormedReport | hdrhistogram_plot.py:19-37 | a report of header-free prose, any header line, one non-blank decodable row per bucket and a trailer whose first non-blank line is not a row parses to exactly those buckets, in order, whatever the spacing of its lines |
| ReportProperties.WrittenReport | hdrhistogram_plot.py:19-37 | a report written with HdrHistogram's padded header and the model's column writer parses back to exactly the buckets written |
| ReportExample.ExampleParses | hdrhistogram_plot.py:19-37 | a header, three rows and a `#End` trailer parse to the three buckets in order |
| Chart.InvPercentiles | hdrhistogram_plot.py:14 | x has one entry per bucket, and x[i] is bucket i's inverse percentile |
| Chart.Values | hdrhistogram_plot.py:15 | y has one entry per bucket, and y[i] is bucket i's value |
| Chart.Project | hdrhistogram_plot.py:13-16 | the curve has as many x as y coordinates, one point per bucket |
| Chart.CurveOfFile | hdrhistogram_plot.py:96-97 | the curve drawn for a file is empty when the file has no header, and otherwise has at most one point per non-blank line after the header |
| Chart.TicksAreDecades | hdrhistogram_plot.py:79-90 | there are 7 ticks, 1 to 10^6, each ten times the one before and strictly increasing; the x range runs from 1 to the last tick and holds every tick |
| Chart.ScaledPercentExact | hdrhistogram_plot.py:81-87 | the number each label shows, shifted by its max(0, k - 2) decimal places, is exactly 100 * (1 - 10^-k) |
| Chart.TickLabelsAsIntended | hdrhistogram_plot.py:81-87 | there are 7 labels: 0%, 90%, 99%, then `99.` followed by k - 2 nines and `%` |
| Chart.HighTickLabel | hdrhistogram_plot.py:81-87 | from decade 3 on, the label at 10^k is `99.`, then k - 2 nines, then `%` |

## Left out

- Command-line parsing with `argparse` and the exit status (hdrhistogram_plot.py:61-74, 102,
  105-107). These are library plumbing with no logic of their own.
- Everything matplotlib does (hdrhistogram_plot.py:6, 16, 78, 88-93, 97, 100). This covers the
  figure and axes, the log scale, axis labels, setting ticks and labels, the plotting call, the
  legend label `hoge` and `savefig`. The model stops at the values handed to these calls:
  the curve, the ticks, the x range and the label text.
- The loop over files in `main` (hdrhistogram_plot.py:95-97). Each file's curve is `CurveOfFile`.
  How several curves share one axis is matplotlib's business.
- Opening and reading a file (hdrhistogram_plot.py:22). The input is the sequence of its lines.
  A trailing newline is whitespace to `split()` and `strip()`, so it makes no difference to
  the model.
- The lexical rules of Python's `float()` and `int()` (signs, exponents, `nan`, `inf`,
  underscores). They are the `NumberReader` parameter, not a grammar.
- `except Exception` (hdrhistogram_plot.py:34) catches any exception raised while decoding. The
  model has one failure value, `None`, for all of them.
- Floating point. Values are real numbers, so any rounding `float()` does belongs to
  `readFloat`. `int()` is unbounded in Python, as `int` is here. Python's `float()` also accepts
  `inf`, `nan` and overflowing literals such as `1e999`, returning infinity or NaN. A `real` has no
  such value, so for those fields the model captures only that the row decodes (and collection
  goes on), not the number stored in the bucket or plotted.
- ReportProperties.FormatRow: rows reuse the header's column widths (12, 14, 10, 14). The number
  formats HdrHistogram uses for each column, such as decimal places, belong to the
  `NumberWriter` parameter. Padding is whitespace only, so `DecodeLaidOutRow` and
  `WellFormedReport` hold for rows of any widths.
- Chart.TickLabels: the model holds the exact decimal text each label is meant to show. It does
  not model Python's `%` formatting of the float `1 - 10**-k`, and makes no claim that the
  formatted float gives this text.
