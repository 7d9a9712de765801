/**
 * The two pure pieces of the chart: the curve `Histogram.plot` draws for one histogram, and the
 * percentile axis `main` configures (tick positions, visible range, and the label text the ticks
 * are meant to carry).
 */
module Chart {
  import opened Text
  import opened Report
  import ReportProperties

  /** The x and y coordinates handed to the plotting call, point by point. */
  datatype Curve = Curve(xs: seq<real>, ys: seq<real>)

  /** `[bucket.inv_percentile for bucket in buckets]`. */
  function InvPercentiles(buckets: seq<Bucket>): (xs: seq<real>)
    ensures |xs| == |buckets|
    ensures forall i :: 0 <= i < |xs| ==> xs[i] == buckets[i].invPercentile
  {
    if buckets == [] then [] else [buckets[0].invPercentile] + InvPercentiles(buckets[1..])
  }

  /** `[bucket.value for bucket in buckets]`. */
  function Values(buckets: seq<Bucket>): (ys: seq<real>)
    ensures |ys| == |buckets|
    ensures forall i :: 0 <= i < |ys| ==> ys[i] == buckets[i].value
  {
    if buckets == [] then [] else [buckets[0].value] + Values(buckets[1..])
  }

  /** The curve of one histogram: point `i` is (inverse percentile, value) of bucket `i`. */
  function Project(histogram: Histogram): (curve: Curve)
    ensures |curve.xs| == |curve.ys| == |histogram.buckets|
  {
    Curve(InvPercentiles(histogram.buckets), Values(histogram.buckets))
  }

  /** The curve drawn for a file has one point per bucket, never more than the non-blank lines after its header. */
  lemma CurveOfFile(rd: NumberReader, lines: seq<string>)
    ensures var curve := Project(Histogram(Parse(rd, lines)));
      match FirstHeader(NonBlank(lines))
      case None => curve.xs == [] && curve.ys == []
      case Some(h) => |curve.xs| == |curve.ys| <= |NonBlank(lines)| - h - 1
  {
    ReportProperties.ParseBound(rd, lines);
  }

  // ---------------------------------------------------------------------------------------------
  // The percentile axis.

  /** `n_ticks` in `main`. */
  const TickCount: nat := 7

  function Pow10(k: nat): (p: nat)
    ensures p >= 1
  {
    if k == 0 then 1 else 10 * Pow10(k - 1)
  }

  /** `ticks = [10 ** k for k in range(n_ticks)]`. */
  function Ticks(): seq<nat> {
    seq(TickCount, k requires 0 <= k => Pow10(k))
  }

  /** `ax.set_xlim(1, ticks[-1])`: the visible range of the x axis. */
  function XLimits(): (nat, nat) {
    (1, Ticks()[|Ticks()| - 1])
  }

  lemma {:induction false} Pow10Increasing(j: nat, k: nat)
    requires j < k
    ensures Pow10(j) < Pow10(k)
    decreases k
  {
    if j < k - 1 {
      Pow10Increasing(j, k - 1);
    }
  }

  /**
   * The ticks are the seven decades 1, 10, ..., 10^6: each ten times the one before, strictly
   * increasing, and the visible range runs from the first tick to the last.
   */
  lemma TicksAreDecades()
    ensures |Ticks()| == 7 && Ticks()[0] == 1 && Ticks()[6] == 1000000
    ensures forall k :: 0 < k < |Ticks()| ==> Ticks()[k] == 10 * Ticks()[k - 1]
    ensures forall j, k :: 0 <= j < k < |Ticks()| ==> Ticks()[j] < Ticks()[k]
    ensures XLimits() == (Ticks()[0], Ticks()[6])
    ensures forall k :: 0 <= k < |Ticks()| ==> XLimits().0 <= Ticks()[k] <= XLimits().1
  {
    forall j, k | 0 <= j < k < |Ticks()| ensures Ticks()[j] < Ticks()[k] {
      Pow10Increasing(j, k);
    }
    assert Pow10(6) == 1000000;
  }

  // ---------------------------------------------------------------------------------------------
  // Tick labels, as intended: the label at 10^k is 1 - 10^-k written as a percentage with
  // max(0, k - 2) decimal places. This is the exact decimal text, not the floating-point rendering.

  /** `max(0, k - 2)`: decimal places of the label at decade `k`. */
  function Places(k: nat): nat {
    if k < 2 then 0 else k - 2
  }

  /** 100 * (1 - 10^-k) scaled by 10^Places(k), a whole number (see `ScaledPercentExact`). */
  function ScaledPercent(k: nat): nat {
    if k == 0 then 0 else if k == 1 then 90 else Pow10(k) - 1
  }

  lemma {:induction false} Pow10Add(a: nat, b: nat)
    ensures Pow10(a + b) == Pow10(a) * Pow10(b)
    decreases a
  {
    if a > 0 {
      Pow10Add(a - 1, b);
    }
  }

  /** The label's number is exactly the percentage 100 * (1 - 10^-k), shifted by its decimal places. */
  lemma ScaledPercentExact(k: nat)
    ensures (ScaledPercent(k) as real) == 100.0 * (1.0 - 1.0 / (Pow10(k) as real)) * (Pow10(Places(k)) as real)
  {
    if k >= 2 {
      Pow10Add(2, k - 2);
      assert Pow10(2) == 100;
      var pk := Pow10(k) as real;
      var pp := Pow10(k - 2) as real;
      assert pk == 100.0 * pp;
      calc {
        100.0 * (1.0 - 1.0 / pk) * pp;
        100.0 * pp - 100.0 * pp / pk;
        pk - 1.0;
      }
    }
  }

  function DigitChar(d: nat): char
    requires d < 10
  {
    "0123456789"[d]
  }

  /** The decimal digits of `n`, without leading zeros. */
  function Digits(n: nat): (s: string)
    ensures |s| >= 1
  {
    if n < 10 then [DigitChar(n)] else Digits(n / 10) + [DigitChar(n % 10)]
  }

  /** `n / 10^places` in fixed-point notation with exactly `places` digits after the point. */
  function FixedText(n: nat, places: nat): (s: string)
  {
    var d := Digits(n);
    var padded := if |d| <= places then Repeat('0', places + 1 - |d|) + d else d;
    if places == 0 then padded
    else padded[..|padded| - places] + "." + padded[|padded| - places..]
  }

  /** The label meant for the tick at 10^k. */
  function TickLabel(k: nat): string {
    FixedText(ScaledPercent(k), Places(k)) + "%"
  }

  /** `tick_labels` in `main`, with the intended text in place of the floating-point rendering. */
  function TickLabels(): seq<string> {
    seq(TickCount, k requires 0 <= k => TickLabel(k))
  }

  /**
   * The labels of the seven ticks read 0%, 90% and 99%, then 99.9%, 99.99%, 99.999% and 99.9999%:
   * from decade 3 on, `99.` followed by one nine per decimal place.
   */
  lemma TickLabelsAsIntended()
    ensures |TickLabels()| == TickCount
    ensures TickLabels()[..3] == ["0%", "90%", "99%"]
    ensures forall k :: 3 <= k < |TickLabels()| ==> TickLabels()[k] == "99." + Repeat('9', Places(k)) + "%"
  {
    LowTickLabels();
    forall k | 3 <= k < |TickLabels()| ensures TickLabels()[k] == "99." + Repeat('9', Places(k)) + "%" {
      HighTickLabel(k);
    }
  }

  lemma LowTickLabels()
    ensures TickLabel(0) == "0%" && TickLabel(1) == "90%" && TickLabel(2) == "99%"
  {
    assert Digits(9) == "9";
    assert Digits(99) == "99";
  }

  /** 10^m - 1 is written as m nines. */
  lemma {:induction false} DigitsOfNines(m: nat)
    requires m >= 1
    ensures Digits(Pow10(m) - 1) == Repeat('9', m)
  {
    if m > 1 {
      DigitsOfNines(m - 1);
      assert (Pow10(m) - 1) / 10 == Pow10(m - 1) - 1;
      assert (Pow10(m) - 1) % 10 == 9;
      RepeatSnoc('9', m - 1);
    }
  }

  lemma {:induction false} RepeatSnoc(c: char, n: nat)
    ensures Repeat(c, n + 1) == Repeat(c, n) + [c]
  {
    if n > 0 {
      RepeatSnoc(c, n - 1);
    }
  }

  /** From decade 3 on, the label is `99.` followed by k - 2 nines. */
  lemma HighTickLabel(k: nat)
    requires k >= 3
    ensures TickLabel(k) == "99." + Repeat('9', k - 2) + "%"
  {
    var p := k - 2;
    assert Places(k) == p && ScaledPercent(k) == Pow10(k) - 1;
    DigitsOfNines(k);
    var d := Digits(Pow10(k) - 1);
    assert FixedText(ScaledPercent(k), p) == d[..2] + "." + d[2..];
    assert d == "9" + ("9" + Repeat('9', p));
    assert d[..2] == "99" && d[2..] == Repeat('9', p);
  }

}
