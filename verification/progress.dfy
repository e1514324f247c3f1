/** The one-line progress bar scripts/format.js redraws after every file:
    a 30-character field of `=` and spaces around a `>` head, then the
    percentage and the processed/total fraction. */
module Progress {
  import opened Text

  const BarLength: nat := 30

  datatype Bar = Bar(filled: int, empty: int, percentage: int)

  /** The lengths and the percentage of the bar for `processed` of `total`
      files, with the floating-point quotient taken exactly and floored. The
      bar is drawn only after a file has been processed, and the pre-count
      includes that file, so `total` is at least 1 whenever it is drawn. */
  function BarOf(processed: nat, total: nat): (b: Bar)
    requires total >= 1
    ensures b.filled + b.empty == BarLength
    ensures 0 <= b.filled && 0 <= b.percentage
    ensures b.filled * total <= BarLength * processed < (b.filled + 1) * total
    ensures b.percentage * total <= 100 * processed < (b.percentage + 1) * total
  {
    var filled := (BarLength * processed) / total;
    Bar(filled, BarLength - filled, (100 * processed) / total)
  }

  lemma MulLtCancel(a: int, b: int, t: int)
    requires t > 0 && a * t < b * t
    ensures a < b
  {
  }

  lemma MulLeMono(a: int, b: int, t: int)
    requires a <= b && t >= 0
    ensures a * t <= b * t
  {
  }

  /** A floored quotient `q` of `x` by `t` lies in `[0, k]` when `x` does not
      exceed `k` times `t`. */
  lemma FloorInRange(x: nat, t: nat, k: nat, q: int)
    requires t >= 1 && x <= k * t
    requires q * t <= x < (q + 1) * t
    ensures 0 <= q <= k
  {
    MulLtCancel(q, k + 1, t);
    MulLtCancel(0, q + 1, t);
  }

  /** While no more files have been processed than were counted, both bar
      segments fit in the 30-character field and the percentage is between
      0 and 100. */
  lemma BarBounds(processed: nat, total: nat)
    requires 1 <= total && processed <= total
    ensures 0 <= BarOf(processed, total).filled <= BarLength
    ensures 0 <= BarOf(processed, total).empty <= BarLength
    ensures 0 <= BarOf(processed, total).percentage <= 100
  {
    var b := BarOf(processed, total);
    MulLeMono(processed, total, BarLength);
    MulLeMono(processed, total, 100);
    FloorInRange(BarLength * processed, total, BarLength, b.filled);
    FloorInRange(100 * processed, total, 100, b.percentage);
  }

  /** The bar never shrinks while the count of processed files grows. */
  lemma BarMonotone(p: nat, q: nat, total: nat)
    requires 1 <= total && p <= q
    ensures BarOf(p, total).filled <= BarOf(q, total).filled
    ensures BarOf(p, total).percentage <= BarOf(q, total).percentage
  {
    var a, b := BarOf(p, total), BarOf(q, total);
    MulLeMono(p, q, BarLength);
    MulLeMono(p, q, 100);
    MulLtCancel(a.filled, b.filled + 1, total);
    MulLtCancel(a.percentage, b.percentage + 1, total);
  }

  /** The progress line, without the leading carriage return. The source
      relies on `processed <= total`: past it `' '.repeat` would be asked for
      a negative count and throw. */
  function Render(processed: nat, total: nat): (line: string)
    requires 1 <= total && processed <= total
    ensures |line| > 33 && line[0] == '[' && line[32] == ']'
    ensures var f := BarOf(processed, total).filled;
      && 0 <= f <= BarLength
      && (forall j :: 1 <= j <= f ==> line[j] == '=')
      && line[f + 1] == '>'
      && (forall j :: f + 1 < j < 32 ==> line[j] == ' ')
    ensures line[..32] == Field(BarOf(processed, total).filled, BarOf(processed, total).empty)
    ensures line[32..] == Counts(BarOf(processed, total).percentage, processed, total)
  {
    BarBounds(processed, total);
    var b := BarOf(processed, total);
    var field := Field(b.filled, b.empty);
    var counts := Counts(b.percentage, processed, total);
    assert |field| == 32;
    assert (field + counts)[..32] == field;
    assert (field + counts)[32..] == counts;
    field + counts
  }

  /** The bracket, the `=` run, the head and the space run. */
  function Field(filled: nat, empty: nat): (s: string)
    ensures |s| == filled + empty + 2 && s[0] == '['
    ensures (forall j :: 1 <= j <= filled ==> s[j] == '=') && s[filled + 1] == '>'
    ensures forall j :: filled + 1 < j < |s| ==> s[j] == ' '
  {
    "[" + Repeat('=', filled) + ">" + Repeat(' ', empty)
  }

  /** Everything from the closing bracket on: `] `, the percentage, `% | `,
      the processed count, `/`, the total and ` files`. */
  function Counts(percentage: nat, processed: nat, total: nat): (s: string)
    ensures |s| > 2 + |Decimal(percentage)| && s[0] == ']'
    ensures s[2..2 + |Decimal(percentage)|] == Decimal(percentage) && s[2 + |Decimal(percentage)|] == '%'
  {
    var digits := Decimal(percentage);
    var rest := "% | " + Decimal(processed) + "/" + Decimal(total) + " files";
    assert "] " + digits + "% | " + Decimal(processed) + "/" + Decimal(total) + " files"
        == ("] " + digits) + rest;
    "] " + Decimal(percentage) + "% | " + Decimal(processed) + "/" + Decimal(total) + " files"
  }

  /** A finished run draws thirty `=` and the head, with no spaces. */
  lemma FullBar(total: nat)
    requires total >= 1
    ensures Render(total, total)[..33] == "[" + Repeat('=', BarLength) + ">]"
  {
    var b := BarOf(total, total);
    MulLtCancel(b.filled, BarLength + 1, total);
    MulLtCancel(BarLength - 1, b.filled, total);
    assert b.filled == BarLength;
    var line := Render(total, total);
    assert forall j :: 0 <= j < 33 ==> line[j] == ("[" + Repeat('=', BarLength) + ">]")[j];
  }

  /** The digits after the bar, up to the `%`, read back as the bar's
      percentage. */
  lemma RenderPercentageReadsBack(processed: nat, total: nat)
    requires 1 <= total && processed <= total
    ensures var line := Render(processed, total);
      var pct := BarOf(processed, total).percentage;
      var k := 34 + |Decimal(pct)|;
      && k < |line| && line[k] == '%'
      && (forall j :: 34 <= j < k ==> '0' <= line[j] <= '9')
      && ParseDecimal(line[34..k]) == pct
  {
    var line := Render(processed, total);
    BarBounds(processed, total);
    var pct := BarOf(processed, total).percentage;
    var digits := Decimal(pct);
    var counts := Counts(pct, processed, total);
    var tail := line[32..];
    assert tail == counts;
    assert |line| == 32 + |counts|;
    var k := 34 + |digits|;
    assert line[34..k] == tail[2..2 + |digits|] == digits;
    assert line[k] == tail[2 + |digits|] == '%';
    DecimalRoundTrip(pct);
  }
}
