/** String helpers shared by the placeholder, the progress bar and the SVG
    content check: substring search, decimal rendering and repetition. */
module Text {

  /** `String.prototype.includes`. */
  predicate Contains(s: string, sub: string) {
    exists i :: 0 <= i <= |s| - |sub| && OccursAt(s, sub, i)
  }

  predicate OccursAt(s: string, sub: string, i: nat) {
    i + |sub| <= |s| && s[i..i + |sub|] == sub
  }

  /** A string holds `sub` when `sub` sits at a known offset. */
  lemma ContainsAt(s: string, sub: string, i: nat)
    requires i + |sub| <= |s| && s[i..i + |sub|] == sub
    ensures Contains(s, sub)
  {
    assert OccursAt(s, sub, i);
  }

  /** A string holds its own prefix. */
  lemma ContainsPrefix(pre: string, rest: string)
    ensures Contains(pre + rest, pre)
  {
    assert (pre + rest)[0..|pre|] == pre;
    ContainsAt(pre + rest, pre, 0);
  }

  /** A string holds every piece it is built from. */
  lemma ContainsInfix(pre: string, mid: string, post: string)
    ensures Contains(pre + mid + post, mid)
  {
    assert (pre + mid + post)[|pre|..|pre| + |mid|] == mid;
    ContainsAt(pre + mid + post, mid, |pre|);
  }

  /** Whatever a piece holds, the string built around it holds too. */
  lemma ContainsWithin(pre: string, mid: string, post: string, sub: string)
    requires Contains(mid, sub)
    ensures Contains(pre + mid + post, sub)
  {
    var i :| 0 <= i <= |mid| - |sub| && OccursAt(mid, sub, i);
    assert (pre + mid + post)[|pre| + i..|pre| + i + |sub|] == mid[i..i + |sub|];
    ContainsAt(pre + mid + post, sub, |pre| + i);
  }

  /** A string holds its own suffix. */
  lemma ContainsSuffix(rest: string, suf: string)
    ensures Contains(rest + suf, suf)
  {
    assert (rest + suf)[|rest|..|rest| + |suf|] == suf;
    ContainsAt(rest + suf, suf, |rest|);
  }

  function DigitChar(d: nat): char
    requires d < 10
  {
    ('0' as int + d) as char
  }

  /** The decimal rendering a template literal gives a non-negative integer. */
  function Decimal(n: nat): (s: string)
    ensures s != ""
    ensures forall j :: 0 <= j < |s| ==> '0' <= s[j] <= '9'
  {
    if n < 10 then [DigitChar(n)] else Decimal(n / 10) + [DigitChar(n % 10)]
  }

  /** The number every placeholder dimension is drawn at renders as `100`. */
  lemma Decimal100()
    ensures Decimal(100) == "100"
  {
    assert Decimal(1) == "1";
    assert Decimal(10) == "10";
  }

  function DigitValue(c: char): nat {
    if '0' <= c <= '9' then c as nat - '0' as nat else 0
  }

  /** Reads a string of decimal digits back as a number. */
  function ParseDecimal(s: string): nat {
    if |s| == 0 then 0 else 10 * ParseDecimal(s[..|s| - 1]) + DigitValue(s[|s| - 1])
  }

  /** The rendered numbers in the placeholder and the progress line read back
      as the values they were rendered from. */
  lemma {:induction false} DecimalRoundTrip(n: nat)
    ensures ParseDecimal(Decimal(n)) == n
  {
    if n >= 10 {
      DecimalRoundTrip(n / 10);
      var s := Decimal(n);
      assert s[..|s| - 1] == Decimal(n / 10);
    }
  }

  /** `c.repeat(n)`. */
  function Repeat(c: char, n: nat): (s: string)
    ensures |s| == n && forall j :: 0 <= j < n ==> s[j] == c
  {
    seq(n, _ => c)
  }
}
