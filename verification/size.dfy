/**
 * `humanSize`: a byte count shown with one of the units B, KB, MB, GB, TB,
 * scaled by powers of 1024, rounded to one decimal place with a trailing
 * ".0" dropped (the number goes through `toFixed(1)` and back through
 * `parseFloat`).
 */
module SizeFormat {
  import opened Optional

  const Units: seq<string> := ["B", "KB", "MB", "GB", "TB"]

  function Pow1024(i: nat): (p: nat)
    ensures p >= 1
  {
    if i == 0 then 1 else 1024 * Pow1024(i - 1)
  }

  lemma {:induction false} Pow1024Mono(i: nat, j: nat)
    requires i < j
    ensures Pow1024(i + 1) <= Pow1024(j)
    decreases j
  {
    if i + 1 < j {
      Pow1024Mono(i, j - 1);
    }
  }

  /** The unit index: the whole part of the base-1024 logarithm of the count,
      taken exactly. */
  function UnitIndex(b: nat): (i: nat)
    requires b >= 1
    ensures Pow1024(i) <= b < Pow1024(i + 1)
  {
    if b < 1024 then 0
    else
      var i' := UnitIndex(b / 1024);
      assert 1024 * Pow1024(i') <= 1024 * (b / 1024) <= b;
      assert b < 1024 * (b / 1024 + 1) <= 1024 * Pow1024(i' + 1);
      1 + i'
  }

  /** The unit index is the only exponent that brackets the byte count. */
  lemma UnitIndexUnique(b: nat, j: nat)
    requires b >= 1 && Pow1024(j) <= b < Pow1024(j + 1)
    ensures UnitIndex(b) == j
  {
    var i := UnitIndex(b);
    if i < j {
      Pow1024Mono(i, j);
    } else if j < i {
      Pow1024Mono(j, i);
    }
  }

  /** `sizes[i]`; past the table JavaScript yields `undefined`, which the
      template renders as that word. */
  function UnitName(i: nat): (u: string)
    ensures i < |Units| ==> u == Units[i]
    ensures i >= |Units| ==> u == "undefined"
  {
    if i < |Units| then Units[i] else "undefined"
  }

  /** The count in the chosen unit, rounded to one decimal and counted in
      tenths: the nearest number of tenths to the quotient, ties going up. */
  function Tenths(b: nat, p: nat): (n: nat)
    requires p >= 1
    ensures -(p as int) < 2 * (n * p - 10 * b) <= p
  {
    (20 * b + p) / (2 * p)
  }

  lemma MulMono(a: nat, c: nat, p: nat)
    requires a <= c
    ensures a * p <= c * p
  {
  }

  /** No other number of tenths is that close. */
  lemma TenthsUnique(b: nat, p: nat, m: nat)
    requires p >= 1 && -(p as int) < 2 * (m * p - 10 * b) <= p
    ensures m == Tenths(b, p)
  {
    var n := Tenths(b, p);
    assert m < n ==> m * p + p <= n * p by {
      if m < n {
        MulMono(m + 1, n, p);
      }
    }
    assert n < m ==> n * p + p <= m * p by {
      if n < m {
        MulMono(n + 1, m, p);
      }
    }
  }

  /** Within one unit's range the display runs from 1.0 to 1024.0. */
  lemma TenthsRange(b: nat, p: nat)
    requires p >= 1 && p <= b < 1024 * p
    ensures 10 <= Tenths(b, p) <= 10240
  {
    var n := Tenths(b, p);
    assert n <= 9 ==> n * p <= 9 * p by {
      if n <= 9 {
        MulMono(n, 9, p);
      }
    }
    assert n >= 10241 ==> n * p >= 10241 * p by {
      if n >= 10241 {
        MulMono(10241, n, p);
      }
    }
  }

  // ---------------------------------------------------------------------------
  // Decimal rendering

  predicate IsDigit(c: char) {
    '0' <= c <= '9'
  }

  predicate AllDigits(s: string) {
    forall k :: 0 <= k < |s| ==> IsDigit(s[k])
  }

  function DigitChar(d: nat): (c: char)
    requires d < 10
    ensures IsDigit(c)
  {
    ('0' as int + d) as char
  }

  function DigitValue(c: char): (d: nat)
    requires IsDigit(c)
    ensures d < 10 && DigitChar(d) == c
  {
    c as int - '0' as int
  }

  /** `String(n)` for a whole number. */
  function Decimal(n: nat): (s: string)
    ensures |s| >= 1 && AllDigits(s)
    ensures |s| > 1 ==> s[0] != '0'
  {
    if n < 10 then [DigitChar(n)]
    else
      Decimal(n / 10) + [DigitChar(n % 10)]
  }

  function ParseDecimal(s: string): nat
    requires AllDigits(s)
  {
    if s == [] then 0 else 10 * ParseDecimal(s[..|s| - 1]) + DigitValue(s[|s| - 1])
  }

  lemma {:induction false} DecimalRoundTrip(n: nat)
    ensures ParseDecimal(Decimal(n)) == n
  {
    if n >= 10 {
      DecimalRoundTrip(n / 10);
      var s := Decimal(n);
      assert s[..|s| - 1] == Decimal(n / 10);
    }
  }

  /** The number shown for `n` tenths, after the one-decimal rendering is parsed
      back and printed again: no decimals when the
      tenths digit is zero. */
  function RenderTenths(n: nat): (s: string)
    ensures n % 10 == 0 ==> AllDigits(s)
    ensures n % 10 != 0 ==> |s| >= 3 && s[|s| - 2] == '.' && AllDigits(s[..|s| - 2]) && IsDigit(s[|s| - 1])
  {
    if n % 10 == 0 then Decimal(n / 10)
    else Decimal(n / 10) + "." + [DigitChar(n % 10)]
  }

  /** Reads a rendered number back as tenths. */
  function ParseTenths(s: string): (n: Option<nat>)
  {
    if s != [] && AllDigits(s) then Some(10 * ParseDecimal(s))
    else if |s| >= 3 && s[|s| - 2] == '.' && AllDigits(s[..|s| - 2]) && IsDigit(s[|s| - 1]) then
      Some(10 * ParseDecimal(s[..|s| - 2]) + DigitValue(s[|s| - 1]))
    else None
  }

  lemma TenthsRoundTrip(n: nat)
    ensures ParseTenths(RenderTenths(n)) == Some(n)
  {
    DecimalRoundTrip(n / 10);
    var s := RenderTenths(n);
    if n % 10 != 0 {
      assert s[..|s| - 2] == Decimal(n / 10);
      assert !IsDigit(s[|s| - 2]);
    }
  }

  // ---------------------------------------------------------------------------

  /** `humanSize(bytes)`. */
  function HumanSize(b: nat): (r: string)
    ensures b == 0 ==> r == "0 B"
    ensures b > 0 ==> exists i: nat, n: nat ::
      Pow1024(i) <= b < Pow1024(i + 1)
      && -(Pow1024(i) as int) < 2 * (n * Pow1024(i) - 10 * b) <= Pow1024(i)
      && r == RenderTenths(n) + " " + UnitName(i)
  {
    if b == 0 then "0 B"
    else
      var i := UnitIndex(b);
      var n := Tenths(b, Pow1024(i));
      RenderTenths(n) + " " + UnitName(i)
  }

  /** The shown number is never below 1 nor above 1024. */
  lemma HumanSizeRange(b: nat)
    requires b > 0
    ensures var i := UnitIndex(b); 10 <= Tenths(b, Pow1024(i)) <= 10240
  {
    var i := UnitIndex(b);
    TenthsRange(b, Pow1024(i));
  }

  lemma SmallExample()
    ensures HumanSize(1023) == "1023 B"
  {
    assert UnitIndex(1023) == 0;
    assert Tenths(1023, 1) == 10230;
    assert Decimal(1023) == "1023";
  }

  lemma KibExample()
    ensures HumanSize(1024) == "1 KB"
  {
    assert UnitIndex(1024) == 1;
    assert Pow1024(1) == 1024;
    assert Tenths(1024, 1024) == 10;
  }

  lemma HalfKibExample()
    ensures HumanSize(1536) == "1.5 KB"
  {
    assert UnitIndex(1536) == 1;
    assert Pow1024(1) == 1024;
    assert Tenths(1536, 1024) == 15;
  }

  /** Just under one MiB rounds up to 1024 of the smaller unit. */
  lemma RoundsUpExample()
    ensures HumanSize(1048575) == "1024 KB"
  {
    assert UnitIndex(1048575 / 1024) == 0;
    assert UnitIndex(1048575) == 1;
    assert Pow1024(1) == 1024;
    assert Tenths(1048575, 1024) == 10240;
    assert Decimal(1024) == "1024";
  }

  // ---------------------------------------------------------------------------
  // Counts of a pebibyte and more

  /** As written, two pebibytes run off the end of the unit table. */
  lemma PebibytesUndefined(b: nat)
    requires b == 2 * Pow1024(5)
    ensures HumanSize(b) == "2 undefined"
  {
    assert Pow1024(5) <= b < Pow1024(6);
    UnitIndexUnique(b, 5);
    assert Tenths(b, Pow1024(5)) == 20;
    assert Decimal(2) == "2";
  }

  /** The evident intent: counts past the last unit stay in terabytes. */
  function HumanSizeCapped(b: nat): (r: string)
    ensures b == 0 ==> r == "0 B"
    ensures b > 0 ==> exists i: nat, n: nat :: (i < |Units|
      && (Pow1024(i) <= b < Pow1024(i + 1) || (i == |Units| - 1 && Pow1024(|Units|) <= b))
      && -(Pow1024(i) as int) < 2 * (n * Pow1024(i) - 10 * b) <= Pow1024(i)
      && r == RenderTenths(n) + " " + Units[i])
  {
    if b == 0 then "0 B"
    else
      var j := UnitIndex(b);
      var i := if j < |Units| then j else |Units| - 1;
      assert j >= |Units| ==> Pow1024(|Units|) <= b by {
        if j > |Units| {
          Pow1024Mono(|Units|, j);
        }
      }
      var n := Tenths(b, Pow1024(i));
      RenderTenths(n) + " " + Units[i]
  }

  /** Below a pebibyte the corrected form agrees with the source. */
  lemma CappedAgrees(b: nat)
    requires b < Pow1024(5)
    ensures HumanSizeCapped(b) == HumanSize(b)
  {
    if b > 0 && UnitIndex(b) >= 5 {
      Pow1024Mono(4, UnitIndex(b));
    }
  }
}
