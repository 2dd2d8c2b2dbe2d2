/** Decimal text of natural numbers, as Python prints and reads it over ASCII digits:
    `str(n)` / `f"{n}"` (Decimal), `int(ds)` (Value), and the thousands-grouped
    form produced by the `,` format specifier, `f"{n:,}"` (Grouped). */
module Digits {

  predicate IsDigit(c: char) {
    '0' <= c <= '9'
  }

  predicate AllDigits(s: string) {
    forall k :: 0 <= k < |s| ==> IsDigit(s[k])
  }

  function DigitValue(c: char): (d: nat)
    requires IsDigit(c)
    ensures d < 10
  {
    c as int - '0' as int
  }

  function DigitChar(d: nat): (c: char)
    requires d < 10
    ensures IsDigit(c) && DigitValue(c) == d
  {
    (d + '0' as int) as char
  }

  /** A canonical decimal numeral: at least one digit, and no leading zero unless it is "0". */
  predicate Canonical(s: string) {
    |s| > 0 && AllDigits(s) && (s[0] == '0' ==> |s| == 1)
  }

  /** The text Python prints for a non-negative int. */
  function Decimal(n: nat): (s: string)
    ensures Canonical(s)
    ensures s[0] == '0' <==> n == 0
  {
    if n < 10 then [DigitChar(n)] else Decimal(n / 10) + [DigitChar(n % 10)]
  }

  /** The number a string of ASCII digits denotes, as Python's `int` reads it
      (leading zeros allowed; the empty string is given the value 0). */
  function Value(ds: string): nat
    requires AllDigits(ds)
  {
    if ds == [] then 0 else Value(ds[..|ds| - 1]) * 10 + DigitValue(ds[|ds| - 1])
  }

  /** `ds` with its leading zeros removed, keeping the last digit. */
  function StripZeros(ds: string): string
    requires |ds| > 0
  {
    if |ds| > 1 && ds[0] == '0' then StripZeros(ds[1..]) else ds
  }

  lemma {:induction false} ValueOfDecimal(n: nat)
    ensures Value(Decimal(n)) == n
  {
    if n >= 10 {
      var s := Decimal(n);
      assert s[..|s| - 1] == Decimal(n / 10);
      ValueOfDecimal(n / 10);
    }
  }

  lemma {:induction false} ZeroValue(ds: string)
    requires AllDigits(ds) && Value(ds) == 0
    ensures forall k :: 0 <= k < |ds| ==> ds[k] == '0'
  {
    if ds != [] {
      ZeroValue(ds[..|ds| - 1]);
      forall k | 0 <= k < |ds| ensures ds[k] == '0' {
        if k < |ds| - 1 {
          assert ds[k] == ds[..|ds| - 1][k];
        }
      }
    }
  }

  /** Decimal is the only canonical numeral of its value. */
  lemma {:induction false} DecimalOfValue(ds: string)
    requires Canonical(ds)
    ensures Decimal(Value(ds)) == ds
  {
    var p, c := ds[..|ds| - 1], ds[|ds| - 1];
    assert ds == p + [c];
    if p != [] {
      assert Canonical(p) by { assert p[0] == ds[0]; }
      if Value(p) == 0 {
        ZeroValue(p);
        assert false;
      }
      DecimalOfValue(p);
      assert Value(ds) / 10 == Value(p) && Value(ds) % 10 == DigitValue(c);
    }
  }

  lemma {:induction false} LeadingZero(ds: string)
    requires AllDigits(ds)
    ensures AllDigits("0" + ds) && Value("0" + ds) == Value(ds)
  {
    if ds != [] {
      assert ("0" + ds)[..|ds|] == "0" + ds[..|ds| - 1];
      LeadingZero(ds[..|ds| - 1]);
    }
  }

  lemma {:induction false} StripZerosValue(ds: string)
    requires |ds| > 0 && AllDigits(ds)
    ensures Canonical(StripZeros(ds)) && Value(StripZeros(ds)) == Value(ds)
  {
    if |ds| > 1 && ds[0] == '0' {
      StripZerosValue(ds[1..]);
      assert ds == "0" + ds[1..];
      LeadingZero(ds[1..]);
    }
  }

  /** `str(int(ds))`: reading a digit string and printing it back drops its leading zeros. */
  lemma PrintedValue(ds: string)
    requires |ds| > 0 && AllDigits(ds)
    ensures Decimal(Value(ds)) == StripZeros(ds)
  {
    StripZerosValue(ds);
    DecimalOfValue(StripZeros(ds));
  }

  /** The last three digits of a number, zero-padded, as one group of `f"{n:,}"`. */
  function Pad3(r: nat): (s: string)
    requires r < 1000
    ensures |s| == 3 && AllDigits(s)
  {
    [DigitChar(r / 100), DigitChar(r / 10 % 10), DigitChar(r % 10)]
  }

  /** `f"{n:,}"`: the decimal digits of `n`, split into groups of three from the right by commas. */
  function Grouped(n: nat): string
  {
    if n < 1000 then Decimal(n) else Grouped(n / 1000) + "," + Pad3(n % 1000)
  }

  function RemoveCommas(s: string): (r: string)
    ensures forall k :: 0 <= k < |r| ==> r[k] != ','
  {
    if s == [] then []
    else RemoveCommas(s[..|s| - 1]) + (if s[|s| - 1] == ',' then [] else [s[|s| - 1]])
  }

  lemma {:induction false} RemoveCommasAppend(a: string, b: string)
    ensures RemoveCommas(a + b) == RemoveCommas(a) + RemoveCommas(b)
  {
    if b != [] {
      assert (a + b)[..|a + b| - 1] == a + b[..|b| - 1];
      RemoveCommasAppend(a, b[..|b| - 1]);
    } else {
      assert a + b == a;
    }
  }

  lemma {:induction false} RemoveCommasOfDigits(s: string)
    requires AllDigits(s)
    ensures RemoveCommas(s) == s
  {
    if s != [] {
      RemoveCommasOfDigits(s[..|s| - 1]);
    }
  }

  /** Splitting off the last three digits of a number of four digits or more. */
  lemma DecimalSplit(n: nat)
    requires n >= 1000
    ensures Decimal(n) == Decimal(n / 1000) + Pad3(n % 1000)
  {
    var q, r := n / 1000, n % 1000;
    ThreeDigits(n);
    calc {
      Decimal(n);
      Decimal(n / 10) + [DigitChar(n % 10)];
      Decimal(n / 10 / 10) + [DigitChar(n / 10 % 10)] + [DigitChar(n % 10)];
      Decimal(n / 10 / 10 / 10) + [DigitChar(n / 10 / 10 % 10)] + [DigitChar(n / 10 % 10)] + [DigitChar(n % 10)];
      Decimal(q) + Pad3(r);
    }
  }

  lemma ThreeDigits(n: nat)
    ensures n / 10 / 10 / 10 == n / 1000
    ensures n / 10 / 10 % 10 == n % 1000 / 100
    ensures n / 10 % 10 == n % 1000 / 10 % 10
    ensures n % 10 == n % 1000 % 10
  {
    var q, r := n / 1000, n % 1000;
    assert n == 1000 * q + r;
    assert n / 10 == 100 * q + r / 10;
    assert n / 10 / 10 == 10 * q + r / 100;
  }

  /** Deleting the commas of `f"{n:,}"` gives the plain decimal text of `n`. */
  lemma {:induction false} GroupedDigits(n: nat)
    ensures RemoveCommas(Grouped(n)) == Decimal(n)
  {
    if n < 1000 {
      RemoveCommasOfDigits(Decimal(n));
    } else {
      var g := Grouped(n / 1000);
      GroupedDigits(n / 1000);
      RemoveCommasAppend(g + ",", Pad3(n % 1000));
      RemoveCommasAppend(g, ",");
      RemoveCommasOfDigits(Pad3(n % 1000));
      DecimalSplit(n);
    }
  }

  /** A number below 1000 prints as at most three digits. */
  lemma DecimalShort(n: nat)
    requires n < 1000
    ensures |Decimal(n)| <= 3
  {
    if n >= 10 {
      assert |Decimal(n / 10)| <= 2 by {
        if n / 10 >= 10 {
          assert |Decimal(n / 10 / 10)| == 1;
        }
      }
    }
  }

  /** The layout of a thousands-grouped numeral: a first group of one to three digits,
      then groups of a comma and exactly three digits. Counting from the right end,
      every fourth character is a comma and every other character is a digit. */
  predicate GroupedShape(s: string) {
    && |s| % 4 != 0
    && (forall k :: 0 <= k < |s| ==> (s[k] == ',' <==> (|s| - k) % 4 == 0))
    && (forall k :: 0 <= k < |s| && s[k] != ',' ==> IsDigit(s[k]))
  }

  /** Appending a comma and a group of three digits keeps the layout. */
  lemma GroupedShapeAppend(g: string, p: string)
    requires GroupedShape(g) && |p| == 3 && AllDigits(p)
    ensures GroupedShape(g + "," + p)
  {
    var s := g + "," + p;
    forall k | 0 <= k < |s|
      ensures (s[k] == ',' <==> (|s| - k) % 4 == 0)
      ensures s[k] != ',' ==> IsDigit(s[k])
    {
      if k < |g| {
        AppendedGroup(g, p, k);
      } else if k > |g| {
        assert s[k] == p[k - |g| - 1];
      }
    }
  }

  lemma AppendedGroup(g: string, p: string, k: nat)
    requires k < |g| && |p| == 3
    ensures (g + "," + p)[k] == g[k]
    ensures (|g| + 4 - k) % 4 == (|g| - k) % 4
  {
  }

  /** `f"{n:,}"` has the thousands-grouped layout. */
  lemma {:induction false} GroupedLayout(n: nat)
    ensures GroupedShape(Grouped(n))
  {
    if n < 1000 {
      DecimalShort(n);
    } else {
      GroupedLayout(n / 1000);
      GroupedShapeAppend(Grouped(n / 1000), Pad3(n % 1000));
    }
  }
}
