/** Decimal rendering of numbers: plain digits, zero-padded fields, and the `,` thousands
    separator of Python's format-spec mini-language (PEP 378). */
module NumberFormat {
  import opened Wrappers

  predicate IsDigit(c: char) { '0' <= c <= '9' }

  predicate AllDigits(s: string) { forall i :: 0 <= i < |s| ==> IsDigit(s[i]) }

  function DigitChar(d: nat): (c: char)
    requires d < 10
    ensures IsDigit(c)
  {
    (48 + d) as char
  }

  function DigitValue(c: char): nat {
    if IsDigit(c) then c as int - 48 else 0
  }

  /** The number a string of decimal digits denotes, read most significant digit first. */
  function DecValue(s: string): nat {
    if s == [] then 0 else 10 * DecValue(s[..|s| - 1]) + DigitValue(s[|s| - 1])
  }

  function Pow10(k: nat): nat {
    if k == 0 then 1 else 10 * Pow10(k - 1)
  }

  /** `str(n)` for a non-negative integer: no leading zero. */
  function Digits(n: nat): (r: string)
    ensures AllDigits(r) && 1 <= |r|
    ensures n < 10 ==> |r| == 1
    ensures n < 100 ==> |r| <= 2
    ensures n < 1000 ==> |r| <= 3
    ensures n > 0 ==> r[0] != '0'
    ensures DecValue(r) == n
  {
    if n < 10 then [DigitChar(n)]
    else
      var r := Digits(n / 10) + [DigitChar(n % 10)];
      assert r[..|r| - 1] == Digits(n / 10);
      r
  }

  /** `n` written in exactly `width` digits with leading zeros, as `%0<width>d` does. */
  function Fixed(n: nat, width: nat): (r: string)
    requires n < Pow10(width)
    ensures |r| == width && AllDigits(r)
    ensures DecValue(r) == n
  {
    if width == 0 then []
    else
      var r := Fixed(n / 10, width - 1) + [DigitChar(n % 10)];
      assert r[..|r| - 1] == Fixed(n / 10, width - 1);
      r
  }

  /** Digit groups of one to three digits (no leading zero unless the number is 0), then
      groups of exactly three digits each led by a comma. */
  ghost predicate WellGrouped(s: string) {
    if |s| <= 3 then 1 <= |s| && AllDigits(s) && (|s| == 1 || s[0] != '0')
    else s[0] != '0' && s[|s| - 4] == ',' && AllDigits(s[|s| - 3..]) && WellGrouped(s[..|s| - 4])
  }

  /** `format(n, ",")` for a non-negative integer: a comma between every three digits,
      counted from the right. */
  function Grouped(n: nat): (r: string)
    ensures |r| >= 1 && IsDigit(r[0])
    ensures n > 0 ==> r[0] != '0'
  {
    if n < 1000 then Digits(n)
    else Grouped(n / 1000) + [','] + Fixed(n % 1000, 3)
  }

  /** The grouped rendering has the shape of PEP 378's `,` option. */
  lemma {:induction false} GroupedIsWellGrouped(n: nat)
    ensures WellGrouped(Grouped(n))
  {
    if n >= 1000 {
      var g := Grouped(n / 1000);
      var f := Fixed(n % 1000, 3);
      var r := Grouped(n);
      GroupedIsWellGrouped(n / 1000);
      assert r == g + [','] + f;
      assert r[..|r| - 4] == g && r[|r| - 3..] == f;
      assert r[0] == g[0];
    }
  }

  /** The string with every comma removed. */
  function DropCommas(s: string): (r: string)
    ensures |r| <= |s|
  {
    if s == [] then []
    else DropCommas(s[..|s| - 1]) + (if s[|s| - 1] == ',' then [] else [s[|s| - 1]])
  }

  lemma {:induction false} DropCommasAppend(a: string, b: string)
    ensures DropCommas(a + b) == DropCommas(a) + DropCommas(b)
  {
    if b == [] {
      assert a + b == a;
    } else {
      assert (a + b)[..|a + b| - 1] == a + b[..|b| - 1];
      DropCommasAppend(a, b[..|b| - 1]);
    }
  }

  lemma {:induction false} DropCommasOfDigits(s: string)
    requires AllDigits(s)
    ensures DropCommas(s) == s
  {
    if s != [] {
      DropCommasOfDigits(s[..|s| - 1]);
      assert s == s[..|s| - 1] + [s[|s| - 1]];
    }
  }

  /** Appending one digit shifts the value one place. */
  lemma DecValueAppendDigit(a: string, c: char)
    ensures DecValue(a + [c]) == 10 * DecValue(a) + DigitValue(c)
  {
    assert (a + [c])[..|a|] == a;
  }

  /** Appending a three-digit group shifts the value three places. */
  lemma DecValueAppendGroup(a: string, f: string)
    requires |f| == 3
    ensures DecValue(a + f) == 1000 * DecValue(a) + DecValue(f)
  {
    assert a + f == a + [f[0]] + [f[1]] + [f[2]];
    assert f == [] + [f[0]] + [f[1]] + [f[2]];
    DecValueAppendDigit(a, f[0]);
    DecValueAppendDigit(a + [f[0]], f[1]);
    DecValueAppendDigit(a + [f[0]] + [f[1]], f[2]);
    DecValueAppendDigit([], f[0]);
    DecValueAppendDigit([] + [f[0]], f[1]);
    DecValueAppendDigit([] + [f[0]] + [f[1]], f[2]);
  }

  /** Removing the separators from a grouped number and reading its digits gives the number
      back: the grouping only inserts commas. */
  lemma {:induction false} GroupedReadsBack(n: nat)
    ensures DecValue(DropCommas(Grouped(n))) == n
  {
    if n < 1000 {
      DropCommasOfDigits(Digits(n));
    } else {
      var g := Grouped(n / 1000);
      var f := Fixed(n % 1000, 3);
      GroupedReadsBack(n / 1000);
      assert DropCommas(Grouped(n)) == DropCommas(g) + f by {
        assert Grouped(n) == (g + [',']) + f;
        DropCommasAppend(g + [','], f);
        DropCommasAppend(g, [',']);
        assert DropCommas([',']) == [] by {
          assert [','][..0] == [];
        }
        DropCommasOfDigits(f);
      }
      DecValueAppendGroup(DropCommas(g), f);
    }
  }

  /** The dtype pandas gives the value column. The spreadsheet reader turns whole-number cells
      into Python ints, so a column of whole numbers is int64; one missing cell makes it
      float64. */
  datatype Dtype = Int64 | Float64

  /** What `f"{v:,}"` writes after the digits of a whole number: ".0" for a float, nothing for
      an int. */
  function Suffix(d: Dtype): string {
    if d == Float64 then ".0" else ""
  }

  /** `f"{v:,}"` for a cell of a column of dtype `d`. A missing value (NaN) prints "nan". */
  function ValueText(v: Option<int>, d: Dtype): (r: string)
    ensures v.None? ==> r == "nan"
    ensures v.Some? ==> |r| >= 1 && (r[0] == '-' <==> v.value < 0)
  {
    match v
    case None => "nan"
    case Some(x) =>
      if x < 0 then "-" + (Grouped(-x) + Suffix(d)) else Grouped(x) + Suffix(d)
  }

  /** The dtype changes the text of a present value only by the float suffix. */
  lemma FloatTextAddsSuffix(x: int)
    ensures ValueText(Some(x), Float64) == ValueText(Some(x), Int64) + ".0"
  {
    if x < 0 {
      assert "-" + (Grouped(-x) + ".0") == ("-" + (Grouped(-x) + "")) + ".0";
    } else {
      assert Grouped(x) + "" == Grouped(x);
    }
  }

  /** Reads an unsigned rendered value back: grouped digits followed by the dtype's suffix. */
  function ReadMagnitude(b: string, d: Dtype): nat {
    if |b| >= |Suffix(d)| then DecValue(DropCommas(b[..|b| - |Suffix(d)|])) else 0
  }

  /** Reads a rendered value back: optional minus sign, then the unsigned part. */
  function ReadValue(t: string, d: Dtype): int {
    if |t| > 0 && t[0] == '-' then -(ReadMagnitude(t[1..], d) as int) else ReadMagnitude(t, d)
  }

  /** The unsigned part of a value's text reads back as the number its digits denote. */
  lemma ReadMagnitudeOf(g: string, d: Dtype)
    ensures ReadMagnitude(g + Suffix(d), d) == DecValue(DropCommas(g))
  {
    assert (g + Suffix(d))[..|g|] == g;
  }

  lemma ReadNegative(b: string, d: Dtype)
    ensures ReadValue("-" + b, d) == -(ReadMagnitude(b, d) as int)
  {
    assert ("-" + b)[1..] == b;
  }

  lemma ReadNonNegative(b: string, d: Dtype)
    requires |b| > 0 && b[0] != '-'
    ensures ReadValue(b, d) == ReadMagnitude(b, d)
  {
  }

  /** The unsigned part of a value's label reads back as the magnitude. */
  lemma GroupedTextMagnitude(m: nat, d: Dtype)
    ensures var b := Grouped(m) + Suffix(d);
            b[0] != '-' && ReadMagnitude(b, d) == m
  {
    var g := Grouped(m);
    GroupedReadsBack(m);
    ReadMagnitudeOf(g, d);
    assert (g + Suffix(d))[0] == g[0];
  }

  lemma NegativeTextReadsBack(x: int, d: Dtype)
    requires x < 0
    ensures ReadValue(ValueText(Some(x), d), d) == x
  {
    var b := Grouped(-x) + Suffix(d);
    GroupedTextMagnitude(-x, d);
    ReadNegative(b, d);
    assert ReadValue("-" + b, d) == x;
    assert ValueText(Some(x), d) == "-" + b;
  }

  lemma NonNegativeTextReadsBack(x: nat, d: Dtype)
    ensures ReadValue(ValueText(Some(x), d), d) == x
  {
    var b := Grouped(x) + Suffix(d);
    GroupedTextMagnitude(x, d);
    ReadNonNegative(b, d);
    assert ReadValue(b, d) == x;
    assert ValueText(Some(x), d) == b;
  }

  /** The label text of a value determines the value, in either dtype. */
  lemma ValueTextReadsBack(x: int, d: Dtype)
    ensures ReadValue(ValueText(Some(x), d), d) == x
  {
    if x < 0 {
      NegativeTextReadsBack(x, d);
    } else {
      NonNegativeTextReadsBack(x, d);
    }
  }
}
