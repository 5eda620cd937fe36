/**
 * Python's rendering of an integer with `f"{total:,}"`: decimal digits with a
 * comma between every group of three, counted from the right, and a leading
 * minus sign for negative numbers.
 */
module Numbers {
  import opened Wrappers

  predicate IsDigit(c: char)
  {
    '0' <= c <= '9'
  }

  function DigitChar(d: nat): (c: char)
    requires d < 10
    ensures IsDigit(c)
  {
    ('0' as int + d) as char
  }

  function DigitValue(c: char): nat
    requires IsDigit(c)
  {
    c as int - '0' as int
  }

  /** `str(n)` for a natural number: its decimal digits, with no leading zero. */
  function Decimal(n: nat): (r: string)
    ensures 1 <= |r|
    ensures forall i :: 0 <= i < |r| ==> IsDigit(r[i])
    ensures r[0] == '0' ==> n == 0
    ensures n < 10 ==> |r| == 1
    ensures n < 100 ==> |r| <= 2
    ensures n < 1000 ==> |r| <= 3
    decreases n
  {
    if n < 10 then [DigitChar(n)] else Decimal(n / 10) + [DigitChar(n % 10)]
  }

  /** The value of a string of decimal digits ("" reads as 0). */
  function ParseDecimal(s: string): nat
    requires forall i :: 0 <= i < |s| ==> IsDigit(s[i])
    decreases |s|
  {
    if s == [] then 0 else ParseDecimal(s[..|s| - 1]) * 10 + DigitValue(s[|s| - 1])
  }

  /** Reading back the digits of `n` gives `n`. */
  lemma {:induction false} ParseDecimalOfDecimal(n: nat)
    ensures ParseDecimal(Decimal(n)) == n
    decreases n
  {
    if n >= 10 {
      var s := Decimal(n);
      assert s[..|s| - 1] == Decimal(n / 10);
      ParseDecimalOfDecimal(n / 10);
    }
  }

  /** A group after the first: exactly three digits, zero-padded. */
  function ThreeDigits(n: nat): (r: string)
    requires n < 1000
    ensures |r| == 3 && forall i :: 0 <= i < 3 ==> IsDigit(r[i])
  {
    [DigitChar(n / 100), DigitChar(n / 10 % 10), DigitChar(n % 10)]
  }

  /** The digits of a natural number in groups of three separated by commas. */
  function Grouped(n: nat): (r: string)
    ensures 1 <= |r|
    ensures forall i :: 0 <= i < |r| ==> r[i] == ',' || IsDigit(r[i])
    ensures forall i :: 0 <= i < |r| ==> (r[i] == ',' <==> (|r| - i) % 4 == 0)
    decreases n
  {
    if n < 1000 then Decimal(n)
    else
      var g := Grouped(n / 1000);
      var t := ThreeDigits(n % 1000);
      CommasAfterGroup(g, t);
      g + "," + t
  }

  /** Appending a comma and three digits keeps a comma exactly at every fourth
      position counted from the right. */
  lemma CommasAfterGroup(g: string, t: string)
    requires forall i :: 0 <= i < |g| ==> (g[i] == ',' <==> (|g| - i) % 4 == 0)
    requires |t| == 3 && forall i :: 0 <= i < 3 ==> IsDigit(t[i])
    ensures var r := g + "," + t;
      forall i :: 0 <= i < |r| ==> (r[i] == ',' <==> (|r| - i) % 4 == 0)
  {
    var r := g + "," + t;
    forall i | 0 <= i < |r| ensures r[i] == ',' <==> (|r| - i) % 4 == 0 {
      if i < |g| {
        assert r[i] == g[i];
        ShiftByFour(|g| - i);
      } else if i > |g| {
        assert r[i] == t[i - |g| - 1];
      }
    }
  }

  lemma ShiftByFour(k: int)
    ensures (k + 4) % 4 == k % 4
  {
  }

  /** `format(n, ",")`. */
  function FormatThousands(n: int): (r: string)
    ensures 1 <= |r|
    ensures n < 0 <==> r[0] == '-'
  {
    if n < 0 then "-" + Grouped(-n) else Grouped(n)
  }

  /** The magnitude of `n`, the number whose digits follow the sign. */
  function Abs(n: int): nat
  {
    if n < 0 then -n else n
  }

  /** The text after a leading minus sign, if there is one. */
  function Digits(s: string): (r: string)
    ensures |r| <= |s| && r == s[|s| - |r|..]
  {
    if |s| > 0 && s[0] == '-' then s[1..] else s
  }

  /** After its sign, `format(n, ",")` is the magnitude's digits grouped by commas. */
  lemma FormatThousandsDigits(n: int)
    ensures Digits(FormatThousands(n)) == Grouped(Abs(n))
  {
    if n >= 0 {
      assert FormatThousands(n)[0] != '-';
    }
  }

  /** The text after the sign holds only digits and commas, has a comma exactly
      at every fourth position counted from the right, and without its commas
      is `str(abs(n))`. */
  lemma FormatThousandsGrouping(n: int)
    ensures var g := Digits(FormatThousands(n));
      forall i :: 0 <= i < |g| ==> (g[i] == ',' || IsDigit(g[i]))
    ensures var g := Digits(FormatThousands(n));
      forall i :: 0 <= i < |g| ==> (g[i] == ',' <==> (|g| - i) % 4 == 0)
    ensures DropCommas(Digits(FormatThousands(n))) == Decimal(Abs(n))
  {
    var g := Digits(FormatThousands(n));
    FormatThousandsDigits(n);
    assert g == Grouped(Abs(n));
    DropCommasGrouped(Abs(n));
  }

  /** `s` with every comma removed. */
  function DropCommas(s: string): (r: string)
    ensures ',' !in r
    decreases |s|
  {
    if s == [] then [] else (if s[0] == ',' then [] else [s[0]]) + DropCommas(s[1..])
  }

  lemma {:induction false} DropCommasAppend(a: string, b: string)
    ensures DropCommas(a + b) == DropCommas(a) + DropCommas(b)
    decreases |a|
  {
    if a != [] {
      var head := if a[0] == ',' then [] else [a[0]];
      assert (a + b)[0] == a[0] && (a + b)[1..] == a[1..] + b;
      DropCommasAppend(a[1..], b);
      assert DropCommas(a + b) == head + DropCommas(a[1..] + b);
      assert DropCommas(a) == head + DropCommas(a[1..]);
    } else {
      assert a + b == b;
    }
  }

  lemma {:induction false} DropCommasNone(s: string)
    requires ',' !in s
    ensures DropCommas(s) == s
    decreases |s|
  {
    if s != [] {
      DropCommasNone(s[1..]);
    }
  }

  /** The digits of `n` are those of `n / 1000` followed by three more. */
  lemma DecimalSplit(n: nat)
    requires n >= 1000
    ensures Decimal(n) == Decimal(n / 1000) + ThreeDigits(n % 1000)
  {
    var q, m := n / 1000, n % 1000;
    assert n / 10 == 100 * q + m / 10;
    assert n / 100 == 10 * q + m / 100;
    assert n / 10 / 10 == n / 100 && n / 100 / 10 == q;
    assert n / 100 % 10 == m / 100 && n / 10 % 10 == m / 10 % 10 && n % 10 == m % 10;
    assert Decimal(n / 100) == Decimal(q) + [DigitChar(m / 100)];
    assert Decimal(n / 10) == Decimal(n / 100) + [DigitChar(m / 10 % 10)];
  }

  /** Removing the commas from the grouped form leaves `str(n)`. */
  lemma {:induction false} DropCommasGrouped(n: nat)
    ensures DropCommas(Grouped(n)) == Decimal(n)
    decreases n
  {
    if n < 1000 {
      DropCommasNone(Decimal(n));
    } else {
      var g, t := Grouped(n / 1000), ThreeDigits(n % 1000);
      DropCommasGrouped(n / 1000);
      DropCommasAppend(g + ",", t);
      DropCommasAppend(g, ",");
      DropCommasNone(t);
      DecimalSplit(n);
    }
  }

  /** Reads a number written with optional minus sign and commas; None when a
      character other than a digit or a comma follows the sign. */
  function ParseThousands(s: string): Option<int>
  {
    var negative := |s| > 0 && s[0] == '-';
    var digits := DropCommas(if negative then s[1..] else s);
    if digits == [] || exists i :: 0 <= i < |digits| && !IsDigit(digits[i]) then None
    else
      var value: int := ParseDecimal(digits);
      Some(if negative then -value else value)
  }

  /** Formatting loses nothing: reading the formatted text back gives `n`. */
  lemma FormatThousandsRoundTrip(n: int)
    ensures ParseThousands(FormatThousands(n)) == Some(n)
  {
    var m: nat := if n < 0 then -n else n;
    DropCommasGrouped(m);
    ParseDecimalOfDecimal(m);
    var s := FormatThousands(n);
    if n < 0 {
      assert s[1..] == Grouped(m);
    } else {
      assert s == Grouped(m);
      assert s[0] != '-';
    }
  }
}
