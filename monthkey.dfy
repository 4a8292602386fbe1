/**
 * The month key `YYYY-MM` under which the abnormal records of a month are
 * requested: the year as JavaScript writes a number, a dash, and the
 * month number padded to two digits with `padStart(2, "0")`.
 */
module MonthKey {
  import opened Wrappers

  predicate IsDigit(c: char) {
    '0' <= c <= '9'
  }

  predicate AllDigits(s: string) {
    forall i :: 0 <= i < |s| ==> IsDigit(s[i])
  }

  function DigitChar(d: int): (c: char)
    requires 0 <= d < 10
    ensures IsDigit(c) && c as int - '0' as int == d
  {
    ('0' as int + d) as char
  }

  /** The decimal digits of `n`, without leading zeros. */
  function NatDigits(n: nat): (s: string)
    ensures |s| >= 1 && AllDigits(s)
    ensures |s| > 1 ==> s[0] != '0'
    decreases n
  {
    if n < 10 then [DigitChar(n)] else NatDigits(n / 10) + [DigitChar(n % 10)]
  }

  /** `String(n)` for an integral number: a minus sign, then the digits. */
  function DecimalString(n: int): (s: string)
    ensures |s| >= 1
    ensures s[0] == '-' <==> n < 0
    ensures n >= 0 ==> AllDigits(s) && DigitsValue(s) == n
    ensures n < 0 ==> AllDigits(s[1..]) && DigitsValue(s[1..]) == -n
    ensures n >= 0 && |s| > 1 ==> s[0] != '0'
    ensures n < 0 && |s| > 2 ==> s[1] != '0'
  {
    if n < 0 then
      var s := "-" + NatDigits(-n);
      assert s[1..] == NatDigits(-n);
      DigitsValueOfNatDigits(-n);
      s
    else
      DigitsValueOfNatDigits(n);
      NatDigits(n)
  }

  /** The number a string of decimal digits denotes. */
  function DigitsValue(s: string): nat
    requires AllDigits(s)
  {
    if s == [] then 0 else 10 * DigitsValue(s[..|s| - 1]) + (s[|s| - 1] as int - '0' as int)
  }

  /** Reading back the digits of `n` gives `n`. */
  lemma {:induction false} DigitsValueOfNatDigits(n: nat)
    ensures DigitsValue(NatDigits(n)) == n
    decreases n
  {
    if n >= 10 {
      var s := NatDigits(n);
      assert s[..|s| - 1] == NatDigits(n / 10);
      DigitsValueOfNatDigits(n / 10);
    }
  }

  lemma NatDigitsInjective(a: nat, b: nat)
    requires NatDigits(a) == NatDigits(b)
    ensures a == b
  {
    DigitsValueOfNatDigits(a);
    DigitsValueOfNatDigits(b);
  }

  /** Distinct numbers are written differently. */
  lemma DecimalStringInjective(a: int, b: int)
    requires DecimalString(a) == DecimalString(b)
    ensures a == b
  {
    if a < 0 {
      var s := DecimalString(a);
      assert s[1..] == NatDigits(-a);
      assert s[1..] == NatDigits(-b);
      NatDigitsInjective(-a, -b);
    } else {
      NatDigitsInjective(a, b);
    }
  }

  /** `s.padStart(targetLength, fill)` with a one-character `fill`. */
  function PadStart(s: string, targetLength: int, fill: char): (r: string)
    ensures |r| == if |s| < targetLength then targetLength else |s|
    ensures r[|r| - |s|..] == s
    ensures forall i :: 0 <= i < |r| - |s| ==> r[i] == fill
  {
    if |s| < targetLength then seq(targetLength - |s|, _ => fill) + s else s
  }

  /** The two-digit month: `String(monthIndex + 1).padStart(2, "0")`. */
  function MonthDigits(monthIndex: int): (mm: string)
    requires 0 <= monthIndex < 12
    ensures |mm| == 2 && AllDigits(mm) && DigitsValue(mm) == monthIndex + 1
  {
    var mm := PadStart(DecimalString(monthIndex + 1), 2, '0');
    DigitsValueOfNatDigits(monthIndex + 1);
    if monthIndex + 1 < 10 then
      assert mm == ['0'] + NatDigits(monthIndex + 1);
      assert mm[..1] == ['0'];
      mm
    else
      mm
  }

  /** A string, a dash and two characters split back into the two parts. */
  lemma SplitAtDash(a: string, b: string)
    requires |b| == 2
    ensures var s := a + "-" + b;
      |s| == |a| + 3 && s[|s| - 3] == '-' && s[..|s| - 3] == a && s[|s| - 2..] == b
  {
    var s := a + "-" + b;
    assert s[..|a|] == a;
    assert s[|a| + 1..] == b;
  }

  /** `now.getFullYear() + "-" + String(now.getMonth() + 1).padStart(2, "0")`. */
  function Key(year: int, monthIndex: int): (key: string)
    requires 0 <= monthIndex < 12
    ensures |key| == |DecimalString(year)| + 3 && key[|key| - 3] == '-'
    ensures key[..|key| - 3] == DecimalString(year) && key[|key| - 2..] == MonthDigits(monthIndex)
  {
    var y, mm := DecimalString(year), MonthDigits(monthIndex);
    SplitAtDash(y, mm);
    y + "-" + mm
  }

  /** Read a key of a four-digit year back into the year and the month index. */
  function ParseKey(key: string): Option<(int, int)> {
    if |key| == 7 && key[4] == '-' && AllDigits(key[..4]) && AllDigits(key[5..])
    then Some((DigitsValue(key[..4]), DigitsValue(key[5..]) - 1))
    else None
  }

  lemma FourDigitYear(year: int)
    requires 1000 <= year <= 9999
    ensures |DecimalString(year)| == 4
  {
    assert |NatDigits(year / 1000)| == 1;
    assert NatDigits(year / 100) == NatDigits(year / 1000) + [DigitChar(year / 100 % 10)];
    assert NatDigits(year / 10) == NatDigits(year / 100) + [DigitChar(year / 10 % 10)];
  }

  /** Any four digits, a dash and two digits read back as year and month index. */
  lemma ParseKeyOfParts(ys: string, mm: string)
    requires |ys| == 4 && AllDigits(ys) && |mm| == 2 && AllDigits(mm)
    ensures ParseKey(ys + "-" + mm) == Some((DigitsValue(ys), DigitsValue(mm) - 1))
  {
    var key := ys + "-" + mm;
    assert key[..4] == ys;
    assert key[5..] == mm;
  }

  /** For a four-digit year the key is `YYYY-MM`, and it reads back. */
  lemma ParseKeyOfKey(year: int, monthIndex: int)
    requires 1000 <= year <= 9999 && 0 <= monthIndex < 12
    ensures |Key(year, monthIndex)| == 7
    ensures ParseKey(Key(year, monthIndex)) == Some((year, monthIndex))
  {
    FourDigitYear(year);
    DigitsValueOfNatDigits(year);
    ParseKeyOfParts(DecimalString(year), MonthDigits(monthIndex));
  }

  /** Distinct months of any years have distinct keys. */
  lemma KeyInjective(y1: int, m1: int, y2: int, m2: int)
    requires 0 <= m1 < 12 && 0 <= m2 < 12
    requires Key(y1, m1) == Key(y2, m2)
    ensures y1 == y2 && m1 == m2
  {
    DecimalStringInjective(y1, y2);
  }
}
