/** The canonical date string `YYYY-MM-DD` that dayjs's `format` produces for
    the widget pair's date format, and a reader for it. */
module DateFormat {
  import opened Optional
  import opened Calendar

  predicate IsDigit(c: char) {
    '0' <= c <= '9'
  }

  function DigitValue(c: char): (n: int)
    requires IsDigit(c)
    ensures 0 <= n <= 9
  {
    c as int - '0' as int
  }

  function DigitChar(n: int): (c: char)
    requires 0 <= n <= 9
    ensures IsDigit(c) && DigitValue(c) == n
  {
    ('0' as int + n) as char
  }

  /** Decimal digits of `n` without leading zeros, as JavaScript's `String(n)`. */
  function NatToString(n: nat): (s: string)
    ensures |s| >= 1 && forall i :: 0 <= i < |s| ==> IsDigit(s[i])
    decreases n
  {
    if n < 10 then [DigitChar(n)] else NatToString(n / 10) + [DigitChar(n % 10)]
  }

  function IntToString(n: int): string {
    if n < 0 then "-" + NatToString(-n) else NatToString(n)
  }

  function Zeros(k: nat): (z: string)
    ensures |z| == k && forall i :: 0 <= i < k ==> z[i] == '0'
  {
    if k == 0 then [] else Zeros(k - 1) + ['0']
  }

  /** dayjs's `padStart(s, width, '0')`: zeros in front up to `width`; a longer
      string is left as it is. */
  function PadStart(s: string, width: nat): (r: string)
    ensures |r| == if |s| >= width then |s| else width
    ensures r[|r| - |s|..] == s
    ensures forall i :: 0 <= i < |r| - |s| ==> r[i] == '0'
  {
    if |s| >= width then s else Zeros(width - |s|) + s
  }

  /** `date.format('YYYY-MM-DD')`: year padded to four places, 1-based month
      and day of the month padded to two, joined by '-'. */
  function Format(d: CalendarDate): string {
    PadStart(IntToString(d.year), 4) + "-" + PadStart(NatToString(d.month + 1), 2)
      + "-" + PadStart(NatToString(d.day), 2)
  }

  /** Ten characters: four digits, '-', two digits, '-', two digits. */
  predicate IsCanonical(s: string) {
    |s| == 10 && s[4] == '-' && s[7] == '-'
    && forall i :: 0 <= i < 10 && i != 4 && i != 7 ==> IsDigit(s[i])
  }

  /** Value of a string of decimal digits (leading zeros allowed). */
  function DigitsValue(s: string): (n: int)
    requires forall i :: 0 <= i < |s| ==> IsDigit(s[i])
    ensures n >= 0
  {
    if s == [] then 0
    else DigitsValue(s[..|s| - 1]) * 10 + DigitValue(s[|s| - 1])
  }

  /** Reads a canonical string back into the date it names; anything else,
      including a well-shaped string naming no date, gives `None`. */
  function ParseCanonical(s: string): (r: Option<CalendarDate>)
    ensures r.Some? ==> IsCanonical(s)
  {
    if !IsCanonical(s) then None
    else
      var y := DigitsValue(s[..4]);
      var m := DigitsValue(s[5..7]);
      var d := DigitsValue(s[8..]);
      if 1 <= m <= 12 && 1 <= d <= DaysInMonth(y, m - 1) then Some(Date(y, m - 1, d))
      else None
  }

  lemma {:induction false} DigitsValueOfNatToString(n: nat)
    ensures DigitsValue(NatToString(n)) == n
    decreases n
  {
    if n >= 10 {
      var s := NatToString(n);
      assert s[..|s| - 1] == NatToString(n / 10);
      DigitsValueOfNatToString(n / 10);
    }
  }

  /** Leading zeros do not change the value. */
  lemma {:induction false} DigitsValueLeadingZeros(k: nat, s: string)
    requires forall i :: 0 <= i < |s| ==> IsDigit(s[i])
    ensures DigitsValue(Zeros(k) + s) == DigitsValue(s)
    decreases |s|
  {
    if s == [] {
      assert Zeros(k) + s == Zeros(k);
      ZerosValue(k);
    } else {
      var t := Zeros(k) + s;
      assert t[..|t| - 1] == Zeros(k) + s[..|s| - 1];
      DigitsValueLeadingZeros(k, s[..|s| - 1]);
    }
  }

  lemma {:induction false} ZerosValue(k: nat)
    ensures DigitsValue(Zeros(k)) == 0
  {
    if k > 0 {
      assert Zeros(k)[..k - 1] == Zeros(k - 1);
      ZerosValue(k - 1);
    }
  }

  /** A number below 10^w takes at most w digits. */
  lemma {:induction false} NatToStringLength(n: nat, w: nat)
    requires 1 <= w && n < Pow10(w)
    ensures |NatToString(n)| <= w
    decreases n
  {
    if n >= 10 {
      assert w >= 2;
      NatToStringLength(n / 10, w - 1);
    }
  }

  function Pow10(w: nat): (p: nat)
    ensures p >= 1
  {
    if w == 0 then 1 else 10 * Pow10(w - 1)
  }

  /** Padding a short enough number gives exactly `width` digits that read back as the number. */
  lemma PaddedNumber(n: nat, width: nat)
    requires 1 <= width && n < Pow10(width)
    ensures |PadStart(NatToString(n), width)| == width
    ensures forall i :: 0 <= i < width ==> IsDigit(PadStart(NatToString(n), width)[i])
    ensures DigitsValue(PadStart(NatToString(n), width)) == n
  {
    var s := NatToString(n);
    NatToStringLength(n, width);
    DigitsValueOfNatToString(n);
    if |s| < width {
      var r := Zeros(width - |s|) + s;
      assert PadStart(s, width) == r;
      assert forall i :: 0 <= i < width ==> IsDigit(r[i]) by {
        forall i | 0 <= i < width ensures IsDigit(r[i]) {
          if i < width - |s| { assert r[i] == '0'; } else { assert r[i] == s[i - (width - |s|)]; }
        }
      }
      DigitsValueLeadingZeros(width - |s|, s);
    }
  }

  /** Joining a four-digit and two two-digit strings with '-' gives a canonical
      string whose three fields are those strings. */
  lemma JoinedFields(y: string, m: string, d: string)
    requires |y| == 4 && |m| == 2 && |d| == 2
    requires forall i :: 0 <= i < 4 ==> IsDigit(y[i])
    requires forall i :: 0 <= i < 2 ==> IsDigit(m[i]) && IsDigit(d[i])
    ensures IsCanonical(y + "-" + m + "-" + d)
    ensures (y + "-" + m + "-" + d)[..4] == y
    ensures (y + "-" + m + "-" + d)[5..7] == m
    ensures (y + "-" + m + "-" + d)[8..] == d
  {
    var s := y + "-" + m + "-" + d;
    assert forall i :: 0 <= i < 4 ==> s[i] == y[i];
    assert forall i :: 5 <= i < 7 ==> s[i] == m[i - 5];
    assert forall i :: 8 <= i < 10 ==> s[i] == d[i - 8];
  }

  /** A canonical string is read field by field. */
  lemma ParseFields(s: string, y: int, m: int, d: int)
    requires IsCanonical(s)
    requires DigitsValue(s[..4]) == y && DigitsValue(s[5..7]) == m && DigitsValue(s[8..]) == d
    requires 1 <= m <= 12 && 1 <= d <= DaysInMonth(y, m - 1)
    ensures ParseCanonical(s) == Some(Date(y, m - 1, d))
  {
  }

  /** The three padded fields of a date of the years 0 to 9999. */
  lemma FormatFields(d: CalendarDate) returns (y: string, m: string, dd: string)
    requires 0 <= d.year <= 9999
    ensures Format(d) == y + "-" + m + "-" + dd
    ensures |y| == 4 && |m| == 2 && |dd| == 2
    ensures forall i :: 0 <= i < 4 ==> IsDigit(y[i])
    ensures forall i :: 0 <= i < 2 ==> IsDigit(m[i]) && IsDigit(dd[i])
    ensures DigitsValue(y) == d.year && DigitsValue(m) == d.month + 1 && DigitsValue(dd) == d.day
  {
    assert Pow10(4) == 10000 && Pow10(2) == 100;
    y := PadStart(NatToString(d.year), 4);
    m := PadStart(NatToString(d.month + 1), 2);
    dd := PadStart(NatToString(d.day), 2);
    PaddedNumber(d.year, 4);
    PaddedNumber(d.month + 1, 2);
    PaddedNumber(d.day, 2);
  }

  /** For the years 0 to 9999 the formatted string has the canonical shape and
      reads back as the same date. */
  lemma FormatRoundTrip(d: CalendarDate)
    requires 0 <= d.year <= 9999
    ensures IsCanonical(Format(d))
    ensures ParseCanonical(Format(d)) == Some(d)
  {
    var y, m, dd := FormatFields(d);
    JoinedFields(y, m, dd);
    ParseFields(Format(d), d.year, d.month + 1, d.day);
  }

  /** Distinct dates of those years are formatted differently. */
  lemma FormatInjective(a: CalendarDate, b: CalendarDate)
    requires 0 <= a.year <= 9999 && 0 <= b.year <= 9999
    ensures Format(a) == Format(b) <==> a == b
  {
    FormatRoundTrip(a);
    FormatRoundTrip(b);
  }

  /** The year 2022 as four digits. */
  lemma Year2022()
    ensures PadStart(IntToString(2022), 4) == "2022"
  {
    assert NatToString(2) == "2";
    assert NatToString(20) == "20";
    assert NatToString(202) == "202";
    assert NatToString(2022) == "2022";
  }

  /** A one-digit number is padded with a single zero. */
  lemma PadOneDigit(n: nat)
    requires n <= 9
    ensures PadStart(NatToString(n), 2) == ['0', DigitChar(n)]
  {
    assert Zeros(1) == "0";
  }

  /** The first of December 2022 is written "2022-12-01". */
  lemma FormatFirstOfDecember2022()
    ensures Format(Date(2022, 11, 1)) == "2022-12-01"
  {
    var d: CalendarDate := Date(2022, 11, 1);
    Year2022();
    assert PadStart(NatToString(12), 2) == "12";
    PadOneDigit(1);
    assert Format(d) == "2022" + "-" + "12" + "-" + "01";
  }

  /** The sixth of June 2022 is written "2022-06-06". */
  lemma FormatSixthOfJune2022()
    ensures Format(Date(2022, 5, 6)) == "2022-06-06"
  {
    var d: CalendarDate := Date(2022, 5, 6);
    Year2022();
    PadOneDigit(6);
    assert Format(d) == "2022" + "-" + "06" + "-" + "06";
  }
}
