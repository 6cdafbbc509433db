/** Time of day in whole minutes after midnight: parsing of the 4-digit
    military time code and the midnight-wrapping difference of two times
    (funcoes_auxiliares.py). A Python `timedelta` of hours and minutes is
    modelled as its number of minutes. */
module TimeOfDay {
  import opened Common

  const MinutesPerDay: int := 1440

  /** The largest value the unchecked parser can produce: "9999". */
  const MaxParsedMinutes: int := 99 * 60 + 99

  predicate IsDigit(c: char) {
    '0' <= c <= '9'
  }

  predicate AllDigits(s: string) {
    forall i :: 0 <= i < |s| ==> IsDigit(s[i])
  }

  function DigitValue(c: char): (d: nat)
    requires IsDigit(c)
    ensures d < 10
  {
    c as int - '0' as int
  }

  function DigitChar(d: nat): (c: char)
    requires d < 10
    ensures IsDigit(c) && DigitValue(c) == d
  {
    ('0' as int + d) as char
  }

  function Pow10(n: nat): (p: nat)
    ensures p >= 1
  {
    if n == 0 then 1 else 10 * Pow10(n - 1)
  }

  lemma {:induction false} Pow10Monotone(m: nat, n: nat)
    requires m <= n
    ensures Pow10(m) <= Pow10(n)
    decreases n
  {
    if m < n {
      Pow10Monotone(m, n - 1);
    }
  }

  lemma DivModHundred(v: int, q: int, m: int)
    requires v == q * 100 + m && 0 <= m < 100
    ensures v / 100 == q && v % 100 == m
  {
  }

  /** A four-digit string denotes its first two digits times 100 plus its last two. */
  lemma {:induction false} SplitFourDigits(p: string)
    requires |p| == 4 && AllDigits(p)
    ensures DecValue(p) / 100 == DecValue(p[..2])
    ensures DecValue(p) % 100 == DecValue(p[2..])
  {
    assert p == p[..2] + p[2..];
    DecValueAppend(p[..2], p[2..]);
    assert Pow10(2) == 100;
    DivModHundred(DecValue(p), DecValue(p[..2]), DecValue(p[2..]));
  }

  /** The number a string of decimal digits denotes (leading zeros allowed,
      as Python's `int` allows them). */
  function DecValue(s: string): (v: nat)
    requires AllDigits(s)
    ensures v < Pow10(|s|)
  {
    if |s| == 0 then 0 else DecValue(s[..|s| - 1]) * 10 + DigitValue(s[|s| - 1])
  }

  lemma AllDigitsConcat(a: string, b: string)
    requires AllDigits(a) && AllDigits(b)
    ensures AllDigits(a + b)
  {
    forall i | 0 <= i < |a + b| ensures IsDigit((a + b)[i]) {
      if i >= |a| { assert (a + b)[i] == b[i - |a|]; }
    }
  }

  lemma MulTen(x: int, p: int)
    ensures (x * p) * 10 == x * (p * 10)
  {
  }

  lemma {:induction false} DecValueAppend(a: string, b: string)
    requires AllDigits(a) && AllDigits(b)
    ensures AllDigits(a + b)
    ensures DecValue(a + b) == DecValue(a) * Pow10(|b|) + DecValue(b)
    decreases |b|
  {
    AllDigitsConcat(a, b);
    if |b| > 0 {
      var b' := b[..|b| - 1];
      var ab := a + b;
      var d := DigitValue(b[|b| - 1]);
      assert ab[..|ab| - 1] == a + b';
      assert ab[|ab| - 1] == b[|b| - 1];
      DecValueAppend(a, b');
      var x, y, p := DecValue(a), DecValue(b'), Pow10(|b'|);
      assert DecValue(ab) == DecValue(a + b') * 10 + d;
      assert DecValue(b) == y * 10 + d;
      assert Pow10(|b|) == p * 10;
      MulTen(x, p);
    } else {
      assert a + b == a;
    }
  }

  function Zeros(n: nat): (z: string)
    ensures |z| == n && AllDigits(z)
    ensures forall i :: 0 <= i < n ==> z[i] == '0'
  {
    if n == 0 then "" else "0" + Zeros(n - 1)
  }

  lemma {:induction false} DecValueZeros(n: nat)
    ensures DecValue(Zeros(n)) == 0
  {
    if n > 0 {
      assert Zeros(n)[..n - 1] == Zeros(n - 1);
      DecValueZeros(n - 1);
    }
  }

  /** Leading zeros change neither digit-ness nor the denoted number. */
  lemma ZeroPadded(n: nat, s: string)
    ensures AllDigits(Zeros(n) + s) <==> AllDigits(s)
    ensures AllDigits(s) ==> DecValue(Zeros(n) + s) == DecValue(s)
  {
    var r := Zeros(n) + s;
    if AllDigits(r) {
      forall i | 0 <= i < |s| ensures IsDigit(s[i]) {
        assert s[i] == r[n + i];
      }
    }
    if AllDigits(s) {
      DecValueAppend(Zeros(n), s);
      DecValueZeros(n);
    }
  }

  /** Python's `str.zfill(width)`: left-pads with zeros to `width`, keeping a
      leading sign in front of the zeros. Padding never changes whether the
      string is all digits, nor the number it denotes. */
  function ZFill(s: string, width: nat): (r: string)
    ensures |r| == if |s| >= width then |s| else width
    ensures AllDigits(r) <==> AllDigits(s)
    ensures AllDigits(s) ==> DecValue(r) == DecValue(s)
    ensures |s| >= width ==> r == s
    ensures |s| < width && |s| > 0 && (s[0] == '+' || s[0] == '-') ==>
              r == [s[0]] + Zeros(width - |s|) + s[1..]
    ensures |s| < width && !(|s| > 0 && (s[0] == '+' || s[0] == '-')) ==>
              r == Zeros(width - |s|) + s
  {
    if |s| >= width then s
    else if |s| > 0 && (s[0] == '+' || s[0] == '-') then
      var r := [s[0]] + Zeros(width - |s|) + s[1..];
      assert !IsDigit(r[0]);
      assert !IsDigit(s[0]);
      r
    else
      ZeroPadded(width - |s|, s);
      Zeros(width - |s|) + s
  }

  /** Parses the textual form of a military time code: zero-pad to four
      characters, refuse anything that is not exactly four digits, and read
      hours from the first two digits and minutes from the last two. There is
      no range check on either field. */
  function MilitaryToMinutes(code: string): (r: Option<int>)
    ensures r.Some? <==> |code| <= 4 && AllDigits(code)
    ensures |code| <= 4 && AllDigits(code) ==>
              r == Some(60 * (DecValue(code) / 100) + DecValue(code) % 100)
    ensures r.Some? ==> 0 <= r.value <= MaxParsedMinutes
  {
    var padded := ZFill(code, 4);
    if !AllDigits(padded) || |padded| != 4 then None
    else
      var hours := DecValue(padded[..2]);
      var minutes := DecValue(padded[2..]);
      SplitFourDigits(padded);
      Some(60 * hours + minutes)
  }

  /** Python's `str` of a non-negative integer: decimal, no leading zeros. */
  function NatToString(n: nat): (s: string)
    ensures |s| >= 1 && AllDigits(s)
    ensures DecValue(s) == n
    ensures Pow10(|s| - 1) <= n || n == 0
    ensures n == 0 ==> s == "0"
    ensures n > 0 ==> s[0] != '0'
  {
    if n < 10 then [DigitChar(n)]
    else
      var p := NatToString(n / 10);
      var s := p + [DigitChar(n % 10)];
      assert s[0] == p[0];
      DecValueAppend(p, [DigitChar(n % 10)]);
      assert DecValue([DigitChar(n % 10)]) == n % 10 by {
        assert [DigitChar(n % 10)][..0] == "";
      }
      s
  }

  /** Python's `str` of an integer. */
  function IntToString(n: int): string {
    if n < 0 then "-" + NatToString(-n) else NatToString(n)
  }

  /** The parser applied to an integer code, the form the time column has:
      it yields a time exactly for the codes 0..9999, with hours `code / 100`
      and minutes `code % 100`. */
  function MilitaryFromCode(code: int): (r: Option<int>)
    ensures r.Some? <==> 0 <= code < 10000
    ensures r.Some? ==> r.value == 60 * (code / 100) + code % 100
  {
    var s := IntToString(code);
    if code < 0 then
      assert !IsDigit(s[0]);
      MilitaryToMinutes(s)
    else
      assert |s| <= 4 <==> code < 10000 by {
        if |s| <= 4 {
          Pow10Monotone(|s|, 4);
        } else {
          Pow10Monotone(4, |s| - 1);
        }
      }
      MilitaryToMinutes(s)
  }

  /** The parser with the range check the source leaves out: hours 00..23
      and minutes 00..59, so every result is a time of day. */
  function MilitaryToMinutesChecked(code: string): (r: Option<int>)
    ensures r.Some? ==> 0 <= r.value < MinutesPerDay
    ensures r.Some? <==> |code| <= 4 && AllDigits(code)
                         && DecValue(code) / 100 < 24 && DecValue(code) % 100 < 60
    ensures r.Some? ==> r == MilitaryToMinutes(code)
  {
    var parsed := MilitaryToMinutes(code);
    if parsed.None? then None
    else
      var hours := DecValue(code) / 100;
      var minutes := DecValue(code) % 100;
      if hours > 23 || minutes > 59 then None else parsed
  }

  /** The smaller of the direct difference and the difference through
      midnight (one day minus the direct difference). */
  function TimeDifference(a: int, b: int): (d: int)
    ensures d <= Abs(a - b) && d <= MinutesPerDay - Abs(a - b)
    ensures d == Abs(a - b) || d == MinutesPerDay - Abs(a - b)
  {
    var direct := Abs(a - b);
    var viaMidnight := MinutesPerDay - direct;
    if viaMidnight < direct then viaMidnight else direct
  }

  /** Independent reference: the distance between two points on a clock face
      of one day, from the difference taken modulo a day. */
  function ClockDistance(a: int, b: int): (d: int)
    ensures 0 <= d <= MinutesPerDay / 2
  {
    var forward := (a - b) % MinutesPerDay;
    if forward <= MinutesPerDay - forward then forward else MinutesPerDay - forward
  }

  predicate InDay(t: int) {
    0 <= t < MinutesPerDay
  }

  lemma TimeDifferenceSymmetric(a: int, b: int)
    ensures TimeDifference(a, b) == TimeDifference(b, a)
  {
  }

  lemma TimeDifferenceSelf(a: int)
    ensures TimeDifference(a, a) == 0
  {
  }

  /** For two times of day the difference is the clock-face distance, so it
      lies between 0 and half a day. */
  lemma TimeDifferenceIsClockDistance(a: int, b: int)
    requires InDay(a) && InDay(b)
    ensures TimeDifference(a, b) == ClockDistance(a, b)
    ensures 0 <= TimeDifference(a, b) <= MinutesPerDay / 2
  {
    if a >= b {
      assert (a - b) % MinutesPerDay == a - b;
    } else {
      assert (a - b) % MinutesPerDay == a - b + MinutesPerDay;
    }
  }

  /** The source's worked example: 19:00 and 04:00 are nine hours apart
      through midnight, not fifteen. */
  lemma NineHoursThroughMidnight()
    ensures MilitaryFromCode(1900) == Some(19 * 60)
    ensures MilitaryFromCode(400) == Some(4 * 60)
    ensures TimeDifference(19 * 60, 4 * 60) == 9 * 60
  {
    assert 1900 / 100 == 19 && 1900 % 100 == 0;
    assert 400 / 100 == 4 && 400 % 100 == 0;
    assert Abs(19 * 60 - 4 * 60) == 900;
  }

  /** Without a range check "2500" parses to 25 hours, and its difference
      from midnight comes out negative. */
  lemma UncheckedHourGivesNegativeDifference()
    ensures MilitaryToMinutes("2500") == Some(1500)
    ensures TimeDifference(1500, 0) == -60
    ensures MilitaryToMinutesChecked("2500") == None
  {
    assert AllDigits("2500");
    assert DecValue("2500") == 2500 by {
      assert "2500"[..3] == "250";
      assert "250"[..2] == "25";
      assert "25"[..1] == "2";
      assert "2"[..0] == "";
    }
  }

  /** Any two times the checked parser accepts are at most half a day apart. */
  lemma CheckedTimesDifferenceBounded(c1: string, c2: string)
    requires MilitaryToMinutesChecked(c1).Some? && MilitaryToMinutesChecked(c2).Some?
    ensures 0 <= TimeDifference(MilitaryToMinutesChecked(c1).value, MilitaryToMinutesChecked(c2).value)
                 <= MinutesPerDay / 2
  {
    TimeDifferenceIsClockDistance(MilitaryToMinutesChecked(c1).value, MilitaryToMinutesChecked(c2).value);
  }
}
