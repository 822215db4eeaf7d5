/**
 * Checking the date of birth typed into the form: `setValues` strips the
 * leading zeros of the day, `validate` tests the day against
 * /^([0-9]|[12]\d|3[0-1])$/ and the year against /^(19|20)\d{2}$/ and
 * collects one message per failing field, day first.
 */
module Validation {
  import opened Text

  predicate IsZero(c: char) { c == '0' }

  /** `day.replace(/^0+/, '')`. */
  function StripLeadingZeros(day: string): (r: string)
    ensures r == [] || r[0] != '0'
    ensures |r| <= |day| && forall i :: 0 <= i < |r| ==> r[i] == day[|day| - |r| + i]
    ensures forall i :: 0 <= i < |day| - |r| ==> day[i] == '0'
  {
    DropWhile(day, IsZero)
  }

  function Zeros(k: nat): (z: string)
    ensures |z| == k && forall i :: 0 <= i < k ==> z[i] == '0'
  {
    seq(k, _ => '0')
  }

  /** Stripping removes exactly the zeros in front of a string that does not itself start with '0'. */
  lemma StripZerosOf(k: nat, t: string)
    requires t == [] || t[0] != '0'
    ensures StripLeadingZeros(Zeros(k) + t) == t
  {
    DropWhileAfter(Zeros(k), t, IsZero);
  }

  /** An input made only of zeros, "" included, leaves an empty day. */
  lemma AllZerosStripToEmpty(day: string)
    ensures StripLeadingZeros(day) == [] <==> forall i :: 0 <= i < |day| ==> day[i] == '0'
  {
  }

  /** /^([0-9]|[12]\d|3[0-1])$/.test(day) */
  predicate DayValid(day: string)
    ensures DayValid(day) ==> 1 <= |day| <= 2 && AllDigits(day)
  {
    (|day| == 1 && IsDigit(day[0]))
    || (|day| == 2 && (day[0] == '1' || day[0] == '2') && IsDigit(day[1]))
    || (|day| == 2 && day[0] == '3' && (day[1] == '0' || day[1] == '1'))
  }

  /** /^(19|20)\d{2}$/.test(year) */
  predicate YearValid(year: string)
    ensures YearValid(year) ==> |year| == 4 && AllDigits(year)
  {
    |year| == 4
    && ((year[0] == '1' && year[1] == '9') || (year[0] == '2' && year[1] == '0'))
    && IsDigit(year[2]) && IsDigit(year[3])
  }

  lemma ParseTwoDigits(s: string)
    requires |s| == 2 && AllDigits(s)
    ensures ParseDecimal(s) == 10 * DigitValue(s[0]) + DigitValue(s[1])
  {
    ParseDecimalSnoc([], s[0]);
    assert [] + [s[0]] == s[..1];
    ParseDecimalSnoc(s[..1], s[1]);
    assert s[..1] + [s[1]] == s;
  }

  lemma ParseFourDigits(s: string)
    requires |s| == 4 && AllDigits(s)
    ensures ParseDecimal(s) == 100 * ParseDecimal(s[..2]) + 10 * DigitValue(s[2]) + DigitValue(s[3])
  {
    ParseDecimalSnoc(s[..2], s[2]);
    assert s[..2] + [s[2]] == s[..3];
    ParseDecimalSnoc(s[..3], s[3]);
    assert s[..3] + [s[3]] == s;
  }

  /** Two-digit decimal forms of 10..99. */
  lemma TwoDigitForm(n: nat)
    requires 10 <= n < 100
    ensures NatToString(n) == [DigitChar(n / 10), DigitChar(n % 10)]
  {
  }

  /** The day pattern accepts exactly the decimal forms of 0..31. */
  lemma DayValidIff(day: string)
    ensures DayValid(day) <==> exists n: nat :: n <= 31 && day == NatToString(n)
  {
    if DayValid(day) {
      var n := ParseDecimal(day);
      CanonicalDecimal(day);
      if |day| == 2 {
        ParseTwoDigits(day);
      } else {
        ParseDecimalSnoc([], day[0]);
        assert [] + [day[0]] == day;
      }
      assert n <= 31 && day == NatToString(n);
    }
    if exists n: nat :: n <= 31 && day == NatToString(n) {
      var n: nat :| n <= 31 && day == NatToString(n);
      if n >= 10 {
        TwoDigitForm(n);
        var q := n / 10;
        assert q == 1 || q == 2 || q == 3;
        assert DigitValue(day[0]) == q;
        assert q == 3 ==> DigitValue(day[1]) <= 1;
      }
    }
  }

  /** The year pattern accepts exactly the decimal forms of 1900..2099. */
  lemma YearValidIff(year: string)
    ensures YearValid(year) <==> exists y: nat :: 1900 <= y <= 2099 && year == NatToString(y)
  {
    if YearValid(year) {
      YearValidForm(year);
    }
    if exists y: nat :: 1900 <= y <= 2099 && year == NatToString(y) {
      var y: nat :| 1900 <= y <= 2099 && year == NatToString(y);
      YearOfForm(y);
    }
  }

  lemma YearValidForm(year: string)
    requires YearValid(year)
    ensures 1900 <= ParseDecimal(year) <= 2099 && year == NatToString(ParseDecimal(year))
  {
    CanonicalDecimal(year);
    ParseFourDigits(year);
    ParseTwoDigits(year[..2]);
  }

  lemma YearOfForm(y: nat)
    requires 1900 <= y <= 2099
    ensures YearValid(NatToString(y))
  {
    var year := NatToString(y);
    var c := y / 100;
    assert c == 19 || c == 20;
    TwoDigitForm(c);
    assert NatToString(y / 10) == NatToString(c) + [DigitChar(y / 10 % 10)];
    assert year == NatToString(c) + [DigitChar(y / 10 % 10)] + [DigitChar(y % 10)];
    assert DigitValue(year[0]) == c / 10 && DigitValue(year[1]) == c % 10;
  }

  /**
   * After stripping, the day is accepted exactly when the typed text is some
   * zeros followed by the decimal form of 1..31: "0" and "00" strip to the
   * empty string and fail.
   */
  lemma StrippedDayAcceptedIff(raw: string)
    ensures DayValid(StripLeadingZeros(raw))
        <==> exists k: nat, n: nat :: 1 <= n <= 31 && raw == Zeros(k) + NatToString(n)
  {
    if DayValid(StripLeadingZeros(raw)) {
      StrippedDayForm(raw);
    }
    if exists k: nat, n: nat :: 1 <= n <= 31 && raw == Zeros(k) + NatToString(n) {
      var k: nat, n: nat :| 1 <= n <= 31 && raw == Zeros(k) + NatToString(n);
      StrippedDayOfForm(k, n);
    }
  }

  lemma StrippedDayOfForm(k: nat, n: nat)
    requires 1 <= n <= 31
    ensures StripLeadingZeros(Zeros(k) + NatToString(n)) == NatToString(n)
    ensures DayValid(NatToString(n))
  {
    StripZerosOf(k, NatToString(n));
    DayValidIff(NatToString(n));
  }

  lemma StrippedDayForm(raw: string)
    requires DayValid(StripLeadingZeros(raw))
    ensures exists k: nat, n: nat :: 1 <= n <= 31 && raw == Zeros(k) + NatToString(n)
  {
    var t := StripLeadingZeros(raw);
    DayValidIff(t);
    var n: nat :| n <= 31 && t == NatToString(n);
    var k := |raw| - |t|;
    assert raw == Zeros(k) + t;
  }

  /** The two configurable validation messages. */
  datatype ErrorMessages = ErrorMessages(invalidDay: string, invalidYear: string)

  /** The list `validate` builds: the day message, then the year message, each only when its field fails. */
  function ErrorsFor(day: string, year: string, msgs: ErrorMessages): (errors: seq<string>)
    ensures |errors| == (if DayValid(day) then 0 else 1) + (if YearValid(year) then 0 else 1)
    ensures errors == [] <==> DayValid(day) && YearValid(year)
    ensures !DayValid(day) ==> errors[0] == msgs.invalidDay
    ensures !YearValid(year) ==> errors[|errors| - 1] == msgs.invalidYear
  {
    (if DayValid(day) then [] else [msgs.invalidDay])
    + (if YearValid(year) then [] else [msgs.invalidYear])
  }

  /**
   * The whole form check: the raw day and year typed in pass exactly when the
   * day is zeros followed by 1..31 and the year is 1900..2099.
   */
  lemma FormAcceptedIff(rawDay: string, year: string, msgs: ErrorMessages)
    ensures ErrorsFor(StripLeadingZeros(rawDay), year, msgs) == []
        <==> (exists k: nat, n: nat :: 1 <= n <= 31 && rawDay == Zeros(k) + NatToString(n))
             && (exists y: nat :: 1900 <= y <= 2099 && year == NatToString(y))
  {
    StrippedDayAcceptedIff(rawDay);
    YearValidIff(year);
  }
}
