/**
 * The arithmetic of `updateDisplay` (MM:SS of the seconds left) and
 * `updateStudyTimeDisplay` (hours and minutes of the study total).
 * `Math.floor(a / b)` for a positive `b` is Dafny's `/`; JavaScript's `%`
 * truncates toward zero, so it is written out as `JsRem`.
 */
module Display {
  import opened Numbers

  /** JavaScript's `Math.trunc(a / b)` for a positive `b`: the quotient rounded toward zero. */
  function TruncDiv(a: int, b: int): int
    requires b > 0
  {
    if a >= 0 then a / b else -((-a) / b)
  }

  /** JavaScript's `a % b` for a positive `b`: the result takes the sign of `a`. */
  function JsRem(a: int, b: int): (r: int)
    requires b > 0
    ensures a == TruncDiv(a, b) * b + r
    ensures -b < r < b
    ensures a >= 0 ==> r >= 0
    ensures a <= 0 ==> r <= 0
  {
    if a >= 0 then a % b else -((-a) % b)
  }

  /** The minutes and seconds `updateDisplay(seconds)` shows. */
  function ClockParts(seconds: int): (r: (int, int))
    ensures r.0 * 60 <= seconds < r.0 * 60 + 60
    ensures seconds >= 0 ==> r.0 >= 0 && 0 <= r.1 < 60 && r.0 * 60 + r.1 == seconds
  {
    (seconds / 60, JsRem(seconds, 60))
  }

  /** The hours and minutes `updateStudyTimeDisplay` shows for a total of `total` seconds. */
  function StudyParts(total: int): (r: (int, int))
    ensures total >= 0 ==> r.0 >= 0 && 0 <= r.1 < 60
    ensures total >= 0 ==> r.0 * 3600 + r.1 * 60 <= total < r.0 * 3600 + r.1 * 60 + 60
  {
    (total / 3600, JsRem(total, 3600) / 60)
  }

  /** `s.padStart(2, '0')`. */
  function PadStart2(s: string): (r: string)
    ensures |r| == if |s| < 2 then 2 else |s|
    ensures r[|r| - |s|..] == s
    ensures forall i :: 0 <= i < |r| - |s| ==> r[i] == '0'
  {
    if |s| == 0 then "00" + s else if |s| == 1 then "0" + s else s
  }

  /**
   * The text `updateDisplay(seconds)` writes: for a time that is not
   * negative, a minutes field, the only `:`, and the two digits of the seconds.
   */
  function ClockText(seconds: int): (r: string)
    ensures seconds >= 0 ==>
      |r| >= 5 && r[|r| - 3] == ':' && ':' !in r[..|r| - 3] &&
      r[|r| - 2..] == [DigitChar(seconds % 60 / 10), DigitChar(seconds % 60 % 10)]
    ensures 0 <= seconds < 6000 ==> |r| == 5
  {
    var parts := ClockParts(seconds);
    var r := PadStart2(IntToString(parts.0)) + ":" + PadStart2(IntToString(parts.1));
    if seconds >= 0 then
      assert parts == (seconds / 60, seconds % 60);
      ClockFields(parts.0, parts.1);
      r
    else
      r
  }

  /** The clock layout of `m` minutes and `sec` seconds: the minutes, the only `:`, and two digits. */
  lemma ClockFields(m: nat, sec: nat)
    requires sec < 60
    ensures var r := PadStart2(IntToString(m)) + ":" + PadStart2(IntToString(sec));
      |r| >= 5 && r[|r| - 3] == ':' && ':' !in r[..|r| - 3] &&
      r[|r| - 2..] == [DigitChar(sec / 10), DigitChar(sec % 10)] &&
      (m < 100 ==> |r| == 5)
  {
    var minutes := PadStart2(IntToString(m));
    var secs := PadStart2(IntToString(sec));
    NoColon(IntToString(m));
    TwoDigits(sec);
    if m < 100 {
      TwoDigits(m);
    }
    Fields(minutes, secs);
  }

  /** Where the fields of `a:b` sit when `b` has two characters. */
  lemma Fields(a: string, b: string)
    ensures var r := a + ":" + b; |b| == 2 ==> r[|r| - 3] == ':' && r[..|r| - 3] == a && r[|r| - 2..] == b
  {
    var r := a + ":" + b;
    if |b| == 2 {
      assert r[..|a|] == a;
    }
  }

  /**
   * The text `updateStudyTimeDisplay` writes for a total of `total` seconds:
   * the label, and, for a total that is not negative, a text ending in the
   * two digits of the minutes past the hour between "時間" and "分".
   */
  function StudyText(total: int): (r: string)
    ensures "累計勉強時間: " <= r
    ensures total >= 0 ==> var m := total % 3600 / 60;
      |r| >= 5 && r[|r| - 5..] == "時間" + [DigitChar(m / 10), DigitChar(m % 10)] + "分"
  {
    var parts := StudyParts(total);
    var hours := PadStart2(IntToString(parts.0));
    var head := "累計勉強時間: " + hours;
    var tail := "時間" + PadStart2(IntToString(parts.1)) + "分";
    var r := head + tail;
    assert r[..|"累計勉強時間: "|] == "累計勉強時間: ";
    assert total >= 0 ==> |tail| == 5 && r[|r| - 5..] == tail == "時間" + [DigitChar(parts.1 / 10), DigitChar(parts.1 % 10)] + "分" by {
      if total >= 0 {
        TwoDigits(parts.1);
        assert r[|head|..] == tail;
      }
    }
    r
  }

  /** A padded non-negative number is all digits and still denotes that number. */
  lemma PaddedDigits(n: nat)
    ensures AllDigits(PadStart2(IntToString(n))) && DigitsValue(PadStart2(IntToString(n))) == n
  {
    var d := IntToString(n);
    var p := PadStart2(d);
    var z := p[..|p| - |d|];
    assert p == z + d;
    assert d == NatToString(n);
    DigitsOfNat(n);
    LeadingZeros(z, d);
  }

  /** A padded number holds no `:`. */
  lemma NoColon(s: string)
    requires forall i :: 0 <= i < |s| ==> IsDigit(s[i]) || s[i] == '-'
    ensures ':' !in PadStart2(s)
  {
    var r := PadStart2(s);
    forall i | 0 <= i < |r|
      ensures r[i] != ':'
    {
      if i >= |r| - |s| {
        assert r[i] == r[|r| - |s|..][i - (|r| - |s|)];
      }
    }
  }

  /** Two-digit numbers are padded to exactly their tens and units digits. */
  lemma TwoDigits(n: nat)
    requires n < 100
    ensures PadStart2(IntToString(n)) == [DigitChar(n / 10), DigitChar(n % 10)]
  {
    if n >= 10 {
      assert NatToString(n) == NatToString(n / 10) + [DigitChar(n % 10)];
    }
  }

  /** For a time that is not negative, the clock text is the padded minutes, `:`, and the padded seconds. */
  lemma ClockTextShape(seconds: int)
    requires seconds >= 0
    ensures ClockText(seconds) == PadStart2(IntToString(seconds / 60)) + ":" + PadStart2(IntToString(seconds % 60))
  {
    assert ClockParts(seconds) == (seconds / 60, seconds % 60);
  }

  /** For a total that is not negative, the study text is the label, the padded hours, "時間", the padded minutes and "分". */
  lemma StudyTextShape(total: int)
    requires total >= 0
    ensures StudyText(total) ==
      "累計勉強時間: " + PadStart2(IntToString(total / 3600)) + "時間" + PadStart2(IntToString(total % 3600 / 60)) + "分"
  {
    assert StudyParts(total) == (total / 3600, total % 3600 / 60);
  }

  /** The text before the last three characters of `r` is all digits and denotes `n`. */
  predicate MinutesField(r: string, n: nat) {
    |r| >= 3 && AllDigits(r[..|r| - 3]) && DigitsValue(r[..|r| - 3]) == n
  }

  /** The text between the first eight and the last five characters of `r` is all digits and denotes `n`. */
  predicate HoursField(r: string, n: nat) {
    |r| >= 13 && AllDigits(r[8..|r| - 5]) && DigitsValue(r[8..|r| - 5]) == n
  }

  /** At any length of time, however many digits it takes, the field before the `:` denotes the whole minutes. */
  lemma ClockTextMinutes(seconds: int)
    requires seconds >= 0
    ensures MinutesField(ClockText(seconds), seconds / 60)
  {
    var t := ":" + PadStart2(IntToString(seconds % 60));
    assert ClockText(seconds) == PadStart2(IntToString(seconds / 60)) + t by {
      ClockTextShape(seconds);
    }
    assert |t| == 3 by {
      TwoDigits(seconds % 60);
    }
    LeadingField(seconds / 60, t);
  }

  /** At any total, however many digits it takes, the field between the label and "時間" denotes the whole hours. */
  lemma StudyTextHours(total: int)
    requires total >= 0
    ensures HoursField(StudyText(total), total / 3600)
  {
    var tail := "時間" + PadStart2(IntToString(total % 3600 / 60)) + "分";
    assert StudyText(total) == "累計勉強時間: " + PadStart2(IntToString(total / 3600)) + tail by {
      StudyTextShape(total);
    }
    assert |tail| == 5 by {
      TwoDigits(total % 3600 / 60);
    }
    InnerField("累計勉強時間: ", total / 3600, tail);
  }

  /** The padded number at the front of `field + t` denotes `n`, whatever `t` is. */
  lemma LeadingField(n: nat, t: string)
    ensures var r := PadStart2(IntToString(n)) + t;
      |r| >= |t| && AllDigits(r[..|r| - |t|]) && DigitsValue(r[..|r| - |t|]) == n
  {
    var f := PadStart2(IntToString(n));
    assert (f + t)[..|f + t| - |t|] == f;
    PaddedDigits(n);
  }

  /** The padded number between `h` and `t` denotes `n`. */
  lemma InnerField(h: string, n: nat, t: string)
    requires |h| == 8 && |t| == 5
    ensures var r := h + PadStart2(IntToString(n)) + t;
      |r| >= 13 && AllDigits(r[8..|r| - 5]) && DigitsValue(r[8..|r| - 5]) == n
  {
    var f := PadStart2(IntToString(n));
    assert (h + f + t)[8..|h + f + t| - 5] == f;
    PaddedDigits(n);
  }

  /** Below 100 minutes the clock reads "MM:SS", with each field's two digits. */
  lemma ClockTextDigits(seconds: int)
    requires 0 <= seconds < 6000
    ensures var m, s := seconds / 60, seconds % 60;
      ClockText(seconds) == [DigitChar(m / 10), DigitChar(m % 10), ':', DigitChar(s / 10), DigitChar(s % 10)]
  {
    ClockTextShape(seconds);
    TwoDigits(seconds / 60);
    TwoDigits(seconds % 60);
  }

  /** Below 100 hours the study total reads "累計勉強時間: HH時間MM分", each field two digits. */
  lemma StudyTextDigits(total: int)
    requires 0 <= total < 360000
    ensures var h, m := total / 3600, (total % 3600) / 60;
      StudyText(total) == "累計勉強時間: " + [DigitChar(h / 10), DigitChar(h % 10)] + "時間" + [DigitChar(m / 10), DigitChar(m % 10)] + "分"
  {
    StudyTextShape(total);
    TwoDigits(total / 3600);
    TwoDigits(total % 3600 / 60);
  }
}
