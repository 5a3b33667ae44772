/**
  The pure helpers of the Pomodoro screen: the mm:ss clock text, the
  length-input filters, the progress denominator and the accuracy figure.
 */
module TimerView {
  import opened Types
  import opened Text

  /** `mins.padStart(2,'0') + ":" + secs.padStart(2,'0')` for a non-negative
      count. Below 100 minutes the clock is exactly `MM:SS`: two minute
      digits, a colon, two second digits. */
  function FormatTime(seconds: nat): (text: string)
    ensures |text| >= 5
    ensures text[|text| - 3] == ':'
    ensures seconds < 6000 ==> text == [
      DigitChar(seconds / 60 / 10), DigitChar(seconds / 60 % 10), ':',
      DigitChar(seconds % 60 / 10), DigitChar(seconds % 60 % 10)]
  {
    assert seconds < 6000 ==> Pad2(NatToString(seconds / 60)) + ":" + Pad2(NatToString(seconds % 60)) == [
      DigitChar(seconds / 60 / 10), DigitChar(seconds / 60 % 10), ':',
      DigitChar(seconds % 60 / 10), DigitChar(seconds % 60 % 10)] by {
      if seconds < 6000 { ClockDigits(seconds); }
    }
    Pad2(NatToString(seconds / 60)) + ":" + Pad2(NatToString(seconds % 60))
  }

  /** The padded minute and second fields below 100 minutes, digit by digit. */
  lemma ClockDigits(seconds: nat)
    requires seconds < 6000
    ensures Pad2(NatToString(seconds / 60)) + ":" + Pad2(NatToString(seconds % 60)) == [
      DigitChar(seconds / 60 / 10), DigitChar(seconds / 60 % 10), ':',
      DigitChar(seconds % 60 / 10), DigitChar(seconds % 60 % 10)]
  {
    var mins, secs := seconds / 60, seconds % 60;
    assert mins < 100;
    Pad2TwoDigits(mins);
    Pad2TwoDigits(secs);
  }

  /** Below 100 minutes, different second counts show different clocks. */
  lemma FormatTimeInjective(a: nat, b: nat)
    requires a < 6000 && b < 6000
    ensures FormatTime(a) == FormatTime(b) ==> a == b
  {
    var fa, fb := FormatTime(a), FormatTime(b);
    if fa == fb {
      assert fa[0] == fb[0] && fa[1] == fb[1] && fa[3] == fb[3] && fa[4] == fb[4];
      assert a / 60 == 10 * (a / 60 / 10) + a / 60 % 10;
      assert b / 60 == 10 * (b / 60 / 10) + b / 60 % 10;
      assert a % 60 == 10 * (a % 60 / 10) + a % 60 % 10;
      assert b % 60 == 10 * (b % 60 / 10) + b % 60 % 10;
    }
  }

  /** The value of the clock text `MM:SS`, the partner of `FormatTime`. */
  function ClockSeconds(text: string): int
    requires |text| == 5
    requires IsDigit(text[0]) && IsDigit(text[1]) && IsDigit(text[3]) && IsDigit(text[4])
  {
    var d := (i: int) requires 0 <= i < |text| => text[i] as int - '0' as int;
    60 * (10 * d(0) + d(1)) + 10 * d(3) + d(4)
  }

  /** Reading the clock back gives the second count it was made from. */
  lemma FormatTimeRoundTrip(seconds: nat)
    requires seconds < 6000
    ensures |FormatTime(seconds)| == 5
    ensures ClockSeconds(FormatTime(seconds)) == seconds
  {
  }

  /** The length inputs' change filter: empty text is forwarded as blank,
      otherwise only a parsed whole number >= 1 is forwarded (`None`: the
      keystroke is ignored). `parsed` is `parseInt(text, 10)`, `None` for NaN. */
  function FilterLength(text: string, parsed: Option<int>): (forwarded: Option<Length>)
    ensures forwarded == Some(Blank) <==> text == ""
    ensures forwarded.Some? && text != "" ==> parsed.Some? && forwarded == Some(Minutes(parsed.value))
    ensures text != "" && parsed.Some? && parsed.value >= 1 ==> forwarded.Some?
    ensures forwarded.Some? ==> ValidLength(forwarded.value)
  {
    if text == "" then Some(Blank)
    else match parsed
      case Some(v) => if v >= 1 then Some(Minutes(v)) else None
      case None => None
  }

  /** `timerMax`: the full length of the current phase, in seconds. */
  function TimerMax(isBreak: bool, studyTime: Length, breakTime: Length): (m: int)
    requires ValidLength(studyTime) && ValidLength(breakTime)
    ensures m >= 60
    ensures m % 60 == 0
    ensures isBreak && breakTime.Minutes? ==> m == 60 * breakTime.n
    ensures !isBreak && studyTime.Minutes? ==> m == 60 * studyTime.n
    ensures (isBreak && breakTime.Blank?) || (!isBreak && studyTime.Blank?) ==> m == 60
  {
    (if isBreak then LengthOr(breakTime, 1) else LengthOr(studyTime, 1)) * 60
  }

  /** The accuracy percentage, `Math.round(correct / questions * 100)`, in
      exact arithmetic: `Math.round(x)` is `floor(x + 1/2)`. */
  function Accuracy(questionsResolved: int, correctQuestions: int): (pct: int)
    ensures questionsResolved <= 0 ==> pct == 0
    ensures questionsResolved > 0 ==>
      2 * questionsResolved * pct - questionsResolved <= 200 * correctQuestions
      < 2 * questionsResolved * pct + questionsResolved
    ensures 0 <= correctQuestions <= questionsResolved ==> 0 <= pct <= 100
  {
    if questionsResolved > 0 then
      var pct := (200 * correctQuestions + questionsResolved) / (2 * questionsResolved);
      AccuracyBounds(questionsResolved, correctQuestions, pct);
      pct
    else 0
  }

  lemma AccuracyBounds(q: int, c: int, pct: int)
    requires q > 0
    requires pct == (200 * c + q) / (2 * q)
    ensures 2 * q * pct - q <= 200 * c < 2 * q * pct + q
    ensures 0 <= c <= q ==> 0 <= pct <= 100
  {
    var n := 200 * c + q;
    assert 2 * q * pct <= n < 2 * q * pct + 2 * q;
    if 0 <= c <= q {
      assert q * (2 * pct) <= q * 201;
      assert 0 <= q * (2 * pct + 1);
    }
  }
}
