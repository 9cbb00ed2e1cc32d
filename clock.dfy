/** The `MM:SS` text the renderer (src/renderer/renderer.js) shows for a timestamp in seconds,
    with JavaScript's `Math.floor`, `%` and `padStart`. */
module Clock {
  import opened Js
  import opened Text

  /** `Math.trunc` */
  function Trunc(r: real): int
  {
    if r >= 0.0 then r.Floor else -((-r).Floor)
  }

  /** JavaScript's `%` on numbers: the remainder takes the sign of the dividend. */
  function JsMod(a: real, b: real): real
    requires b != 0.0
  {
    a - b * Trunc(a / b) as real
  }

  /** `Math.floor(t / 60)` */
  function Minutes(t: real): int
  {
    (t / 60.0).Floor
  }

  /** `Math.floor(t % 60)` */
  function Seconds(t: real): int
  {
    JsMod(t, 60.0).Floor
  }

  /** `${minutes.toString().padStart(2, '0')}:${seconds.toString().padStart(2, '0')}` */
  function FormatTime(t: real): string
  {
    Clock(Minutes(t), Seconds(t))
  }

  /** Minutes and seconds, each written in decimal and padded to two characters with '0'. */
  function Clock(minutes: int, seconds: int): string
  {
    Padded(minutes) + ":" + Padded(seconds)
  }

  /** `n.toString().padStart(2, '0')` */
  function Padded(n: int): string
  {
    PadStart(IntToString(n), 2, '0')
  }

  /** For a timestamp not below zero, the minutes and seconds shown are the whole seconds of
      `t` divided by 60, and what remains. */
  lemma MinutesSeconds(t: real)
    requires t >= 0.0
    ensures Minutes(t) == t.Floor / 60 && Seconds(t) == t.Floor % 60
  {
    var m := Minutes(t);
    var n := t.Floor;
    assert Trunc(t / 60.0) == m;
    var rest := t - 60.0 * m as real;
    assert 0.0 <= rest < 60.0;
    assert JsMod(t, 60.0) == rest;
    assert n == m * 60 + rest.Floor by {
      assert (m as real * 60.0 + rest).Floor == m * 60 + rest.Floor;
    }
  }

  /** The number a clock text `MM:SS` stands for, in seconds: `None` unless it is two runs of
      digits around one ':'. */
  function ClockValue(s: string): Option<int>
  {
    var parts := Split(s, {':'});
    if |parts| != 2 || parts[0] == [] || parts[1] == [] || !AllDigits(parts[0]) || !AllDigits(parts[1]) then None
    else Some(60 * DigitsValue(parts[0]) + DigitsValue(parts[1]))
  }

  /** Leading zeros do not change the number a run of digits stands for. */
  lemma {:induction false} LeadingZeros(zeros: string, digits: string)
    requires forall i :: 0 <= i < |zeros| ==> zeros[i] == '0'
    requires AllDigits(digits)
    ensures AllDigits(zeros + digits) && DigitsValue(zeros + digits) == DigitsValue(digits)
    decreases |digits|
  {
    var s := zeros + digits;
    if digits == [] {
      assert s == zeros;
      AllZeros(zeros);
    } else {
      var front := digits[..|digits| - 1];
      LeadingZeros(zeros, front);
      assert s[..|s| - 1] == zeros + front;
    }
  }

  lemma {:induction false} AllZeros(zeros: string)
    requires forall i :: 0 <= i < |zeros| ==> zeros[i] == '0'
    ensures AllDigits(zeros) && DigitsValue(zeros) == 0
  {
    if zeros != [] {
      AllZeros(zeros[..|zeros| - 1]);
    }
  }

  /** A padded non-negative number: digits only, at least two of them, standing for `n`. */
  lemma PaddedNumber(n: nat)
    ensures |Padded(n)| >= 2 && AllDigits(Padded(n)) && DigitsValue(Padded(n)) == n
    ensures n < 100 ==> |Padded(n)| == 2
  {
    var digits := NatToString(n);
    var zeros := if |digits| >= 2 then "" else seq(2 - |digits|, _ => '0');
    assert Padded(n) == zeros + digits by {
      assert IntToString(n) == digits;
    }
    LeadingZeros(zeros, digits);
    if n < 100 {
      ShortNumber(n);
    }
  }

  /** A number below 100 has at most two digits. */
  lemma ShortNumber(n: nat)
    requires n < 100
    ensures |NatToString(n)| <= 2
  {
    if n >= 10 {
      assert |NatToString(n / 10)| == 1;
    }
  }

  /** A timestamp not below zero is shown as the clock of its whole seconds, and reading the
      text back gives those whole seconds. */
  lemma FormatTimeReadsBack(t: real)
    requires t >= 0.0
    ensures FormatTime(t) == Clock(t.Floor / 60, t.Floor % 60)
    ensures ClockValue(FormatTime(t)) == Some(t.Floor)
  {
    MinutesSeconds(t);
    WholeSecondsReadBack(t.Floor);
  }

  /** The clock of `n` whole seconds reads back as `n`. */
  lemma WholeSecondsReadBack(n: nat)
    ensures ClockValue(Clock(n / 60, n % 60)) == Some(n)
  {
    var minutes, seconds := n / 60, n % 60;
    assert 60 * minutes + seconds == n;
    ClockReadsBack(minutes, seconds);
  }

  /** A clock of whole minutes and fewer than 60 seconds ends in ':' and two digits standing
      for the seconds. */
  lemma ClockShape(minutes: nat, seconds: nat)
    requires seconds < 60
    ensures |Clock(minutes, seconds)| >= 5 && Clock(minutes, seconds)[|Clock(minutes, seconds)| - 3] == ':'
    ensures Padded(seconds) == Clock(minutes, seconds)[|Clock(minutes, seconds)| - 2..]
    ensures AllDigits(Padded(seconds)) && DigitsValue(Padded(seconds)) == seconds
  {
    var mm, ss := Padded(minutes), Padded(seconds);
    assert |mm| >= 2 && |ss| == 2 by {
      PaddedNumber(minutes);
      PaddedNumber(seconds);
    }
    PaddedNumber(seconds);
    var s := Clock(minutes, seconds);
    assert s == mm + [':'] + ss;
    assert s[|s| - 2..] == ss;
  }

  /** A clock of whole minutes and seconds reads back as the seconds it stands for. */
  lemma ClockReadsBack(minutes: nat, seconds: nat)
    ensures ClockValue(Clock(minutes, seconds)) == Some(60 * minutes + seconds)
  {
    PaddedNumber(minutes);
    PaddedNumber(seconds);
    ClockValueOfDigits(Padded(minutes), Padded(seconds), minutes, seconds);
  }

  /** Two runs of digits around a ':' read back as minutes and seconds. */
  lemma ClockValueOfDigits(mm: string, ss: string, minutes: nat, seconds: nat)
    requires mm != [] && ss != [] && AllDigits(mm) && AllDigits(ss)
    requires DigitsValue(mm) == minutes && DigitsValue(ss) == seconds
    ensures ClockValue(mm + ":" + ss) == Some(60 * minutes + seconds)
  {
    assert Excludes(mm, {':'}) && Excludes(ss, {':'});
    SplitAfterPiece(mm, ':', ss);
    assert Split(ss, {':'}) == [ss];
  }
}
