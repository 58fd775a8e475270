/** `Format::ElapsedTime`: a count of seconds shown as HH:MM:SS. */
module Format {
  import opened Wrappers
  import opened Decimal
  import opened Text

  /** A one-character field gets a leading zero; longer fields are kept whole. */
  function PadTwo(s: string): string {
    if |s| == 1 then "0" + s else s
  }

  /** The three fields use C++'s truncating `/` and `%` and `std::to_string`, so a negative
      count gives fields with a minus sign. */
  function ElapsedTime(seconds: int): string {
    var hr := PadTwo(IntToString(Quot(seconds, 3600)));
    var min := PadTwo(IntToString(Quot(Rem(seconds, 3600), 60)));
    var sec := PadTwo(IntToString(Rem(seconds, 60)));
    hr + ":" + min + ":" + sec
  }

  /** Reading HH:MM:SS back: exactly three digit fields, weighted by 3600, 60 and 1. */
  function ParseElapsed(s: string): Option<int> {
    ParseFields(Split(s, ':'))
  }

  function ParseFields(f: seq<string>): Option<int> {
    if |f| == 3 && IsNumeral(f[0]) && IsNumeral(f[1]) && IsNumeral(f[2])
    then Some(Value(f[0]) * 3600 + Value(f[1]) * 60 + Value(f[2]))
    else None
  }

  /** A padded field is a numeral of at least two digits with the same value, and the padding
      never cuts digits off. */
  lemma PaddedField(n: nat)
    ensures IsNumeral(PadTwo(NatToString(n)))
    ensures Value(PadTwo(NatToString(n))) == n
    ensures |PadTwo(NatToString(n))| == if n < 10 then 2 else |NatToString(n)|
    ensures ':' !in PadTwo(NatToString(n))
  {
    var s := NatToString(n);
    NatToStringWidth(n);
    if |s| == 1 {
      ValueZeroPad(s);
    }
    var p := PadTwo(s);
    assert forall i :: 0 <= i < |p| ==> IsDigit(p[i]);
  }

  /** The field `PadTwo(std::to_string(n))` for a non-negative `n`. */
  function Field(n: nat): string {
    PadTwo(NatToString(n))
  }

  /** For a non-negative count the truncating operators agree with Dafny's, so the text is
      three padded fields of natural numbers. */
  lemma ElapsedTimeOfNat(seconds: int)
    requires seconds >= 0
    ensures ElapsedTime(seconds)
      == Field(seconds / 3600) + ":" + Field((seconds % 3600) / 60) + ":" + Field(seconds % 60)
  {
    assert Quot(seconds, 3600) == seconds / 3600;
    assert Rem(seconds, 3600) == seconds % 3600;
    assert Quot(seconds % 3600, 60) == (seconds % 3600) / 60;
    assert Rem(seconds, 60) == seconds % 60;
  }

  /** Three colon-free fields joined by colons split back into the same three fields. */
  lemma SplitThree(a: string, b: string, c: string)
    requires ':' !in a && ':' !in b && ':' !in c
    ensures Split(a + ":" + b + ":" + c, ':') == [a, b, c]
  {
    var bc := b + ":" + c;
    assert Split(bc, ':') == [b, c] by {
      SplitWhole(c, ':');
      SplitField(b, ':', c);
      assert b + [':'] + c == bc;
    }
    assert a + ":" + b + ":" + c == a + [':'] + bc;
    SplitField(a, ':', bc);
  }

  /** The hours, minutes and seconds recombine to the count, minutes and seconds below 60. */
  lemma ClockParts(seconds: nat)
    ensures (seconds / 3600) * 3600 + ((seconds % 3600) / 60) * 60 + seconds % 60 == seconds
    ensures (seconds % 3600) / 60 < 60 && seconds % 60 < 60
  {
    var h, r := seconds / 3600, seconds % 3600;
    assert seconds == h * 3600 + r;
    var m, s := r / 60, r % 60;
    assert r == m * 60 + s;
    assert seconds % 60 == s by {
      assert seconds == (h * 60 + m) * 60 + s;
    }
  }

  /** For a non-negative count, the three colon-separated fields are the hours (at least two
      digits, never truncated), the minutes and the seconds (exactly two digits each). */
  lemma ElapsedTimeFields(seconds: int)
    requires seconds >= 0
    ensures var f := Split(ElapsedTime(seconds), ':');
      && |f| == 3
      && IsNumeral(f[0]) && IsNumeral(f[1]) && IsNumeral(f[2])
      && Value(f[0]) == seconds / 3600
      && Value(f[1]) == (seconds % 3600) / 60
      && Value(f[2]) == seconds % 60
      && |f[0]| == (if seconds / 3600 < 10 then 2 else |NatToString(seconds / 3600)|)
      && |f[1]| == 2 && |f[2]| == 2
  {
    var h, m, sec := seconds / 3600, (seconds % 3600) / 60, seconds % 60;
    ElapsedTimeSplit(seconds);
    ClockParts(seconds);
    PaddedField(h);
    PaddedField(m);
    PaddedField(sec);
    NatToStringWidth(m);
    NatToStringWidth(sec);
  }

  /** The text splits at its two colons into the three padded fields. */
  lemma ElapsedTimeSplit(seconds: int)
    requires seconds >= 0
    ensures Split(ElapsedTime(seconds), ':')
         == [Field(seconds / 3600), Field((seconds % 3600) / 60), Field(seconds % 60)]
  {
    var h, m, sec := seconds / 3600, (seconds % 3600) / 60, seconds % 60;
    ElapsedTimeOfNat(seconds);
    PaddedField(h);
    PaddedField(m);
    PaddedField(sec);
    SplitThree(Field(h), Field(m), Field(sec));
  }

  /** Reading the fields back gives the count: hours * 3600 + minutes * 60 + seconds. */
  lemma ElapsedTimeRoundTrip(seconds: int)
    requires seconds >= 0
    ensures ParseElapsed(ElapsedTime(seconds)) == Some(seconds)
  {
    ElapsedTimeOfNat(seconds);
    FieldsRoundTrip(seconds);
  }

  /** The three padded fields of a count read back as the count. */
  lemma FieldsRoundTrip(seconds: nat)
    ensures ParseElapsed(Field(seconds / 3600) + ":" + Field((seconds % 3600) / 60) + ":" + Field(seconds % 60))
         == Some(seconds)
  {
    var h, m, sec := seconds / 3600, (seconds % 3600) / 60, seconds % 60;
    PaddedField(h);
    PaddedField(m);
    PaddedField(sec);
    ParseThree(Field(h), Field(m), Field(sec));
    ClockParts(seconds);
  }

  /** Three numerals joined by colons read back as hours, minutes and seconds. */
  lemma ParseThree(a: string, b: string, c: string)
    requires IsNumeral(a) && IsNumeral(b) && IsNumeral(c)
    ensures ParseElapsed(a + ":" + b + ":" + c) == Some(Value(a) * 3600 + Value(b) * 60 + Value(c))
  {
    NumeralHasNoColon(a);
    NumeralHasNoColon(b);
    NumeralHasNoColon(c);
    SplitThree(a, b, c);
    ParseFieldsOfThree(a, b, c);
    ParseElapsedOfFields(a + ":" + b + ":" + c, [a, b, c]);
  }

  lemma NumeralHasNoColon(s: string)
    requires IsNumeral(s)
    ensures ':' !in s
  {
    assert forall i :: 0 <= i < |s| ==> s[i] != ':';
  }

  lemma ParseFieldsOfThree(a: string, b: string, c: string)
    requires IsNumeral(a) && IsNumeral(b) && IsNumeral(c)
    ensures ParseFields([a, b, c]) == Some(Value(a) * 3600 + Value(b) * 60 + Value(c))
  {
    var f := [a, b, c];
    assert f[0] == a && f[1] == b && f[2] == c;
  }

  lemma ParseElapsedOfFields(s: string, f: seq<string>)
    requires Split(s, ':') == f
    ensures ParseElapsed(s) == ParseFields(f)
  {
  }

  /** Exactly two colons, since the fields are digits. */
  lemma ElapsedTimeColons(seconds: int)
    requires seconds >= 0
    ensures Count(ElapsedTime(seconds), ':') == 2
  {
    var hr, min, sec := Field(seconds / 3600), Field((seconds % 3600) / 60), Field(seconds % 60);
    ElapsedTimeOfNat(seconds);
    PaddedField(seconds / 3600);
    PaddedField((seconds % 3600) / 60);
    PaddedField(seconds % 60);
    CountAbsent(hr, ':');
    CountAbsent(min, ':');
    CountAbsent(sec, ':');
    CountAppend(hr + ":" + min + ":", sec, ':');
    CountAppend(hr + ":" + min, ":", ':');
    CountAppend(hr + ":", min, ':');
    CountAppend(hr, ":", ':');
  }

  /** From 100 hours on, the hour field has three or more digits. */
  lemma ElapsedTimeLongHours(seconds: int)
    requires seconds >= 360000
    ensures |Split(ElapsedTime(seconds), ':')[0]| >= 3
  {
    ElapsedTimeFields(seconds);
    NatToStringWidth(seconds / 3600);
  }

  /** A single digit is padded with one leading zero. */
  lemma FieldOfDigit(n: nat)
    requires n < 10
    ensures Field(n) == ['0', Digit(n)]
  {
  }

  /** One hour, one minute and one second. */
  lemma ElapsedTimeOfHourMinuteSecond(seconds: int)
    requires seconds == 3661
    ensures ElapsedTime(seconds) == "01:01:01"
  {
    ElapsedTimeOfNat(seconds);
    assert seconds / 3600 == 1 && (seconds % 3600) / 60 == 1 && seconds % 60 == 1;
    FieldOfDigit(1);
  }

  /** A two-digit number is written as is. */
  lemma FieldOfTwoDigits(n: nat)
    requires 10 <= n < 100
    ensures Field(n) == [Digit(n / 10), Digit(n % 10)]
  {
    assert NatToString(n) == NatToString(n / 10) + [Digit(n % 10)];
  }

  /** Under a minute, hours and minutes are "00" and the seconds are the padded count. */
  lemma ElapsedTimeUnderAMinute(seconds: int)
    requires 0 <= seconds < 60
    ensures ElapsedTime(seconds) == "00:00:" + Field(seconds)
  {
    assert seconds / 3600 == 0 && (seconds % 3600) / 60 == 0 && seconds % 60 == seconds;
    assert ElapsedTime(seconds) == Field(0) + ":" + Field(0) + ":" + Field(seconds) by {
      ElapsedTimeOfNat(seconds);
    }
    FieldOfDigit(0);
  }

  /** The fields of a count between -59 and -1: C++ truncation gives zero hours and minutes
      and a negative remainder. */
  lemma NegativeSecondsParts(seconds: int)
    requires -60 < seconds < 0
    ensures Quot(seconds, 3600) == 0 && Rem(seconds, 3600) == seconds
    ensures Quot(seconds, 60) == 0 && Rem(seconds, 60) == seconds
  {
    assert (-seconds) / 3600 == 0 && (-seconds) / 60 == 0;
  }

  /** A negative count, which the source does not exclude, prints its sign inside the seconds
      field: from -59 to -1 the text is "00:00:" followed by `std::to_string` of the count,
      so -1 gives "00:00:-1". */
  lemma ElapsedTimeNegative(seconds: int)
    requires -60 < seconds < 0
    ensures ElapsedTime(seconds) == "00:00:" + IntToString(seconds)
  {
    NegativeSecondsParts(seconds);
    FieldOfDigit(0);
    var sec := IntToString(seconds);
    assert |sec| >= 2;
    assert ElapsedTime(seconds) == Field(0) + ":" + Field(0) + ":" + sec;
  }
}
