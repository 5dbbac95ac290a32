/** The byte validator of offset date-time literals against the `date-time`
    production of section 5.6 of RFC 3339, and the leap-second test. */
module DateTimeLiterals {
  import opened Numbers

  const ZERO: Byte := 0x30
  const NINE: Byte := 0x39
  const HYPHEN: Byte := 0x2D
  const DOT: Byte := 0x2E
  const PLUS: Byte := 0x2B
  const UPPER_T: Byte := 0x54
  const LOWER_T: Byte := 0x74
  const UPPER_Z: Byte := 0x5A
  const LOWER_Z: Byte := 0x7A
  const SPACE: Byte := 0x20
  const SIXTY: Bytes := [0x36, 0x30]

  predicate IsDigit(b: Byte) {
    ZERO <= b <= NINE
  }

  // The validator

  predicate TwoDigitsInRange(tens: Byte, ones: Byte, min: int, max: int) {
    IsDigit(tens) && IsDigit(ones) && min <= (tens as int - 48) * 10 + (ones as int - 48) <= max
  }

  /** How many digits follow from `i` on. */
  function DigitRun(bytes: Bytes, i: nat): (n: nat)
    requires i <= |bytes|
    ensures i + n <= |bytes|
    ensures forall j :: i <= j < i + n ==> IsDigit(bytes[j])
    ensures i + n < |bytes| ==> !IsDigit(bytes[i + n])
    decreases |bytes| - i
  {
    if i < |bytes| && IsDigit(bytes[i]) then 1 + DigitRun(bytes, i + 1) else 0
  }

  predicate ValidOffset(rest: Bytes) {
    || (|rest| == 1 && (rest[0] == UPPER_Z || rest[0] == LOWER_Z))
    || (|rest| == 6 && (rest[0] == PLUS || rest[0] == HYPHEN) && rest[3] == COLON
        && TwoDigitsInRange(rest[1], rest[2], 0, 23) && TwoDigitsInRange(rest[4], rest[5], 0, 59))
  }

  predicate ValidateSyntax(bytes: Bytes) {
    if |bytes| < 20
       || !(forall i :: 0 <= i < 4 ==> IsDigit(bytes[i]))
       || bytes[4] != HYPHEN || bytes[7] != HYPHEN
       || !(bytes[10] == UPPER_T || bytes[10] == LOWER_T)
       || bytes[13] != COLON || bytes[16] != COLON
       || !TwoDigitsInRange(bytes[5], bytes[6], 1, 12)
       || !TwoDigitsInRange(bytes[8], bytes[9], 1, 31)
       || !TwoDigitsInRange(bytes[11], bytes[12], 0, 23)
       || !TwoDigitsInRange(bytes[14], bytes[15], 0, 59)
       || !TwoDigitsInRange(bytes[17], bytes[18], 0, 59)
    then false
    else if bytes[19] == DOT then
      var fraction := DigitRun(bytes, 20);
      fraction != 0 && ValidOffset(bytes[20 + fraction..])
    else ValidOffset(bytes[19..])
  }

  function FindDesignator(bytes: Bytes, i: nat): (k: nat)
    requires i <= |bytes|
    ensures i <= k <= |bytes|
    ensures forall j :: i <= j < k ==> bytes[j] != UPPER_T && bytes[j] != LOWER_T && bytes[j] != SPACE
    ensures k < |bytes| ==> bytes[k] == UPPER_T || bytes[k] == LOWER_T || bytes[k] == SPACE
    decreases |bytes| - i
  {
    if i == |bytes| || bytes[i] == UPPER_T || bytes[i] == LOWER_T || bytes[i] == SPACE then i
    else FindDesignator(bytes, i + 1)
  }

  /** The seconds of the basic or the extended format are 60. */
  predicate SecondsSixty(time: Bytes) {
    if |time| > 2 && time[2] == COLON then |time| >= 8 && time[5] == COLON && time[6..8] == SIXTY
    else |time| >= 6 && time[4..6] == SIXTY
  }

  /** Whether the seconds right after the designator are spelled 60, in the
      extended or the basic format. */
  predicate SpellsLeapSecond(bytes: Bytes) {
    var designator := FindDesignator(bytes, 0);
    designator < |bytes| && SecondsSixty(bytes[designator + 1..])
  }

  // The grammar: each production is a set of byte strings

  ghost predicate Number(text: Bytes, digits: nat, min: int, max: int) {
    && |text| == digits && (forall i :: 0 <= i < |text| ==> IsDigit(text[i]))
    && min <= Value(text) <= max
  }

  function Value(text: Bytes): int {
    if text == [] then 0 else Value(text[..|text| - 1]) * 10 + (text[|text| - 1] as int - 48)
  }

  /** A date-time taken apart; `fraction` is empty or a dot and digits. */
  datatype DateTime = DateTime(year: Bytes, month: Bytes, day: Bytes, designator: Byte,
                               hour: Bytes, minute: Bytes, second: Bytes, fraction: Bytes, offset: Bytes)

  function FullDate(d: DateTime): Bytes {
    d.year + [HYPHEN] + d.month + [HYPHEN] + d.day
  }

  function ClockTime(d: DateTime): Bytes {
    d.hour + [COLON] + d.minute + [COLON] + d.second
  }

  function DateTimeText(d: DateTime): Bytes {
    FullDate(d) + [d.designator] + ClockTime(d) + (d.fraction + d.offset)
  }

  ghost predicate Fraction(text: Bytes) {
    text == [] || (|text| >= 2 && text[0] == DOT && forall i :: 1 <= i < |text| ==> IsDigit(text[i]))
  }

  ghost predicate TimeOffset(text: Bytes) {
    || text == [UPPER_Z] || text == [LOWER_Z]
    || exists sign, hour, minute :: text == [sign] + hour + [COLON] + minute && (sign == PLUS || sign == HYPHEN)
                                    && Number(hour, 2, 0, 23) && Number(minute, 2, 0, 59)
  }

  /** `date-time` with the seconds 00 to `seconds` and the days 01 to 31. */
  ghost predicate Grammatical(d: DateTime, seconds: int) {
    && Number(d.year, 4, 0, 9999) && Number(d.month, 2, 1, 12) && Number(d.day, 2, 1, 31)
    && (d.designator == UPPER_T || d.designator == LOWER_T)
    && Number(d.hour, 2, 0, 23) && Number(d.minute, 2, 0, 59) && Number(d.second, 2, 0, seconds)
    && Fraction(d.fraction) && TimeOffset(d.offset)
  }

  lemma TwoDigits(tens: Byte, ones: Byte, min: int, max: int)
    ensures Number([tens, ones], 2, min, max) <==> TwoDigitsInRange(tens, ones, min, max)
  {
    assert [tens, ones][..1] == [tens] && [tens][..0] == [];
    assert Value([tens]) == tens as int - 48;
    assert Value([tens, ones]) == Value([tens]) * 10 + (ones as int - 48);
    if Number([tens, ones], 2, min, max) {
      assert IsDigit([tens, ones][0]) && IsDigit([tens, ones][1]);
    }
  }

  lemma AsPair(text: Bytes, min: int, max: int)
    requires |text| == 2
    ensures Number(text, 2, min, max) <==> TwoDigitsInRange(text[0], text[1], min, max)
  {
    assert text == [text[0], text[1]];
    TwoDigits(text[0], text[1], min, max);
  }

  lemma FourDigits(text: Bytes)
    requires |text| == 4 && forall i :: 0 <= i < 4 ==> IsDigit(text[i])
    ensures Number(text, 4, 0, 9999)
  {
    assert text[..3][..2] == text[..2] && text[..2][..1] == text[..1] && text[..1][..0] == [];
    assert Value(text[..1]) == text[0] as int - 48;
    assert Value(text[..2]) == Value(text[..1]) * 10 + (text[1] as int - 48);
    assert Value(text[..3]) == Value(text[..2]) * 10 + (text[2] as int - 48);
  }

  lemma OffsetExact(rest: Bytes)
    ensures ValidOffset(rest) <==> TimeOffset(rest)
  {
    if ValidOffset(rest) && |rest| == 6 {
      AsPair(rest[1..3], 0, 23);
      AsPair(rest[4..6], 0, 59);
      assert rest == [rest[0]] + rest[1..3] + [COLON] + rest[4..6];
    } else if ValidOffset(rest) {
      assert rest == [rest[0]];
    }
    if sign, hour, minute :| rest == [sign] + hour + [COLON] + minute && (sign == PLUS || sign == HYPHEN)
                             && Number(hour, 2, 0, 23) && Number(minute, 2, 0, 59) {
      AsPair(hour, 0, 23);
      AsPair(minute, 0, 59);
    }
  }

  /** An offset starts with a byte that ends a fraction. */
  lemma OffsetStart(offset: Bytes)
    requires TimeOffset(offset)
    ensures offset != [] && !IsDigit(offset[0]) && offset[0] != DOT
  {
    OffsetExact(offset);
  }

  /** The fixed part of a date-time text. */
  lemma Layout(d: DateTime, seconds: int)
    requires Grammatical(d, seconds)
    ensures var text := DateTimeText(d);
            && |text| == 19 + |d.fraction| + |d.offset| && |d.offset| > 0
            && text[0..4] == d.year && text[4] == HYPHEN && text[5..7] == d.month && text[7] == HYPHEN
            && text[8..10] == d.day && text[10] == d.designator && text[11..13] == d.hour && text[13] == COLON
            && text[14..16] == d.minute && text[16] == COLON && text[17..19] == d.second
            && text[19..] == d.fraction + d.offset
  {
    hide Number, TimeOffset, Fraction, FullDate, ClockTime;
    OffsetStart(d.offset);
    NumberSizes(d, seconds);
    DateLayout(d);
    TimeLayout(d);
    var text := DateTimeText(d);
    assert text[..10] == FullDate(d) && text[11..19] == ClockTime(d) && text[19..] == d.fraction + d.offset;
    Within(text, 0, 10, 0, 4);
    Within(text, 0, 10, 5, 7);
    Within(text, 0, 10, 8, 10);
    Within(text, 11, 19, 0, 2);
    Within(text, 11, 19, 3, 5);
    Within(text, 11, 19, 6, 8);
    assert text[4] == text[..10][4] && text[7] == text[..10][7];
    assert text[13] == text[11..19][2] && text[16] == text[11..19][5];
  }

  /** A slice of a slice. */
  lemma Within(text: Bytes, from: nat, to: nat, i: nat, j: nat)
    requires i <= j && from + j <= to <= |text|
    ensures text[from..to][i..j] == text[from + i..from + j]
  {
    assert forall k :: 0 <= k < j - i ==> text[from..to][i..j][k] == text[from + i..from + j][k];
  }

  lemma DateLayout(d: DateTime)
    requires |d.year| == 4 && |d.month| == |d.day| == 2
    ensures var text := FullDate(d);
            && |text| == 10 && text[0..4] == d.year && text[4] == HYPHEN && text[5..7] == d.month && text[7] == HYPHEN
            && text[8..10] == d.day
  {
  }

  lemma TimeLayout(d: DateTime)
    requires |d.hour| == |d.minute| == |d.second| == 2
    ensures var text := ClockTime(d);
            && |text| == 8 && text[0..2] == d.hour && text[2] == COLON && text[3..5] == d.minute && text[5] == COLON
            && text[6..8] == d.second
  {
  }

  lemma NumberSizes(d: DateTime, seconds: int)
    requires Grammatical(d, seconds)
    ensures |d.year| == 4 && |d.month| == |d.day| == |d.hour| == |d.minute| == |d.second| == 2
  {
  }

  /** The parts of an accepted text. */
  function Parts(bytes: Bytes): DateTime
    requires |bytes| >= 20
  {
    var end := if bytes[19] == DOT then 20 + DigitRun(bytes, 20) else 19;
    DateTime(bytes[0..4], bytes[5..7], bytes[8..10], bytes[10], bytes[11..13], bytes[14..16], bytes[17..19],
             bytes[19..end], bytes[end..])
  }

  lemma AcceptedGrammatical(bytes: Bytes)
    requires ValidateSyntax(bytes)
    ensures Grammatical(Parts(bytes), 59)
  {
    hide Number, ValidOffset, TimeOffset;
    var d := Parts(bytes);
    FourDigits(d.year);
    AsPair(d.month, 1, 12);
    AsPair(d.day, 1, 31);
    AsPair(d.hour, 0, 23);
    AsPair(d.minute, 0, 59);
    AsPair(d.second, 0, 59);
    OffsetExact(d.offset);
    assert forall i :: 1 <= i < |d.fraction| ==> d.fraction[i] == bytes[19 + i];
  }

  lemma AcceptedText(bytes: Bytes)
    requires ValidateSyntax(bytes)
    ensures DateTimeText(Parts(bytes)) == bytes
  {
    hide ValidOffset, TwoDigitsInRange, FullDate, ClockTime;
    var d := Parts(bytes);
    DateRead(bytes);
    TimeRead(bytes);
    assert d.fraction + d.offset == bytes[19..];
    assert bytes == bytes[..10] + [bytes[10]] + bytes[11..19] + bytes[19..];
  }

  lemma DateRead(bytes: Bytes)
    requires |bytes| >= 20 && bytes[4] == bytes[7] == HYPHEN
    ensures FullDate(Parts(bytes)) == bytes[..10]
  {
  }

  lemma TimeRead(bytes: Bytes)
    requires |bytes| >= 20 && bytes[13] == bytes[16] == COLON
    ensures ClockTime(Parts(bytes)) == bytes[11..19]
  {
  }

  /** A fraction ends where the offset starts. */
  lemma {:induction false} FractionRun(bytes: Bytes, i: nat, end: nat)
    requires i <= end < |bytes| && (forall j :: i <= j < end ==> IsDigit(bytes[j])) && !IsDigit(bytes[end])
    ensures DigitRun(bytes, i) == end - i
    decreases end - i
  {
    if i < end {
      FractionRun(bytes, i + 1, end);
    }
  }

  lemma GrammaticalAccepted(d: DateTime)
    requires Grammatical(d, 59)
    ensures ValidateSyntax(DateTimeText(d))
  {
    hide DateTimeText, ValidOffset, TimeOffset;
    var text := DateTimeText(d);
    Layout(d, 59);
    DatePairs(d);
    OffsetStart(d.offset);
    OffsetExact(d.offset);
    assert forall i :: 0 <= i < 4 ==> text[i] == text[0..4][i];
    assert text[5] == text[5..7][0] && text[6] == text[5..7][1];
    assert text[8] == text[8..10][0] && text[9] == text[8..10][1];
    assert text[11] == text[11..13][0] && text[12] == text[11..13][1];
    assert text[14] == text[14..16][0] && text[15] == text[14..16][1];
    assert text[17] == text[17..19][0] && text[18] == text[17..19][1];
    TailAccepted(d, text);
  }

  lemma DatePairs(d: DateTime)
    requires Grammatical(d, 59)
    ensures |d.year| == 4 && forall i :: 0 <= i < 4 ==> IsDigit(d.year[i])
    ensures |d.month| == |d.day| == |d.hour| == |d.minute| == |d.second| == 2
    ensures TwoDigitsInRange(d.month[0], d.month[1], 1, 12) && TwoDigitsInRange(d.day[0], d.day[1], 1, 31)
    ensures TwoDigitsInRange(d.hour[0], d.hour[1], 0, 23) && TwoDigitsInRange(d.minute[0], d.minute[1], 0, 59)
    ensures TwoDigitsInRange(d.second[0], d.second[1], 0, 59)
  {
    hide TwoDigitsInRange, TimeOffset;
    AsPair(d.month, 1, 12);
    AsPair(d.day, 1, 31);
    AsPair(d.hour, 0, 23);
    AsPair(d.minute, 0, 59);
    AsPair(d.second, 0, 59);
  }

  /** What follows the seconds is read as the fraction and the offset. */
  lemma TailAccepted(d: DateTime, text: Bytes)
    requires Fraction(d.fraction) && d.offset != [] && !IsDigit(d.offset[0]) && d.offset[0] != DOT
    requires |text| == 19 + |d.fraction| + |d.offset| && text[19..] == d.fraction + d.offset
    ensures text[19] == DOT <==> d.fraction != []
    ensures d.fraction == [] ==> text[19..] == d.offset
    ensures d.fraction != [] ==>
              && DigitRun(text, 20) == |d.fraction| - 1 != 0
              && text[20 + DigitRun(text, 20)..] == d.offset
  {
    assert text[19] == text[19..][0];
    if d.fraction != [] {
      var end := 19 + |d.fraction|;
      forall j | 20 <= j < end
        ensures IsDigit(text[j])
      {
        assert text[j] == text[19..][j - 19];
      }
      assert text[end] == text[19..][|d.fraction|];
      FractionRun(text, 20, end);
      assert text[end..] == text[19..][|d.fraction|..];
    }
  }

  /** The validator accepts exactly the texts of the production: either letter
      case, any fraction, days 01-31, seconds 00-59. */
  lemma ValidatorExact(bytes: Bytes)
    ensures ValidateSyntax(bytes) <==> exists d :: Grammatical(d, 59) && DateTimeText(d) == bytes
  {
    hide ValidateSyntax, Grammatical, DateTimeText;
    if ValidateSyntax(bytes) {
      AcceptedLength(bytes);
      AcceptedGrammatical(bytes);
      AcceptedText(bytes);
    }
    if d :| Grammatical(d, 59) && DateTimeText(d) == bytes {
      GrammaticalAccepted(d);
    }
  }

  lemma AcceptedLength(bytes: Bytes)
    requires ValidateSyntax(bytes)
    ensures |bytes| >= 20
  {
  }

  /** The first designator of a date-time text is the one after the date. */
  lemma DesignatorAt(d: DateTime, seconds: int)
    requires Grammatical(d, seconds)
    ensures FindDesignator(DateTimeText(d), 0) == 10
  {
    hide DateTimeText, TimeOffset, Fraction;
    var text := DateTimeText(d);
    Layout(d, seconds);
    forall j: nat | j < 10
      ensures IsDigit(text[j]) || text[j] == HYPHEN
    {
      if j < 4 {
        assert text[j] == text[0..4][j];
      } else if 5 <= j < 7 {
        assert text[j] == text[5..7][j - 5];
      } else if j >= 8 {
        assert text[j] == text[8..10][j - 8];
      }
    }
    assert text[10] == UPPER_T || text[10] == LOWER_T;
  }

  /** On a date-time text the test says exactly whether the seconds are 60. */
  lemma LeapSecondExact(d: DateTime)
    requires Grammatical(d, 60)
    ensures SpellsLeapSecond(DateTimeText(d)) <==> d.second == [0x36, 0x30]
    ensures Grammatical(d, 59) ==> !SpellsLeapSecond(DateTimeText(d))
  {
    hide DateTimeText, TimeOffset, Fraction;
    var text := DateTimeText(d);
    Layout(d, 60);
    DesignatorAt(d, 60);
    var time := text[11..];
    assert time[2] == text[13] && time[5] == text[16] && time[6..8] == text[17..19];
    if Grammatical(d, 59) {
      AsPair(d.second, 0, 59);
    }
  }

  predicate IsDesignator(b: Byte) {
    b == UPPER_T || b == LOWER_T || b == SPACE
  }

  /** Two bytes for the hour and two for the minute, and the seconds 60: with
      colons, or without. */
  ghost predicate Sixty(time: Bytes, hour: Bytes, minute: Bytes, rest: Bytes) {
    && |hour| == |minute| == 2
    && (|| time == hour + [COLON] + minute + [COLON] + SIXTY + rest
        || (minute[0] != COLON && time == hour + minute + SIXTY + rest))
  }

  /** A date without a designator, a designator, and a time with 60 seconds. */
  ghost predicate SpelledSixty(bytes: Bytes, date: Bytes, designator: Byte, time: Bytes) {
    && (forall i :: 0 <= i < |date| ==> !IsDesignator(date[i])) && IsDesignator(designator)
    && bytes == date + [designator] + time
    && exists hour, minute, rest :: Sixty(time, hour, minute, rest)
  }

  lemma {:induction false} DesignatorFound(bytes: Bytes, i: nat, end: nat)
    requires i <= end < |bytes| && IsDesignator(bytes[end]) && forall j :: i <= j < end ==> !IsDesignator(bytes[j])
    ensures FindDesignator(bytes, i) == end
    decreases end - i
  {
    if i < end {
      DesignatorFound(bytes, i + 1, end);
    }
  }

  /** On every text the test says whether 60 seconds are spelled after the first
      designator, in the extended or the basic format. */
  lemma LeapSecondSpelled(bytes: Bytes)
    ensures SpellsLeapSecond(bytes) <==> exists date, designator, time :: SpelledSixty(bytes, date, designator, time)
  {
    hide Sixty;
    var end := FindDesignator(bytes, 0);
    if end < |bytes| {
      var date, designator, time := bytes[..end], bytes[end], bytes[end + 1..];
      assert bytes == date + [designator] + time;
      SixtyExact(time);
      if SpellsLeapSecond(bytes) {
        assert SpelledSixty(bytes, date, designator, time);
      }
    }
    if date, designator, time :| SpelledSixty(bytes, date, designator, time) {
      assert bytes[|date|] == designator && forall j :: 0 <= j < |date| ==> bytes[j] == date[j];
      DesignatorFound(bytes, 0, |date|);
      assert bytes[|date| + 1..] == time;
      SixtyExact(time);
    }
  }

  lemma SixtyExact(time: Bytes)
    ensures SecondsSixty(time) <==> exists hour, minute, rest :: Sixty(time, hour, minute, rest)
  {
    if SecondsSixty(time) && time[2] == COLON {
      assert time == time[..2] + [COLON] + time[3..5] + [COLON] + SIXTY + time[8..];
      assert Sixty(time, time[..2], time[3..5], time[8..]);
    } else if SecondsSixty(time) {
      assert time == time[..2] + time[2..4] + SIXTY + time[6..];
      assert Sixty(time, time[..2], time[2..4], time[6..]);
    }
    if hour, minute, rest :| Sixty(time, hour, minute, rest) {
      if minute[0] != COLON && time == hour + minute + SIXTY + rest {
        assert time[2] == minute[0] && time[4..6] == SIXTY;
      } else {
        assert time[2] == COLON && time[5] == COLON && time[6..8] == SIXTY;
      }
    }
  }
}
