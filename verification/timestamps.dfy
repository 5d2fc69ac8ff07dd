/**
 * The two fixed text shapes the program checks with regular expressions, and
 * the part of `datetime.strptime` it uses: `'%Y-%m-%d'` for the target date and
 * `'%Y-%m-%dT%H:%M:%S%z'` for the timestamp of a log row.
 */
module Timestamps {
  import opened Results
  import opened Digits
  import opened Calendar

  /** `re.match('[0-9]{4}-[0-9]{2}-[0-9]{2}', s)`: anchored at position 0,
      blind to whatever follows the tenth character. */
  predicate DateShape(s: string) {
    && |s| >= 10
    && FourDigitsAt(s, 0) && s[4] == '-'
    && TwoDigitsAt(s, 5) && s[7] == '-'
    && TwoDigitsAt(s, 8)
  }

  /** `DDDD-DD-DDTDD:DD:DD?DD:DD` at position 0, every position but the sign at 19. */
  predicate StampShapeAround(s: string) {
    && |s| >= 25
    && DateShape(s) && s[10] == 'T'
    && TwoDigitsAt(s, 11) && s[13] == ':'
    && TwoDigitsAt(s, 14) && s[16] == ':'
    && TwoDigitsAt(s, 17)
    && TwoDigitsAt(s, 20) && s[22] == ':'
    && TwoDigitsAt(s, 23)
  }

  /** The regex the file check uses: only a `+` offset. */
  predicate PlusStampShape(s: string) {
    StampShapeAround(s) && s[19] == '+'
  }

  /** The fixed-width form `%z` reads after a time: either sign. */
  predicate StampShape(s: string) {
    StampShapeAround(s) && (s[19] == '+' || s[19] == '-')
  }

  /** No position of the timestamp shape holds a comma, so a timestamp is one
      field of a comma-separated row. */
  lemma StampHasNoComma(s: string)
    requires StampShape(s)
    ensures ',' !in s[..25]
  {
  }

  /** The shape the file check tests looks at the first 25 characters only. */
  lemma PlusStampShapeOfPrefix(s: string)
    requires |s| >= 25
    ensures PlusStampShape(s) <==> PlusStampShape(s[..25])
  {
    var p := s[..25];
    assert forall k :: 0 <= k < 25 ==> p[k] == s[k];
  }

  /** A timestamp followed by its line's newline: one comma-free field of 26
      characters, of the file check's shape exactly when the offset is positive. */
  lemma StampWithNewline(stamp: string)
    requires |stamp| == 25 && StampShape(stamp)
    ensures |stamp + "\n"| == 26 && ',' !in stamp + "\n"
    ensures PlusStampShape(stamp + "\n") <==> stamp[19] == '+'
  {
    var field := stamp + "\n";
    StampHasNoComma(stamp);
    assert stamp[..25] == stamp && field[..25] == stamp;
    PlusStampShapeOfPrefix(field);
  }

  /** The numbers in the year, month and day positions, before any range check. */
  function DateFields(s: string): Date
    requires DateShape(s)
  {
    Date(FourDigitValue(s, 0), TwoDigitValue(s, 5), TwoDigitValue(s, 8))
  }

  /** `datetime.strptime(s, '%Y-%m-%d').date()` on a string of the checked
      shape: the fields must name a real calendar date. */
  function ParseIsoDate(s: string): (r: Option<Date>)
    requires |s| == 10 && DateShape(s)
    ensures r.Some? ==> IsValid(r.value)
  {
    var d := DateFields(s);
    if IsValid(d) then Some(d) else None
  }

  /** `d.isoformat()`. */
  function FormatIsoDate(d: Date): (s: string)
    requires IsValid(d)
    ensures |s| == 10 && DateShape(s)
  {
    FourDigits(d.year) + "-" + TwoDigits(d.month) + "-" + TwoDigits(d.day)
  }

  /** Only the first ten characters decide the date fields. */
  lemma DateFieldsOfPrefix(s: string)
    requires DateShape(s)
    ensures DateShape(s[..10]) && DateFields(s[..10]) == DateFields(s)
  {
    var p := s[..10];
    assert forall k :: 0 <= k < 10 ==> p[k] == s[k];
  }

  lemma DateFieldsOfFormat(d: Date)
    requires IsValid(d)
    ensures DateFields(FormatIsoDate(d)) == d
  {
    var s := FormatIsoDate(d);
    assert s[0..4] == FourDigits(d.year);
    assert s[5..7] == TwoDigits(d.month);
    assert s[8..10] == TwoDigits(d.day);
    ValueOfFourDigits(s, 0, d.year);
    ValueOfTwoDigits(s, 5, d.month);
    ValueOfTwoDigits(s, 8, d.day);
  }

  lemma FormatOfDateFields(s: string)
    requires DateShape(s) && IsValid(DateFields(s))
    ensures FormatIsoDate(DateFields(s)) == s[..10]
  {
    FourDigitsOfValue(s, 0);
    TwoDigitsOfValue(s, 5);
    TwoDigitsOfValue(s, 8);
    assert s[..10] == s[0..4] + "-" + s[5..7] + "-" + s[8..10];
  }

  /** Parsing the ISO text of a real date gives that date back. */
  lemma ParseOfFormatDate(d: Date)
    requires IsValid(d)
    ensures ParseIsoDate(FormatIsoDate(d)) == Some(d)
  {
    DateFieldsOfFormat(d);
  }

  /** `ParseIsoDate` accepts exactly the ISO texts of real dates. */
  lemma ParseIsoDateExactly(s: string)
    requires |s| == 10 && DateShape(s)
    ensures ParseIsoDate(s).Some? <==> exists d :: IsValid(d) && FormatIsoDate(d) == s
    ensures ParseIsoDate(s).Some? ==> FormatIsoDate(ParseIsoDate(s).value) == s
  {
    if ParseIsoDate(s).Some? {
      FormatOfDateFields(s);
      assert s[..10] == s;
    }
    if exists d :: IsValid(d) && FormatIsoDate(d) == s {
      var d :| IsValid(d) && FormatIsoDate(d) == s;
      ParseOfFormatDate(d);
    }
  }

  /** A UTC offset as `%z` reads it; `negative` keeps the sign of `-00:00`. */
  datatype Offset = Offset(negative: bool, hours: int, minutes: int)

  datatype Timestamp = Timestamp(date: Date, hour: int, minute: int, second: int, offset: Offset)

  /** What `datetime` and `timezone` accept: a real date, a time of day, and an
      offset strictly inside one day. */
  predicate IsValidTimestamp(t: Timestamp) {
    && IsValid(t.date)
    && 0 <= t.hour <= 23 && 0 <= t.minute <= 59 && 0 <= t.second <= 59
    && 0 <= t.offset.hours <= 23 && 0 <= t.offset.minutes <= 59
  }

  /** `datetime.strptime(s, '%Y-%m-%dT%H:%M:%S%z')` on the fixed-width form
      `YYYY-MM-DDTHH:MM:SS±HH:MM`; `None` stands for the `ValueError`. */
  function ParseTimestamp(s: string): (r: Option<Timestamp>)
    ensures r.Some? ==> |s| == 25 && StampShape(s) && IsValidTimestamp(r.value)
  {
    if |s| != 25 || !StampShape(s) then None
    else
      var t := Timestamp(DateFields(s), TwoDigitValue(s, 11), TwoDigitValue(s, 14), TwoDigitValue(s, 17),
                         Offset(s[19] == '-', TwoDigitValue(s, 20), TwoDigitValue(s, 23)));
      if IsValidTimestamp(t) then Some(t) else None
  }

  /** A date, `T`, three two-digit fields separated by `:`, a sign and two
      more two-digit fields separated by `:` make a text of the timestamp shape. */
  lemma StampShapeOfParts(date: string, h: string, m: string, sec: string, sign: string, oh: string, om: string)
    requires |date| == 10 && DateShape(date)
    requires |h| == 2 && TwoDigitsAt(h, 0) && |m| == 2 && TwoDigitsAt(m, 0) && |sec| == 2 && TwoDigitsAt(sec, 0)
    requires sign == "+" || sign == "-"
    requires |oh| == 2 && TwoDigitsAt(oh, 0) && |om| == 2 && TwoDigitsAt(om, 0)
    ensures var s := date + "T" + h + ":" + m + ":" + sec + sign + oh + ":" + om;
      |s| == 25 && StampShape(s)
  {
    var s := date + "T" + h + ":" + m + ":" + sec + sign + oh + ":" + om;
    assert forall k :: 0 <= k < 10 ==> s[k] == date[k];
    assert s[10] == 'T' && s[13] == ':' && s[16] == ':' && s[19] == sign[0] && s[22] == ':';
    assert s[11] == h[0] && s[12] == h[1] && s[14] == m[0] && s[15] == m[1];
    assert s[17] == sec[0] && s[18] == sec[1];
    assert s[20] == oh[0] && s[21] == oh[1] && s[23] == om[0] && s[24] == om[1];
  }

  /** The canonical text of a timestamp with whole seconds and a whole-minute
      offset, in the shape the file check expects. */
  function FormatTimestamp(t: Timestamp): (s: string)
    requires IsValidTimestamp(t)
    ensures |s| == 25 && StampShape(s)
  {
    var sign := if t.offset.negative then "-" else "+";
    StampShapeOfParts(FormatIsoDate(t.date), TwoDigits(t.hour), TwoDigits(t.minute), TwoDigits(t.second),
      sign, TwoDigits(t.offset.hours), TwoDigits(t.offset.minutes));
    FormatIsoDate(t.date) + "T"
      + TwoDigits(t.hour) + ":" + TwoDigits(t.minute) + ":" + TwoDigits(t.second)
      + sign
      + TwoDigits(t.offset.hours) + ":" + TwoDigits(t.offset.minutes)
  }

  /** Parsing the text of a valid timestamp gives that timestamp back. */
  lemma ParseOfFormatTimestamp(t: Timestamp)
    requires IsValidTimestamp(t)
    ensures ParseTimestamp(FormatTimestamp(t)) == Some(t)
  {
    var s := FormatTimestamp(t);
    assert s[..10] == FormatIsoDate(t.date);
    DateFieldsOfFormat(t.date);
    DateFieldsOfPrefix(s);
    assert s[11..13] == TwoDigits(t.hour);
    assert s[14..16] == TwoDigits(t.minute);
    assert s[17..19] == TwoDigits(t.second);
    assert s[20..22] == TwoDigits(t.offset.hours);
    assert s[23..25] == TwoDigits(t.offset.minutes);
    ValueOfTwoDigits(s, 11, t.hour);
    ValueOfTwoDigits(s, 14, t.minute);
    ValueOfTwoDigits(s, 17, t.second);
    ValueOfTwoDigits(s, 20, t.offset.hours);
    ValueOfTwoDigits(s, 23, t.offset.minutes);
  }

  /** A 25-character text is the concatenation of its fields and separators. */
  lemma StampSlices(s: string)
    requires |s| == 25
    ensures s == s[..10] + [s[10]] + s[11..13] + [s[13]] + s[14..16] + [s[16]] + s[17..19]
                 + [s[19]] + s[20..22] + [s[22]] + s[23..25]
  {
    assert s[..13] == s[..10] + [s[10]] + s[11..13];
    assert s[..16] == s[..13] + [s[13]] + s[14..16];
    assert s[..19] == s[..16] + [s[16]] + s[17..19];
    assert s[..22] == s[..19] + [s[19]] + s[20..22];
    assert s == s[..22] + [s[22]] + s[23..25];
  }

  /** Each field of a parsed timestamp renders back to its own characters. */
  lemma FieldsOfParseTimestamp(s: string)
    requires ParseTimestamp(s).Some?
    ensures var t := ParseTimestamp(s).value;
      && FormatIsoDate(t.date) == s[..10]
      && TwoDigits(t.hour) == s[11..13]
      && TwoDigits(t.minute) == s[14..16]
      && TwoDigits(t.second) == s[17..19]
      && (if t.offset.negative then "-" else "+") == [s[19]]
      && TwoDigits(t.offset.hours) == s[20..22]
      && TwoDigits(t.offset.minutes) == s[23..25]
  {
    FormatOfDateFields(s);
    TwoDigitsOfValue(s, 11);
    TwoDigitsOfValue(s, 14);
    TwoDigitsOfValue(s, 17);
    TwoDigitsOfValue(s, 20);
    TwoDigitsOfValue(s, 23);
  }

  /** Every text `ParseTimestamp` accepts is the canonical text of what it parsed. */
  lemma FormatOfParseTimestamp(s: string)
    requires ParseTimestamp(s).Some?
    ensures FormatTimestamp(ParseTimestamp(s).value) == s
  {
    FieldsOfParseTimestamp(s);
    StampSlices(s);
  }
}
