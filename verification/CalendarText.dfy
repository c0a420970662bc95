/** Parsing the three printed formats of a date, and what printing and parsing gives back. */
module CalendarText {
  import opened Optional
  import opened Stream
  import opened Reading
  import opened StreamReader
  import opened NumberText
  import opened Calendar
  import opened CalendarPrinter

  // ----- reading

  datatype Number = Number(value: nat, count: nat, rest: Text)
  datatype Piece = Piece(value: nat, rest: Text)
  datatype Date = Date(year: nat, month: nat, day: nat, rest: Text)
  datatype Time = Time(hour: nat, minute: nat, second: nat, rest: Text)

  predicate ValidFields(date: Date) { 1970 <= date.year <= 9999 && 1 <= date.month <= 12 && 1 <= date.day <= 31 }

  function AsNumber(r: Option<Outcome>): Option<Number> {
    if r.Some? && r.value.collected.Natural? then
      Some(Number(r.value.collected.value, r.value.collected.digitCount, r.value.rest))
    else None
  }

  function Digits10(s: Text): Option<Number> { AsNumber(NaturalRead([], false, s)) }

  function NumberUntil(until: Text, consume: bool, s: Text): Option<Number> { AsNumber(NaturalRead(until, consume, s)) }

  function NumberOf(n: nat, s: Text): Option<Number> {
    AsNumber(NaturalOf(n, s))
  }

  /** A field narrowed to the width of its variable and checked against its range. */
  function Checked(r: Option<Number>, width: nat, low: nat, high: nat, digits: nat): (p: Option<Piece>)
    requires width > 0
    ensures p.Some? ==> low <= p.value.value <= high
  {
    var number :- r;
    var value := number.value % width;
    if value < low || value > high || number.count > digits then None else Some(Piece(value, number.rest))
  }

  function Year(r: Option<Number>): Option<Piece> { Checked(r, YEAR_LIMIT, 1970, 9999, 4) }
  function Month(r: Option<Number>): Option<Piece> { Checked(r, 256, 1, 12, 2) }
  function Day(r: Option<Number>): Option<Piece> { Checked(r, 256, 1, 31, 2) }
  function Hour(r: Option<Number>): Option<Piece> { Checked(r, 256, 0, 23, 2) }
  function Sixtieth(r: Option<Number>): Option<Piece> { Checked(r, 256, 0, 59, 2) }

  function NextByte(s: Text): Option<Piece> {
    if s == [] then None else Some(Piece(s[0], s[1..]))
  }

  /** A byte that has to be there. */
  function Expected(c: Byte, s: Text): Option<Text> {
    var next :- NextByte(s);
    if next.value == c then Some(next.rest) else None
  }

  /** The month, not before first, of that name and a space; 0 when there is none. */
  function MonthNumber(name: Text, first: nat): nat
    requires 1 <= first <= 13
    decreases 13 - first
  {
    if first == 13 then 0 else if name == MonthName(first) + [SPACE] then first else MonthNumber(name, first + 1)
  }

  function NamedMonth(s: Text): Option<Piece> {
    var name :- Read(Criteria(UntilMatch([SPACE], true), 0, Good), Collecting, Bytes([]), s);
    if name.collected.Natural? || MonthNumber(name.collected.data, 1) == 0 then None
    else Some(Piece(MonthNumber(name.collected.data, 1), name.rest))
  }

  function Signed(n: int, width: nat): int
    requires width > 0
  {
    (n + width) % (2 * width) - width
  }

  function Int32(n: int): int { Signed(n, 0x8000_0000) }

  /** The seconds put together by a parser: the product for the year is a 32-bit signed one. */
  function Assembled(date: Date, time: Time): nat
    requires ValidFields(date)
  {
    (Int32((date.year - 1970) * PER_NON_LEAP_YEAR) + LeapYears(date.year) * PER_DAY
     + SecondsUpUntilMonth(date.month, date.year) + (date.day - 1) * PER_DAY
     + time.hour * PER_HOUR + time.minute * PER_MINUTE + time.second) % WORD
  }

  /** An offset of one digit of hours and two of minutes, in seconds, narrowed to its variables. */
  function Offset(sign: Byte, hours: Number, minutes: Number): Option<int> {
    if hours.count > 1 || minutes.count > 2 then None
    else
      var seconds := Signed(hours.value % 256, 128) * PER_HOUR + Signed(minutes.value % 256, 128) * PER_MINUTE;
      Some(if sign == PLUS then seconds else -seconds)
  }

  function ReadableOffset(s: Text): Option<int> {
    var sign :- NextByte(s);
    if sign.value == LETTER_Z then Some(0)
    else if sign.value != PLUS && sign.value != DASH then None
    else
      var hours :- Digits10(sign.rest);
      var rest :- Expected(COLON, hours.rest);
      var minutes :- NumberOf(2, rest);
      var seconds :- Offset(sign.value, hours, minutes);
      Some(Signed(seconds, 0x8000))
  }

  function IsoOffset(s: Text): Option<int> {
    var sign :- NextByte(s);
    if sign.value == LETTER_Z then Some(0)
    else if sign.value != PLUS && sign.value != DASH then None
    else
      var hours :- NumberOf(1, sign.rest);
      var minutes :- NumberOf(2, hours.rest);
      Offset(sign.value, hours, minutes)
  }

  /** The date and what separates it from the time. */
  function ReadableDate(s: Text): (r: Option<Date>)
    ensures r.Some? ==> ValidFields(r.value)
  {
    var month :- NamedMonth(s);
    var day :- Day(Digits10(month.rest));
    var afterDay :- Expected(SPACE, day.rest);
    var year :- Year(Digits10(afterDay));
    var afterYear :- Expected(COMMA, year.rest);
    var time :- Expected(SPACE, afterYear);
    Some(Date(year.value, month.value, day.value, time))
  }

  /** The time and what separates it from the offset. */
  function ReadableTime(s: Text): Option<Time> {
    var hour :- Hour(Digits10(s));
    var afterHour :- Expected(COLON, hour.rest);
    var minute :- Sixtieth(Digits10(afterHour));
    var afterMinute :- Expected(COLON, minute.rest);
    var second :- Sixtieth(Digits10(afterMinute));
    var offset :- Expected(SPACE, second.rest);
    Some(Time(hour.value, minute.value, second.value, offset))
  }

  function IsoReadableDate(s: Text): (r: Option<Date>)
    ensures r.Some? ==> ValidFields(r.value)
  {
    var year :- Year(NumberUntil([DASH], true, s));
    var month :- Month(NumberUntil([DASH], true, year.rest));
    var day :- Day(NumberUntil([LETTER_T], true, month.rest));
    Some(Date(year.value, month.value, day.value, day.rest))
  }

  function IsoReadableTime(s: Text): Option<Time> {
    var hour :- Hour(NumberUntil([COLON], true, s));
    var minute :- Sixtieth(NumberUntil([COLON], true, hour.rest));
    var second :- Sixtieth(NumberUntil([LETTER_Z, PLUS, DASH], false, minute.rest));
    Some(Time(hour.value, minute.value, second.value, second.rest))
  }

  function IsoDate(s: Text): (r: Option<Date>)
    ensures r.Some? ==> ValidFields(r.value)
  {
    var year :- Year(NumberOf(4, s));
    var month :- Month(NumberOf(2, year.rest));
    var day :- Day(NumberOf(2, month.rest));
    var letter :- NextByte(day.rest);
    Some(Date(year.value, month.value, day.value, letter.rest))
  }

  function IsoTime(s: Text): Option<Time> {
    var hour :- Hour(NumberOf(2, s));
    var minute :- Sixtieth(NumberOf(2, hour.rest));
    var second :- Sixtieth(NumberOf(2, minute.rest));
    Some(Time(hour.value, minute.value, second.value, second.rest))
  }

  function DatePart(s: Text, format: Format): (r: Option<Date>)
    ensures r.Some? ==> ValidFields(r.value)
  {
    match format
    case Readable => ReadableDate(s)
    case Iso8601Readable => IsoReadableDate(s)
    case Iso8601 => IsoDate(s)
  }

  function TimePart(s: Text, format: Format): Option<Time> {
    match format
    case Readable => ReadableTime(s)
    case Iso8601Readable => IsoReadableTime(s)
    case Iso8601 => IsoTime(s)
  }

  function OffsetPart(s: Text, format: Format): Option<int> {
    if format == Iso8601 then IsoOffset(s) else ReadableOffset(s)
  }

  /** The seconds a text stands for; None when it is malformed. */
  function Parsed(s: Text, format: Format): Option<nat> {
    var date :- DatePart(s, format);
    var time :- TimePart(date.rest, format);
    var offset :- OffsetPart(time.rest, format);
    Some((Assembled(date, time) + offset) % WORD)
  }

  // ----- reading what was printed

  lemma PaddedFits(num: nat, width: nat)
    requires num < 10000 && 1 <= width <= 4
    ensures var n := |Padded(num, width)|;
            && width <= n <= 4 && (num < 100 && width <= 2 ==> n <= 2)
            && num < Power(10, n) && Padded(num, width) == Fixed(num, n, 10, true)
  {
    assert Power(10, 2) == 10 * Power(10, 1) == 100;
    assert Power(10, 4) == 10 * Power(10, 3) == 10000;
    CountFits(num, 4, 10);
    CountFits(num, 2, 10);
    hide Power, Count;
    CountIsLength(num, 10);
    PowerGrows(10, Count(num, 10), |Padded(num, width)|);
  }

  lemma DigitsRead(num: nat, width: nat, tail: Text)
    requires num < 10000 && 1 <= width <= 4 && tail != [] && !IsDigit(tail[0])
    ensures Digits10(Padded(num, width) + tail) == Some(Number(num, |Padded(num, width)|, tail))
  {
    hide NaturalRead, Padded, Power;
    PaddedFits(num, width);
    PrintThenRead(num, |Padded(num, width)|, tail);
  }

  lemma NumberReadUntil(num: nat, width: nat, until: Text, consume: bool, tail: Text)
    requires num < 10000 && 1 <= width <= 4 && tail != [] && tail[0] in until && forall c :: c in until ==> !IsDigit(c)
    ensures NumberUntil(until, consume, Padded(num, width) + tail)
         == Some(Number(num, |Padded(num, width)|, if consume then tail[1..] else tail))
  {
    hide NaturalRead, Padded, Power;
    PaddedFits(num, width);
    PrintThenReadUntil(num, |Padded(num, width)|, until, consume, tail);
  }

  lemma NumberReadSized(num: nat, width: nat, tail: Text)
    requires num < 10000 && 1 <= width <= 4
    ensures var n := |Padded(num, width)|; NumberOf(n, Padded(num, width) + tail) == Some(Number(num, n, tail))
  {
    hide NaturalOf, Padded, Power;
    PaddedFits(num, width);
    PrintThenReadSized(num, |Padded(num, width)|, tail);
  }

  lemma ExpectedRead(c: Byte, tail: Text)
    ensures NextByte([c] + tail) == Some(Piece(c, tail)) && Expected(c, [c] + tail) == Some(tail)
  {
    assert ([c] + tail)[1..] == tail;
  }

  lemma NamesDiffer(m: nat, n: nat)
    requires 1 <= m < n <= 12
    ensures MonthName(m) + [SPACE] != MonthName(n) + [SPACE]
  {
    var a, b := MonthName(m), MonthName(n);
    if |a| == |b| {
      assert a[0] != b[0] || a[1] != b[1] || a[2] != b[2];
      assert forall i :: 0 <= i < |a| ==> (a + [SPACE])[i] == a[i] && (b + [SPACE])[i] == b[i];
    }
  }

  lemma {:induction false} NameIsFound(month: nat, first: nat)
    requires 1 <= first <= month <= 12
    ensures MonthNumber(MonthName(month) + [SPACE], first) == month
    decreases month - first
  {
    hide MonthName;
    if first < month {
      NamesDiffer(first, month);
      NameIsFound(month, first + 1);
    }
  }

  lemma NameHasNoSpace(month: nat)
    requires 1 <= month <= 12
    ensures SPACE !in MonthName(month)
  {
  }

  lemma NamedMonthRead(month: nat, tail: Text)
    requires 1 <= month <= 12
    ensures NamedMonth(MonthName(month) + ([SPACE] + tail)) == Some(Piece(month, tail))
  {
    hide Read, Feed, MonthName, MonthNumber;
    NameIsFound(month, 1);
    NameHasNoSpace(month);
    var name := MonthName(month);
    var s := name + ([SPACE] + tail);
    assert s[|name|] == SPACE && forall i :: 0 <= i < |name| ==> s[i] == name[i];
    assert FirstOf([SPACE], s) == |name|;
    UntilRead([SPACE], true, 0, Collecting, Bytes([]), s);
    assert s[..|name| + 1] == name + [SPACE] && s[|name| + 1..] == tail;
    BytesCollected([], name + [SPACE]);
    assert [] + (name + [SPACE]) == name + [SPACE];
  }

  lemma SmallField(num: nat, width: nat, tail: Text, low: nat, high: nat)
    requires low <= num <= high < 100 && 1 <= width <= 2 && tail != [] && !IsDigit(tail[0])
    ensures Checked(Digits10(Padded(num, width) + tail), 256, low, high, 2) == Some(Piece(num, tail))
  {
    hide Digits10, Padded;
    DigitsRead(num, width, tail);
    PaddedFits(num, width);
  }

  lemma ReadableDateRead(d: DateTime, tail: Text)
    requires ValidDate(d) && d.year <= 9999
    ensures ReadableDate(MonthName(d.month) + ([SPACE] + (Padded(d.day, 1) + ([SPACE]
                         + (Padded(d.year, 1) + ([COMMA] + ([SPACE] + tail)))))))
         == Some(Date(d.year, d.month, d.day, tail))
  {
    hide NamedMonth, Digits10, Padded, Expected, MonthName;
    var year := Padded(d.year, 1) + ([COMMA] + ([SPACE] + tail));
    DigitsRead(d.year, 1, [COMMA] + ([SPACE] + tail));
    PaddedFits(d.year, 1);
    assert Year(Digits10(year)) == Some(Piece(d.year, [COMMA] + ([SPACE] + tail)));
    hide Checked;
    NamedMonthRead(d.month, Padded(d.day, 1) + ([SPACE] + year));
    SmallField(d.day, 1, [SPACE] + year, 1, 31);
    ExpectedRead(SPACE, year);
    ExpectedRead(COMMA, [SPACE] + tail);
    ExpectedRead(SPACE, tail);
  }

  lemma ReadableTimeRead(d: DateTime, tail: Text)
    requires ValidDate(d)
    ensures ReadableTime(Clock(d, [SPACE] + tail)) == Some(Time(d.hour, d.minute, d.second, tail))
  {
    hide Digits10, Padded, Expected, Checked;
    var second := Padded(d.second, 2) + ([SPACE] + tail);
    var minute := Padded(d.minute, 2) + ([COLON] + second);
    SmallField(d.hour, 2, [COLON] + minute, 0, 23);
    SmallField(d.minute, 2, [COLON] + second, 0, 59);
    SmallField(d.second, 2, [SPACE] + tail, 0, 59);
    ExpectedRead(COLON, minute);
    ExpectedRead(COLON, second);
    ExpectedRead(SPACE, tail);
  }

  lemma FieldUntil(num: nat, width: nat, c: Byte, tail: Text, low: nat, high: nat)
    requires low <= num <= high < 100 && 1 <= width <= 2 && !IsDigit(c)
    ensures Checked(NumberUntil([c], true, Padded(num, width) + ([c] + tail)), 256, low, high, 2)
         == Some(Piece(num, tail))
  {
    hide NumberUntil, Padded, Power, Fixed, IsDigit;
    PaddedFits(num, width);
    NumberReadUntil(num, width, [c], true, [c] + tail);
    assert ([c] + tail)[1..] == tail;
  }

  lemma YearUntil(year: nat, c: Byte, tail: Text)
    requires 1970 <= year <= 9999 && !IsDigit(c)
    ensures Year(NumberUntil([c], true, Padded(year, 4) + ([c] + tail))) == Some(Piece(year, tail))
  {
    hide NumberUntil, Padded, Power, Fixed, IsDigit;
    PaddedFits(year, 4);
    NumberReadUntil(year, 4, [c], true, [c] + tail);
    assert ([c] + tail)[1..] == tail;
  }

  lemma LastField(num: nat, until: Text, tail: Text)
    requires num <= 59 && tail != [] && tail[0] in until && forall c :: c in until ==> !IsDigit(c)
    ensures Sixtieth(NumberUntil(until, false, Padded(num, 2) + tail)) == Some(Piece(num, tail))
  {
    hide NumberUntil, Padded, Power, Fixed, IsDigit;
    PaddedFits(num, 2);
    NumberReadUntil(num, 2, until, false, tail);
  }

  lemma IsoReadableRead(d: DateTime, tail: Text)
    requires ValidDate(d) && d.year <= 9999
    ensures IsoReadableDate(Padded(d.year, 4) + ([DASH] + (Padded(d.month, 2) + ([DASH]
                            + (Padded(d.day, 2) + ([LETTER_T] + tail))))))
         == Some(Date(d.year, d.month, d.day, tail))
  {
    hide NumberUntil, Padded, Checked;
    var day := Padded(d.day, 2) + ([LETTER_T] + tail);
    var month := Padded(d.month, 2) + ([DASH] + day);
    YearUntil(d.year, DASH, month);
    FieldUntil(d.month, 2, DASH, day, 1, 12);
    FieldUntil(d.day, 2, LETTER_T, tail, 1, 31);
  }

  lemma IsoReadableTimeRead(d: DateTime, zone: Text)
    requires ValidDate(d) && zone != [] && zone[0] in {LETTER_Z, PLUS, DASH}
    ensures IsoReadableTime(Clock(d, zone)) == Some(Time(d.hour, d.minute, d.second, zone))
  {
    hide NumberUntil, Padded, Checked;
    var second := Padded(d.second, 2) + zone;
    FieldUntil(d.hour, 2, COLON, Padded(d.minute, 2) + ([COLON] + second), 0, 23);
    FieldUntil(d.minute, 2, COLON, second, 0, 59);
    LastField(d.second, [LETTER_Z, PLUS, DASH], zone);
  }

  lemma IsoRead(d: DateTime, tail: Text)
    requires ValidDate(d) && d.year <= 9999
    ensures IsoDate(Padded(d.year, 4) + (Padded(d.month, 2) + (Padded(d.day, 2) + ([LETTER_T] + tail))))
         == Some(Date(d.year, d.month, d.day, tail))
    ensures IsoTime(Padded(d.hour, 2) + (Padded(d.minute, 2) + (Padded(d.second, 2) + tail)))
         == Some(Time(d.hour, d.minute, d.second, tail))
  {
    hide NumberOf, Padded;
    var day := Padded(d.day, 2) + ([LETTER_T] + tail);
    SizedField(d.year, 4, Padded(d.month, 2) + day);
    SizedField(d.month, 2, day);
    SizedField(d.day, 2, [LETTER_T] + tail);
    ExpectedRead(LETTER_T, tail);
    var second := Padded(d.second, 2) + tail;
    SizedField(d.hour, 2, Padded(d.minute, 2) + second);
    SizedField(d.minute, 2, second);
    SizedField(d.second, 2, tail);
  }

  lemma SizedField(num: nat, width: nat, tail: Text)
    requires if width == 4 then num < 10000 else width == 2 && num < 100
    ensures NumberOf(width, Padded(num, width) + tail) == Some(Number(num, width, tail))
  {
    PaddedFits(num, width);
    NumberReadSized(num, width, tail);
  }

  /** How often the product for the year overflows 32 bits. */
  function Overflows(year: nat): nat
    requires year >= 1970
  {
    ((year - 1970) * PER_NON_LEAP_YEAR + 0x8000_0000) / 0x1_0000_0000
  }

  lemma ProductWraps(year: nat)
    requires 1970 <= year <= 9999
    ensures var product := (year - 1970) * PER_NON_LEAP_YEAR;
            Int32(product) == product - Overflows(year) * 0x1_0000_0000
    ensures Overflows(year) < 60 && (Overflows(year) == 0 <==> year <= 2038)
  {
  }

  lemma WrappedSeconds(seconds: nat, overflows: nat)
    requires seconds < WORD && overflows < 60
    ensures (seconds - overflows * 0x1_0000_0000) % WORD == seconds <==> overflows == 0
  {
    var n := seconds - overflows * 0x1_0000_0000;
    if n >= 0 {
      assert n % WORD == n;
    } else {
      assert n % WORD == n + WORD;
    }
  }

  /** What a parser puts together is off by every overflow of the 32-bit product, and so exact
      through 2038 only. */
  lemma AssembledIsSeconds(d: DateTime, date: Date, time: Time)
    requires ValidDate(d) && date.year == d.year <= 9999 && date.month == d.month && date.day == d.day
    requires time.hour == d.hour && time.minute == d.minute && time.second == d.second
    ensures Assembled(date, time) == (Seconds(d) - Overflows(d.year) * 0x1_0000_0000) % WORD
    ensures Assembled(date, time) == Seconds(d) <==> d.year <= 2038
    ensures Assembled(date, time) < WORD
  {
    TableIsCalendar(d.month, IsLeapYear(d.year));
    hide LeapYears, DaysBeforeMonth, RunningSeconds, Int32, Overflows;
    ProductWraps(d.year);
    SecondsFit(d);
    WrappedSeconds(Seconds(d), Overflows(d.year));
  }

  lemma SecondsFit(d: DateTime)
    requires ValidDate(d) && d.year < YEAR_LIMIT
    ensures 0 <= Seconds(d) < WORD
  {
    hide LeapYears, DaysBeforeMonth;
    SecondsInYear(d);
    DaysBeforeGrows(d.year, YEAR_LIMIT);
    LongestEpoch();
  }

  /** The parts of a printed date are its fields. */
  lemma PartsRead(d: DateTime, format: Format, zone: Text) returns (date: Date, time: Time)
    requires ValidDate(d) && d.year <= 9999 && zone != [] && zone[0] in {LETTER_Z, PLUS, DASH}
    ensures DatePart(PrintedIn(d, format, zone), format) == Some(date)
    ensures date.year == d.year && date.month == d.month && date.day == d.day
    ensures TimePart(date.rest, format) == Some(time)
    ensures time.hour == d.hour && time.minute == d.minute && time.second == d.second
    ensures time.rest == zone
  {
    hide ReadableDate, ReadableTime, IsoReadableDate, IsoReadableTime, IsoDate, IsoTime, Padded, MonthName;
    assert d.year % 10000 == d.year;
    match format {
      case Readable =>
        ReadableDateRead(d, Clock(d, [SPACE] + zone));
        ReadableTimeRead(d, zone);
      case Iso8601Readable =>
        IsoReadableRead(d, Clock(d, zone));
        IsoReadableTimeRead(d, zone);
      case Iso8601 =>
        IsoRead(d, Padded(d.hour, 2) + (Padded(d.minute, 2) + (Padded(d.second, 2) + zone)));
        IsoRead(d, zone);
    }
    date, time := DatePart(PrintedIn(d, format, zone), format).value, Time(d.hour, d.minute, d.second, zone);
  }

  /** What a printed date of a four-digit year parses to. */
  lemma ShortYearParsed(d: DateTime, format: Format)
    requires ValidDate(d) && d.year <= 9999
    ensures Parsed(Printed(d, format), format) == Some((Seconds(d) - Overflows(d.year) * 0x1_0000_0000) % WORD)
  {
    hide DatePart, TimePart, PrintedIn, Assembled, Seconds, Overflows;
    var date, time := PartsRead(d, format, [LETTER_Z]);
    assert PrintedIn(d, format, [LETTER_Z]) == Printed(d, format);
    AssembledIsSeconds(d, date, time);
    SmallModWord(Assembled(date, time));
  }

  // ----- offsets

  /** "+h:mm" or "-h:mm", without the colon in the short format. */
  function OffsetText(ahead: bool, hours: nat, minutes: nat, format: Format): Text
    requires hours <= 9 && minutes <= 99
  {
    [if ahead then '+' as int else '-' as int, '0' as int + hours] + (if format == Iso8601 then [] else [':' as int])
    + ['0' as int + minutes / 10, '0' as int + minutes % 10]
  }

  lemma OffsetDigits(hours: nat, minutes: nat)
    requires hours <= 9 && minutes <= 99
    ensures Padded(hours, 1) == [0x30 + hours] && Padded(minutes, 2) == [0x30 + minutes / 10, 0x30 + minutes % 10]
  {
    hide Padded;
    HourDigit(hours);
    MinuteDigits(minutes);
  }

  lemma HourDigit(hours: nat)
    requires hours <= 9
    ensures Padded(hours, 1) == [0x30 + hours]
  {
    PlainReads(hours);
    hide Count, Power, Fixed, Value;
    FixedStep(hours, 0, 10, true);
    FixedNothing();
  }

  lemma MinuteDigits(minutes: nat)
    requires minutes <= 99
    ensures Padded(minutes, 2) == [0x30 + minutes / 10, 0x30 + minutes % 10]
  {
    FieldReads(minutes, 2);
    hide Count, Power, Fixed, Value;
    FixedStep(minutes, 1, 10, true);
    FixedStep(minutes / 10, 0, 10, true);
    FixedNothing();
  }

  lemma FixedNothing()
    ensures forall n :: Fixed(n, 0, 10, true) == []
  {
  }

  /** An offset is read as its seconds; those of the readable formats go through 16 bits. */
  lemma OffsetRead(ahead: bool, hours: nat, minutes: nat, format: Format)
    requires hours <= 9 && minutes <= 99
    ensures var seconds := (hours * 60 + minutes) * 60 * if ahead then 1 else -1;
            OffsetPart(OffsetText(ahead, hours, minutes, format), format)
            == Some(if format == Iso8601 || -32768 <= seconds < 32768 then seconds
                    else if ahead then seconds - 65536 else seconds + 65536)
  {
    hide Digits10, NumberOf, Padded, Offset, Signed;
    OffsetDigits(hours, minutes);
    OffsetSum(ahead, hours, minutes);
    OffsetNarrowed(ahead, hours, minutes);
    var sign: Byte, h, m := if ahead then PLUS else DASH, Padded(hours, 1), Padded(minutes, 2);
    var s := OffsetText(ahead, hours, minutes, format);
    NumberReadSized(minutes, 2, []);
    assert m + [] == m;
    if format == Iso8601 {
      assert s[1..] == h + m;
      NumberReadSized(hours, 1, m);
    } else {
      assert s[1..] == h + ([COLON] + m);
      DigitsRead(hours, 1, [COLON] + m);
      ExpectedRead(COLON, m);
    }
  }

  lemma OffsetSum(ahead: bool, hours: nat, minutes: nat)
    requires hours <= 9 && minutes <= 99
    ensures var seconds := (hours * 60 + minutes) * 60 * if ahead then 1 else -1;
            forall s, t :: Offset(if ahead then PLUS else DASH, Number(hours, 1, s), Number(minutes, 2, t))
                           == Some(seconds)
  {
  }

  lemma OffsetNarrowed(ahead: bool, hours: nat, minutes: nat)
    requires hours <= 9 && minutes <= 99
    ensures var seconds := (hours * 60 + minutes) * 60 * if ahead then 1 else -1;
            Signed(seconds, 0x8000)
               == if -32768 <= seconds < 32768 then seconds else if ahead then seconds - 65536 else seconds + 65536
  {
  }

  /** A date of a four-digit year with an offset parses to its seconds and those of the offset
      exactly through 2038 and, in the readable formats, for offsets within 16 bits. */
  lemma OffsetShifts(d: DateTime, format: Format, ahead: bool, hours: nat, minutes: nat)
    requires ValidDate(d) && d.year <= 9999 && hours <= 9 && minutes <= 99
    ensures var seconds := (hours * 60 + minutes) * 60 * if ahead then 1 else -1;
            Parsed(PrintedIn(d, format, OffsetText(ahead, hours, minutes, format)), format)
            == Some((Seconds(d) + seconds) % WORD)
            <==> d.year <= 2038 && (format == Iso8601 || -32768 <= seconds < 32768)
  {
    hide DatePart, TimePart, OffsetPart, PrintedIn, Assembled, Seconds, Overflows;
    var seconds := (hours * 60 + minutes) * 60 * if ahead then 1 else -1;
    var date, time := PartsRead(d, format, OffsetText(ahead, hours, minutes, format));
    OffsetRead(ahead, hours, minutes, format);
    hide OffsetText;
    AssembledIsSeconds(d, date, time);
    ProductWraps(d.year);
    var offset := OffsetPart(time.rest, format).value;
    SumWraps(Seconds(d), Overflows(d.year), offset);
    SameModWord(Seconds(d) - Overflows(d.year) * 0x1_0000_0000 + offset, Seconds(d) + seconds);
  }

  lemma SumWraps(seconds: int, overflows: nat, offset: int)
    ensures ((seconds - overflows * 0x1_0000_0000) % WORD + offset) % WORD
         == (seconds - overflows * 0x1_0000_0000 + offset) % WORD
  {
    var n := seconds - overflows * 0x1_0000_0000;
    assert n == n / WORD * WORD + n % WORD;
  }

  lemma SameModWord(m: int, n: int)
    requires -WORD < m - n < WORD
    ensures m % WORD == n % WORD <==> m == n
  {
  }

  // ----- years of five digits

  lemma LongYearCounted(year: nat)
    requires 10000 <= year < YEAR_LIMIT
    ensures year < Power(10, 5) && Padded(year, 1) == Fixed(year, 5, 10, true)
  {
    TenThousand();
    hide Count, Power, Fixed;
    CountFits(year, 4, 10);
    CountFits(year, 5, 10);
  }

  /** The readable format prints all five digits, and the parser refuses them. */
  lemma LongYearRefused(d: DateTime)
    requires ValidDate(d) && 10000 <= d.year < YEAR_LIMIT
    ensures Parsed(Printed(d, Readable), Readable) == None
  {
    var tail := [COMMA] + ([SPACE] + Clock(d, [SPACE] + [LETTER_Z]));
    var year := Padded(d.year, 1) + tail;
    LongYearCounted(d.year);
    hide Digits10, NamedMonth, Padded, Expected, MonthName, Clock, NaturalRead, Power, Fixed;
    PrintThenRead(d.year, 5, tail);
    assert Digits10(year) == Some(Number(d.year, 5, tail)) by {
      DigitsAsNumber(year, d.year, 5, tail);
    }
    assert Year(Digits10(year)) == None;
    NamedMonthRead(d.month, Padded(d.day, 1) + ([SPACE] + year));
    SmallField(d.day, 1, [SPACE] + year, 1, 31);
    ExpectedRead(SPACE, year);
    hide Checked;
    assert ReadableDate(Printed(d, Readable)) == None;
  }

  lemma DigitsAsNumber(s: Text, num: nat, n: nat, tail: Text)
    requires NaturalRead([], false, s) == Some(Outcome(Natural(num, n), tail))
    ensures Digits10(s) == Some(Number(num, n, tail))
  {
  }

  /** The other formats print the last four digits, which stand for an earlier year. */
  lemma LongYearCut(d: DateTime, format: Format)
    requires ValidDate(d) && 10000 <= d.year < YEAR_LIMIT && format != Readable
    ensures Parsed(Printed(d, format), format) != Some(Seconds(d))
  {
    hide Parsed, Printed, Seconds, Overflows, DaysBefore;
    if d.year % 10000 < 1970 {
      EarlyYearRefused(d, format);
    } else {
      var c := PrintedAlike(d, format);
      ShortYearParsed(c, format);
      EarlierSeconds(c, d);
      SecondsBound(d);
      ProductWraps(c.year);
      FarFromEarlier(Seconds(c), Seconds(d), Overflows(c.year));
    }
  }

  lemma PrintedAlike(d: DateTime, format: Format) returns (c: DateTime)
    requires ValidDate(d) && 10000 <= d.year && d.year % 10000 >= 1970 && format != Readable
    ensures ValidDate(c) && c.year == d.year % 10000 && Printed(c, format) == Printed(d, format)
  {
    hide Padded;
    c := d.(year := d.year % 10000);
    SameLeapYear(d.year / 10000, d.year % 10000);
    hide IsLeapYear;
  }

  lemma SameLeapYear(q: nat, r: nat)
    ensures IsLeapYear(10000 * q + r) == IsLeapYear(r)
  {
    ByFour(2500 * q, r);
    ByHundred(100 * q, r);
    ByFourHundred(25 * q, r);
  }

  lemma ByFour(q: nat, r: nat)
    ensures (4 * q + r) % 4 == r % 4
  {
  }

  lemma ByHundred(q: nat, r: nat)
    ensures (100 * q + r) % 100 == r % 100
  {
  }

  lemma ByFourHundred(q: nat, r: nat)
    ensures (400 * q + r) % 400 == r % 400
  {
  }

  lemma SecondsBound(d: DateTime)
    requires ValidDate(d) && d.year < YEAR_LIMIT
    ensures Seconds(d) < 0x1_0000_0000_0000
  {
    hide LeapYears, Seconds;
    SecondsInYear(d);
    DaysBeforeGrows(d.year + 1, YEAR_LIMIT);
    YearStep(d.year);
    LeapYearsClosedForm(YEAR_LIMIT);
  }

  lemma EarlyYearRefused(d: DateTime, format: Format)
    requires ValidDate(d) && d.year % 10000 < 1970 && format != Readable
    ensures Parsed(Printed(d, format), format) == None
  {
    hide Padded, Clock;
    if format == Iso8601Readable {
      EarlyUntil(d.year % 10000, Padded(d.month, 2) + ([DASH] + (Padded(d.day, 2) + ([LETTER_T]
        + Clock(d, [LETTER_Z])))));
    } else {
      EarlySized(d.year % 10000, Padded(d.month, 2) + (Padded(d.day, 2) + ([LETTER_T]
        + (Padded(d.hour, 2) + (Padded(d.minute, 2) + (Padded(d.second, 2) + [LETTER_Z]))))));
    }
    hide IsoReadableDate, IsoDate;
  }

  lemma EarlyUntil(year: nat, tail: Text)
    requires year < 1970
    ensures IsoReadableDate(Padded(year, 4) + ([DASH] + tail)) == None
  {
    hide Padded, NumberUntil, Month, Day;
    PaddedFits(year, 4);
    NumberReadUntil(year, 4, [DASH], true, [DASH] + tail);
  }

  lemma EarlySized(year: nat, tail: Text)
    requires year < 1970
    ensures IsoDate(Padded(year, 4) + tail) == None
  {
    hide Padded, NumberOf, Month, Day;
    SizedField(year, 4, tail);
  }

  lemma EarlierSeconds(c: DateTime, d: DateTime)
    requires ValidDate(c) && ValidDate(d) && c.year < d.year
    ensures 0 <= Seconds(c) < Seconds(d)
  {
    hide LeapYears, Seconds;
    SecondsInYear(c);
    SecondsInYear(d);
    DaysBeforeGrows(c.year, d.year);
  }

  lemma FarFromEarlier(earlier: nat, later: nat, overflows: nat)
    requires earlier < later < 0x1_0000_0000_0000 && overflows < 60
    ensures (earlier - overflows * 0x1_0000_0000) % WORD != later
  {
    var n := earlier - overflows * 0x1_0000_0000;
    if n >= 0 {
      assert n % WORD == n;
    } else {
      assert n % WORD == n + WORD;
    }
  }

  // ----- the theorem

  /** In each of the three formats and for every date whose year fits its 16 bits, parsing the
      printed date gives back its seconds exactly for the years through 2038. */
  lemma RoundTrip(d: DateTime, format: Format)
    requires ValidDate(d) && d.year < YEAR_LIMIT
    ensures Parsed(Printed(d, format), format) == Some(Seconds(d)) <==> d.year <= 2038
  {
    hide Parsed, Printed, Seconds, Overflows;
    if d.year <= 9999 {
      ShortYearParsed(d, format);
      SecondsFit(d);
      ProductWraps(d.year);
      WrappedSeconds(Seconds(d), Overflows(d.year));
    } else if format == Readable {
      LongYearRefused(d);
    } else {
      LongYearCut(d, format);
    }
  }

  /** The same over moments: printing and parsing is the identity exactly before the year 2039. */
  lemma RoundTripBefore2039(d: DateTime, format: Format)
    requires ValidDate(d) && d.year < YEAR_LIMIT
    ensures Parsed(Printed(d, format), format) == Some(Seconds(d)) <==> Seconds(d) < DaysBefore(2039) * PER_DAY
  {
    hide Parsed, Printed, Seconds, DaysBefore;
    RoundTrip(d, format);
    SecondsInYear(d);
    if d.year <= 2038 {
      DaysBeforeGrows(d.year, 2039);
    } else {
      DaysBeforeGrows(2039, d.year);
    }
  }
}
