/** Printing a date in three formats. */
module CalendarPrinter {
  import opened Stream
  import opened Reading
  import opened NumberText
  import opened Calendar

  const SPACE: Byte := 0x20
  const COMMA: Byte := 0x2C
  const COLON: Byte := 0x3A
  const DASH: Byte := 0x2D
  const PLUS: Byte := 0x2B
  const LETTER_T: Byte := 0x54
  const LETTER_Z: Byte := 0x5A

  datatype Format = Readable | Iso8601 | Iso8601Readable

  // ----- printing

  function MonthName(month: nat): (name: Text)
    requires 1 <= month <= 12
    ensures |name| <= 4
  {
    match month
    case 1 => [0x4A, 0x61, 0x6E]
    case 2 => [0x46, 0x65, 0x62]
    case 3 => [0x4D, 0x61, 0x72]
    case 4 => [0x41, 0x70, 0x72]
    case 5 => [0x4D, 0x61, 0x79]
    case 6 => [0x4A, 0x75, 0x6E, 0x65]
    case 7 => [0x4A, 0x75, 0x6C, 0x79]
    case 8 => [0x41, 0x75, 0x67]
    case 9 => [0x53, 0x65, 0x70]
    case 10 => [0x4F, 0x63, 0x74]
    case 11 => [0x4E, 0x6F, 0x76]
    case _ => [0x44, 0x65, 0x63]
  }

  /** The number printed with at least width digits. */
  function Padded(num: nat, width: nat): Text {
    Fixed(num, if Count(num, 10) < width then width else Count(num, 10), 10, true)
  }

  /** The four-digit field of a year; of a longer one, it holds the last four digits. */
  function YearField(year: nat): Text { Padded(year % 10000, 4) }

  /** hh:mm:ss and what follows it. */
  function Clock(d: DateTime, tail: Text): Text {
    Padded(d.hour, 2) + ([COLON] + (Padded(d.minute, 2) + ([COLON] + (Padded(d.second, 2) + tail))))
  }

  /** A date is printed in UTC. */
  function Printed(d: DateTime, format: Format): Text
    requires ValidDate(d)
  {
    PrintedIn(d, format, [LETTER_Z])
  }

  /** The date and what says in which zone it is meant. */
  function PrintedIn(d: DateTime, format: Format, zone: Text): Text
    requires ValidDate(d)
  {
    match format
    case Readable =>
      MonthName(d.month) + ([SPACE] + (Padded(d.day, 1) + ([SPACE] + (Padded(d.year, 1) + ([COMMA] + ([SPACE]
      + Clock(d, [SPACE] + zone)))))))
    case Iso8601Readable =>
      YearField(d.year) + ([DASH] + (Padded(d.month, 2) + ([DASH] + (Padded(d.day, 2) + ([LETTER_T]
      + Clock(d, zone))))))
    case Iso8601 =>
      YearField(d.year) + (Padded(d.month, 2) + (Padded(d.day, 2) + ([LETTER_T]
      + (Padded(d.hour, 2) + (Padded(d.minute, 2) + (Padded(d.second, 2) + zone))))))
  }

  /** One number of a date: with width 1 as it is, otherwise padded to the width. */
  method PrintNumber(num: nat, width: nat) returns (s: Text)
    requires num < WORD && 1 <= width <= 4 && (width == 1 || Count(num, 10) <= width)
    ensures s == Padded(num, width)
  {
    hide Fixed, Count, Numeral;
    var options := Options(10, if width == 1 then NO_WIDTH else width, true, SIGN_FOR_NEGATIVES, false);
    var ok;
    ok, s := NumToString(num, options);
    NumeralMeaning(num, options);
    assert [] + Padded(num, width) == Padded(num, width);
  }

  method PrintYear(year: nat) returns (s: Text)
    requires year < YEAR_LIMIT
    ensures s == YearField(year)
  {
    hide Fixed, Count, Shown, Power;
    var options := Options(10, 4, true, SIGN_FOR_NEGATIVES, false);
    var ok;
    ok, s := NumToString(year, options);
    FieldOfYear(year, options);
    assert [] + YearField(year) == YearField(year);
  }

  lemma FieldOfYear(year: nat, options: Options)
    requires year < YEAR_LIMIT && options.base == 10 && options.width == 4 && options.upper
    ensures Numeral(year, options) == YearField(year)
  {
    TenThousand();
    hide Count, Power, Fixed, Numeral;
    CountFits(year, 4, 10);
    CountFits(year, 5, 10);
    CountFits(year % 10000, 4, 10);
    NumeralMeaning(year, options);
    if year >= 10000 {
      FixedFront(year / 10000, year % 10000, 4, 10, true);
    }
  }

  lemma TenThousand()
    ensures Power(10, 2) == 100 && Power(10, 4) == 10000 && Power(10, 5) == 100000
  {
    assert Power(10, 2) == 10 * Power(10, 1) == 100;
    assert Power(10, 4) == 10 * Power(10, 3) == 10000;
  }

  // ----- the layout, without the functions that print it

  /** The digits of s stand for the value. */
  predicate Reads(s: Text, value: nat) {
    s != [] && (forall i :: 0 <= i < |s| ==> 0x30 <= s[i] <= 0x39) && Value(s, 10) == value
  }

  const MONTHS: seq<string> :=
    ["Jan", "Feb", "Mar", "Apr", "May", "June", "July", "Aug", "Sep", "Oct", "Nov", "Dec"]

  /** Whether the bytes are the characters of the string. */
  predicate Spells(s: Text, chars: string) {
    |s| == |chars| && forall i :: 0 <= i < |s| ==> s[i] == chars[i] as int
  }

  /** hh:mm:ss at position o. */
  predicate ClockAt(t: Text, o: nat, d: DateTime) {
    && o + 8 <= |t| && t[o + 2] == ':' as int && t[o + 5] == ':' as int
    && Reads(t[o..o + 2], d.hour) && Reads(t[o + 3..o + 5], d.minute) && Reads(t[o + 6..o + 8], d.second)
  }

  /** "Mon D YYYY, hh:mm:ss Z", without padding of day and year. */
  predicate ReadableLayout(t: Text, d: DateTime, name: string) {
    var m := |name|;
    var y := if d.day < 10 then m + 3 else m + 4;
    && y <= |t| && Spells(t[..m], name) && t[m] == ' ' as int
    && Reads(t[m + 1..y - 1], d.day) && t[y - 1] == ' ' as int
    && YearAt(t, y, d)
  }

  /** "YYYY, hh:mm:ss Z" from position y to the end. */
  predicate YearAt(t: Text, y: nat, d: DateTime) {
    var c := if d.year < 10000 then y + 4 else y + 5;
    && |t| == c + 12 && Reads(t[y..c], d.year) && t[c] == ',' as int && t[c + 1] == ' ' as int
    && ClockAt(t, c + 2, d) && t[c + 10] == ' ' as int && t[c + 11] == 'Z' as int
  }

  /** "YYYY-MM-DDThh:mm:ssZ", with the last four digits of the year. */
  predicate IsoReadableLayout(t: Text, d: DateTime) {
    && |t| == 20 && Reads(t[..4], d.year % 10000) && t[4] == '-' as int
    && Reads(t[5..7], d.month) && t[7] == '-' as int && Reads(t[8..10], d.day) && t[10] == 'T' as int
    && ClockAt(t, 11, d) && t[19] == 'Z' as int
  }

  /** "YYYYMMDDThhmmssZ", with the last four digits of the year. */
  predicate IsoLayout(t: Text, d: DateTime) {
    && |t| == 16 && Reads(t[..4], d.year % 10000) && Reads(t[4..6], d.month) && Reads(t[6..8], d.day)
    && t[8] == 'T' as int && Reads(t[9..11], d.hour) && Reads(t[11..13], d.minute) && Reads(t[13..15], d.second)
    && t[15] == 'Z' as int
  }

  predicate Layout(t: Text, d: DateTime, format: Format)
    requires ValidDate(d)
  {
    match format
    case Readable => ReadableLayout(t, d, MONTHS[d.month - 1])
    case Iso8601Readable => IsoReadableLayout(t, d)
    case Iso8601 => IsoLayout(t, d)
  }

  lemma PaddedReads(num: nat, width: nat)
    requires width >= 1
    ensures Reads(Padded(num, width), num)
  {
    hide Fixed, Power, Value, Count;
    var n := |Padded(num, width)|;
    CountIsLength(num, 10);
    PowerGrows(10, Count(num, 10), n);
    FixedMeaning(num, n, 10, true);
  }

  /** A field of two digits, or of four. */
  lemma FieldReads(num: nat, width: nat)
    requires if width == 4 then num < 10000 else width == 2 && num < 100
    ensures Reads(Padded(num, width), num) && |Padded(num, width)| == width
  {
    PaddedReads(num, width);
    TenThousand();
    hide Fixed, Power, Value, Count;
    CountFits(num, width, 10);
  }

  /** A number without padding. */
  lemma PlainReads(num: nat)
    requires num < YEAR_LIMIT
    ensures Reads(Padded(num, 1), num)
    ensures |Padded(num, 1)| == Count(num, 10)
    ensures num < 10 ==> |Padded(num, 1)| == 1
    ensures 10 <= num < 100 ==> |Padded(num, 1)| == 2
    ensures 1000 <= num < 10000 ==> |Padded(num, 1)| == 4
    ensures 10000 <= num ==> |Padded(num, 1)| == 5
  {
    PaddedReads(num, 1);
    TenThousand();
    assert Power(10, 1) == 10 && Power(10, 3) == 1000;
    hide Fixed, Power, Value, Count;
    CountFits(num, 1, 10);
    CountFits(num, 2, 10);
    CountFits(num, 3, 10);
    CountFits(num, 4, 10);
    CountFits(num, 5, 10);
  }

  lemma NameIsSpelled(month: nat)
    requires 1 <= month <= 12
    ensures Spells(MonthName(month), MONTHS[month - 1])
  {
  }

  /** Takes a piece off what is left of t from position o on. */
  lemma Piece(t: Text, o: nat, piece: Text, rest: Text)
    requires o <= |t| && t[o..] == piece + rest
    ensures o + |piece| <= |t| && t[o..o + |piece|] == piece && t[o + |piece|..] == rest
    ensures |piece| == 1 ==> t[o] == piece[0]
  {
    assert t[o..][..|piece|] == piece && t[o..][|piece|..] == rest;
  }

  lemma ClockLies(t: Text, o: nat, d: DateTime, tail: Text)
    requires ValidDate(d) && o <= |t| && t[o..] == Clock(d, tail)
    ensures o + 8 <= |t| && ClockAt(t, o, d) && t[o + 8..] == tail
  {
    hide Padded, Reads;
    FieldReads(d.hour, 2);
    FieldReads(d.minute, 2);
    FieldReads(d.second, 2);
    var second := Padded(d.second, 2) + tail;
    var minute := Padded(d.minute, 2) + ([COLON] + second);
    Piece(t, o, Padded(d.hour, 2), [COLON] + minute);
    Piece(t, o + 2, [COLON], minute);
    Piece(t, o + 3, Padded(d.minute, 2), [COLON] + second);
    Piece(t, o + 5, [COLON], second);
    Piece(t, o + 6, Padded(d.second, 2), tail);
  }

  /** The first pieces of t: two texts, each with what follows it. */
  lemma TwoPieces(t: Text, a: Text, b: Byte, c: Text, d: Byte, rest: Text)
    requires t == a + ([b] + (c + ([d] + rest)))
    ensures var m := |a|;
            var y := m + |c| + 2;
            y <= |t| && t[..m] == a && t[m] == b && t[m + 1..y - 1] == c && t[y - 1] == d && t[y..] == rest
  {
    assert t[0..] == t;
    Piece(t, 0, a, [b] + (c + ([d] + rest)));
    Piece(t, |a|, [b], c + ([d] + rest));
    Piece(t, |a| + 1, c, [d] + rest);
    Piece(t, |a| + 1 + |c|, [d], rest);
  }

  lemma IsoReadableLies(d: DateTime)
    requires ValidDate(d)
    ensures IsoReadableLayout(Printed(d, Iso8601Readable), d)
  {
    var t := Printed(d, Iso8601Readable);
    var tail := Clock(d, [LETTER_Z]);
    var day := Padded(d.day, 2) + ([LETTER_T] + tail);
    hide Padded, Reads, ClockAt, Clock;
    TwoPieces(t, YearField(d.year), DASH, Padded(d.month, 2), DASH, day);
    hide Printed;
    FieldReads(d.year % 10000, 4);
    FieldReads(d.month, 2);
    FieldReads(d.day, 2);
    Piece(t, 8, Padded(d.day, 2), [LETTER_T] + tail);
    Piece(t, 10, [LETTER_T], tail);
    ClockLies(t, 11, d, [LETTER_Z]);
    assert t[19..][0] == t[19];
  }

  lemma IsoTimeLies(t: Text, o: nat, d: DateTime)
    requires ValidDate(d) && o <= |t|
    requires t[o..] == Padded(d.hour, 2) + (Padded(d.minute, 2) + (Padded(d.second, 2) + [LETTER_Z]))
    ensures |t| == o + 7 && Reads(t[o..o + 2], d.hour) && Reads(t[o + 2..o + 4], d.minute)
    ensures Reads(t[o + 4..o + 6], d.second) && t[o + 6] == LETTER_Z
  {
    hide Padded, Reads;
    FieldReads(d.hour, 2);
    FieldReads(d.minute, 2);
    FieldReads(d.second, 2);
    var second := Padded(d.second, 2) + [LETTER_Z];
    var minute := Padded(d.minute, 2) + second;
    Piece(t, o, Padded(d.hour, 2), minute);
    Piece(t, o + 2, Padded(d.minute, 2), second);
    Piece(t, o + 4, Padded(d.second, 2), [LETTER_Z]);
    assert t[o + 6..][0] == t[o + 6];
  }

  lemma IsoLies(d: DateTime)
    requires ValidDate(d)
    ensures IsoLayout(Printed(d, Iso8601), d)
  {
    var t := Printed(d, Iso8601);
    var hour := Padded(d.hour, 2) + (Padded(d.minute, 2) + (Padded(d.second, 2) + [LETTER_Z]));
    hide Padded, Reads, IsoLayout;
    FieldReads(d.year % 10000, 4);
    FieldReads(d.month, 2);
    FieldReads(d.day, 2);
    IsoDateLies(t, Padded(d.year % 10000, 4), Padded(d.month, 2), Padded(d.day, 2), hour);
    IsoTimeLies(t, 9, d);
    IsoFits(d, t, Padded(d.year % 10000, 4), Padded(d.month, 2), Padded(d.day, 2));
  }

  lemma IsoFits(d: DateTime, t: Text, year: Text, month: Text, day: Text)
    requires |t| == 16 && t[..4] == year && t[4..6] == month && t[6..8] == day && t[8] == LETTER_T
    requires Reads(year, d.year % 10000) && Reads(month, d.month) && Reads(day, d.day)
    requires Reads(t[9..11], d.hour) && Reads(t[11..13], d.minute) && Reads(t[13..15], d.second) && t[15] == LETTER_Z
    ensures IsoLayout(t, d)
  {
    hide Reads;
  }

  lemma IsoDateLies(t: Text, year: Text, month: Text, day: Text, tail: Text)
    requires |year| == 4 && |month| == 2 && |day| == 2 && t == year + (month + (day + ([LETTER_T] + tail)))
    ensures |t| == 9 + |tail|
    ensures t[..4] == year && t[4..6] == month && t[6..8] == day && t[8] == LETTER_T && t[9..] == tail
  {
    assert t[0..] == t;
    Piece(t, 0, year, month + (day + ([LETTER_T] + tail)));
    Piece(t, 4, month, day + ([LETTER_T] + tail));
    Piece(t, 6, day, [LETTER_T] + tail);
    Piece(t, 8, [LETTER_T], tail);
  }

  lemma ReadableYearLies(d: DateTime, t: Text, y: nat)
    requires ValidDate(d) && d.year < YEAR_LIMIT && y <= |t|
    requires t[y..] == Padded(d.year, 1) + ([COMMA] + ([SPACE] + Clock(d, [SPACE] + [LETTER_Z])))
    ensures YearAt(t, y, d)
  {
    hide Padded, Reads, ClockAt, Clock;
    PlainReads(d.year);
    var tail := Clock(d, [SPACE] + [LETTER_Z]);
    var c := y + |Padded(d.year, 1)|;
    Piece(t, y, Padded(d.year, 1), [COMMA] + ([SPACE] + tail));
    Piece(t, c, [COMMA], [SPACE] + tail);
    Piece(t, c + 1, [SPACE], tail);
    ClockLies(t, c + 2, d, [SPACE] + [LETTER_Z]);
    Piece(t, c + 10, [SPACE], [LETTER_Z]);
    assert t[c + 11..][0] == t[c + 11];
  }

  lemma SpelledLength(s: Text, chars: string)
    requires Spells(s, chars)
    ensures |s| == |chars|
  {
  }

  lemma DayFits(d: DateTime)
    requires ValidDate(d)
    ensures 1 <= d.day <= 31
  {
  }

  lemma ReadableLies(d: DateTime, t: Text, name: Text, chars: string)
    requires ValidDate(d) && d.year < YEAR_LIMIT && Spells(name, chars)
    requires t == name + ([SPACE] + (Padded(d.day, 1) + ([SPACE] + (Padded(d.year, 1) + ([COMMA] + ([SPACE]
                  + Clock(d, [SPACE] + [LETTER_Z])))))))
    ensures ReadableLayout(t, d, chars)
  {
    hide Padded, Reads, Clock, YearAt, Spells, ReadableLayout;
    DayFits(d);
    PlainReads(d.day);
    var year := Padded(d.year, 1) + ([COMMA] + ([SPACE] + Clock(d, [SPACE] + [LETTER_Z])));
    TwoPieces(t, name, SPACE, Padded(d.day, 1), SPACE, year);
    ReadableYearLies(d, t, |name| + |Padded(d.day, 1)| + 2);
    ReadableFits(d, t, name, chars, Padded(d.day, 1));
  }

  lemma ReadableFits(d: DateTime, t: Text, name: Text, chars: string, day: Text)
    requires Spells(name, chars) && Reads(day, d.day) && |day| == if d.day < 10 then 1 else 2
    requires var m := |name|;
             var y := m + |day| + 2;
             && y <= |t| && t[..m] == name && t[m] == SPACE && t[m + 1..y - 1] == day && t[y - 1] == SPACE
             && YearAt(t, y, d)
    ensures ReadableLayout(t, d, chars)
  {
    hide Reads, YearAt, Spells;
    SpelledLength(name, chars);
  }

  lemma PrintedLayout(d: DateTime, format: Format)
    requires ValidDate(d) && d.year < YEAR_LIMIT
    ensures Layout(Printed(d, format), d, format)
  {
    hide ReadableLayout, IsoReadableLayout, IsoLayout, Spells, MonthName, Clock, Padded;
    match format
    case Readable =>
      NameIsSpelled(d.month);
      ReadableLies(d, Printed(d, format), MonthName(d.month), MONTHS[d.month - 1]);
    case Iso8601Readable => IsoReadableLies(d);
    case Iso8601 => IsoLies(d);
  }

  /** Prints a date. */
  method Print(d: DateTime, format: Format) returns (text: Text)
    requires ValidDate(d) && d.year < YEAR_LIMIT
    ensures text == Printed(d, format) && Layout(text, d, format)
  {
    hide Padded, YearField, Layout;
    PrintedLayout(d, format);
    FieldsFit(d);
    var year;
    if format == Readable {
      year := PrintNumber(d.year, 1);
    } else {
      year := PrintYear(d.year);
    }
    var month := PrintNumber(d.month, 2);
    var day := PrintNumber(d.day, if format == Readable then 1 else 2);
    var hour := PrintNumber(d.hour, 2);
    var minute := PrintNumber(d.minute, 2);
    var second := PrintNumber(d.second, 2);
    match format
    case Readable =>
      text := MonthName(d.month) + ([SPACE] + (day + ([SPACE] + (year + ([COMMA] + ([SPACE]
        + (hour + ([COLON] + (minute + ([COLON] + (second + ([SPACE] + [LETTER_Z]))))))))))));
    case Iso8601Readable =>
      text := year + ([DASH] + (month + ([DASH] + (day + ([LETTER_T]
        + (hour + ([COLON] + (minute + ([COLON] + (second + [LETTER_Z]))))))))));
    case Iso8601 =>
      text := year + (month + (day + ([LETTER_T] + (hour + (minute + (second + [LETTER_Z]))))));
  }

  lemma FieldsFit(d: DateTime)
    requires ValidDate(d)
    ensures Count(d.month, 10) <= 2 && Count(d.day, 10) <= 2
    ensures Count(d.hour, 10) <= 2 && Count(d.minute, 10) <= 2 && Count(d.second, 10) <= 2
  {
    TenThousand();
    hide Count, Power;
    CountFits(d.month, 2, 10);
    CountFits(d.day, 2, 10);
    CountFits(d.hour, 2, 10);
    CountFits(d.minute, 2, 10);
    CountFits(d.second, 2, 10);
  }

  /** Prints a moment: the civil date with that many seconds. */
  method GetFormattedDateTime(epoch: nat, format: Format) returns (text: Text)
    requires epoch < DaysBefore(YEAR_LIMIT) * PER_DAY
    ensures forall d :: ValidDate(d) && Seconds(d) == epoch ==> text == Printed(d, format) && Layout(text, d, format)
  {
    hide DaysBefore, Seconds, Printed, ValidDate, Layout;
    var date := FromEpoch(epoch);
    text := Print(date, format);
    forall d | ValidDate(d) && Seconds(d) == epoch
      ensures d == date
    {
      DateIsUnique(d, date);
    }
  }
}
