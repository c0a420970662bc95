/** The date parsers as they consume a stream. */
module CalendarParser {
  import opened Optional
  import opened Stream
  import opened Reading
  import opened StreamReader
  import opened NumberText
  import opened Calendar
  import opened CalendarPrinter
  import opened CalendarText

  /** A stream that is bad only because it has ended. */
  ghost predicate Open(stream: EStream)
    reads stream, stream.buffer
  {
    stream.Valid() && (stream.bad ==> stream.Rest() == [])
  }

  /** A step of a parser against what the step is on a plain text. */
  ghost predicate Took(p: Option<Piece>, ok: bool, value: nat, rest: Text) {
    match p
    case None => !ok
    case Some(piece) => ok && value == piece.value && rest == piece.rest
  }

  lemma NothingToRead(until: Text, consume: bool, n: nat)
    ensures NaturalRead(until, consume, []) == None && NaturalOf(n, []) == None
    ensures Read(Criteria(UntilMatch(until, true), 0, Good), Collecting, Bytes([]), []) == None
  {
  }

  // ----- the steps

  method TakeUntil(stream: EStream, until: Text, consume: bool, width: nat, low: nat, high: nat, digits: nat)
      returns (ok: bool, value: nat)
    requires Open(stream) && width > 0
    modifies stream, stream.buffer
    ensures stream.Valid() && (ok ==> Open(stream))
    ensures var p := Checked(NumberUntil(until, consume, old(stream.Rest())), width, low, high, digits);
            Took(p, ok, value, stream.Rest())
  {
    hide NaturalRead, EStream.Rest, EStream.Past, EStream.Valid, Flatten;
    NothingToRead(until, consume, 0);
    var count;
    ok, value, count := ReadNatural(stream, until, consume);
    value := value % width;
    ok := ok && low <= value <= high && count <= digits;
  }

  method TakeDigits(stream: EStream, width: nat, low: nat, high: nat, digits: nat) returns (ok: bool, value: nat)
    requires Open(stream) && width > 0
    modifies stream, stream.buffer
    ensures stream.Valid() && (ok ==> Open(stream))
    ensures Took(Checked(Digits10(old(stream.Rest())), width, low, high, digits), ok, value, stream.Rest())
  {
    ok, value := TakeUntil(stream, [], false, width, low, high, digits);
  }

  method TakeSized(stream: EStream, n: nat, width: nat, low: nat, high: nat, digits: nat) returns (ok: bool, value: nat)
    requires Open(stream) && width > 0
    modifies stream, stream.buffer
    ensures stream.Valid() && (ok ==> Open(stream))
    ensures Took(Checked(NumberOf(n, old(stream.Rest())), width, low, high, digits), ok, value, stream.Rest())
  {
    hide NaturalOf;
    NothingToRead([], false, n);
    var count;
    ok, value, count := ReadNaturalOf(stream, n);
    value := value % width;
    ok := ok && low <= value <= high && count <= digits;
  }

  method TakeByte(stream: EStream) returns (ok: bool, c: Byte)
    requires Open(stream)
    modifies stream, stream.buffer
    ensures stream.Valid() && (ok ==> Open(stream))
    ensures Took(NextByte(old(stream.Rest())), ok, c, stream.Rest())
  {
    ok, c := stream.Get();
  }

  method Expect(stream: EStream, c: Byte) returns (ok: bool)
    requires Open(stream)
    modifies stream, stream.buffer
    ensures stream.Valid() && (ok ==> Open(stream))
    ensures match Expected(c, old(stream.Rest()))
            case None => !ok
            case Some(rest) => ok && stream.Rest() == rest
  {
    var next;
    ok, next := TakeByte(stream);
    ok := ok && next == c;
  }

  method TakeMonthName(stream: EStream) returns (ok: bool, month: nat)
    requires Open(stream)
    modifies stream, stream.buffer
    ensures stream.Valid() && (ok ==> Open(stream))
    ensures Took(NamedMonth(old(stream.Rest())), ok, month, stream.Rest())
  {
    hide Read;
    NothingToRead([SPACE], false, 0);
    var name;
    ok, name := ReadUntil(stream, [SPACE], Collecting);
    month := MonthNumber(name, 1);
    ok := ok && month != 0;
  }

  /** Adds seconds, or takes them away, in 64-bit words; total is the sum without wrap-around. */
  method Add(epoch: nat, n: int, ghost total: int) returns (sum: nat)
    requires epoch == total % WORD
    ensures sum == (total + n) % WORD
  {
    sum := (epoch + n) % WORD;
  }

  /** Adds the seconds up, field by field. */
  method Assemble(date: Date, time: Time) returns (epoch: nat)
    requires ValidFields(date)
    ensures epoch == Assembled(date, time)
  {
    hide LeapYears, Int32, SecondsUpUntilMonth;
    var leapYears := GetNumLeapYears(date.year);
    var product, upToMonth := Int32((date.year - 1970) * PER_NON_LEAP_YEAR), SecondsUpUntilMonth(date.month, date.year);
    epoch := Add(0, product, 0);
    epoch := Add(epoch, leapYears * PER_DAY, product);
    ghost var total := product + leapYears * PER_DAY;
    epoch := Add(epoch, upToMonth, total);
    epoch := Add(epoch, (date.day - 1) * PER_DAY, total + upToMonth);
    total := total + upToMonth + (date.day - 1) * PER_DAY;
    epoch := Add(epoch, time.hour * PER_HOUR, total);
    epoch := Add(epoch, time.minute * PER_MINUTE, total + time.hour * PER_HOUR);
    epoch := Add(epoch, time.second, total + time.hour * PER_HOUR + time.minute * PER_MINUTE);
  }

  /** A number of an offset: the digits ahead, or n of them. */
  method TakeNumber(stream: EStream, n: nat) returns (ok: bool, value: nat, count: nat)
    requires Open(stream)
    modifies stream, stream.buffer
    ensures stream.Valid() && (ok ==> Open(stream))
    ensures var r := if n == 0 then Digits10(old(stream.Rest())) else NumberOf(n, old(stream.Rest()));
            if ok then r == Some(Number(value, count, stream.Rest())) else r == None
  {
    hide NaturalRead, NaturalOf;
    NothingToRead([], false, n);
    if n == 0 {
      ok, value, count := ReadNatural(stream, [], false);
    } else {
      ok, value, count := ReadNaturalOf(stream, n);
    }
  }

  /** The offset after a time: Z, or a sign and hours and minutes, with a colon or without. */
  method ParseOffset(stream: EStream, format: Format) returns (ok: bool, offset: int)
    requires Open(stream)
    modifies stream, stream.buffer
    ensures stream.Valid()
    ensures var r := OffsetPart(old(stream.Rest()), format); if ok then r == Some(offset) else r == None
  {
    hide Digits10, NumberOf, Signed, NextByte, Expected;
    offset := 0;
    var sign, hours, hourDigits, minutes, minuteDigits;
    ok, sign := TakeByte(stream);
    if !ok || sign == LETTER_Z {
      return;
    }
    if sign != PLUS && sign != DASH {
      return false, 0;
    }
    ok, hours, hourDigits := TakeNumber(stream, if format == Iso8601 then 1 else 0);
    if !ok {
      return;
    }
    if format != Iso8601 {
      ok := Expect(stream, COLON);
      if !ok {
        return;
      }
    }
    ok, minutes, minuteDigits := TakeNumber(stream, 2);
    if !ok || hourDigits > 1 || minuteDigits > 2 {
      return false, 0;
    }
    offset := Signed(hours % 256, 128) * PER_HOUR + Signed(minutes % 256, 128) * PER_MINUTE;
    offset := if sign == PLUS then offset else -offset;
    offset := if format == Iso8601 then offset else Signed(offset, 0x8000);
  }

  // ----- the parsers

  /** A date or a time that was read, against what it is in the text. */
  ghost predicate TookDate(r: Option<Date>, ok: bool, year: nat, month: nat, day: nat, rest: Text) {
    if ok then r == Some(Date(year, month, day, rest)) else r == None
  }

  ghost predicate TookTime(r: Option<Time>, ok: bool, hour: nat, minute: nat, second: nat, rest: Text) {
    if ok then r == Some(Time(hour, minute, second, rest)) else r == None
  }

  method ParseReadableDate(stream: EStream) returns (ok: bool, year: nat, month: nat, day: nat)
    requires Open(stream)
    modifies stream, stream.buffer
    ensures stream.Valid() && (ok ==> Open(stream))
    ensures TookDate(ReadableDate(old(stream.Rest())), ok, year, month, day, stream.Rest())
  {
    hide NamedMonth, Checked, Digits10, Expected;
    year, day := 0, 0;
    ok, month := TakeMonthName(stream);
    if !ok { return; }
    ok, day := TakeDigits(stream, 256, 1, 31, 2);
    if !ok { return; }
    ok := Expect(stream, SPACE);
    if !ok { return; }
    ok, year := TakeDigits(stream, YEAR_LIMIT, 1970, 9999, 4);
    if !ok { return; }
    ok := Expect(stream, COMMA);
    if !ok { return; }
    ok := Expect(stream, SPACE);
  }

  method ParseReadableTime(stream: EStream) returns (ok: bool, hour: nat, minute: nat, second: nat)
    requires Open(stream)
    modifies stream, stream.buffer
    ensures stream.Valid() && (ok ==> Open(stream))
    ensures TookTime(ReadableTime(old(stream.Rest())), ok, hour, minute, second, stream.Rest())
  {
    hide Checked, Digits10, Expected;
    minute, second := 0, 0;
    ok, hour := TakeDigits(stream, 256, 0, 23, 2);
    if !ok { return; }
    ok := Expect(stream, COLON);
    if !ok { return; }
    ok, minute := TakeDigits(stream, 256, 0, 59, 2);
    if !ok { return; }
    ok := Expect(stream, COLON);
    if !ok { return; }
    ok, second := TakeDigits(stream, 256, 0, 59, 2);
    if !ok { return; }
    ok := Expect(stream, SPACE);
  }

  method ParseIsoReadableDate(stream: EStream) returns (ok: bool, year: nat, month: nat, day: nat)
    requires Open(stream)
    modifies stream, stream.buffer
    ensures stream.Valid() && (ok ==> Open(stream))
    ensures TookDate(IsoReadableDate(old(stream.Rest())), ok, year, month, day, stream.Rest())
  {
    hide Checked, NumberUntil;
    month, day := 0, 0;
    ok, year := TakeUntil(stream, [DASH], true, YEAR_LIMIT, 1970, 9999, 4);
    if !ok { return; }
    ok, month := TakeUntil(stream, [DASH], true, 256, 1, 12, 2);
    if !ok { return; }
    ok, day := TakeUntil(stream, [LETTER_T], true, 256, 1, 31, 2);
  }

  method ParseIsoReadableTime(stream: EStream) returns (ok: bool, hour: nat, minute: nat, second: nat)
    requires Open(stream)
    modifies stream, stream.buffer
    ensures stream.Valid() && (ok ==> Open(stream))
    ensures TookTime(IsoReadableTime(old(stream.Rest())), ok, hour, minute, second, stream.Rest())
  {
    hide Checked, NumberUntil;
    minute, second := 0, 0;
    ok, hour := TakeUntil(stream, [COLON], true, 256, 0, 23, 2);
    if !ok { return; }
    ok, minute := TakeUntil(stream, [COLON], true, 256, 0, 59, 2);
    if !ok { return; }
    ok, second := TakeUntil(stream, [LETTER_Z, PLUS, DASH], false, 256, 0, 59, 2);
  }

  method ParseIsoDate(stream: EStream) returns (ok: bool, year: nat, month: nat, day: nat)
    requires Open(stream)
    modifies stream, stream.buffer
    ensures stream.Valid() && (ok ==> Open(stream))
    ensures TookDate(IsoDate(old(stream.Rest())), ok, year, month, day, stream.Rest())
  {
    hide Checked, NumberOf, NextByte;
    month, day := 0, 0;
    var letter;
    ok, year := TakeSized(stream, 4, YEAR_LIMIT, 1970, 9999, 4);
    if !ok { return; }
    ok, month := TakeSized(stream, 2, 256, 1, 12, 2);
    if !ok { return; }
    ok, day := TakeSized(stream, 2, 256, 1, 31, 2);
    if !ok { return; }
    ok, letter := TakeByte(stream);
  }

  method ParseIsoTime(stream: EStream) returns (ok: bool, hour: nat, minute: nat, second: nat)
    requires Open(stream)
    modifies stream, stream.buffer
    ensures stream.Valid() && (ok ==> Open(stream))
    ensures TookTime(IsoTime(old(stream.Rest())), ok, hour, minute, second, stream.Rest())
  {
    hide Checked, NumberOf;
    minute, second := 0, 0;
    ok, hour := TakeSized(stream, 2, 256, 0, 23, 2);
    if !ok { return; }
    ok, minute := TakeSized(stream, 2, 256, 0, 59, 2);
    if !ok { return; }
    ok, second := TakeSized(stream, 2, 256, 0, 59, 2);
  }

  method ParseDate(stream: EStream, format: Format) returns (ok: bool, year: nat, month: nat, day: nat)
    requires Open(stream)
    modifies stream, stream.buffer
    ensures stream.Valid() && (ok ==> Open(stream))
    ensures TookDate(DatePart(old(stream.Rest()), format), ok, year, month, day, stream.Rest())
  {
    match format
    case Readable => ok, year, month, day := ParseReadableDate(stream);
    case Iso8601Readable => ok, year, month, day := ParseIsoReadableDate(stream);
    case Iso8601 => ok, year, month, day := ParseIsoDate(stream);
  }

  method ParseTime(stream: EStream, format: Format) returns (ok: bool, hour: nat, minute: nat, second: nat)
    requires Open(stream)
    modifies stream, stream.buffer
    ensures stream.Valid() && (ok ==> Open(stream))
    ensures TookTime(TimePart(old(stream.Rest()), format), ok, hour, minute, second, stream.Rest())
  {
    match format
    case Readable => ok, hour, minute, second := ParseReadableTime(stream);
    case Iso8601Readable => ok, hour, minute, second := ParseIsoReadableTime(stream);
    case Iso8601 => ok, hour, minute, second := ParseIsoTime(stream);
  }

  method ParseDateTime(stream: EStream, format: Format) returns (ok: bool, epoch: nat)
    requires Open(stream)
    modifies stream, stream.buffer
    ensures var r := Parsed(old(stream.Rest()), format); if ok then r == Some(epoch) else r == None
  {
    hide DatePart, TimePart, OffsetPart, Assembled, EStream.Rest, EStream.Valid, Flatten;
    epoch := 0;
    var year, month, day, hour, minute, second, offset;
    ok, year, month, day := ParseDate(stream, format);
    if !ok { return; }
    ghost var afterDate := stream.Rest();
    ok, hour, minute, second := ParseTime(stream, format);
    if !ok { return; }
    ghost var afterTime := stream.Rest();
    ok, offset := ParseOffset(stream, format);
    if !ok { return; }
    epoch := Assemble(Date(year, month, day, []), Time(hour, minute, second, []));
    AssembledIgnoresRest(Date(year, month, day, afterDate), Time(hour, minute, second, afterTime));
    epoch := (epoch + offset) % WORD;
  }

  /** The seconds of a date printed in the format; false when the text is malformed. */
  method GetEpochFromFormattedDateTime(text: Text, format: Format) returns (ok: bool, epoch: nat)
    ensures if ok then Parsed(text, format) == Some(epoch) else Parsed(text, format) == None
  {
    hide Parsed;
    var bytes := new Byte[|text|](i requires 0 <= i < |text| => text[i]);
    assert bytes[..] == text;
    var stream := new EStream.FromMemory(bytes);
    ok, epoch := ParseDateTime(stream, format);
  }

  /** Printing a moment and parsing the text: for every moment whose year fits its 16 bits and
      each format, this is the identity if and only if the moment lies before the year 2039. */
  method PrintAndParse(epoch: nat, format: Format) returns (same: bool)
    requires epoch < DaysBefore(YEAR_LIMIT) * PER_DAY
    ensures same <==> epoch < DaysBefore(2039) * PER_DAY
  {
    hide DaysBefore, Seconds, Printed, Parsed, ValidDate;
    var d := FromEpoch(epoch);
    var text := GetFormattedDateTime(epoch, format);
    var ok, back := GetEpochFromFormattedDateTime(text, format);
    same := ok && back == epoch;
    RoundTripBefore2039(d, format);
  }

  lemma AssembledIgnoresRest(date: Date, time: Time)
    requires ValidFields(date)
    ensures Assembled(date, time) == Assembled(date.(rest := []), time.(rest := []))
  {
  }
}
