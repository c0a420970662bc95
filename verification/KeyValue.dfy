/** Key/value text: entries key=value, each closed by a delimiter, and a newline at the end. */
module KeyValue {
  import opened Optional
  import opened Stream
  import opened Reading
  import opened StreamReader

  const EQUALS: Byte := 0x3D
  const NEWLINE: Byte := 0x0A
  const BLANKS: seq<Byte> := [0x20, 0x09]
  const NAME_END: seq<Byte> := [EQUALS, NEWLINE]
  const MAX_LENGTH := 1024

  type Text = seq<Byte>
  datatype Entry = Entry(key: Text, value: Text)

  function ValueEnd(delim: Byte): (until: Text)
    ensures forall c :: c in until <==> c == NEWLINE || c == delim
  {
    if delim == NEWLINE then [NEWLINE] else [NEWLINE, delim]
  }

  // ----- printing

  function Line(e: Entry, keyDelim: Byte, delim: Byte): Text {
    e.key + [keyDelim] + e.value + [delim]
  }

  function Lines(entries: seq<Entry>, keyDelim: Byte, delim: Byte): Text {
    if entries == [] then [] else Line(entries[0], keyDelim, delim) + Lines(entries[1..], keyDelim, delim)
  }

  lemma {:induction false} LinesPush(entries: seq<Entry>, e: Entry, keyDelim: Byte, delim: Byte)
    ensures Lines(entries + [e], keyDelim, delim) == Lines(entries, keyDelim, delim) + Line(e, keyDelim, delim)
  {
    if entries == [] {
      assert entries + [e] == [e];
      assert Lines([e], keyDelim, delim) == Line(e, keyDelim, delim) + Lines([], keyDelim, delim);
    } else {
      LinesPush(entries[1..], e, keyDelim, delim);
      assert (entries + [e])[0] == entries[0] && (entries + [e])[1..] == entries[1..] + [e];
    }
  }

  /** Prints a map, whose entries come in some order. */
  method ToString(entries: seq<Entry>, keyDelim: Byte, delim: Byte) returns (kv: Text)
    ensures kv == Lines(entries, keyDelim, delim) + [NEWLINE]
    ensures |kv| == Offset(entries, |entries|) + 1 && kv[|kv| - 1] == 0x0A
    ensures forall i :: 0 <= i < |entries| ==> EntryAt(kv, Offset(entries, i), entries[i], keyDelim, delim)
  {
    hide Lines, EntryAt;
    kv := [];
    LinesOfNothing(keyDelim, delim);
    for i := 0 to |entries|
      invariant kv == Lines(entries[..i], keyDelim, delim)
    {
      LinesPush(entries[..i], entries[i], keyDelim, delim);
      assert entries[..i + 1] == entries[..i] + [entries[i]];
      assert kv + Line(entries[i], keyDelim, delim) == kv + entries[i].key + [keyDelim] + entries[i].value + [delim];
      kv := kv + entries[i].key;
      kv := kv + [keyDelim];
      kv := kv + entries[i].value;
      kv := kv + [delim];
    }
    assert entries[..|entries|] == entries;
    EntriesLieAt(entries, keyDelim, delim);
    forall i | 0 <= i < |entries|
      ensures EntryAt(kv + [NEWLINE], Offset(entries, i), entries[i], keyDelim, delim)
    {
      EntryStays(kv, [NEWLINE], Offset(entries, i), entries[i], keyDelim, delim);
    }
    kv := kv + [NEWLINE];
  }

  /** Where entry i begins: behind those before it, each with its two delimiters. */
  function Offset(entries: seq<Entry>, i: nat): nat
    requires i <= |entries|
  {
    if i == 0 then 0 else Offset(entries, i - 1) + |entries[i - 1].key| + |entries[i - 1].value| + 2
  }

  /** From position o on: the key, the key delimiter, the value and the delimiter, with nothing in
      between. */
  predicate EntryAt(kv: Text, o: nat, e: Entry, keyDelim: Byte, delim: Byte) {
    var k, v := o + |e.key|, o + |e.key| + 1 + |e.value|;
    && v < |kv|
    && kv[o..k] == e.key && kv[k] == keyDelim && kv[k + 1..v] == e.value && kv[v] == delim
  }

  lemma EntryStays(kv: Text, more: Text, o: nat, e: Entry, keyDelim: Byte, delim: Byte)
    requires EntryAt(kv, o, e, keyDelim, delim)
    ensures EntryAt(kv + more, o, e, keyDelim, delim)
  {
    var k, v := o + |e.key|, o + |e.key| + 1 + |e.value|;
    assert (kv + more)[o..k] == kv[o..k] && (kv + more)[k + 1..v] == kv[k + 1..v];
  }

  lemma EntryAtEnd(kv: Text, e: Entry, keyDelim: Byte, delim: Byte)
    ensures EntryAt(kv + Line(e, keyDelim, delim), |kv|, e, keyDelim, delim)
  {
  }

  lemma {:induction false} OffsetOfFront(entries: seq<Entry>, e: Entry, i: nat)
    requires i <= |entries|
    ensures Offset(entries + [e], i) == Offset(entries, i)
  {
    if i > 0 {
      OffsetOfFront(entries, e, i - 1);
    }
  }

  lemma {:induction false} EntriesLieAt(entries: seq<Entry>, keyDelim: Byte, delim: Byte)
    ensures var kv := Lines(entries, keyDelim, delim);
            && |kv| == Offset(entries, |entries|)
            && forall i :: 0 <= i < |entries| ==> EntryAt(kv, Offset(entries, i), entries[i], keyDelim, delim)
    decreases |entries|
  {
    if entries != [] {
      hide EntryAt, Lines;
      var n := |entries| - 1;
      var front, e := entries[..n], entries[n];
      var kv := Lines(front, keyDelim, delim);
      assert entries == front + [e];
      EntriesLieAt(front, keyDelim, delim);
      LinesPush(front, e, keyDelim, delim);
      EntryAtEnd(kv, e, keyDelim, delim);
      forall i | 0 <= i <= n
        ensures Offset(entries, i) == Offset(front, i)
        ensures EntryAt(kv + Line(e, keyDelim, delim), Offset(entries, i), entries[i], keyDelim, delim)
      {
        OffsetOfFront(front, e, i);
        if i < n {
          EntryStays(kv, Line(e, keyDelim, delim), Offset(front, i), entries[i], keyDelim, delim);
        }
      }
    }
  }

  lemma LinesOfNothing(keyDelim: Byte, delim: Byte)
    ensures Lines([], keyDelim, delim) == []
  {
  }

  // ----- parsing

  /** How many bytes an inclusive read looks at that stops at position k of s. */
  function Looked(k: nat, s: Text): nat {
    if k + 1 < |s| then k + 2 else k + 1
  }

  /** The position where an inclusive read stops; None when it fails. */
  function Stop(until: Text, s: Text): (k: Option<nat>)
    ensures k.Some? ==> k.value < |s| && s[k.value] in until && forall i :: 0 <= i < k.value ==> s[i] !in until
  {
    var k := FirstOf(until, s);
    if k == |s| || Looked(k, s) > UNTIL_LIMIT then None else Some(k)
  }

  datatype LineRead = Malformed | Finished | Pair(key: Text, value: Text, rest: Text)

  /** One entry off the front of s; Finished at an empty line or one that ends before the delimiter. */
  function ReadLine(s: Text, delim: Byte): (r: LineRead)
    ensures r.Pair? ==> |r.rest| < |s|
  {
    match Stop(NAME_END, s)
    case None => Malformed
    case Some(k) =>
      if s[k] == NEWLINE then Finished
      else
        var rest := s[k + 1..];
        match Stop(ValueEnd(delim), rest)
        case None => Malformed
        case Some(v) =>
          if delim != NEWLINE && rest[v] == NEWLINE then Finished
          else Pair(Without(s[..k], BLANKS), rest[..v], rest[v + 1..])
  }

  /** What s says, added to what data already holds; None when s is malformed. */
  function Parsed(s: Text, delim: Byte, data: map<Text, Text>): Option<map<Text, Text>>
    decreases |s|
  {
    if s == [] then Some(data)
    else
      match ReadLine(s, delim)
      case Malformed => None
      case Finished => Some(data)
      case Pair(key, value, rest) => Parsed(rest, delim, data[key := value])
  }

  /** The task of a field: names are read without blanks. */
  function FieldTask(isName: bool): Task {
    if isName then Disallow(BLANKS, false, Collecting) else Collecting
  }

  function Field(s: Text, isName: bool): Text {
    if isName then Without(s, BLANKS) else s
  }

  lemma FieldFed(isName: bool, prefix: Text, d: Byte)
    requires isName ==> d !in BLANKS
    ensures Feed(FieldTask(isName), Bytes([]), prefix + [d]) == Some(Bytes(Field(prefix, isName) + [d]))
  {
    hide Feed, Without;
    var field := Field(prefix + [d], isName);
    DisallowComposes(Collecting, BLANKS, Bytes([]), prefix + [d]);
    WithoutPush(prefix, d, BLANKS);
    BytesCollected([], field);
    assert [] + field == field;
  }

  /** The until-read of a field, in terms of where it stops. */
  lemma FieldRead(until: Text, isName: bool, s: Text)
    requires isName ==> forall c :: c in until ==> c !in BLANKS
    ensures var r := Read(Criteria(UntilMatch(until, true), 0, Good), FieldTask(isName), Bytes([]), s);
            match Stop(until, s)
            case None => r == None
            case Some(k) => r == Some(Outcome(Bytes(Field(s[..k], isName) + [s[k]]), s[k + 1..]))
  {
    hide Read, Feed, FirstOf, Without, FieldTask, Field;
    UntilRead(until, true, 0, FieldTask(isName), Bytes([]), s);
    var k := FirstOf(until, s);
    if k < |s| {
      assert s[..k + 1] == s[..k] + [s[k]];
      FieldFed(isName, s[..k], s[k]);
    }
  }

  lemma {:induction false} WithoutPush(bytes: Text, c: Byte, chars: Text)
    ensures Without(bytes + [c], chars) == Without(bytes, chars) + if c in chars then [] else [c]
  {
    if bytes == [] {
      assert [c][1..] == [];
      assert bytes + [c] == [c];
      assert Without([c], chars) == if c in chars then [] else [c] + Without([], chars);
    } else {
      var more := bytes + [c];
      assert more[0] == bytes[0] && more[1..] == bytes[1..] + [c];
      WithoutPush(bytes[1..], c, chars);
    }
  }

  /** Reads a field and takes the delimiter that closes it off its end. */
  method ReadField(stream: EStream, until: Text, isName: bool) returns (ok: bool, field: Text, last: Byte)
    requires stream.Valid()
    requires isName ==> forall c :: c in until ==> c !in BLANKS
    modifies stream, stream.buffer
    ensures stream.Valid()
    ensures var s := if old(stream.bad) then [] else old(stream.Rest());
            match Stop(until, s)
            case None => !ok
            case Some(k) => ok && field == Field(s[..k], isName) && last == s[k] && stream.Rest() == s[k + 1..]
    ensures ok ==> stream.bad == (stream.Rest() == [])
  {
    hide Read, Field;
    FieldRead(until, isName, stream.Rest());
    ok, field := ReadUntil(stream, until, FieldTask(isName));
    last := 0;
    if ok {
      field, last := field[..|field| - 1], field[|field| - 1];
    }
  }

  lemma ValueEndHasNoBlanks()
    ensures forall c :: c in NAME_END ==> c !in BLANKS
  {
  }

  /** The body of the parser's loop: one entry off the front of the stream. */
  method ParseEntry(stream: EStream, delim: Byte) returns (ok: bool, more: bool, key: Text, value: Text)
    requires stream.Valid() && !stream.bad
    modifies stream, stream.buffer
    ensures stream.Valid()
    ensures match ReadLine(old(stream.Rest()), delim)
            case Malformed => !ok
            case Finished => ok && !more
            case Pair(k, v, rest) =>
              ok && more && key == k && value == v && stream.Rest() == rest && stream.bad == (rest == [])
  {
    hide Stop, Without, ValueEnd, EStream.Valid, EStream.Rest, EStream.Past, Flatten;
    more, value := false, [];
    ValueEndHasNoBlanks();
    var last;
    ok, key, last := ReadField(stream, NAME_END, true);
    if !ok || last == NEWLINE {
      return;
    }
    ok, value, last := ReadField(stream, ValueEnd(delim), false);
    if !ok || (delim != NEWLINE && last == NEWLINE) {
      return;
    }
    more := true;
  }

  /** Parses entries until an empty line, a line that ends early, or the end of the data. */
  method Parse(stream: EStream, keyDelim: Byte, delim: Byte) returns (ok: bool, data: map<Text, Text>)
    requires stream.Valid()
    modifies stream, stream.buffer
    ensures stream.Valid()
    ensures var parsed := Parsed(if old(stream.bad) then [] else old(stream.Rest()), delim, map[]);
            if ok then parsed == Some(data) else parsed == None
  {
    hide Parsed, ReadLine;
    ghost var goal := Parsed(if stream.bad then [] else stream.Rest(), delim, map[]);
    ok, data := true, map[];
    var good := stream.Good();
    while good
      invariant ok && stream.Valid() && good == (!stream.bad && stream.Rest() != [])
      invariant Parsed(if good then stream.Rest() else [], delim, data) == goal
      decreases |stream.Rest()|, good
    {
      ParsedStep(stream.Rest(), delim, data);
      var more, key, value;
      ok, more, key, value := ParseEntry(stream, delim);
      if !ok || !more {
        return;
      }
      data := data[key := value];
      good := stream.Good();
    }
    ParsedStep([], delim, data);
  }

  lemma ParsedStep(s: Text, delim: Byte, data: map<Text, Text>)
    ensures s == [] ==> Parsed(s, delim, data) == Some(data)
    ensures s != [] ==>
              var line := ReadLine(s, delim);
              Parsed(s, delim, data)
              == if line.Malformed? then None else if line.Finished? then Some(data)
                 else Parsed(line.rest, delim, data[line.key := line.value])
  {
  }

  /** Parses a text of at most 1024 bytes. */
  method ParseString(text: Text, keyDelim: Byte, delim: Byte) returns (ok: bool, data: map<Text, Text>)
    ensures ok == ParsedString(text, delim).Some? && (ok ==> Some(data) == ParsedString(text, delim))
  {
    if |text| > MAX_LENGTH {
      return false, map[];
    }
    var bytes := new Byte[|text|](i requires 0 <= i < |text| => text[i]);
    assert bytes[..] == text;
    var stream := new EStream.FromMemory(bytes);
    ok, data := Parse(stream, keyDelim, delim);
  }

  function ParsedString(text: Text, delim: Byte): Option<map<Text, Text>> {
    if |text| > MAX_LENGTH then None else Parsed(text, delim, map[])
  }

  // ----- the round trip

  ghost predicate CleanKey(key: Text) {
    forall c :: c in key ==> c != 0x3D && c != 0x0A && c != 0x20 && c != 0x09
  }

  ghost predicate CleanValue(value: Text, delim: Byte) {
    forall c :: c in value ==> c != 0x0A && c != delim
  }

  ghost predicate Clean(entries: seq<Entry>, delim: Byte) {
    forall e :: e in entries ==> CleanKey(e.key) && CleanValue(e.value, delim)
  }

  ghost predicate CleanMap(m: map<Text, Text>, delim: Byte) {
    forall k :: k in m ==> CleanKey(k) && CleanValue(m[k], delim)
  }

  /** The entries list the map m, in some order and each key once. */
  ghost predicate Lists(entries: seq<Entry>, m: map<Text, Text>) {
    && (forall i, j :: 0 <= i < j < |entries| ==> entries[i].key != entries[j].key)
    && (forall e :: e in entries ==> e.key in m && m[e.key] == e.value)
    && (forall k :: k in m ==> Entry(k, m[k]) in entries)
  }

  function Added(entries: seq<Entry>, data: map<Text, Text>): map<Text, Text> {
    if entries == [] then data else Added(entries[1..], data[entries[0].key := entries[0].value])
  }

  lemma {:induction false} WithoutNothing(bytes: Text, chars: Text)
    requires forall c :: c in bytes ==> c !in chars
    ensures Without(bytes, chars) == bytes
  {
    if bytes != [] {
      WithoutNothing(bytes[1..], chars);
    }
  }

  lemma StopAfter(until: Text, prefix: Text, d: Byte, tail: Text)
    requires d in until && forall c :: c in prefix ==> c !in until
    requires |prefix + [d] + tail| < UNTIL_LIMIT
    ensures var s, k := prefix + [d] + tail, |prefix|;
            Stop(until, s) == Some(k) && s[..k] == prefix && s[k] == d && s[k + 1..] == tail
  {
    var s := prefix + [d] + tail;
    assert forall i :: 0 <= i < |prefix| ==> s[i] == prefix[i];
    assert s[|prefix|] == d;
  }

  lemma ReadLineOfPair(key: Text, value: Text, tail: Text, delim: Byte)
    requires CleanKey(key) && CleanValue(value, delim) && |key + [EQUALS] + (value + [delim] + tail)| < UNTIL_LIMIT
    ensures ReadLine(key + [EQUALS] + (value + [delim] + tail), delim) == Pair(key, value, tail)
  {
    StopAfter(NAME_END, key, EQUALS, value + [delim] + tail);
    StopAfter(ValueEnd(delim), value, delim, tail);
    WithoutNothing(key, BLANKS);
    hide Stop, Without, CleanKey, CleanValue, ValueEnd;
  }

  lemma ParsedLine(e: Entry, tail: Text, delim: Byte, data: map<Text, Text>)
    requires CleanKey(e.key) && CleanValue(e.value, delim) && |Line(e, EQUALS, delim) + tail| < UNTIL_LIMIT
    ensures Parsed(Line(e, EQUALS, delim) + tail, delim, data) == Parsed(tail, delim, data[e.key := e.value])
  {
    hide ReadLine, Parsed;
    var s := Line(e, EQUALS, delim) + tail;
    assert s == e.key + [EQUALS] + (e.value + [delim] + tail);
    ReadLineOfPair(e.key, e.value, tail, delim);
    ParsedStep(s, delim, data);
  }

  lemma {:induction false} ParsedLines(entries: seq<Entry>, delim: Byte, data: map<Text, Text>)
    requires Clean(entries, delim) && |Lines(entries, EQUALS, delim)| + 1 < UNTIL_LIMIT
    ensures Parsed(Lines(entries, EQUALS, delim) + [NEWLINE], delim, data) == Some(Added(entries, data))
    decreases |entries|
  {
    if entries == [] {
      assert Lines(entries, EQUALS, delim) + [NEWLINE] == [NEWLINE];
      assert Stop(NAME_END, [NEWLINE]) == Some(0);
      ParsedStep([NEWLINE], delim, data);
    } else {
      var e, more := entries[0], Lines(entries[1..], EQUALS, delim);
      assert Lines(entries, EQUALS, delim) + [NEWLINE] == Line(e, EQUALS, delim) + (more + [NEWLINE]);
      hide Parsed;
      ParsedLine(e, more + [NEWLINE], delim, data);
      ParsedLines(entries[1..], delim, data[e.key := e.value]);
    }
  }

  // ----- the texts that parse

  /** An entry as it may stand in a text: the key still with its blanks. */
  ghost predicate Written(e: Entry, delim: Byte) {
    && (forall c :: c in e.key ==> c != 0x3D && c != 0x0A)
    && (forall c :: c in e.value ==> c != 0x0A && c != delim)
  }

  /** At k the first newline of t, with no '=' before it. */
  ghost predicate EmptyLine(t: Text, k: nat) {
    k < |t| && t[k] == 0x0A && forall i :: 0 <= i < k ==> t[i] != 0x3D && t[i] != 0x0A
  }

  /** At k the first '=' of t, and at v a newline, with no newline and no delimiter before it. */
  ghost predicate CutLine(t: Text, k: nat, v: nat, delim: Byte) {
    && k < v < |t| && t[k] == 0x3D && t[v] == 0x0A && delim != 0x0A
    && (forall i :: 0 <= i < k ==> t[i] != 0x3D && t[i] != 0x0A)
    && (forall i :: k < i < v ==> t[i] != 0x0A && t[i] != delim)
  }

  /** Where a parser stops without an error: at the end, or at a line that ends early, before its
      '=' or before its delimiter. */
  ghost predicate Ends(t: Text, delim: Byte) {
    t == [] || (exists k: nat :: EmptyLine(t, k)) || (exists k: nat, v: nat :: CutLine(t, k, v, delim))
  }

  /** The first n bytes of s are the entries, and the parser stops behind them. */
  ghost predicate Splits(s: Text, delim: Byte, entries: seq<Entry>, n: nat) {
    && n <= |s| && s[..n] == Lines(entries, 0x3D, delim) && Ends(s[n..], delim)
    && forall i :: 0 <= i < |entries| ==> Written(entries[i], delim)
  }

  /** The entries added to data, keys without spaces and tabs; of two with one key the later counts. */
  function Gathered(entries: seq<Entry>, data: map<Text, Text>): map<Text, Text> {
    if entries == [] then data
    else Gathered(entries[1..], data[Without(entries[0].key, [0x20, 0x09]) := entries[0].value])
  }

  lemma StopIs(until: Text, s: Text, k: nat)
    requires k < |s| < UNTIL_LIMIT && s[k] in until && forall i :: 0 <= i < k ==> s[i] !in until
    ensures Stop(until, s) == Some(k)
  {
    assert FirstOf(until, s) == k;
  }

  lemma ReadLineOfWritten(e: Entry, tail: Text, delim: Byte)
    requires Written(e, delim) && |Line(e, EQUALS, delim) + tail| < UNTIL_LIMIT
    ensures ReadLine(Line(e, EQUALS, delim) + tail, delim) == Pair(Without(e.key, BLANKS), e.value, tail)
  {
    hide Stop, Without, ValueEnd, Line;
    LineBefore(e, tail, delim);
    StopAfter(NAME_END, e.key, EQUALS, e.value + [delim] + tail);
    StopAfter(ValueEnd(delim), e.value, delim, tail);
  }

  lemma LineBefore(e: Entry, tail: Text, delim: Byte)
    ensures Line(e, EQUALS, delim) + tail == e.key + [EQUALS] + (e.value + [delim] + tail)
  {
  }

  lemma EndFinishes(t: Text, delim: Byte)
    requires Ends(t, delim) && t != [] && |t| < UNTIL_LIMIT
    ensures ReadLine(t, delim) == Finished
  {
    hide Stop, Without, ValueEnd;
    if k: nat :| EmptyLine(t, k) {
      StopIs(NAME_END, t, k);
    } else {
      var k: nat, v: nat :| CutLine(t, k, v, delim);
      StopIs(NAME_END, t, k);
      StopIs(ValueEnd(delim), t[k + 1..], v - k - 1);
    }
  }

  lemma FinishedEnds(t: Text, delim: Byte)
    requires t != [] && ReadLine(t, delim) == Finished
    ensures Ends(t, delim)
  {
    hide Stop, Without, ValueEnd;
    var k := Stop(NAME_END, t).value;
    if t[k] == NEWLINE {
      assert EmptyLine(t, k);
    } else {
      var v := Stop(ValueEnd(delim), t[k + 1..]).value;
      assert forall i :: k < i < k + 1 + v ==> t[i] == t[k + 1..][i - k - 1];
      assert CutLine(t, k, k + 1 + v, delim);
    }
  }

  /** A pair read off the front is an entry as written. */
  lemma PairIsWritten(s: Text, delim: Byte) returns (e: Entry)
    requires ReadLine(s, delim).Pair?
    ensures var r := ReadLine(s, delim);
            Written(e, delim) && s == Line(e, EQUALS, delim) + r.rest && e.value == r.value
            && r.key == Without(e.key, BLANKS)
  {
    hide ReadLine, Without, Written;
    var name := PairText(s, delim);
    var r := ReadLine(s, delim);
    e := Entry(name, r.value);
    assert Line(e, EQUALS, delim) + r.rest == name + ([EQUALS] + (r.value + ([delim] + r.rest)));
  }

  lemma {:induction false} SplitParses(s: Text, delim: Byte, entries: seq<Entry>, n: nat, data: map<Text, Text>)
    requires Splits(s, delim, entries, n) && |s| < UNTIL_LIMIT
    ensures Parsed(s, delim, data) == Some(Gathered(entries, data))
    decreases |entries|
  {
    ParsedStep(s, delim, data);
    hide Parsed, ReadLine, Ends, Without;
    if entries == [] {
      assert s[n..] == s;
      if s != [] {
        EndFinishes(s, delim);
      }
    } else {
      var e, line := entries[0], Line(entries[0], EQUALS, delim);
      var rest := s[|line|..];
      assert s == line + rest by { assert s[..n] + s[n..] == s; }
      ReadLineOfWritten(e, rest, delim);
      SplitsOff(s, delim, entries, n);
      SplitParses(rest, delim, entries[1..], n - |line|, data[Without(e.key, BLANKS) := e.value]);
    }
  }

  lemma SplitsOff(s: Text, delim: Byte, entries: seq<Entry>, n: nat)
    requires Splits(s, delim, entries, n) && entries != []
    ensures var k := |Line(entries[0], EQUALS, delim)|;
            1 <= k <= n && s[..k] == Line(entries[0], EQUALS, delim) && Splits(s[k..], delim, entries[1..], n - k)
  {
    hide Ends, Written;
    var line, more := Line(entries[0], EQUALS, delim), Lines(entries[1..], EQUALS, delim);
    assert s[..n] == line + more;
    assert s[..n][|line|..] == more && s[..n][..|line|] == line;
    assert s[|line|..][..n - |line|] == s[..n][|line|..];
    assert s[|line|..][n - |line|..] == s[n..];
  }

  lemma {:induction false} ParsedSplits(s: Text, delim: Byte, data: map<Text, Text>)
      returns (entries: seq<Entry>, n: nat)
    requires Parsed(s, delim, data).Some?
    ensures Splits(s, delim, entries, n) && Parsed(s, delim, data) == Some(Gathered(entries, data))
    decreases |s|
  {
    ParsedStep(s, delim, data);
    hide Parsed, ReadLine, Ends, Without, Written;
    entries, n := [], 0;
    assert s[0..] == s;
    if s == [] {
      NothingEnds(delim);
    } else if ReadLine(s, delim).Finished? {
      FinishedEnds(s, delim);
    } else {
      var r := ReadLine(s, delim);
      var e := PairIsWritten(s, delim);
      var more, k := ParsedSplits(r.rest, delim, data[r.key := r.value]);
      entries, n := [e] + more, |Line(e, EQUALS, delim)| + k;
      assert entries[1..] == more;
      assert s[..n] == Line(e, EQUALS, delim) + r.rest[..k] && s[n..] == r.rest[k..];
    }
  }

  lemma NothingEnds(delim: Byte)
    ensures Ends([], delim)
  {
  }

  /** The grammar of the parser, for texts of less than 2^16 bytes: a text parses to a map exactly if
      it is a sequence of entries up to a place where the parser stops, and the map gathers them. */
  lemma ParsedExactly(s: Text, delim: Byte, data: map<Text, Text>, m: map<Text, Text>)
    requires |s| < 0x1_0000
    ensures Parsed(s, delim, data) == Some(m) <==>
            exists entries, n: nat :: Splits(s, delim, entries, n) && Gathered(entries, data) == m
  {
    hide Parsed, Splits, Gathered;
    if Parsed(s, delim, data) == Some(m) {
      var entries, n := ParsedSplits(s, delim, data);
    }
    if entries, n: nat :| Splits(s, delim, entries, n) && Gathered(entries, data) == m {
      SplitParses(s, delim, entries, n, data);
    }
  }

  /** Whatever a text parses to is clean. */
  lemma {:induction false} ParsedIsClean(s: Text, delim: Byte, data: map<Text, Text>)
    requires CleanMap(data, delim) && Parsed(s, delim, data).Some?
    ensures CleanMap(Parsed(s, delim, data).value, delim)
    decreases |s|
  {
    ParsedStep(s, delim, data);
    hide Parsed, ReadLine;
    if s != [] {
      var line := ReadLine(s, delim);
      if line.Pair? {
        PairIsClean(s, delim);
        ParsedIsClean(line.rest, delim, data[line.key := line.value]);
      }
    }
  }

  lemma PairIsClean(s: Text, delim: Byte)
    ensures var line := ReadLine(s, delim); line.Pair? ==> CleanKey(line.key) && CleanValue(line.value, delim)
  {
    var stop := Stop(NAME_END, s);
    if stop.Some? {
      WithoutMembers(s[..stop.value], BLANKS);
    }
  }

  lemma {:induction false} AddedIsMap(entries: seq<Entry>, data: map<Text, Text>, m: map<Text, Text>)
    requires forall e :: e in entries ==> e.key in m && m[e.key] == e.value
    requires forall k :: k in data ==> k in m && m[k] == data[k]
    requires forall k :: k in m ==> k in data || Entry(k, m[k]) in entries
    ensures Added(entries, data) == m
    decreases |entries|
  {
    if entries != [] {
      AddedIsMap(entries[1..], data[entries[0].key := entries[0].value], m);
    }
  }

  // ----- counting '='

  function Equals(s: Text): nat {
    if s == [] then 0 else (if s[0] == EQUALS then 1 else 0) + Equals(s[1..])
  }

  lemma {:induction false} EqualsConcat(s: Text, t: Text)
    ensures Equals(s + t) == Equals(s) + Equals(t)
  {
    if s == [] {
      assert s + t == t;
    } else {
      assert (s + t)[1..] == s[1..] + t;
      EqualsConcat(s[1..], t);
    }
  }

  lemma {:induction false} NoEquals(s: Text)
    requires EQUALS !in s
    ensures Equals(s) == 0
  {
    if s != [] {
      NoEquals(s[1..]);
    }
  }

  /** The '=' a parsed entry takes: the one after its name, those of its value, and the
      delimiter if that is one too. */
  function Weight(value: Text, delim: Byte): nat {
    1 + Equals(value) + Equals([delim])
  }

  /** What an entry is read from. */
  lemma PairText(s: Text, delim: Byte) returns (name: Text)
    ensures var line := ReadLine(s, delim);
            line.Pair? ==> s == name + ([EQUALS] + (line.value + ([delim] + line.rest)))
                           && line.key == Without(name, BLANKS) && Written(Entry(name, line.value), delim)
  {
    hide Without, ReadLine, Written;
    name := [];
    var line := ReadLine(s, delim);
    if line.Pair? {
      var k, v := PairAt(s, delim);
      var rest := s[k + 1..];
      name := s[..k];
      assert rest == rest[..v] + ([delim] + rest[v + 1..]);
      assert s == s[..k] + ([EQUALS] + rest);
    }
  }

  /** Where a pair has its '=' and, counted from there, its delimiter. */
  lemma PairAt(s: Text, delim: Byte) returns (k: nat, v: nat)
    requires ReadLine(s, delim).Pair?
    ensures k < |s| && s[k] == EQUALS && v < |s[k + 1..]| && s[k + 1..][v] == delim
    ensures ReadLine(s, delim) == Pair(Without(s[..k], BLANKS), s[k + 1..][..v], s[k + 1..][v + 1..])
    ensures Written(Entry(s[..k], s[k + 1..][..v]), delim)
  {
    hide Without, Stop;
    k := Stop(NAME_END, s).value;
    v := Stop(ValueEnd(delim), s[k + 1..]).value;
  }

  lemma PairTakes(s: Text, delim: Byte)
    ensures var line := ReadLine(s, delim); line.Pair? ==> Equals(s) >= Weight(line.value, delim) + Equals(line.rest)
  {
    hide Equals, ReadLine;
    var name := PairText(s, delim);
    var line := ReadLine(s, delim);
    if line.Pair? {
      EqualsConcat(name, [EQUALS] + (line.value + ([delim] + line.rest)));
      EqualsConcat([EQUALS], line.value + ([delim] + line.rest));
      EqualsConcat(line.value, [delim] + line.rest);
      EqualsConcat([delim], line.rest);
      OneEquals();
    }
  }

  lemma OneEquals()
    ensures Equals([EQUALS]) == 1
  {
    assert Equals([EQUALS]) == 1 + Equals([]);
  }

  /** The '=' a parser has taken for those of the entries that are in data. */
  function Held(entries: seq<Entry>, data: map<Text, Text>, delim: Byte): nat {
    if entries == [] then 0
    else
      var e := entries[0];
      (if e.key in data && data[e.key] == e.value then Weight(e.value, delim) else 0) + Held(entries[1..], data, delim)
  }

  lemma {:induction false} HeldOther(entries: seq<Entry>, data: map<Text, Text>, key: Text, value: Text, delim: Byte)
    requires forall e :: e in entries ==> e.key != key
    ensures Held(entries, data[key := value], delim) == Held(entries, data, delim)
  {
    hide Weight;
    if entries != [] {
      assert entries[0] in entries && forall e :: e in entries[1..] ==> e in entries;
      HeldOther(entries[1..], data, key, value, delim);
    }
  }

  lemma {:induction false} HeldAdds(entries: seq<Entry>, data: map<Text, Text>, key: Text, value: Text, delim: Byte)
    requires forall i, j :: 0 <= i < j < |entries| ==> entries[i].key != entries[j].key
    ensures Held(entries, data[key := value], delim) <= Held(entries, data, delim) + Weight(value, delim)
  {
    hide Weight;
    if entries != [] {
      var rest := entries[1..];
      assert forall i :: 0 <= i < |rest| ==> rest[i] == entries[i + 1];
      if entries[0].key == key {
        HeldOther(rest, data, key, value, delim);
      } else {
        HeldAdds(rest, data, key, value, delim);
      }
    }
  }

  /** A text holds at least the '=' that parsing it takes. */
  lemma {:induction false} ParsedTakes(s: Text, delim: Byte, data: map<Text, Text>, entries: seq<Entry>)
    requires forall i, j :: 0 <= i < j < |entries| ==> entries[i].key != entries[j].key
    requires Parsed(s, delim, data).Some?
    ensures Held(entries, Parsed(s, delim, data).value, delim) <= Held(entries, data, delim) + Equals(s)
    decreases |s|
  {
    ParsedStep(s, delim, data);
    hide Parsed, ReadLine, Held, Equals, Weight;
    if s != [] {
      var line := ReadLine(s, delim);
      if line.Pair? {
        PairTakes(s, delim);
        HeldAdds(entries, data, line.key, line.value, delim);
        ParsedTakes(line.rest, delim, data[line.key := line.value], entries);
      }
    }
  }

  lemma {:induction false} HeldInNothing(entries: seq<Entry>, delim: Byte)
    ensures Held(entries, map[], delim) == 0
  {
    if entries != [] {
      HeldInNothing(entries[1..], delim);
    }
  }

  lemma LineEquals(e: Entry, keyDelim: Byte, delim: Byte)
    requires CleanKey(e.key) && keyDelim != EQUALS
    ensures Equals(Line(e, keyDelim, delim)) + 1 == Weight(e.value, delim)
  {
    NoEquals(e.key);
    NoEquals([keyDelim]);
    hide Equals;
    EqualsConcat(e.key + [keyDelim] + e.value, [delim]);
    EqualsConcat(e.key + [keyDelim], e.value);
    EqualsConcat(e.key, [keyDelim]);
  }

  /** Printed with another key delimiter, a text is one '=' short for each of its entries. */
  lemma {:induction false} LinesEquals(entries: seq<Entry>, data: map<Text, Text>, keyDelim: Byte, delim: Byte)
    requires keyDelim != EQUALS
    requires forall e :: e in entries ==> CleanKey(e.key) && e.key in data && data[e.key] == e.value
    ensures Equals(Lines(entries, keyDelim, delim)) + |entries| == Held(entries, data, delim)
  {
    if entries != [] {
      assert entries[0] in entries && forall e :: e in entries[1..] ==> e in entries;
      LinesEquals(entries[1..], data, keyDelim, delim);
      LineEquals(entries[0], keyDelim, delim);
      EqualsConcat(Line(entries[0], keyDelim, delim), Lines(entries[1..], keyDelim, delim));
      hide Equals, Weight, Line, CleanKey;
    }
  }

  // ----- the theorem

  /** Printed with '=', a clean map within the limit parses back. */
  lemma CleanParsesBack(m: map<Text, Text>, entries: seq<Entry>, delim: Byte)
    requires Lists(entries, m) && CleanMap(m, delim)
    requires |Lines(entries, EQUALS, delim)| + 1 <= MAX_LENGTH
    ensures Parsed(Lines(entries, EQUALS, delim) + [NEWLINE], delim, map[]) == Some(m)
  {
    ParsedLines(entries, delim, map[]);
    AddedIsMap(entries, map[], m);
  }

  /** Printed with another key delimiter, a map with an entry does not parse back. */
  lemma OtherKeyDelimiter(m: map<Text, Text>, entries: seq<Entry>, keyDelim: Byte, delim: Byte)
    requires Lists(entries, m) && entries != [] && keyDelim != EQUALS
    ensures Parsed(Lines(entries, keyDelim, delim) + [NEWLINE], delim, map[]) != Some(m)
  {
    var lines := Lines(entries, keyDelim, delim);
    hide Parsed, Lines, Held, Equals;
    if Parsed(lines + [NEWLINE], delim, map[]) == Some(m) {
      ParsedIsClean(lines + [NEWLINE], delim, map[]);
      ParsedTakes(lines + [NEWLINE], delim, map[], entries);
      HeldInNothing(entries, delim);
      LinesEquals(entries, m, keyDelim, delim);
      EqualsConcat(lines, [NEWLINE]);
      NoEquals([NEWLINE]);
      assert false;
    }
  }

  /** For every map, every order of its entries and both delimiters, what toString prints
      parses back to the map exactly when the text keeps within the limit, no key holds '=', a
      newline, a space or a tab, no value holds a newline or the delimiter, and the key
      delimiter is the '=' that the parser always splits at, unless there is no entry. */
  lemma RoundTrip(m: map<Text, Text>, entries: seq<Entry>, keyDelim: Byte, delim: Byte)
    requires Lists(entries, m)
    ensures var text := Lines(entries, keyDelim, delim) + [NEWLINE];
            ParsedString(text, delim) == Some(m) <==>
            |text| <= 1024 && CleanMap(m, delim) && (keyDelim == 0x3D || m == map[])
  {
    var text := Lines(entries, keyDelim, delim) + [NEWLINE];
    NothingListed(m, entries);
    if |text| <= MAX_LENGTH {
      if entries == [] {
        assert Lines(entries, keyDelim, delim) == Lines(entries, EQUALS, delim);
      }
      hide Parsed, Lines;
      if keyDelim != EQUALS && entries != [] {
        OtherKeyDelimiter(m, entries, keyDelim, delim);
      } else if CleanMap(m, delim) {
        CleanParsesBack(m, entries, delim);
      } else if ParsedString(text, delim) == Some(m) {
        ParsedIsClean(text, delim, map[]);
      }
    }
  }

  lemma NothingListed(m: map<Text, Text>, entries: seq<Entry>)
    requires Lists(entries, m)
    ensures m == map[] <==> entries == []
  {
    if entries != [] {
      assert entries[0] in entries;
    }
  }
}
