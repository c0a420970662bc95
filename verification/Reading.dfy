/** Collecting reads: a criterion decides how far to read, a chain of tasks rewrites or drops
    bytes on the way, a collector builds the result. Read is what such a read makes of a plain
    sequence. */
module Reading {
  import opened Optional
  import opened Stream

  const UNTIL_LIMIT := 0x1_0000
  const MAX_DIGITS := 10

  // ----- criteria

  datatype State = NotGood | Good | GoodAtLast

  datatype Mode = UntilMatch(until: seq<Byte>, inclusive: bool) | UntilSize | WhileDigit

  datatype Criteria = Criteria(mode: Mode, untilSize: nat, state: State)

  predicate IsDigit(c: Byte): (r: bool)
    ensures r <==> '0' as int <= c <= '9' as int
  {
    0x30 <= c <= 0x39
  }

  /** Reading until a delimiter: an inclusive read is at its last byte when it sees one. */
  function MatchState(c: Criteria, el: Byte): State
    requires c.mode.UntilMatch?
  {
    if c.state == NotGood && el !in c.mode.until then Good
    else if c.state == Good && el in c.mode.until then (if c.mode.inclusive then GoodAtLast else NotGood)
    else if c.state == GoodAtLast then NotGood
    else c.state
  }

  /** Reading a number of bytes, which counts down, as a 64-bit word. */
  function SizeNext(c: Criteria): Criteria {
    var state :=
      if c.state == NotGood && c.untilSize > 0 then Good
      else if c.state == Good && c.untilSize == 1 then GoodAtLast
      else if c.state != NotGood && c.untilSize == 0 then NotGood
      else c.state;
    Criteria(c.mode, (c.untilSize + WORD - 1) % WORD, state)
  }

  /** The criterion after seeing el; None when the limit on the bytes looked at is exceeded. */
  function Next(c: Criteria, el: Byte): Option<Criteria> {
    if c.mode.UntilSize? then
      Some(SizeNext(c))
    else if c.untilSize + 1 > UNTIL_LIMIT then
      None
    else
      var state :=
        if c.mode.UntilMatch? then MatchState(c, el) else if IsDigit(el) then Good else NotGood;
      Some(Criteria(c.mode, c.untilSize + 1, state))
  }

  class LoopCriteria {
    var info: Criteria

    constructor (mode: Mode, untilSize: nat)
      ensures info == Criteria(mode, untilSize, Good)
    {
      info := Criteria(mode, untilSize, Good);
    }

    method UntilMatchNext(el: Byte)
      requires info.mode.UntilMatch?
      modifies this
      ensures info == old(info).(state := MatchState(old(info), el))
    {
      var untilMatch := el in info.mode.until;
      if info.state == NotGood && !untilMatch {
        info := info.(state := Good);
      } else if info.state == Good && info.mode.inclusive && untilMatch {
        info := info.(state := GoodAtLast);
      } else if info.state == Good && !info.mode.inclusive && untilMatch {
        info := info.(state := NotGood);
      } else if info.state == GoodAtLast {
        info := info.(state := NotGood);
      }
    }

    method UntilSizeNext()
      modifies this
      ensures info == SizeNext(old(info))
    {
      if info.state == NotGood && info.untilSize > 0 {
        info := info.(state := Good);
      } else if info.state == Good && info.untilSize == 1 {
        info := info.(state := GoodAtLast);
      } else if info.state != NotGood && info.untilSize <= 0 {
        info := info.(state := NotGood);
      }
      info := info.(untilSize := (info.untilSize + WORD - 1) % WORD);
    }

    method NextState(el: Byte) returns (ok: bool)
      modifies this
      ensures ok == Next(old(info), el).Some?
      ensures ok ==> info == Next(old(info), el).value
    {
      ok := true;
      if info.mode.UntilSize? {
        UntilSizeNext();
      } else {
        info := info.(untilSize := info.untilSize + 1);
        if info.untilSize > UNTIL_LIMIT {
          return false;
        }
        if info.mode.WhileDigit? {
          info := info.(state := if IsDigit(el) then Good else NotGood);
        } else {
          UntilMatchNext(el);
        }
      }
    }
  }

  // ----- collectors and tasks

  datatype Collector = Bytes(data: seq<Byte>) | Natural(value: nat, digitCount: nat)

  function Accumulate(collector: Collector, c: Byte): Option<Collector> {
    match collector
    case Bytes(data) => Some(Bytes(data + [c]))
    case Natural(value, digitCount) =>
      if digitCount + 1 > MAX_DIGITS then None
      else Some(Natural((value * 10 + (c - 0x30)) % WORD, digitCount + 1))
  }

  datatype Task =
    | Collecting
    | LowerCase(next: Task)
    | UpperCase(next: Task)
    | Disallow(chars: seq<Byte>, strict: bool, next: Task)

  function Lower(c: Byte): Byte { if 0x41 <= c <= 0x5A then c + 0x20 else c }

  function Upper(c: Byte): Byte { if 0x61 <= c <= 0x7A then c - 0x20 else c }

  /** The 26 letters change their case, and nothing else. */
  lemma CaseOfLetters(c: Byte)
    ensures 'A' as int <= c <= 'Z' as int ==> Lower(c) - 'a' as int == c - 'A' as int && Upper(c) == c
    ensures 'a' as int <= c <= 'z' as int ==> Upper(c) - 'A' as int == c - 'a' as int && Lower(c) == c
    ensures !('A' as int <= c <= 'Z' as int) && !('a' as int <= c <= 'z' as int) ==> Lower(c) == c && Upper(c) == c
  {
  }

  function Perform(task: Task, collector: Collector, c: Byte): Option<Collector> {
    match task
    case Collecting => Accumulate(collector, c)
    case LowerCase(next) => Perform(next, collector, Lower(c))
    case UpperCase(next) => Perform(next, collector, Upper(c))
    case Disallow(chars, strict, next) =>
      if c !in chars then Perform(next, collector, c) else if strict then None else Some(collector)
  }

  /** What the collector holds after the bytes, one after the other, have gone through the task. */
  function Feed(task: Task, collector: Collector, bytes: seq<Byte>): Option<Collector>
    decreases |bytes|
  {
    if bytes == [] then Some(collector)
    else
      match Perform(task, collector, bytes[0])
      case None => None
      case Some(next) => Feed(task, next, bytes[1..])
  }

  lemma FeedStep(task: Task, collector: Collector, bytes: seq<Byte>)
    requires bytes != []
    ensures var more := Perform(task, collector, bytes[0]);
            Feed(task, collector, bytes) == if more.None? then None else Feed(task, more.value, bytes[1..])
  {
  }

  /** bytes without those among chars. */
  function Without(bytes: seq<Byte>, chars: seq<Byte>): seq<Byte> {
    if bytes == [] then []
    else if bytes[0] in chars then Without(bytes[1..], chars)
    else [bytes[0]] + Without(bytes[1..], chars)
  }

  lemma {:induction false} WithoutMembers(bytes: seq<Byte>, chars: seq<Byte>)
    ensures forall c :: c in Without(bytes, chars) <==> c in bytes && c !in chars
  {
    if bytes != [] {
      WithoutMembers(bytes[1..], chars);
      assert bytes == [bytes[0]] + bytes[1..];
    }
  }

  function Mapped(bytes: seq<Byte>, f: Byte -> Byte): (r: seq<Byte>)
    ensures |r| == |bytes| && forall i :: 0 <= i < |r| ==> r[i] == f(bytes[i])
  {
    seq(|bytes|, i requires 0 <= i < |bytes| => f(bytes[i]))
  }

  /** Changing the case while reading is changing the case of what is read. */
  lemma {:induction false} CaseComposes(next: Task, collector: Collector, bytes: seq<Byte>)
    ensures Feed(LowerCase(next), collector, bytes) == Feed(next, collector, Mapped(bytes, Lower))
    ensures Feed(UpperCase(next), collector, bytes) == Feed(next, collector, Mapped(bytes, Upper))
    decreases |bytes|
  {
    if bytes != [] {
      assert Mapped(bytes, Lower)[1..] == Mapped(bytes[1..], Lower);
      assert Mapped(bytes, Upper)[1..] == Mapped(bytes[1..], Upper);
      hide Lower, Upper, Accumulate;
      var low, up := Perform(next, collector, Lower(bytes[0])), Perform(next, collector, Upper(bytes[0]));
      if low.Some? {
        CaseComposes(next, low.value, bytes[1..]);
      }
      if up.Some? {
        CaseComposes(next, up.value, bytes[1..]);
      }
    }
  }

  /** Disallowing bytes while reading is dropping them from what is read, or, when strict,
      refusing input that holds one of them. */
  lemma {:induction false} DisallowComposes(next: Task, chars: seq<Byte>, collector: Collector, bytes: seq<Byte>)
    ensures Feed(Disallow(chars, false, next), collector, bytes) == Feed(next, collector, Without(bytes, chars))
    ensures Feed(Disallow(chars, true, next), collector, bytes)
         == if forall c :: c in bytes ==> c !in chars then Feed(next, collector, bytes) else None
    decreases |bytes|
  {
    if bytes != [] {
      hide Accumulate;
      var more := Perform(next, collector, bytes[0]);
      if bytes[0] in chars {
        assert Without(bytes, chars) == Without(bytes[1..], chars);
        DisallowComposes(next, chars, collector, bytes[1..]);
      } else {
        var tail := Without(bytes[1..], chars);
        assert Without(bytes, chars) == [bytes[0]] + tail;
        assert ([bytes[0]] + tail)[1..] == tail;
        assert bytes == [bytes[0]] + bytes[1..];
        hide Without;
        if more.Some? {
          DisallowComposes(next, chars, more.value, bytes[1..]);
        }
      }
    }
  }

  lemma {:induction false} BytesCollected(data: seq<Byte>, bytes: seq<Byte>)
    ensures Feed(Collecting, Bytes(data), bytes) == Some(Bytes(data + bytes))
    decreases |bytes|
  {
    if bytes == [] {
      assert data + bytes == data;
    } else {
      BytesCollected(data + [bytes[0]], bytes[1..]);
      assert data + [bytes[0]] + bytes[1..] == data + bytes;
    }
  }

  // ----- reading

  datatype Outcome = Outcome(collected: Collector, rest: seq<Byte>)

  /** A collecting read over a plain sequence; None when it fails. */
  function Read(criteria: Criteria, task: Task, collector: Collector, s: seq<Byte>): Option<Outcome>
    decreases |s|
  {
    if s == [] then None
    else
      match Next(criteria, s[0])
      case None => None
      case Some(next) =>
        if next.state == NotGood then Some(Outcome(collector, s))
        else
          match Perform(task, collector, s[0])
          case None => None
          case Some(more) =>
            if |s| == 1 && next.state == GoodAtLast then Some(Outcome(more, [])) else Read(next, task, more, s[1..])
  }

  /** The outcome of a read that stops after n bytes. */
  function Stopped(task: Task, collector: Collector, s: seq<Byte>, n: nat): Option<Outcome>
    requires n <= |s|
  {
    match Feed(task, collector, s[..n])
    case None => None
    case Some(collected) => Some(Outcome(collected, s[n..]))
  }

  lemma StoppedStep(task: Task, collector: Collector, s: seq<Byte>, n: nat)
    requires 0 < n <= |s|
    ensures var more := Perform(task, collector, s[0]);
            Stopped(task, collector, s, n) == if more.None? then None else Stopped(task, more.value, s[1..], n - 1)
  {
    assert s[..n][1..] == s[1..][..n - 1];
    assert s[n..] == s[1..][n - 1..];
  }

  lemma ReadStep(criteria: Criteria, task: Task, collector: Collector, s: seq<Byte>)
    requires s != [] && Next(criteria, s[0]).Some?
    ensures var next, more := Next(criteria, s[0]).value, Perform(task, collector, s[0]);
            Read(criteria, task, collector, s)
            == if next.state == NotGood then Some(Outcome(collector, s)) else if more.None? then None
               else if |s| == 1 && next.state == GoodAtLast then Some(Outcome(more.value, []))
               else Read(next, task, more.value, s[1..])
  {
  }

  lemma StoppedAtOnce(task: Task, collector: Collector, s: seq<Byte>)
    ensures Stopped(task, collector, s, 0) == Some(Outcome(collector, s))
  {
  }

  /** The position of the first byte of s that is among the delimiters. */
  function FirstOf(until: seq<Byte>, s: seq<Byte>): (k: nat)
    ensures k <= |s| && (k < |s| ==> s[k] in until) && forall i :: 0 <= i < k ==> s[i] !in until
  {
    if s == [] || s[0] in until then 0 else 1 + FirstOf(until, s[1..])
  }

  lemma AfterLast(until: seq<Byte>, size: nat, task: Task, collector: Collector, s: seq<Byte>)
    ensures Read(Criteria(UntilMatch(until, true), size, GoodAtLast), task, collector, s)
         == if s == [] || size + 1 > UNTIL_LIMIT then None else Some(Outcome(collector, s))
  {
  }

  lemma ReadNothing(criteria: Criteria, task: Task, collector: Collector, s: seq<Byte>)
    requires s == []
    ensures Read(criteria, task, collector, s) == None
  {
  }

  lemma UntilReadOn(until: seq<Byte>, inclusive: bool, size: nat, task: Task, collector: Collector, s: seq<Byte>)
    requires s != [] && s[0] !in until
    ensures var more, mode := Perform(task, collector, s[0]), UntilMatch(until, inclusive);
            Read(Criteria(mode, size, Good), task, collector, s)
            == if size + 1 > UNTIL_LIMIT || more.None? then None
               else Read(Criteria(mode, size + 1, Good), task, more.value, s[1..])
  {
  }

  lemma UntilReadAtHead(until: seq<Byte>, inclusive: bool, size: nat, task: Task, collector: Collector, s: seq<Byte>)
    requires s != [] && s[0] in until
    ensures Read(Criteria(UntilMatch(until, inclusive), size, Good), task, collector, s)
         == if size + (if inclusive && 1 < |s| then 2 else 1) > UNTIL_LIMIT then None
            else Stopped(task, collector, s, if inclusive then 1 else 0)
  {
    if size + 1 > UNTIL_LIMIT {
      return;
    }
    ReadStep(Criteria(UntilMatch(until, inclusive), size, Good), task, collector, s);
    var more := Perform(task, collector, s[0]);
    hide Read, Stopped, Perform, Feed;
    if inclusive {
      StoppedStep(task, collector, s, 1);
      if more.Some? {
        StoppedAtOnce(task, more.value, s[1..]);
        AfterLast(until, size + 1, task, more.value, s[1..]);
      }
    } else {
      StoppedAtOnce(task, collector, s);
    }
  }

  /** An until-read returns the shortest prefix that ends in a delimiter, or ends before one; it
      fails exactly when there is no delimiter, when more than 2^16 bytes have to be looked at,
      or when a task or the collector refuses a byte of the prefix. */
  lemma {:induction false} UntilRead(until: seq<Byte>, inclusive: bool, size: nat, task: Task, collector: Collector,
                                     s: seq<Byte>)
    ensures var k := FirstOf(until, s);
            var looked := if inclusive && k + 1 < |s| then k + 2 else k + 1;
            Read(Criteria(UntilMatch(until, inclusive), size, Good), task, collector, s)
            == if k == |s| || size + looked > 0x1_0000 then None
               else Stopped(task, collector, s, if inclusive then k + 1 else k)
    decreases |s|
  {
    hide Read, Stopped, Perform, Feed, Next;
    if s == [] {
      ReadNothing(Criteria(UntilMatch(until, inclusive), size, Good), task, collector, s);
    } else if s[0] in until {
      UntilReadAtHead(until, inclusive, size, task, collector, s);
    } else {
      var k := FirstOf(until, s);
      assert k == 1 + FirstOf(until, s[1..]);
      hide FirstOf;
      UntilReadOn(until, inclusive, size, task, collector, s);
      var more := Perform(task, collector, s[0]);
      if more.Some? {
        UntilRead(until, inclusive, size + 1, task, more.value, s[1..]);
      }
      if k < |s| {
        StoppedStep(task, collector, s, if inclusive then k + 1 else k);
      }
    }
  }

  /** How many digits s starts with. */
  function Digits(s: seq<Byte>): (k: nat)
    ensures k <= |s| && (k < |s| ==> !IsDigit(s[k])) && forall i :: 0 <= i < k ==> IsDigit(s[i])
  {
    if s == [] || !IsDigit(s[0]) then 0 else 1 + Digits(s[1..])
  }

  /** A digit-read returns the longest prefix of digits; it needs a byte after it. */
  lemma {:induction false} DigitRead(size: nat, task: Task, collector: Collector, s: seq<Byte>)
    ensures var k := Digits(s);
            Read(Criteria(WhileDigit, size, Good), task, collector, s)
            == if k == |s| || size + k + 1 > UNTIL_LIMIT then None else Stopped(task, collector, s, k)
    decreases |s|
  {
    var k := Digits(s);
    if s == [] || size + 1 > UNTIL_LIMIT {
      return;
    }
    ReadStep(Criteria(WhileDigit, size, Good), task, collector, s);
    var more := Perform(task, collector, s[0]);
    hide Read, Stopped, Perform;
    if IsDigit(s[0]) {
      if more.Some? {
        DigitRead(size + 1, task, more.value, s[1..]);
      }
      if k < |s| {
        StoppedStep(task, collector, s, k);
      }
    } else {
      StoppedAtOnce(task, collector, s);
    }
  }

  lemma SizeReadOn(n: nat, task: Task, collector: Collector, s: seq<Byte>)
    requires s != [] && 0 < n < WORD
    ensures var more := Perform(task, collector, s[0]);
            Read(Criteria(UntilSize, n, Good), task, collector, s)
            == if more.None? then None
               else if n > 1 then Read(Criteria(UntilSize, n - 1, Good), task, more.value, s[1..])
               else Some(Outcome(more.value, s[1..]))
  {
    var more := Perform(task, collector, s[0]);
    var next := SizeNext(Criteria(UntilSize, n, Good));
    assert next == Criteria(UntilSize, n - 1, if n == 1 then GoodAtLast else Good);
    ReadStep(Criteria(UntilSize, n, Good), task, collector, s);
    if |s| == 1 {
      assert s[1..] == [];
    } else if n == 1 && more.Some? {
      ReadStep(Criteria(UntilSize, 0, GoodAtLast), task, more.value, s[1..]);
    }
  }

  /** A sized read returns exactly n bytes, and needs no byte after them. */
  lemma {:induction false} SizeRead(n: nat, task: Task, collector: Collector, s: seq<Byte>)
    requires n < WORD
    ensures Read(Criteria(UntilSize, n, Good), task, collector, s)
         == if s == [] || n > |s| then None else Stopped(task, collector, s, n)
    decreases |s|
  {
    if s == [] || n == 0 {
      return;
    }
    SizeReadOn(n, task, collector, s);
    var more := Perform(task, collector, s[0]);
    hide Read, Perform, Stopped, Feed;
    if more.Some? {
      if n > 1 {
        SizeRead(n - 1, task, more.value, s[1..]);
      } else {
        StoppedAtOnce(task, more.value, s[1..]);
      }
    }
    if n <= |s| {
      StoppedStep(task, collector, s, n);
    }
  }
}
