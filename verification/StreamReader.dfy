/** Collecting reads from a buffered stream: they make of it what Read makes of the plain
    sequence that is left in it. */
module StreamReader {
  import opened Optional
  import opened Stream
  import opened Reading

  /** The loop of every collecting read. A read that stops at the end of the data has turned
      the stream bad. */
  method StreamCollect(stream: EStream, criteria: LoopCriteria, task: Task, empty: Collector)
      returns (ok: bool, collected: Collector)
    requires stream.Valid()
    modifies stream, stream.buffer, criteria
    ensures stream.Valid()
    ensures ok == (!old(stream.bad) && Read(old(criteria.info), task, empty, old(stream.Rest())).Some?)
    ensures ok ==> Read(old(criteria.info), task, empty, old(stream.Rest())) == Some(Outcome(collected, stream.Rest()))
    ensures ok ==> stream.bad == (stream.Rest() == [])
  {
    hide Read, Next, Perform, EStream.Past, EStream.Rest, EStream.Valid, Flatten, LastOf;
    ghost var goal := Read(criteria.info, task, empty, stream.Rest());
    collected := empty;
    var el;
    ok, el := stream.Peek();
    if !ok {
      if !old(stream.bad) {
        ReadNothing(criteria.info, task, empty, stream.Rest());
      }
      return;
    }
    while true
      invariant stream.Valid() && !stream.bad && stream.Rest() != [] && el == stream.Rest()[0]
      invariant ok && Read(criteria.info, task, collected, stream.Rest()) == goal
      decreases |stream.Rest()|
    {
      ghost var info, rest := criteria.info, stream.Rest();
      ok := criteria.NextState(el);
      if !ok {
        ReadRefused(info, task, collected, rest);
        return;
      }
      ReadStep(info, task, collected, rest);
      if criteria.info.state == NotGood {
        return;
      }
      ok, el := stream.Get();
      var more := Perform(task, collected, el);
      if more.None? {
        return false, collected;
      }
      collected := more.value;
      var good := stream.Good();
      if !good && criteria.info.state == GoodAtLast {
        return;
      }
      ok, el := stream.Peek();
      if !ok {
        ReadNothing(criteria.info, task, collected, stream.Rest());
        return;
      }
    }
  }

  lemma ReadRefused(criteria: Criteria, task: Task, collector: Collector, s: seq<Byte>)
    requires s != [] && Next(criteria, s[0]).None?
    ensures Read(criteria, task, collector, s) == None
  {
  }

  /** Reads bytes until a delimiter, which is read too. */
  method ReadUntil(stream: EStream, until: seq<Byte>, task: Task) returns (ok: bool, data: seq<Byte>)
    requires stream.Valid()
    modifies stream, stream.buffer
    ensures stream.Valid()
    ensures var outcome := Read(Criteria(UntilMatch(until, true), 0, Good), task, Bytes([]), old(stream.Rest()));
            && ok == (!old(stream.bad) && outcome.Some?)
            && (ok ==> outcome == Some(Outcome(Bytes(data), stream.Rest())) && stream.bad == (stream.Rest() == []))
  {
    var criteria := new LoopCriteria(UntilMatch(until, true), 0);
    var collected;
    ok, collected := StreamCollect(stream, criteria, task, Bytes([]));
    data := [];
    if ok {
      ReadKeepsKind(Criteria(UntilMatch(until, true), 0, Good), task, Bytes([]), old(stream.Rest()));
      data := collected.data;
    }
  }

  lemma {:induction false} PerformKeepsKind(task: Task, collector: Collector, c: Byte)
    ensures var more := Perform(task, collector, c); more.Some? ==> more.value.Bytes? == collector.Bytes?
  {
    if !task.Collecting? {
      var passed := if task.LowerCase? then Lower(c) else if task.UpperCase? then Upper(c) else c;
      PerformKeepsKind(task.next, collector, passed);
    }
  }

  lemma {:induction false} ReadKeepsKind(criteria: Criteria, task: Task, collector: Collector, s: seq<Byte>)
    ensures var r := Read(criteria, task, collector, s); r.Some? ==> r.value.collected.Bytes? == collector.Bytes?
    decreases |s|
  {
    if s == [] {
      return;
    }
    PerformKeepsKind(task, collector, s[0]);
    var next, more := Next(criteria, s[0]), Perform(task, collector, s[0]);
    if next.Some? && more.Some? {
      ReadKeepsKind(next.value, task, more.value, s[1..]);
    }
  }

  /** Reads the digits ahead as a number, or, given a delimiter, everything before it. */
  method ReadNatural(stream: EStream, until: seq<Byte>, consume: bool) returns (ok: bool, value: nat, digitCount: nat)
    requires stream.Valid()
    modifies stream, stream.buffer
    ensures stream.Valid()
    ensures var outcome := NaturalRead(until, consume, old(stream.Rest()));
            && ok == (!old(stream.bad) && outcome.Some?)
            && (ok ==> outcome == Some(Outcome(Natural(value, digitCount), stream.Rest())))
            && (ok && stream.bad ==> stream.Rest() == [])
  {
    ghost var s := stream.Rest();
    var criteria := new LoopCriteria(if until == [] then WhileDigit else UntilMatch(until, false), 0);
    ghost var info := criteria.info;
    var collected;
    ok, collected := StreamCollect(stream, criteria, Collecting, Natural(0, 0));
    value, digitCount := 0, 0;
    if ok {
      ReadKeepsKind(info, Collecting, Natural(0, 0), s);
      value, digitCount := collected.value, collected.digitCount;
      if until != [] && consume {
        var el;
        ok, el := stream.Get();
      }
    }
  }

  /** What ReadNatural makes of a plain sequence. */
  function NaturalRead(until: seq<Byte>, consume: bool, s: seq<Byte>): Option<Outcome> {
    if until == [] then
      Read(Criteria(WhileDigit, 0, Good), Collecting, Natural(0, 0), s)
    else
      var r := Read(Criteria(UntilMatch(until, false), 0, Good), Collecting, Natural(0, 0), s);
      if !consume || r.None? then r
      else if r.value.rest == [] then None else Some(Outcome(r.value.collected, r.value.rest[1..]))
  }

  /** Reads n bytes as a number; with n = 0 the digits ahead. */
  method ReadNaturalOf(stream: EStream, n: nat) returns (ok: bool, value: nat, digitCount: nat)
    requires stream.Valid()
    modifies stream, stream.buffer
    ensures stream.Valid()
    ensures var outcome := NaturalOf(n, old(stream.Rest()));
            && ok == (!old(stream.bad) && outcome.Some?)
            && (ok ==> outcome == Some(Outcome(Natural(value, digitCount), stream.Rest())))
            && (ok ==> stream.bad == (stream.Rest() == []))
  {
    value, digitCount := 0, 0;
    if n > READ_LIMIT {
      return false, value, digitCount;
    }
    ghost var s := stream.Rest();
    var criteria := new LoopCriteria(if n == 0 then WhileDigit else UntilSize, n);
    ghost var info := criteria.info;
    var collected;
    ok, collected := StreamCollect(stream, criteria, Collecting, Natural(0, 0));
    if ok {
      ReadKeepsKind(info, Collecting, Natural(0, 0), s);
      value, digitCount := collected.value, collected.digitCount;
    }
  }

  /** What ReadNaturalOf makes of a plain sequence. */
  function NaturalOf(n: nat, s: seq<Byte>): Option<Outcome> {
    if n > READ_LIMIT then None
    else Read(Criteria(if n == 0 then WhileDigit else UntilSize, n, Good), Collecting, Natural(0, 0), s)
  }
}
