/** The stream as a whole: any mix of its operations, over any chunks and any buffer size, does
    what it would do on the plain sequence of the data. */
module PlainReader {
  import opened Optional
  import opened Stream

  datatype Operation = Good | Peek | Get | Unget | ReadEls(n: nat)

  /** The data left, the bytes that unget can put back whatever the chunks, the one read last at
      the end, whether all the data is in the buffer, and whether the stream is bad. */
  datatype Plain = Plain(rest: seq<Byte>, back: seq<Byte>, whole: bool, bad: bool)

  /** Unget needs a byte that can be put back. */
  predicate Allowed(p: Plain, op: Operation) {
    op.Unget? ==> p.back != []
  }

  /** What can be put back after a look at the next byte: only the last of the bytes before it may
      survive the refill. */
  function Kept(p: Plain): seq<Byte> {
    if p.whole then p.back else LastOf(p.back)
  }

  /** What an operation returns; None when it fails. */
  function Result(p: Plain, op: Operation): Option<seq<Byte>>
    requires Allowed(p, op)
  {
    match op
    case Good => if !p.bad && p.rest != [] then Some([]) else None
    case Peek => if !p.bad && p.rest != [] then Some([p.rest[0]]) else None
    case Get => if !p.bad && p.rest != [] then Some([p.rest[0]]) else None
    case Unget => Some([])
    case ReadEls(n) => if 1 <= n <= READ_LIMIT && n <= |p.rest| then Some(p.rest[..n]) else None
  }

  function Next(p: Plain, op: Operation): Plain
    requires Allowed(p, op)
  {
    var failed := Result(p, op).None?;
    match op
    case Good => p.(bad := failed)
    case Peek => if failed then p.(bad := true) else p.(back := Kept(p), bad := false)
    case Get =>
      if failed then p.(bad := true)
      else p.(rest := p.rest[1..], back := Kept(p) + [p.rest[0]], bad := false)
    case Unget =>
      var n := |p.back| - 1;
      p.(rest := [p.back[n]] + p.rest, back := p.back[..n])
    case ReadEls(n) =>
      if !failed then
        p.(rest := p.rest[n..], back := if p.whole then p.back + p.rest[..n] else LastOf(p.rest[..n]))
      else if 1 <= n <= READ_LIMIT then p.(rest := [], back := [], bad := true)
      else p
  }

  predicate AllAllowed(p: Plain, ops: seq<Operation>)
    decreases |ops|
  {
    ops == [] || (Allowed(p, ops[0]) && AllAllowed(Next(p, ops[0]), ops[1..]))
  }

  function Results(p: Plain, ops: seq<Operation>): seq<Option<seq<Byte>>>
    requires AllAllowed(p, ops)
    decreases |ops|
  {
    if ops == [] then [] else [Result(p, ops[0])] + Results(Next(p, ops[0]), ops[1..])
  }

  predicate Suffix(t: seq<Byte>, s: seq<Byte>) {
    |t| <= |s| && s[|s| - |t|..] == t
  }

  lemma SuffixMore(t: seq<Byte>, s: seq<Byte>, more: seq<Byte>)
    requires Suffix(t, s)
    ensures Suffix(t + more, s + more)
  {
    assert (s + more)[|s| - |t|..] == s[|s| - |t|..] + more;
  }

  lemma SuffixLast(t: seq<Byte>, s: seq<Byte>)
    requires Suffix(t, s)
    ensures Suffix(LastOf(t), s) && Suffix(LastOf(t), LastOf(s)) && Suffix([], [])
    ensures t != [] ==> s != [] && s[|s| - 1] == t[|t| - 1] && Suffix(t[..|t| - 1], s[..|s| - 1])
  {
    if t != [] {
      var k := |s| - |t|;
      assert s[k..][|t| - 1] == t[|t| - 1];
      assert s[..|s| - 1][k..] == s[k..][..|t| - 1];
    }
  }

  /** The stream behaves like the plain data: it may be able to put back more, never less. */
  ghost predicate Like(stream: EStream, p: Plain)
    reads stream, stream.buffer
  {
    && stream.Valid() && stream.Rest() == p.rest && stream.bad == p.bad
    && Suffix(p.back, stream.Past()) && (p.whole ==> stream.source == [])
  }

  /** What can be put back after a look, or a read of one byte, includes what the plain data says. */
  lemma KeptIsPast(p: Plain, past: seq<Byte>, now: seq<Byte>, read: seq<Byte>)
    requires Suffix(p.back, past) && (now == past + read || (!p.whole && now == LastOf(past) + read))
    ensures Suffix(Kept(p) + read, now)
  {
    SuffixLast(p.back, past);
    SuffixMore(Kept(p), if now == past + read then past else LastOf(past), read);
  }

  lemma ReadIsPast(p: Plain, past: seq<Byte>, now: seq<Byte>, read: seq<Byte>)
    requires Suffix(p.back, past) && LastOf(now) == LastOf(read) && (p.whole ==> now == past + read)
    ensures Suffix(if p.whole then p.back + read else LastOf(read), now)
  {
    SuffixMore(p.back, past, read);
    SuffixLast(now, now);
  }

  method Do(stream: EStream, op: Operation, ghost p: Plain) returns (result: Option<seq<Byte>>)
    requires Like(stream, p) && Allowed(p, op)
    modifies stream, stream.buffer
    ensures result == Result(p, op) && Like(stream, Next(p, op))
  {
    hide EStream.Rest, EStream.Past, EStream.Valid, Flatten, Suffix, LastOf, Kept;
    ghost var past := stream.Past();
    SuffixLast(p.back, past);
    match op {
      case Good =>
        var ok := stream.Good();
        result := if ok then Some([]) else None;
      case Peek =>
        var ok, el := stream.Peek();
        result := if ok then Some([el]) else None;
        if ok {
          KeptIsPast(p, past, stream.Past(), []);
          assert Kept(p) + [] == Kept(p);
        }
      case Get =>
        var ok, el := stream.Get();
        result := if ok then Some([el]) else None;
        if ok {
          KeptIsPast(p, past, stream.Past(), [el]);
        }
      case Unget =>
        stream.Unget();
        result := Some([]);
      case ReadEls(n) =>
        var ok, data := stream.ReadEls(n);
        result := if ok then Some(data) else None;
        if ok {
          ReadIsPast(p, past, stream.Past(), data);
        }
    }
  }

  /** A whole sequence of operations returns what it does on the plain data. */
  method Replay(stream: EStream, ops: seq<Operation>, ghost p: Plain) returns (results: seq<Option<seq<Byte>>>)
    requires Like(stream, p) && AllAllowed(p, ops)
    modifies stream, stream.buffer
    ensures results == Results(p, ops)
  {
    hide Allowed, Result, Next, Like;
    results := [];
    var i := 0;
    ghost var now := p;
    assert ops[0..] == ops;
    while i < |ops|
      invariant 0 <= i <= |ops| && Like(stream, now) && AllAllowed(now, ops[i..])
      invariant results + Results(now, ops[i..]) == Results(p, ops)
    {
      assert ops[i..][0] == ops[i] && ops[i..][1..] == ops[i + 1..];
      var result := Do(stream, ops[i], now);
      now := Next(now, ops[i]);
      results := results + [result];
      i := i + 1;
    }
  }

  /** Two streams over the same data, one in memory and one that delivers it in chunks, answer
      every sequence of operations alike. */
  method SameAnswers(chunks: seq<seq<Byte>>, bufferSize: nat, ops: seq<Operation>)
      returns (fromMemory: seq<Option<seq<Byte>>>, fromDescriptor: seq<Option<seq<Byte>>>)
    requires forall i :: 0 <= i < |chunks| ==> 0 < |chunks[i]| <= bufferSize
    requires AllAllowed(Plain(Flatten(chunks), [], false, false), ops)
    ensures fromMemory == fromDescriptor == Results(Plain(Flatten(chunks), [], false, false), ops)
  {
    hide AllAllowed, Results, Flatten;
    var data := Flatten(chunks);
    var bytes := new Byte[|data|](i requires 0 <= i < |data| => data[i]);
    assert bytes[..] == data;
    var memory := new EStream.FromMemory(bytes);
    fromMemory := Replay(memory, ops, Plain(data, [], false, false));
    var descriptor := new EStream.FromDescriptor(chunks, bufferSize);
    fromDescriptor := Replay(descriptor, ops, Plain(data, [], false, false));
  }
}
