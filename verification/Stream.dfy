/** The buffered byte stream: whatever the chunks in which a source delivers its data and
    whatever the buffer size, it reads like the concatenated data. */
module Stream {
  import opened Optional

  type Byte = n: int | 0 <= n < 256

  const WORD := 0x1_0000_0000_0000_0000   // sizes and seconds are 64-bit words

  function Flatten(chunks: seq<seq<Byte>>): seq<Byte> {
    if chunks == [] then [] else chunks[0] + Flatten(chunks[1..])
  }

  /** Its last element, if it has one. */
  function LastOf(s: seq<Byte>): seq<Byte> {
    if s == [] then [] else [s[|s| - 1]]
  }

  const READ_LIMIT := 0x1_0000_0000

  class EStream {
    const buffer: array<Byte>
    var elsInBuffer: nat
    var cursor: nat
    var ungot: bool
    var ungotEl: Byte
    var bad: bool               // some error flag is set
    var source: seq<seq<Byte>>  // what the coming reads from the descriptor will deliver
    ghost var kept: bool        // ungotEl is the byte before those in the buffer

    ghost predicate Valid()
      reads this, buffer
    {
      && cursor <= elsInBuffer <= buffer.Length
      && (forall i :: 0 <= i < |source| ==> 0 < |source[i]| <= buffer.Length)
      && (ungot ==> cursor == 0 && kept) && (kept ==> 0 < elsInBuffer)
    }

    /** The bytes that unget can put back, the one read last at the end: those already read
        from the buffer, and the one before them if it was kept. */
    ghost function Past(): seq<Byte>
      requires Valid()
      reads this, buffer
    {
      (if kept && !ungot then [ungotEl] else []) + buffer[..cursor]
    }

    /** What is still to be read. */
    ghost function Rest(): seq<Byte>
      requires Valid()
      reads this, buffer
    {
      (if ungot then [ungotEl] else []) + buffer[cursor..elsInBuffer] + Flatten(source)
    }

    /** A stream over a block of memory. */
    constructor FromMemory(data: array<Byte>)
      ensures Valid() && Rest() == data[..] && Past() == [] && !bad && source == [] && buffer == data
    {
      buffer, elsInBuffer, cursor := data, data.Length, 0;
      ungot, ungotEl, bad, source, kept := false, 0, false, [], false;
      new;
      assert buffer[0..data.Length] == data[..];
    }

    /** A stream over a descriptor, with a buffer of its own. */
    constructor FromDescriptor(chunks: seq<seq<Byte>>, bufferSize: nat)
      requires forall i :: 0 <= i < |chunks| ==> 0 < |chunks[i]| <= bufferSize
      ensures Valid() && Rest() == Flatten(chunks) && Past() == [] && !bad && fresh(buffer)
    {
      buffer, elsInBuffer, cursor := new Byte[bufferSize](_ => 0), 0, 0;
      ungot, ungotEl, bad, source, kept := false, 0, false, chunks, false;
    }

    predicate ReadPastBuffer()
      reads this
    {
      cursor >= elsInBuffer
    }

    /** Reads the next chunk; without one, the stream turns bad and the read fails. */
    method FillBuffer() returns (ok: bool)
      requires Valid() && !ungot
      modifies this`cursor, this`elsInBuffer, this`bad, this`source, this`kept, buffer
      ensures Valid() && cursor == 0 && !kept && Past() == [] && Rest() == Flatten(old(source))
      ensures ok == (old(source) != []) && bad == (old(bad) || !ok)
      ensures if ok then elsInBuffer > 0 && source == old(source)[1..] else source == []
    {
      cursor, kept := 0, false;
      if source == [] {
        elsInBuffer, bad := 0, true;
        return false;
      }
      var chunk := source[0];
      source := source[1..];
      for i := 0 to |chunk|
        modifies buffer
        invariant buffer[..i] == chunk[..i]
      {
        buffer[i] := chunk[i];
      }
      elsInBuffer := |chunk|;
      ok := true;
      assert buffer[0..elsInBuffer] == chunk;
    }

    /** Whether a read can succeed. Having found the end of the data once, the stream is
        bad for good. */
    method Good() returns (good: bool)
      requires Valid()
      modifies this`bad
      ensures good == (!old(bad) && Rest() != []) && bad == !good
      ensures Valid() && Rest() == old(Rest()) && Past() == old(Past())
    {
      if !bad && ReadPastBuffer() && source == [] {
        bad := true;
      }
      if !ReadPastBuffer() {
        assert buffer[cursor..elsInBuffer] != [];
      } else if source != [] {
        assert Flatten(source)[0] == source[0][0];
      }
      good := !bad;
    }

    /** The next byte. Past the buffer, a look refills it, and of the bytes that could be put back
        only the last one is kept. */
    method Peek() returns (ok: bool, el: Byte)
      requires Valid()
      modifies this`cursor, this`elsInBuffer, this`bad, this`source, this`ungotEl, this`kept, buffer
      ensures Valid() && Rest() == old(Rest()) && ungot == old(ungot)
      ensures ok == (!old(bad) && Rest() != []) && bad == !ok
      ensures ok ==> el == Rest()[0] && (ungot || cursor < elsInBuffer)
      ensures Past() == if ok && old(ReadPastBuffer()) then LastOf(old(Past())) else old(Past())
      ensures old(source) == [] ==> source == [] && Past() == old(Past())
    {
      ok := Good();
      el := 0;
      if ok {
        if ReadPastBuffer() {
          assert buffer[cursor..elsInBuffer] == [];
          ghost var past, keeps := Past(), kept || cursor != 0;
          if cursor != 0 {
            ungotEl := buffer[cursor - 1];
          }
          ok := FillBuffer();
          kept := keeps;
          assert Past() == LastOf(past);
        }
        el := if cursor == 0 && ungot then ungotEl else buffer[cursor];
      }
    }

    method Get() returns (ok: bool, el: Byte)
      requires Valid()
      modifies this`cursor, this`elsInBuffer, this`bad, this`source, this`ungot, this`ungotEl, this`kept, buffer
      ensures Valid() && ok == (!old(bad) && old(Rest()) != []) && bad == !ok
      ensures ok ==> el == old(Rest())[0] && Rest() == old(Rest())[1..]
      ensures ok ==> Past() == (if old(ReadPastBuffer()) then LastOf(old(Past())) else old(Past())) + [el]
      ensures !ok ==> Rest() == old(Rest()) && Past() == old(Past())
      ensures old(source) == [] ==> source == [] && (ok ==> Past() == old(Past()) + [el])
    {
      hide Rest, Past, Flatten;
      ok, el := Peek();
      if ok {
        TakeOne();
      }
    }

    /** Goes past the byte that a look has found. */
    method TakeOne()
      requires Valid() && (ungot || cursor < elsInBuffer)
      modifies this`cursor, this`ungot
      ensures Valid() && old(Rest()) == [old(Rest()[0])] + Rest() && Past() == old(Past()) + [old(Rest()[0])]
    {
      ghost var rest, past := Rest(), Past();
      if cursor == 0 && ungot {
        ungot := false;
        assert Past() == past + [ungotEl];
      } else {
        assert buffer[cursor..elsInBuffer] == [buffer[cursor]] + buffer[cursor + 1..elsInBuffer];
        cursor := cursor + 1;
        assert Past() == past + [buffer[cursor - 1]];
      }
      assert rest == [rest[0]] + Rest();
    }

    /** Puts a byte back: the one read last that was not put back yet. */
    method Unget()
      requires Valid() && Past() != []
      modifies this`cursor, this`ungot
      ensures var past := old(Past()); var n := |past| - 1;
              Valid() && Past() == past[..n] && Rest() == [past[n]] + old(Rest())
    {
      ghost var past := Past();
      if cursor == 0 {
        ungot := true;
      } else {
        assert buffer[cursor - 1..elsInBuffer] == [buffer[cursor - 1]] + buffer[cursor..elsInBuffer];
        cursor := cursor - 1;
      }
      assert Past() == past[..|past| - 1];
    }

    /** Copies the next elements, all of them buffered. */
    method TakeBuffered(k: nat) returns (piece: seq<Byte>)
      requires Valid() && !ungot && 0 < k <= elsInBuffer - cursor
      modifies this`cursor
      ensures Valid() && |piece| == k && old(Rest()) == piece + Rest() && Past() == old(Past()) + piece
    {
      assert buffer[cursor..elsInBuffer] == buffer[cursor..cursor + k] + buffer[cursor + k..elsInBuffer];
      assert buffer[..cursor + k] == buffer[..cursor] + buffer[cursor..cursor + k];
      piece := buffer[cursor..cursor + k];
      cursor := cursor + k;
    }

    /** Copies what is left in the buffer and refills it. */
    method TakeAllBuffered() returns (ok: bool, piece: seq<Byte>)
      requires Valid() && !ungot
      modifies this`cursor, this`elsInBuffer, this`bad, this`source, this`kept, buffer
      ensures Valid() && |piece| == old(elsInBuffer - cursor) && old(Rest()) == piece + Rest() && Past() == []
      ensures bad == (old(bad) || !ok) && ok == (old(source) != [])
      ensures if ok then |source| < |old(source)| else Rest() == [] && source == []
    {
      piece := buffer[cursor..elsInBuffer];
      ok := FillBuffer();
    }

    /** Goes on copying, chunk after chunk, until the n elements are there. What was copied from
        earlier chunks can no longer be put back; without a refill all can, after the past before. */
    method ReadOn(n: nat, start: seq<Byte>, ghost past: seq<Byte>) returns (ok: bool, data: seq<Byte>)
      requires Valid() && !ungot && 0 < n && |start| <= n && (|start| == n ==> LastOf(Past()) == LastOf(start))
      requires source == [] ==> Past() == past + start
      modifies this`cursor, this`elsInBuffer, this`bad, this`source, this`kept, buffer
      ensures Valid() && ok == (n <= |start + old(Rest())|)
      ensures if ok then |data| == n && data + Rest() == start + old(Rest()) else Rest() == [] && Past() == []
      ensures ok ==> LastOf(Past()) == LastOf(data)
      ensures old(source) == [] ==> source == [] && (ok ==> Past() == past + data)
      ensures bad == (old(bad) || !ok)
    {
      hide Rest, Past, Flatten;
      ghost var all := start + Rest();
      ok, data := true, start;
      while |data| < n
        invariant Valid() && !ungot && |data| <= n && (|data| == n ==> LastOf(Past()) == LastOf(data))
        invariant data + Rest() == all && ok && bad == old(bad)
        invariant old(source) == [] ==> source == [] && Past() == past + data
        decreases n - |data|, |source|
      {
        var piece;
        ghost var before, rest := data, Rest();
        if n - |data| > elsInBuffer - cursor {
          ok, piece := TakeAllBuffered();
          data := data + piece;
          if !ok {
            return;
          }
        } else {
          piece := TakeBuffered(n - |data|);
          data := data + piece;
        }
        assert data + Rest() == before + rest;
      }
    }

    /** Copies the next n elements, reading chunk after chunk. A read that runs out of data
        has consumed it. */
    method ReadEls(n: nat) returns (ok: bool, data: seq<Byte>)
      requires Valid()
      modifies this`cursor, this`elsInBuffer, this`bad, this`source, this`ungot, this`kept, buffer
      ensures Valid() && ok == (1 <= n <= 0x1_0000_0000 && n <= |old(Rest())|)
      ensures ok ==> data == old(Rest())[..n] && Rest() == old(Rest())[n..] && bad == old(bad)
      ensures ok ==> LastOf(Past()) == LastOf(data)
      ensures !ok && 1 <= n <= READ_LIMIT ==> Rest() == [] && bad && Past() == []
      ensures !ok && !(1 <= n <= READ_LIMIT) ==> Rest() == old(Rest()) && bad == old(bad) && Past() == old(Past())
      ensures old(source) == [] ==> source == [] && (ok ==> Past() == old(Past()) + data)
    {
      ghost var rest, past := Rest(), Past();
      ok, data := 1 <= n <= READ_LIMIT, [];
      if !ok {
        return;
      }
      if ReadPastBuffer() {
        assert buffer[cursor..elsInBuffer] == [];
        ok := FillBuffer();
        if !ok {
          return;
        }
        past := [];
      } else if cursor == 0 && ungot {
        ungot := false;
        data := [ungotEl];
      }
      assert data + Rest() == rest && Past() == past + data;
      ok, data := ReadOn(n, data, past);
      if ok {
        assert rest[..n] == data && rest[n..] == Rest();
      }
    }
  }
}
