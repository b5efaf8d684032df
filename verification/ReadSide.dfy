/**
 The read half of a connection: network reads go through the parser into the ring buffer, and ReadLine
 assembles lines from it. Proved to be the loop of module Lines over what the parser delivers.
 */
module ReadSide {
  import opened Telnet
  import opened Automaton
  import opened Spans
  import opened Parsing
  import opened Bits
  import opened Rings
  import opened Lines
  import Chunks
  import Codec

  /** What a network read returns: bytes, and whether it reported an error (end of file included). */
  datatype Incoming = Incoming(bytes: seq<byte>, err: bool)

  /** The decoded data the reads will bring: what the parser hands over, cut at the ring's capacity. */
  function Arrivals(m: Machine, capacity: nat, incoming: seq<Incoming>): seq<Arrival>
    decreases |incoming|
  {
    if incoming == [] then []
    else [Arrival(First(Chunks.Delivered(m, incoming[0].bytes).data, capacity), incoming[0].err)]
         + Arrivals(Final(m, incoming[0].bytes), capacity, incoming[1..])
  }

  /** The bytes the reads bring, chunk by chunk. */
  function Bytes(incoming: seq<Incoming>): seq<seq<byte>> {
    if incoming == [] then [] else [incoming[0].bytes] + Bytes(incoming[1..])
  }

  /** Each read brings its own error, and the data of its bytes as all bytes before it make the parser see them. */
  lemma {:induction false} ArrivalsAre(m: Machine, capacity: nat, incoming: seq<Incoming>, i: nat)
    requires i < |incoming|
    ensures |Arrivals(m, capacity, incoming)| == |incoming|
    ensures var a := Arrivals(m, capacity, incoming)[i];
            && a.err == incoming[i].err
            && a.data == First(Chunks.Delivered(Final(m, Flat(Bytes(incoming[..i]))), incoming[i].bytes).data, capacity)
    decreases |incoming|
  {
    var chunk, rest := incoming[0].bytes, incoming[1..];
    ArrivalsSize(Final(m, chunk), capacity, rest);
    if i > 0 {
      ArrivalsAre(Final(m, chunk), capacity, rest, i - 1);
      assert Final(m, Flat(Bytes(incoming[..i]))) == Final(Final(m, chunk), Flat(Bytes(rest[..i - 1]))) by {
        RunConcat(m, chunk, Flat(Bytes(rest[..i - 1])));
        assert incoming[..i][1..] == rest[..i - 1];
        assert ([chunk] + Bytes(rest[..i - 1]))[1..] == Bytes(rest[..i - 1]);
      }
    }
  }

  lemma {:induction false} ArrivalsSize(m: Machine, capacity: nat, incoming: seq<Incoming>)
    ensures |Arrivals(m, capacity, incoming)| == |incoming|
    decreases |incoming|
  {
    if incoming != [] {
      ArrivalsSize(Final(m, incoming[0].bytes), capacity, incoming[1..]);
    }
  }

  class ReadHalf {
    const parser: Parser
    const result: ParseResult
    const readBuf: Ring
    var incoming: seq<Incoming>  // the network's reads to come; afterwards every read reports an error
    var readLineCR: bool

    ghost function Repr(): set<object>
    {
      {this, parser, parser.snBuf, parser.snBuf.store, result, readBuf, readBuf.buf}
    }

    ghost predicate Valid()
      reads Repr()
    {
      && parser.Valid() && readBuf.Valid()
      && parser.snBuf.store != readBuf.buf
    }

    /** The data to come, as the current parser state will decode it. */
    ghost function ToCome(): seq<Arrival>
      reads Repr()
      requires Valid()
    {
      Arrivals(parser.Machine(), readBuf.mask, incoming)
    }

    constructor (size: int, incoming: seq<Incoming>)
      requires size <= 0x1_0000_0000
      ensures Valid() && fresh(Repr()) && !readLineCR
      ensures readBuf.contents == [] && this.incoming == incoming
      ensures LeastPowerAtLeast(readBuf.mask + 1, if size <= 0 then 65536 else size)
      ensures parser.Machine() == Automaton.Machine(StateData, 0, 0, [])
    {
      parser := new Parser();
      result := new ParseResult();
      readBuf := new Ring(if size <= 0 then 64 * 1024 else size);
      this.incoming := incoming;
      readLineCR := false;
    }

    /** Parses a chunk and buffers its data, as much as fits. */
    method ProcessRead(data: seq<byte>)
      requires Valid() && readBuf.contents == []
      modifies Repr() - {this}
      ensures Valid()
      ensures parser.Machine() == Final(old(parser.Machine()), data)
      ensures readBuf.contents == First(Chunks.Delivered(old(parser.Machine()), data).data, readBuf.mask)
      ensures result.cmdEvents == Chunks.Delivered(old(parser.Machine()), data).cmds
      ensures result.snapshots == Chunks.Delivered(old(parser.Machine()), data).subs
      ensures result.SubsView(parser.snBuf)
      ensures parser.snBuf.store[..] == Storage(old(parser.Machine()), old(parser.snBuf.store[..]), data)
    {
      parser.Parse(data, result);
      BufferData(data, result.dataEvents);
    }

    method BufferData(data: seq<byte>, events: seq<Span>)
      requires Valid() && readBuf.contents == []
      requires forall k :: 0 <= k < |events| ==> events[k].start <= events[k].end <= |data|
      modifies readBuf, readBuf.buf
      ensures Valid() && readBuf.contents == First(Slices(data, events), readBuf.mask)
    {
      ghost var done: seq<Span> := [];
      for k := 0 to |events|
        invariant Valid() && done == events[..k]
        invariant readBuf.contents == First(Slices(data, done), readBuf.mask)
      {
        BufferRun(data[events[k].start..events[k].end], Slices(data, done));
        SlicesSnoc(data, done, events[k]);
        done := done + [events[k]];
      }
      assert done == events;
    }

    /** One data event: what does not fit any more is dropped. */
    method BufferRun(run: seq<byte>, ghost before: seq<byte>)
      requires Valid() && readBuf.contents == First(before, readBuf.mask)
      modifies readBuf, readBuf.buf
      ensures Valid() && readBuf.contents == First(before + run, readBuf.mask)
    {
      var n, full := readBuf.Write(run);
      Codec.FirstOfConcat(before, run, readBuf.mask);
    }

    static lemma SlicesSnoc(data: seq<byte>, events: seq<Span>, e: Span)
      requires forall k :: 0 <= k < |events| ==> events[k].start <= events[k].end <= |data|
      requires e.start <= e.end <= |data|
      ensures forall k :: 0 <= k < |events + [e]| ==> (events + [e])[k].start <= (events + [e])[k].end <= |data|
      ensures Slices(data, events + [e]) == Slices(data, events) + data[e.start..e.end]
    {
      assert (events + [e])[..|events|] == events;
    }

    /** One network read; what it brought is in the buffer afterwards. */
    method Fetch() returns (err: bool)
      requires Valid() && readBuf.contents == []
      modifies Repr()
      ensures Valid() && readLineCR == old(readLineCR)
      ensures old(incoming) == [] ==> err && readBuf.contents == [] && incoming == []
      ensures old(incoming) != [] ==>
                && err == old(ToCome())[0].err == old(incoming)[0].err
                && readBuf.contents == old(ToCome())[0].data
                && ToCome() == old(ToCome())[1..]
                && incoming == old(incoming)[1..]
    {
      if incoming == [] {
        return true;
      }
      var next := incoming[0];
      incoming := incoming[1..];
      err := next.err;
      ghost var m := parser.Machine();
      if |next.bytes| > 0 {
        ProcessRead(next.bytes);
      } else {
        assert Final(m, []) == m && Chunks.Delivered(m, []).data == [];
      }
    }

    /** Fills `p` from the buffer, reading from the network once if it is empty. */
    method ReadLocked(p: array<byte>) returns (n: nat, err: bool)
      requires Valid() && p !in Repr() && p.Length > 0
      modifies Repr(), p
      ensures Valid() && readLineCR == old(readLineCR)
      ensures var b := if old(readBuf.contents) != [] then old(readBuf.contents)
                       else if old(ToCome()) == [] then [] else old(ToCome())[0].data;
              && n <= p.Length && n <= |b| && (n == p.Length || n == |b|)
              && p[..n] == b[..n] && readBuf.contents == b[n..]
              && (err <==> b == [] && (old(ToCome()) == [] || old(ToCome())[0].err))
              && (err <==> b == [] && (old(incoming) == [] || old(incoming)[0].err))
      ensures ToCome() == if old(readBuf.contents) != [] then old(ToCome())
                          else if old(ToCome()) == [] then [] else old(ToCome())[1..]
      ensures incoming == if old(readBuf.contents) != [] || old(incoming) == [] then old(incoming) else old(incoming)[1..]
    {
      var empty;
      var l := readBuf.Len();
      if l > 0 {
        n, empty := readBuf.Read(p);
        return n, false;
      }
      err := Fetch();
      l := readBuf.Len();
      if l > 0 {
        n, empty := readBuf.Read(p);
        return n, false;  // an error that came with data is not reported
      }
      return 0, err;
    }

    /** The scan of a chunk for LF. */
    method FindLF(chunk: seq<byte>) returns (i: nat)
      ensures i == FirstLF(chunk)
    {
      i := 0;
      while i < |chunk| && chunk[i] != LF
        invariant i <= |chunk| && FirstLF(chunk) == i + FirstLF(chunk[i..])
      {
        assert chunk[i..][0] == chunk[i] && chunk[i..][1..] == chunk[i + 1..];
        i := i + 1;
      }
    }

    /** The line when its LF is at `i`: a CR before it goes, even if it ended the previous read. */
    method CompleteLine(line0: seq<byte>, chunk: seq<byte>, i: nat) returns (line: seq<byte>)
      requires i <= |chunk|
      ensures line == Complete(line0, readLineCR, chunk[..i])
    {
      line := line0;
      var end := i;
      if end > 0 && chunk[end - 1] == CR {
        end := end - 1;
      } else if end == 0 && readLineCR {
        if |line| > 0 {
          line := line[..|line| - 1];
        }
      }
      line := line + chunk[..end];
    }

    /** Puts what was read beyond the LF back into the buffer, behind what is there. */
    method PushBack(b: seq<byte>)
      requires Valid() && |readBuf.contents| + |b| <= readBuf.mask
      modifies readBuf, readBuf.buf
      ensures Valid() && readBuf.contents == old(readBuf.contents) + b
      ensures ToCome() == old(ToCome())
    {
      if |b| > 0 {
        var n, full := readBuf.Write(b);
      }
    }

    /** One line, as the loop of module Lines defines it; the pending CR is never left over. */
    method ReadLine() returns (line: seq<byte>, err: bool)
      requires Valid()
      modifies Repr()
      ensures Valid() && !readLineCR
      ensures LineResult(line, err, readBuf.contents, ToCome())
              == LineFrom([], old(readLineCR), old(readBuf.contents), old(ToCome()))
    {
      line, err := [], false;
      ghost var was := LineFrom([], readLineCR, readBuf.contents, ToCome());
      while true
        invariant Continues(line, was)
        decreases |incoming|, |readBuf.contents|
      {
        var done;
        line, done, err := NextChunk(line, was);
        if done {
          return;
        }
      }
    }

    /** With `line` collected, the rest of the call gives `was`. */
    ghost predicate Continues(line: seq<byte>, was: LineResult)
      reads Repr()
    {
      Valid() && LineFrom(line, readLineCR, readBuf.contents, ToCome()) == was
    }

    /** `ReadChunk` into a buffer of its own, with its record kept. */
    method NextChunk(line0: seq<byte>, ghost was: LineResult) returns (line: seq<byte>, done: bool, err: bool)
      requires Continues(line0, was)
      modifies Repr()
      ensures if done then Valid() && LineResult(line, err, readBuf.contents, ToCome()) == was && !readLineCR
              else Continues(line, was)
      ensures !done ==> |incoming| < |old(incoming)|
                        || (incoming == old(incoming) && |readBuf.contents| < |old(readBuf.contents)|)
    {
      var buf := new byte[READ_SIZE](_ => 0);
      line, done, err := ReadChunk(line0, buf);
    }

    /** One turn of the loop of ReadLine. */
    method ReadChunk(line0: seq<byte>, buf: array<byte>) returns (line: seq<byte>, done: bool, err: bool)
      requires Valid() && buf !in Repr() && buf.Length == READ_SIZE
      modifies Repr(), buf
      ensures Valid()
      ensures var was := LineFrom(line0, old(readLineCR), old(readBuf.contents), old(ToCome()));
              if done then LineResult(line, err, readBuf.contents, ToCome()) == was && !readLineCR
              else LineFrom(line, readLineCR, readBuf.contents, ToCome()) == was
      ensures !done ==> |incoming| < |old(incoming)|
                        || (incoming == old(incoming) && |readBuf.contents| < |old(readBuf.contents)|)
    {
      ghost var cr, c, arrivals := readLineCR, readBuf.contents, ToCome();
      FetchIsInLine(line0, cr, c, arrivals);
      var n;
      n, err := ReadLocked(buf);
      if n == 0 {
        readLineCR := false;
        return line0, err, err;
      }
      line, done := UseChunk(line0, buf[..n], if c != [] then c else arrivals[0].data);
      err := false;
    }

    /** Reading from the network inside the loop is part of the same call. */
    static lemma FetchIsInLine(line: seq<byte>, cr: bool, c: seq<byte>, arrivals: seq<Arrival>)
      ensures c == [] && arrivals == [] ==> LineFrom(line, cr, c, arrivals) == LineResult(line, true, [], [])
      ensures c == [] && arrivals != [] ==>
                LineFrom(line, cr, c, arrivals)
                == if arrivals[0].data != [] then LineFrom(line, cr, arrivals[0].data, arrivals[1..])
                   else if arrivals[0].err then LineResult(line, true, [], arrivals[1..])
                   else LineFrom(line, false, [], arrivals[1..])
    {
    }

    /** What the loop does with a chunk; `b` is what was there to read. */
    method UseChunk(line0: seq<byte>, chunk: seq<byte>, ghost b: seq<byte>) returns (line: seq<byte>, done: bool)
      requires Valid() && b != [] && chunk == First(b, READ_SIZE)
      requires |b| <= readBuf.mask && readBuf.contents == b[|chunk|..]
      modifies Repr()
      ensures Valid() && incoming == old(incoming)
      ensures var was := LineFrom(line0, old(readLineCR), b, old(ToCome()));
              if done then LineResult(line, false, readBuf.contents, ToCome()) == was && !readLineCR
              else LineFrom(line, readLineCR, readBuf.contents, ToCome()) == was && readBuf.contents == old(readBuf.contents)
    {
      var i := FindLF(chunk);
      if i < |chunk| {
        line := CompleteLine(line0, chunk, i);
        PushBack(chunk[i + 1..]);
        readLineCR := false;
        return line, true;
      }
      readLineCR := chunk[|chunk| - 1] == CR;
      return line0 + chunk, false;
    }
  }
}
