/**
 From one end of a connection to the other: what one side writes, through the wire cut into reads of any
 shape, the parser and the ring buffer, as lines on the other side.
 */
module EndToEnd {
  import opened Telnet
  import opened Automaton
  import opened Spans
  import opened Parsing
  import opened Chunks
  import opened Codec
  import opened Session
  import opened Lines
  import opened ReadSide

  /** No read yields more data runs than one parse reports, or more data than the ring holds. */
  predicate Lossless(m: Machine, capacity: nat, incoming: seq<Incoming>)
    decreases |incoming|
  {
    incoming == [] ||
    (var chunk := incoming[0].bytes;
     && |DataSpans(m, chunk)| <= MAX_DATA && |Emitted(m, chunk).data| <= capacity
     && Lossless(Final(m, chunk), capacity, incoming[1..]))
  }

  /** The data buffered from one read is a prefix of the data in it, all of it exactly when it fits. */
  lemma BufferedData(m: Machine, capacity: nat, chunk: seq<byte>)
    ensures var d := First(Delivered(m, chunk).data, capacity);
            && |d| <= |Emitted(m, chunk).data|
            && (|DataSpans(m, chunk)| <= MAX_DATA && |Emitted(m, chunk).data| <= capacity ==> d == Emitted(m, chunk).data)
            && (!(|DataSpans(m, chunk)| <= MAX_DATA && |Emitted(m, chunk).data| <= capacity) ==>
                  |d| < |Emitted(m, chunk).data|)
  {
    DataIsPrefix(m, chunk);
  }

  /** A read that brings an error and no data is the last; an error that comes with data is not reported. */
  predicate FailsLast(arrivals: seq<Arrival>) {
    arrivals == [] ||
    ((arrivals[0].err && arrivals[0].data == [] ==> arrivals[1..] == []) && FailsLast(arrivals[1..]))
  }

  lemma {:induction false} StreamSize(m: Machine, capacity: nat, incoming: seq<Incoming>)
    requires FailsLast(Arrivals(m, capacity, incoming))
    ensures var s, d := Stream(Arrivals(m, capacity, incoming)), Emitted(m, Flat(Bytes(incoming))).data;
            && (Lossless(m, capacity, incoming) ==> s == d)
            && (!Lossless(m, capacity, incoming) ==> |s| < |d|)
    decreases |incoming|
  {
    if incoming != [] {
      var chunk, rest, m1 := incoming[0].bytes, incoming[1..], Final(m, incoming[0].bytes);
      var arrivals := Arrivals(m, capacity, incoming);
      assert arrivals[1..] == Arrivals(m1, capacity, rest);
      BufferedData(m, capacity, chunk);
      StreamSize(m1, capacity, rest);
      assert Emitted(m, Flat(Bytes(incoming))).data == Emitted(m, chunk).data + Emitted(m1, Flat(Bytes(rest))).data by {
        RunConcat(m, chunk, Flat(Bytes(rest)));
        assert Bytes(incoming)[1..] == Bytes(rest);
      }
      if arrivals[0].err && arrivals[0].data == [] {
        assert |arrivals[1..]| == |rest| == 0;
      }
    }
  }

  /** While reads do not fail, the application's data stream is the decoded one if and only if nothing is cut. */
  lemma BufferingIsExact(m: Machine, capacity: nat, incoming: seq<Incoming>)
    requires FailsLast(Arrivals(m, capacity, incoming))
    ensures Stream(Arrivals(m, capacity, incoming)) == Emitted(m, Flat(Bytes(incoming))).data
            <==> Lossless(m, capacity, incoming)
  {
    StreamSize(m, capacity, incoming);
  }

  lemma {:induction false} PlainRun(m: Machine, s: seq<byte>)
    requires m.state == StateData && IAC !in s
    ensures Final(m, s) == m
    ensures DataSpans(m, s) == if s == [] then [] else [Span(0, |s|)]
  {
    if s != [] {
      var s', b := s[..|s| - 1], s[|s| - 1];
      assert b in s;
      PlainRun(m, s');
      assert DataSpans(m, s) == AddRun(DataSpans(m, s'), |s'|, |s'| + 1);
    }
  }

  /**
   A read of plain data is buffered whole if and only if it is no longer than the ring's capacity, which is
   one less than the ring's size: a read that fills a buffer of the same power-of-two size loses a byte.
   */
  lemma PlainReadFits(m: Machine, capacity: nat, chunk: seq<byte>)
    requires m.state == StateData && IAC !in chunk
    ensures First(Delivered(m, chunk).data, capacity) == chunk <==> |chunk| <= capacity
  {
    PlainRun(m, chunk);
    assert Emitted(m, chunk).data == chunk by {
      EscapeLength(chunk);
      ParseEscaped(m, chunk);
    }
    BufferedData(m, capacity, chunk);
  }

  /**
   Lines end to end. When the reads bring the wire bytes of `calls`, cut anywhere, without loss, aligned
   (as reads of at most 1024 data bytes always are) and with no data-free read after a CR, the receiver's
   ReadLine calls return exactly the lines of the data that was written.
   */
  lemma LinesArrive(m: Machine, calls: seq<Call>, capacity: nat, incoming: seq<Incoming>)
    requires m.state == StateData && AllNegotiate(calls) && Flat(Bytes(incoming)) == Wire(calls)
    requires FailsLast(Arrivals(m, capacity, incoming))
    requires Lossless(m, capacity, incoming)
    requires AllAligned(Arrivals(m, capacity, incoming)) && NoGap(false, [], Arrivals(m, capacity, incoming))
    ensures ReadAll([], Arrivals(m, capacity, incoming)) == SplitLines(Sent(calls).data)
  {
    var arrivals := Arrivals(m, capacity, incoming);
    BufferingIsExact(m, capacity, incoming);
    ParseWire(m, calls);
    ArrivedData(calls);
    assert Ahead([], arrivals) == Stream(arrivals);
    ReadAllSplitsLines([], arrivals);
  }

  lemma {:induction false} ArrivedData(calls: seq<Call>)
    ensures Arrived(calls).data == Sent(calls).data
  {
    if calls != [] {
      ArrivedData(calls[..|calls| - 1]);
    }
  }
}
