/**
 Parsing a stream chunk by chunk: what the event limits of a single call mean for the whole stream,
 and how short a chunk must be for the limits never to matter.
 */
module Chunks {
  import opened Telnet
  import opened Automaton
  import opened Spans
  import opened Parsing
  import opened Codec

  /** Whether one call on `chunk` reaches none of the three event limits. */
  predicate Fits(m: Machine, chunk: seq<byte>) {
    && |DataSpans(m, chunk)| <= MAX_DATA
    && |Emitted(m, chunk).cmds| <= MAX_COMMANDS
    && |Emitted(m, chunk).subs| <= MAX_SUBS
  }

  /** What one `Parse` call hands to its caller. */
  function Delivered(m: Machine, chunk: seq<byte>): Output {
    Output(Slices(chunk, First(DataSpans(m, chunk), MAX_DATA)),
           First(Emitted(m, chunk).cmds, MAX_COMMANDS),
           First(Emitted(m, chunk).subs, MAX_SUBS))
  }

  predicate AllFit(m: Machine, chunks: seq<seq<byte>>)
    decreases |chunks|
  {
    chunks == [] || (Fits(m, chunks[0]) && AllFit(Final(m, chunks[0]), chunks[1..]))
  }

  /** What successive `Parse` calls on `chunks` hand over in all. */
  function DeliveredAll(m: Machine, chunks: seq<seq<byte>>): Output
    decreases |chunks|
  {
    if chunks == [] then NOTHING
    else Delivered(m, chunks[0]).Then(DeliveredAll(Final(m, chunks[0]), chunks[1..]))
  }

  /** The parser's state after those calls. */
  function FinalAll(m: Machine, chunks: seq<seq<byte>>): Machine
    decreases |chunks|
  {
    if chunks == [] then m else FinalAll(Final(m, chunks[0]), chunks[1..])
  }

  function Size(o: Output): nat {
    |o.data| + |o.cmds| + |o.subs|
  }

  /** Each of the three streams of `o` is a prefix of the one of `p`. */
  predicate PrefixOf(o: Output, p: Output) {
    o.data <= p.data && o.cmds <= p.cmds && o.subs <= p.subs
  }

  /** The data delivered is a prefix of the data, all of it exactly within the limit on runs. */
  lemma DataIsPrefix(m: Machine, chunk: seq<byte>)
    ensures Delivered(m, chunk).data <= Emitted(m, chunk).data
    ensures |DataSpans(m, chunk)| <= MAX_DATA ==> Delivered(m, chunk).data == Emitted(m, chunk).data
    ensures |DataSpans(m, chunk)| > MAX_DATA ==> |Delivered(m, chunk).data| < |Emitted(m, chunk).data|
  {
    SpansAreTheData(m, chunk);
    if |DataSpans(m, chunk)| > MAX_DATA {
      SlicesMonotone(chunk, DataSpans(m, chunk), MAX_DATA);
    }
  }

  /** A call delivers a prefix of each stream, and all of it exactly when no limit is passed. */
  lemma DeliveredIsPrefix(m: Machine, chunk: seq<byte>)
    ensures PrefixOf(Delivered(m, chunk), Emitted(m, chunk))
    ensures Fits(m, chunk) ==> Delivered(m, chunk) == Emitted(m, chunk)
    ensures !Fits(m, chunk) ==> Size(Delivered(m, chunk)) < Size(Emitted(m, chunk))
  {
    DataIsPrefix(m, chunk);
  }

  lemma {:induction false} DeliveredSize(m: Machine, chunks: seq<seq<byte>>)
    ensures AllFit(m, chunks) ==> DeliveredAll(m, chunks) == Emitted(m, Flat(chunks))
    ensures !AllFit(m, chunks) ==> Size(DeliveredAll(m, chunks)) < Size(Emitted(m, Flat(chunks)))
    ensures FinalAll(m, chunks) == Final(m, Flat(chunks))
    decreases |chunks|
  {
    if chunks != [] {
      var c, rest, m1 := chunks[0], chunks[1..], Final(m, chunks[0]);
      DeliveredIsPrefix(m, c);
      DeliveredSize(m1, rest);
      assert Emitted(m, Flat(chunks)) == Emitted(m, c).Then(Emitted(m1, Flat(rest)))
             && Final(m, Flat(chunks)) == Final(m1, Flat(rest)) by {
        RunConcat(m, c, Flat(rest));
      }
    }
  }

  /** Cutting a stream into chunks loses nothing if and only if no chunk passes an event limit. */
  lemma ChunkingIsExact(m: Machine, chunks: seq<seq<byte>>)
    ensures DeliveredAll(m, chunks) == Emitted(m, Flat(chunks)) <==> AllFit(m, chunks)
    ensures FinalAll(m, chunks) == Final(m, Flat(chunks))
  {
    DeliveredSize(m, chunks);
  }

  /** The three event bounds, from any parser state. */
  lemma ShortChunksFit(m: Machine, chunk: seq<byte>)
    ensures |chunk| <= 128 ==> |DataSpans(m, chunk)| <= MAX_DATA
    ensures |chunk| <= 48 ==> |Emitted(m, chunk).cmds| <= MAX_COMMANDS
    ensures |chunk| <= 40 ==> |Emitted(m, chunk).subs| <= MAX_SUBS
  {
    SpansAreSpaced(DataSpans(m, chunk), |chunk|);
    EventsArePaidFor(m, chunk);
  }

  lemma {:induction false} ShortChunksAllFit(m: Machine, chunks: seq<seq<byte>>)
    requires forall c :: c in chunks ==> |c| <= 40
    ensures AllFit(m, chunks)
    decreases |chunks|
  {
    if chunks != [] {
      ShortChunksFit(m, chunks[0]);
      ShortChunksAllFit(Final(m, chunks[0]), chunks[1..]);
    }
  }

  /** Any two ways of cutting a stream into chunks of at most 40 bytes are indistinguishable. */
  lemma ChunkingInvariance(m: Machine, chunks: seq<seq<byte>>, chunks': seq<seq<byte>>)
    requires Flat(chunks) == Flat(chunks')
    requires forall c :: c in chunks || c in chunks' ==> |c| <= 40
    ensures DeliveredAll(m, chunks) == DeliveredAll(m, chunks') == Emitted(m, Flat(chunks))
    ensures FinalAll(m, chunks) == FinalAll(m, chunks')
  {
    ShortChunksAllFit(m, chunks);
    ShortChunksAllFit(m, chunks');
    ChunkingIsExact(m, chunks);
    ChunkingIsExact(m, chunks');
  }

  // ---------------------------------------------------------------------------------------------
  // 40 is the best bound
  // ---------------------------------------------------------------------------------------------

  /** `n` empty frames, five bytes each. */
  function EmptyFrames(n: nat): seq<byte> {
    if n == 0 then [] else EmptyFrames(n - 1) + Frame(0, [])
  }

  lemma {:induction false} EmptyFramesParse(m: Machine, n: nat)
    requires m.state == StateData
    ensures |EmptyFrames(n)| == 5 * n
    ensures Final(m, EmptyFrames(n)).state == StateData
    ensures |Emitted(m, EmptyFrames(n)).subs| == n
  {
    if n > 0 {
      var before, f := EmptyFrames(n - 1), Frame(0, []);
      var m1 := Final(m, before);
      assert |before| == 5 * (n - 1) && m1.state == StateData && |Emitted(m, before).subs| == n - 1 by {
        EmptyFramesParse(m, n - 1);
      }
      assert Final(m1, f).state == StateData && |Emitted(m1, f).subs| == 1 && |f| == 5 by {
        ParseFrame(m1, 0, []);
        EscapeLength([]);
      }
      RunConcat(m, before, f);
    }
  }

  /** A chunk of any length above 40 that loses a subnegotiation: a frame's end, then eight frames. */
  lemma LongChunkLoses(n: nat) returns (m: Machine, chunk: seq<byte>)
    requires n > 40
    ensures |chunk| == n && !Fits(m, chunk)
  {
    m := Machine(StateSubnegotiationIAC, 0, 0, []);
    var frames, padding: seq<byte> := EmptyFrames(8), seq(n - 41, _ => 0);
    var m1 := Next(m, SE);
    assert Final(m, [SE]) == m1 && |Emitted(m, [SE]).subs| == 1 by {
      RunOne(m, SE);
    }
    assert |frames| == 40 && |Emitted(m1, frames).subs| == 8 by {
      EmptyFramesParse(m1, 8);
    }
    assert |Emitted(m, [SE] + frames).subs| == 9 by {
      RunConcat(m, [SE], frames);
    }
    chunk := [SE] + frames + padding;
    assert |Emitted(m, chunk).subs| >= 9 by {
      RunConcat(m, [SE] + frames, padding);
    }
  }

  /** `n` commands, three bytes each. */
  function ManyCommands(n: nat): seq<byte> {
    if n == 0 then [] else ManyCommands(n - 1) + [IAC, WILL, 0]
  }

  lemma {:induction false} ManyCommandsParse(m: Machine, n: nat)
    requires m.state == StateData
    ensures |ManyCommands(n)| == 3 * n
    ensures Final(m, ManyCommands(n)).state == StateData
    ensures |Emitted(m, ManyCommands(n)).cmds| == n
  {
    if n > 0 {
      ManyCommandsParse(m, n - 1);
      var m1 := Final(m, ManyCommands(n - 1));
      assert Final(m1, [IAC, WILL, 0]).state == StateData && |Emitted(m1, [IAC, WILL, 0]).cmds| == 1 by {
        ParseCommand(m1, WILL, 0);
      }
      RunConcat(m, ManyCommands(n - 1), [IAC, WILL, 0]);
    }
  }

  /** A chunk of any length above 48 with more than 16 commands: a command's option, then sixteen. */
  lemma LongChunkOfCommands(n: nat) returns (m: Machine, chunk: seq<byte>)
    requires n > 48
    ensures |chunk| == n && |Emitted(m, chunk).cmds| > 16
  {
    m := Machine(StateNegotiation, WILL, 0, []);
    var cmds, padding: seq<byte> := ManyCommands(16), seq(n - 49, _ => 0);
    var m1 := Next(m, 0);
    assert Final(m, [0]) == m1 && |Emitted(m, [0]).cmds| == 1 by {
      RunOne(m, 0);
    }
    assert |cmds| == 48 && |Emitted(m1, cmds).cmds| == 16 by {
      ManyCommandsParse(m1, 16);
    }
    assert |Emitted(m, [0] + cmds).cmds| == 17 by {
      RunConcat(m, [0], cmds);
    }
    chunk := [0] + cmds + padding;
    assert |Emitted(m, chunk).cmds| >= 17 by {
      RunConcat(m, [0] + cmds, padding);
    }
  }

  /** One byte of data, then `n` escaped ones. */
  function ManyRuns(n: nat): seq<byte> {
    if n == 0 then [0] else ManyRuns(n - 1) + [IAC] + [IAC]
  }

  /** IAC IAC after a run that ends at the end of the input is one more run. */
  lemma OneMoreRun(m: Machine, s: seq<byte>, spans: seq<Span>)
    requires m.state == StateData && Final(m, s) == m && DataSpans(m, s) == spans
    requires spans != [] && spans[|spans| - 1].end == |s|
    ensures Final(m, s + [IAC] + [IAC]) == m
    ensures DataSpans(m, s + [IAC] + [IAC]) == spans + [Span(|s| + 1, |s| + 2)]
  {
    var m1 := m.(state := StateIAC);
    assert Final(m, s + [IAC]) == m1 && DataSpans(m, s + [IAC]) == spans by {
      RunSnoc(m, s, IAC);
      DataSpansSnoc(m, s, IAC);
    }
    RunSnoc(m, s + [IAC], IAC);
    DataSpansSnoc(m, s + [IAC], IAC);
  }

  lemma {:induction false} ManyRunsParse(m: Machine, n: nat)
    requires m.state == StateData
    ensures |ManyRuns(n)| == 2 * n + 1 && Final(m, ManyRuns(n)) == m
    ensures var spans := DataSpans(m, ManyRuns(n)); |spans| == n + 1 && spans[n].end == 2 * n + 1
  {
    if n == 0 {
      RunOne(m, 0);
      DataSpansSnoc(m, [], 0);
      assert [] + [0] == [0 as byte];
      assert DataSpans(m, [0]) == [Span(0, 1)];
    } else {
      ManyRunsParse(m, n - 1);
      OneMoreRun(m, ManyRuns(n - 1), DataSpans(m, ManyRuns(n - 1)));
    }
  }

  lemma {:induction false} RunsStay(m: Machine, s: seq<byte>, t: seq<byte>)
    ensures |DataSpans(m, s)| <= |DataSpans(m, s + t)|
  {
    if t == [] {
      assert s + t == s;
    } else {
      RunsStay(m, s, t[..|t| - 1]);
      assert s + t == s + t[..|t| - 1] + [t[|t| - 1]];
      DataSpansSnoc(m, s + t[..|t| - 1], t[|t| - 1]);
    }
  }

  /** A chunk of any length above 128 with more than 64 runs. */
  lemma LongChunkOfRuns(n: nat) returns (m: Machine, chunk: seq<byte>)
    requires n > 128
    ensures |chunk| == n && |DataSpans(m, chunk)| > 64
  {
    m := Machine(StateData, 0, 0, []);
    var padding: seq<byte> := seq(n - 129, _ => 0);
    ManyRunsParse(m, 64);
    RunsStay(m, ManyRuns(64), padding);
    chunk := ManyRuns(64) + padding;
  }

  /** No chunk of a given length loses data, or commands, exactly up to 128 and 48 bytes. */
  lemma BoundsAreExact(n: nat)
    ensures (forall m, chunk :: |chunk| == n ==> |DataSpans(m, chunk)| <= MAX_DATA) <==> n <= 128
    ensures (forall m, chunk :: |chunk| == n ==> |Emitted(m, chunk).cmds| <= MAX_COMMANDS) <==> n <= 48
  {
    forall m, chunk | |chunk| == n
      ensures n <= 128 ==> |DataSpans(m, chunk)| <= MAX_DATA
      ensures n <= 48 ==> |Emitted(m, chunk).cmds| <= MAX_COMMANDS
    {
      ShortChunksFit(m, chunk);
    }
    if n > 128 {
      var m, chunk := LongChunkOfRuns(n);
    }
    if n > 48 {
      var m, chunk := LongChunkOfCommands(n);
    }
  }

  /** Every chunk of a given length fits from every state if and only if the length is at most 40. */
  lemma FortyIsTheBound(n: nat)
    ensures (forall m, chunk :: |chunk| == n ==> Fits(m, chunk)) <==> n <= 40
  {
    if n <= 40 {
      forall m, chunk | |chunk| == n
        ensures Fits(m, chunk)
      {
        ShortChunksFit(m, chunk);
      }
    } else {
      var m, chunk := LongChunkLoses(n);
    }
  }
}
