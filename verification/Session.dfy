/**
 A whole sending session against a whole receiving one: what a sequence of calls puts on the wire,
 and what a peer that parses those bytes in chunks of any shape gets back.
 */
module Session {
  import opened Telnet
  import opened Automaton
  import opened Parsing
  import opened Codec
  import opened Chunks

  /** The calls an application makes on the write half of a connection. */
  datatype Call =
    | Write(bytes: seq<byte>)
    | SendCommand(cmd: byte, option: byte)
    | SendSubnegotiation(option: byte, payload: seq<byte>)
    | Flush

  function Encode(c: Call): seq<byte> {
    match c
    case Write(bytes) => Escape(bytes)
    case SendCommand(cmd, option) => [IAC, cmd, option]
    case SendSubnegotiation(option, payload) => Frame(option, payload)
    case Flush => []
  }

  function Wire(calls: seq<Call>): seq<byte> {
    if calls == [] then [] else Wire(calls[..|calls| - 1]) + Encode(calls[|calls| - 1])
  }

  /** What the application meant to send. */
  function Meaning(c: Call): Output {
    match c
    case Write(bytes) => Output(bytes, [], [])
    case SendCommand(cmd, option) => Output([], [Command(cmd, option)], [])
    case SendSubnegotiation(option, payload) => Output([], [], [Subnegotiation(option, payload)])
    case Flush => NOTHING
  }

  function Sent(calls: seq<Call>): Output {
    if calls == [] then NOTHING else Sent(calls[..|calls| - 1]).Then(Meaning(calls[|calls| - 1]))
  }

  /** What arrives of it: the same, except for what framing does to a payload. */
  function Arrives(c: Call): Output {
    if c.SendSubnegotiation? then Output([], [], [Subnegotiation(c.option, Received(c.payload))]) else Meaning(c)
  }

  function Arrived(calls: seq<Call>): Output {
    if calls == [] then NOTHING else Arrived(calls[..|calls| - 1]).Then(Arrives(calls[|calls| - 1]))
  }

  /** SendCommand is used for WILL, WONT, DO and DONT only. */
  predicate Negotiates(c: Call) {
    c.SendCommand? ==> IsNegotiation(c.cmd)
  }

  predicate AllNegotiate(calls: seq<Call>) {
    forall k :: 0 <= k < |calls| ==> Negotiates(calls[k])
  }

  predicate PayloadsSurvive(calls: seq<Call>) {
    forall k :: 0 <= k < |calls| && calls[k].SendSubnegotiation? ==> SurvivesFraming(calls[k].payload)
  }

  /** A call brings what it should if and only if it is no SendCommand of anything but the four commands. */
  lemma ParseCall(m: Machine, c: Call)
    requires m.state == StateData
    ensures Emitted(m, Encode(c)) == Arrives(c) <==> Negotiates(c)
    ensures Negotiates(c) ==> Final(m, Encode(c)).state == StateData
  {
    match c
    case Write(bytes) => ParseEscaped(m, bytes);
    case SendCommand(cmd, option) => ParseCommand(m, cmd, option);
    case SendSubnegotiation(option, payload) => ParseFrame(m, option, payload);
    case Flush =>
  }

  lemma LastNegotiates(calls: seq<Call>, c: Call)
    ensures AllNegotiate(calls + [c]) <==> AllNegotiate(calls) && Negotiates(c)
  {
    var all := calls + [c];
    assert all[|calls|] == c;
    assert forall k :: 0 <= k < |calls| ==> all[k] == calls[k];
  }

  lemma {:induction false} ParseNegotiating(m: Machine, calls: seq<Call>)
    requires m.state == StateData && AllNegotiate(calls)
    ensures Final(m, Wire(calls)).state == StateData
    ensures Emitted(m, Wire(calls)) == Arrived(calls)
  {
    if calls != [] {
      var calls', c := calls[..|calls| - 1], calls[|calls| - 1];
      var w, m1 := Wire(calls'), Final(m, Wire(calls'));
      assert AllNegotiate(calls') && Negotiates(c) by {
        assert calls == calls' + [c];
        LastNegotiates(calls', c);
      }
      assert m1.state == StateData && Emitted(m, w) == Arrived(calls') by {
        ParseNegotiating(m, calls');
      }
      assert Final(m1, Encode(c)).state == StateData && Emitted(m1, Encode(c)) == Arrives(c) by {
        ParseCall(m1, c);
      }
      assert Final(m, w + Encode(c)) == Final(m1, Encode(c))
             && Emitted(m, w + Encode(c)) == Arrived(calls').Then(Arrives(c)) by {
        RunConcat(m, w, Encode(c));
      }
    }
  }

  /** What should arrive contains only negotiation commands exactly when only those were sent. */
  lemma {:induction false} ArrivedNegotiates(calls: seq<Call>)
    ensures AllNegotiation(Arrived(calls).cmds) <==> AllNegotiate(calls)
    ensures Arrived(calls).cmds == Sent(calls).cmds
  {
    if calls != [] {
      var calls', c := calls[..|calls| - 1], calls[|calls| - 1];
      ArrivedNegotiates(calls');
      assert calls == calls' + [c];
      LastNegotiates(calls', c);
      AllNegotiationConcat(Arrived(calls').cmds, Arrives(c).cmds);
      assert AllNegotiation(Arrives(c).cmds) <==> Negotiates(c) by {
        assert c.SendCommand? ==> Arrives(c).cmds[0] == Command(c.cmd, c.option);
      }
    }
  }

  lemma AllNegotiationConcat(cmds: seq<Command>, more: seq<Command>)
    ensures AllNegotiation(cmds + more) <==> AllNegotiation(cmds) && AllNegotiation(more)
  {
    var all := cmds + more;
    assert forall k :: 0 <= k < |cmds| ==> all[k] == cmds[k];
    assert forall k :: 0 <= k < |more| ==> all[|cmds| + k] == more[k];
  }

  /** So does the encoding of a sequence of calls. */
  lemma ParseWire(m: Machine, calls: seq<Call>)
    requires m.state == StateData
    ensures Emitted(m, Wire(calls)) == Arrived(calls) <==> AllNegotiate(calls)
    ensures AllNegotiate(calls) ==> Final(m, Wire(calls)).state == StateData
  {
    SoundStays(m, Wire(calls));
    ArrivedNegotiates(calls);
    if AllNegotiate(calls) {
      ParseNegotiating(m, calls);
    }
  }

  lemma {:induction false} ArrivedIsSent(calls: seq<Call>)
    ensures Size(Arrived(calls)) == Size(Sent(calls))
    ensures |Arrived(calls).subs| == |Sent(calls).subs|
    ensures Arrived(calls) == Sent(calls) <==> PayloadsSurvive(calls)
  {
    if calls != [] {
      var calls', c := calls[..|calls| - 1], calls[|calls| - 1];
      ArrivedIsSent(calls');
      LastPayload(calls', c);
      assert calls == calls' + [c];
      var a, t := Arrived(calls'), Sent(calls');
      if c.SendSubnegotiation? {
        var x, y := Subnegotiation(c.option, Received(c.payload)), Subnegotiation(c.option, c.payload);
        assert Arrived(calls) == Output(a.data, a.cmds, a.subs + [x]);
        assert Sent(calls) == Output(t.data, t.cmds, t.subs + [y]);
        FramingIsExact(c.payload);
        SameLast(a.subs, x, t.subs, y);
      } else {
        ThenInjective(a, t, Meaning(c));
      }
    }
  }

  lemma LastPayload(calls: seq<Call>, c: Call)
    ensures PayloadsSurvive(calls + [c])
            <==> PayloadsSurvive(calls) && (c.SendSubnegotiation? ==> SurvivesFraming(c.payload))
  {
    var all := calls + [c];
    assert all[|calls|] == c;
    assert forall k :: 0 <= k < |calls| ==> all[k] == calls[k];
  }

  lemma SameLast<T>(s: seq<T>, x: T, t: seq<T>, y: T)
    requires |s| == |t|
    ensures s + [x] == t + [y] <==> s == t && x == y
  {
    if s + [x] == t + [y] {
      assert s == (s + [x])[..|s|] && t == (t + [y])[..|t|];
      assert x == (s + [x])[|s|] && y == (t + [y])[|t|];
    }
  }

  lemma ThenInjective(o: Output, p: Output, q: Output)
    ensures o.Then(q) == p.Then(q) <==> o == p
  {
    if o.Then(q) == p.Then(q) {
      SameStart(o.data, p.data, q.data);
      SameStart(o.cmds, p.cmds, q.cmds);
      SameStart(o.subs, p.subs, q.subs);
    }
  }

  lemma SameStart<T>(s: seq<T>, t: seq<T>, u: seq<T>)
    requires s + u == t + u
    ensures s == t
  {
    assert |s| == |t|;
    assert s == (s + u)[..|s|] && t == (t + u)[..|t|];
  }

  /**
   The session round trip. Whatever calls are made and however their bytes are cut into chunks, the
   peer gets exactly the data, the commands and the subnegotiations that were sent, in order, if and
   only if only the four negotiation commands were sent with SendCommand, no chunk passes an event limit
   and every payload is one that framing preserves.
   */
  lemma SessionRoundTrip(m: Machine, calls: seq<Call>, chunks: seq<seq<byte>>)
    requires m.state == StateData && Flat(chunks) == Wire(calls)
    ensures DeliveredAll(m, chunks) == Sent(calls) <==> AllNegotiate(calls) && AllFit(m, chunks) && PayloadsSurvive(calls)
    ensures AllNegotiate(calls) ==> FinalAll(m, chunks).state == StateData
  {
    ParseWire(m, calls);
    DeliveredSize(m, chunks);
    if AllNegotiate(calls) {
      ArrivedIsSent(calls);
    } else if DeliveredAll(m, chunks) == Sent(calls) {
      DeliveredCommands(m, chunks);
      ArrivedNegotiates(calls);
    }
  }

  /** However the bytes are cut, only negotiation commands are delivered. */
  lemma {:induction false} DeliveredCommands(m: Machine, chunks: seq<seq<byte>>)
    requires Sound(m)
    ensures AllNegotiation(DeliveredAll(m, chunks).cmds)
    decreases |chunks|
  {
    if chunks != [] {
      SoundStays(m, chunks[0]);
      DeliveredIsPrefix(m, chunks[0]);
      DeliveredCommands(Final(m, chunks[0]), chunks[1..]);
      AllNegotiationConcat(Delivered(m, chunks[0]).cmds, DeliveredAll(Final(m, chunks[0]), chunks[1..]).cmds);
    }
  }

  /** In particular IAC-free payloads of at most 512 bytes in chunks of at most 40. */
  lemma SmallSessionsRoundTrip(m: Machine, calls: seq<Call>, chunks: seq<seq<byte>>)
    requires m.state == StateData && Flat(chunks) == Wire(calls)
    requires forall c :: c in chunks ==> |c| <= 40
    requires forall c :: c in calls && c.SendSubnegotiation? ==> IAC !in c.payload && |c.payload| <= 512
    ensures DeliveredAll(m, chunks) == Sent(calls) <==> AllNegotiate(calls)
  {
    ShortChunksAllFit(m, chunks);
    SessionRoundTrip(m, calls, chunks);
  }
}
