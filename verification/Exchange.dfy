/**
 Two endpoints joined by bytes. What travels is what the write half encodes; it is read in pieces cut
 anywhere, each parsed by one call, whose commands are processed together. Every step here is a run of
 the command-level protocol of module Peers, so what is proved there holds of the bytes.
 */
module Exchange {
  import opened Telnet
  import opened Automaton
  import opened Options
  import opened Peers
  import opened Handshake
  import opened Session
  import opened Parsing
  import opened Conns
  import Chunks
  import Agreement

  /** `ma` is the state of a's parser, which reads `ba`; `mb` that of b's, which reads `ab`. */
  datatype Wires = Wires(a: Peer, b: Peer, ma: Machine, mb: Machine, ab: seq<byte>, ba: seq<byte>)

  function Turned(w: Wires): Wires {
    Wires(w.b, w.a, w.mb, w.ma, w.ba, w.ab)
  }

  datatype Event =
    | Arrive(toB: bool, k: nat)                        // one read brings the first `k` bytes
    | Ask(atA: bool, command: byte, option: byte)      // a request to the negotiator, its command sent
    | Say(atA: bool, call: Call)                       // the application writes, or sends a payload

  /** Both parsers are sound, and each channel ends where an encoding ends. */
  predicate Whole(w: Wires) {
    && |w.a.options| == OPTIONS && |w.b.options| == OPTIONS
    && Sound(w.ma) && Sound(w.mb)
    && Final(w.mb, w.ab).state == StateData && Final(w.ma, w.ba).state == StateData
  }

  predicate CanHappen(w: Wires, e: Event) {
    match e
    case Arrive(true, k) => k <= |w.ab| && |Emitted(w.mb, w.ab[..k]).cmds| <= MAX_COMMANDS
    case Arrive(false, k) => k <= |w.ba| && |Emitted(w.ma, w.ba[..k]).cmds| <= MAX_COMMANDS
    case Ask(_, _, _) => true
    case Say(_, call) => !call.SendCommand?
  }

  /** b parses the first `k` bytes sent to it and processes the commands the call reports. */
  function ArriveAtB(w: Wires, k: nat): Wires
    requires |w.b.options| == OPTIONS && k <= |w.ab|
  {
    var chunk := w.ab[..k];
    var (b, replies) := ProcessAll(w.b, Chunks.Delivered(w.mb, chunk).cmds);
    w.(b := b, mb := Final(w.mb, chunk), ab := w.ab[k..], ba := w.ba + Wire(AsCalls(replies)))
  }

  function AskAtA(w: Wires, command: byte, option: byte): Wires
    requires |w.a.options| == OPTIONS
  {
    var (pair, send) := Requested(w.a.options[option], command);
    w.(a := w.a.(options := w.a.options[option := pair]),
       ab := w.ab + if send == 0 then [] else Encode(SendCommand(send, option)))
  }

  function Happen(w: Wires, e: Event): Wires
    requires Whole(w) && CanHappen(w, e)
  {
    match e
    case Arrive(true, k) => ArriveAtB(w, k)
    case Arrive(false, k) => Turned(ArriveAtB(Turned(w), k))
    case Ask(true, command, option) => AskAtA(w, command, option)
    case Ask(false, command, option) => Turned(AskAtA(Turned(w), command, option))
    case Say(true, call) => w.(ab := w.ab + Encode(call))
    case Say(false, call) => w.(ba := w.ba + Encode(call))
  }

  /** The configuration of module Peers behind the bytes: the commands in them are in flight. */
  function Commands(w: Wires): Net {
    Net(w.a, w.b, Emitted(w.mb, w.ab).cmds, Emitted(w.ma, w.ba).cmds)
  }

  /** The command-level steps an event amounts to. */
  function Steps(w: Wires, e: Event): seq<Step>
    requires CanHappen(w, e)
  {
    match e
    case Arrive(true, k) => Deliveries(true, |Emitted(w.mb, w.ab[..k]).cmds|)
    case Arrive(false, k) => Deliveries(false, |Emitted(w.ma, w.ba[..k]).cmds|)
    case Ask(atA, command, option) => [Request(atA, command, option)]
    case Say(_, _) => []
  }

  // ---------------------------------------------------------------------------------------------
  // Commands in bytes
  // ---------------------------------------------------------------------------------------------

  lemma WholeIsWellFormed(w: Wires)
    requires Whole(w)
    ensures WellFormed(Commands(w))
  {
    SoundStays(w.ma, w.ba);
    SoundStays(w.mb, w.ab);
  }

  /** Sending a call adds its commands, and no others, to those in flight. */
  lemma SendAdds(m: Machine, s: seq<byte>, c: Call)
    requires Final(m, s).state == StateData && (c.SendCommand? ==> IsNegotiation(c.cmd))
    ensures Final(m, s + Encode(c)).state == StateData
    ensures Emitted(m, s + Encode(c)).cmds == Emitted(m, s).cmds + Arrives(c).cmds
  {
    RunConcat(m, s, Encode(c));
    ParseCall(Final(m, s), c);
  }

  lemma {:induction false} SendAllAdds(m: Machine, s: seq<byte>, cmds: seq<Command>)
    requires Final(m, s).state == StateData && AllNegotiation(cmds)
    ensures Final(m, s + Wire(AsCalls(cmds))).state == StateData
    ensures Emitted(m, s + Wire(AsCalls(cmds))).cmds == Emitted(m, s).cmds + cmds
  {
    if cmds == [] {
      assert s + Wire(AsCalls(cmds)) == s;
    } else {
      var cmds', c := cmds[..|cmds| - 1], cmds[|cmds| - 1];
      var call := SendCommand(c.command, c.option);
      var sent := s + Wire(AsCalls(cmds'));
      assert Final(m, sent).state == StateData && Emitted(m, sent).cmds == Emitted(m, s).cmds + cmds' by {
        SendAllAdds(m, s, cmds');
      }
      assert s + Wire(AsCalls(cmds)) == sent + Encode(call) by {
        LastCall(cmds);
        ConcatAssociative(s, Wire(AsCalls(cmds')), Encode(call));
      }
      assert Final(m, sent + Encode(call)).state == StateData
             && Emitted(m, sent + Encode(call)).cmds == Emitted(m, sent).cmds + [c] by {
        SendAdds(m, sent, call);
      }
      ConcatAssociative(Emitted(m, s).cmds, cmds', [c]);
      assert cmds == cmds' + [c];
    }
  }

  lemma LastCall(cmds: seq<Command>)
    requires cmds != []
    ensures var c := cmds[|cmds| - 1];
            Wire(AsCalls(cmds)) == Wire(AsCalls(cmds[..|cmds| - 1])) + Encode(SendCommand(c.command, c.option))
  {
    assert AsCalls(cmds)[..|cmds| - 1] == AsCalls(cmds[..|cmds| - 1]);
  }

  lemma {:induction false} RepliesNegotiate(p: Peer, cmds: seq<Command>)
    requires |p.options| == OPTIONS
    ensures AllNegotiation(ProcessAll(p, cmds).1)
  {
    if cmds != [] {
      RepliesNegotiate(p, cmds[..|cmds| - 1]);
    }
  }

  // ---------------------------------------------------------------------------------------------
  // A batch of commands is a run of deliveries
  // ---------------------------------------------------------------------------------------------

  function Deliveries(toB: bool, k: nat): seq<Step> {
    seq(k, _ => Deliver(toB))
  }

  /** `n` after b (or a) has processed the first `k` commands on their way to it. */
  function Batch(n: Net, toB: bool, k: nat): Net
    requires WellFormed(n) && k <= if toB then |n.ab| else |n.ba|
  {
    if toB then
      var (b, replies) := ProcessAll(n.b, n.ab[..k]);
      Net(n.a, b, n.ab[k..], n.ba + replies)
    else
      var (a, replies) := ProcessAll(n.a, n.ba[..k]);
      Net(a, n.b, n.ab + replies, n.ba[k..])
  }

  lemma BatchStep(n: Net, toB: bool, k: nat)
    requires WellFormed(n) && 0 < k <= if toB then |n.ab| else |n.ba|
    requires WellFormed(Batch(n, toB, k - 1))
    ensures CanStep(Batch(n, toB, k - 1), Deliver(toB))
    ensures Apply(Batch(n, toB, k - 1), Deliver(toB)) == Batch(n, toB, k)
  {
    var q := if toB then n.ab else n.ba;
    assert q[..k][..k - 1] == q[..k - 1] && q[k - 1..][0] == q[k - 1] && q[k - 1..][1..] == q[k..];
    var p := if toB then n.b else n.a;
    var replies := ProcessAll(p, q[..k - 1]).1;
    var reply := Process(ProcessAll(p, q[..k - 1]).0, q[k - 1]).1;
    ConcatAssociative(if toB then n.ba else n.ab, replies, reply);
  }

  lemma {:induction false} StepsConcat(n: Net, s: seq<Step>, t: seq<Step>)
    requires WellFormed(n) && IsRun(n, s) && IsRun(AfterRun(n, s), t)
    ensures IsRun(n, s + t) && AfterRun(n, s + t) == AfterRun(AfterRun(n, s), t)
    decreases |s|
  {
    if s == [] {
      assert s + t == t;
    } else {
      var n1, u := Apply(n, s[0]), s[1..] + t;
      assert IsRun(n1, u) && AfterRun(n1, u) == AfterRun(AfterRun(n, s), t) by {
        StepsConcat(n1, s[1..], t);
      }
      assert (s + t)[0] == s[0] && (s + t)[1..] == u;
    }
  }

  lemma OneStep(n: Net, s: Step)
    requires WellFormed(n) && CanStep(n, s)
    ensures IsRun(n, [s]) && AfterRun(n, [s]) == Apply(n, s)
  {
    ApplyWellFormed(n, s);
    assert [s][1..] == [];
  }

  lemma {:induction false} BatchIsRun(n: Net, toB: bool, k: nat)
    requires WellFormed(n) && k <= if toB then |n.ab| else |n.ba|
    ensures IsRun(n, Deliveries(toB, k)) && AfterRun(n, Deliveries(toB, k)) == Batch(n, toB, k)
  {
    if k == 0 {
      assert Batch(n, toB, 0) == n;
    } else {
      var n1 := Batch(n, toB, k - 1);
      BatchIsRun(n, toB, k - 1);
      BatchStep(n, toB, k);
      OneStep(n1, Deliver(toB));
      StepsConcat(n, Deliveries(toB, k - 1), [Deliver(toB)]);
      assert Deliveries(toB, k) == Deliveries(toB, k - 1) + [Deliver(toB)];
    }
  }

  // ---------------------------------------------------------------------------------------------
  // Every event is a run of commands
  // ---------------------------------------------------------------------------------------------

  lemma ArrivalIsBatch(w: Wires, k: nat)
    requires Whole(w) && CanHappen(w, Arrive(true, k))
    ensures var j := |Emitted(w.mb, w.ab[..k]).cmds|;
            && Whole(ArriveAtB(w, k)) && WellFormed(Commands(w)) && j <= |Commands(w).ab|
            && Commands(ArriveAtB(w, k)) == Batch(Commands(w), true, j)
  {
    var chunk, rest := w.ab[..k], w.ab[k..];
    var cmds := Emitted(w.mb, chunk).cmds;
    var replies := ProcessAll(w.b, cmds).1;
    WholeIsWellFormed(w);
    assert Final(w.mb, w.ab) == Final(Final(w.mb, chunk), rest)
           && Emitted(w.mb, w.ab).cmds == cmds + Emitted(Final(w.mb, chunk), rest).cmds by {
      RunConcat(w.mb, chunk, rest);
      assert chunk + rest == w.ab;
    }
    assert Sound(Final(w.mb, chunk)) by { SoundStays(w.mb, chunk); }
    assert AllNegotiation(replies) by { RepliesNegotiate(w.b, cmds); }
    SendAllAdds(w.ma, w.ba, replies);
    assert |ProcessAll(w.b, cmds).0.options| == OPTIONS;
  }

  lemma AskIsRequest(w: Wires, command: byte, option: byte)
    requires Whole(w)
    ensures Whole(AskAtA(w, command, option))
    ensures Commands(AskAtA(w, command, option)) == RequestAtA(Commands(w), command, option)
  {
    var send := Requested(w.a.options[option], command).1;
    if send == 0 {
      assert w.ab + [] == w.ab && Commands(w).ab + [] == Commands(w).ab;
    } else {
      SendAdds(w.mb, w.ab, SendCommand(send, option));
    }
  }

  /** A step on the bytes is a run of the commands in them, and leaves whole encodings on the wires. */
  lemma EventIsRun(w: Wires, e: Event)
    requires Whole(w) && CanHappen(w, e)
    ensures Whole(Happen(w, e)) && WellFormed(Commands(w))
    ensures IsRun(Commands(w), Steps(w, e)) && AfterRun(Commands(w), Steps(w, e)) == Commands(Happen(w, e))
  {
    WholeIsWellFormed(w);
    match e
    case Arrive(true, k) =>
      ArrivalIsBatch(w, k);
      BatchIsRun(Commands(w), true, |Emitted(w.mb, w.ab[..k]).cmds|);
    case Arrive(false, k) =>
      ArrivalIsBatch(Turned(w), k);
      BatchIsRun(Commands(w), false, |Emitted(w.ma, w.ba[..k]).cmds|);
    case Ask(true, command, option) =>
      AskIsRequest(w, command, option);
      OneStep(Commands(w), Request(true, command, option));
    case Ask(false, command, option) =>
      AskIsRequest(Turned(w), command, option);
      OneStep(Commands(w), Request(false, command, option));
    case Say(true, call) => SendAdds(w.mb, w.ab, call);
    case Say(false, call) => SendAdds(w.ma, w.ba, call);
  }

  predicate Happens(w: Wires, events: seq<Event>)
    requires Whole(w)
    decreases |events|
  {
    events == [] ||
    (CanHappen(w, events[0]) && (EventIsRun(w, events[0]); Happens(Happen(w, events[0]), events[1..])))
  }

  function After(w: Wires, events: seq<Event>): (r: Wires)
    requires Whole(w) && Happens(w, events)
    ensures Whole(r)
    decreases |events|
  {
    if events == [] then w else EventIsRun(w, events[0]); After(Happen(w, events[0]), events[1..])
  }

  /** How many commands the reads among the events bring. */
  function CommandsReceived(w: Wires, events: seq<Event>): nat
    requires Whole(w) && Happens(w, events)
    decreases |events|
  {
    if events == [] then 0
    else
      EventIsRun(w, events[0]);
      (match events[0]
       case Arrive(true, k) => |Emitted(w.mb, w.ab[..k]).cmds|
       case Arrive(false, k) => |Emitted(w.ma, w.ba[..k]).cmds|
       case _ => 0) + CommandsReceived(Happen(w, events[0]), events[1..])
  }

  predicate NothingAsked(events: seq<Event>) {
    forall e :: e in events ==> !e.Ask?
  }

  /** A run on the bytes is a run of the commands in them; without requests, of deliveries alone. */
  lemma {:induction false} BytesRefineCommands(w: Wires, events: seq<Event>) returns (steps: seq<Step>)
    requires Whole(w) && Happens(w, events)
    ensures WellFormed(Commands(w)) && IsRun(Commands(w), steps)
    ensures AfterRun(Commands(w), steps) == Commands(After(w, events))
    ensures NothingAsked(events) ==> |steps| == CommandsReceived(w, events) && forall s :: s in steps ==> s.Deliver?
    decreases |events|
  {
    WholeIsWellFormed(w);
    if events == [] {
      steps := [];
    } else {
      var first, w1 := Steps(w, events[0]), Happen(w, events[0]);
      EventIsRun(w, events[0]);
      var rest := BytesRefineCommands(w1, events[1..]);
      steps := first + rest;
      assert IsRun(Commands(w), steps) && AfterRun(Commands(w), steps) == AfterRun(Commands(w1), rest) by {
        StepsConcat(Commands(w), first, rest);
      }
      assert NothingAsked(events) ==> !events[0].Ask? && NothingAsked(events[1..]) by {
        assert events[0] in events && forall e :: e in events[1..] ==> e in events;
      }
    }
  }

  // ---------------------------------------------------------------------------------------------
  // What holds of the bytes
  // ---------------------------------------------------------------------------------------------

  const IDLE: Machine := Machine(StateData, 0, 0, [])

  /** Two endpoints with every option off and nothing sent. */
  const SILENT: Wires := Wires(Agreement.FreshPeer(), Agreement.FreshPeer(), IDLE, IDLE, [], [])

  /**
   The safety of negotiation, on the bytes: with application data among the commands, and reads cut
   anywhere as long as none drops a command.
   */
  lemma SafetyOnTheWire(events: seq<Event>, option: byte, aOffers: bool)
    requires Happens(SILENT, events)
    ensures var w := After(SILENT, events);
            var l := LinkOf(Commands(w), option, aOffers);
            && |l.offers| + |l.answers| <= 2
            && Agreement.QMethodState(l.us) && Agreement.QMethodState(l.him)
            && (Agreement.AtRest(l) <==> !Options.Pending(l.us) && !Options.Pending(l.him))
            && (Agreement.AtRest(l) ==> l.us == l.him)
            && (w.ab == [] && w.ba == [] ==> Agreement.AtRest(l))
  {
    var steps := BytesRefineCommands(SILENT, events);
    assert Commands(SILENT) == Agreement.START;
    Agreement.NegotiationSafety(steps, option, aOffers);
    assert Select([], option, true) == [] && Select([], option, false) == [];
  }

  /** Two new connections, with their opening bytes on the wires. */
  function Opened(ca: Config, cb: Config, sizeA: seq<byte>, sizeB: seq<byte>): (w: Wires)
    ensures Whole(w)
  {
    OpeningBytes(IDLE, ca, sizeA);
    OpeningBytes(IDLE, cb, sizeB);
    Wires(NewConn(ca), NewConn(cb), IDLE, IDLE,
          Wire(InitialCalls(ca, sizeA, |SUPPORTED|)), Wire(InitialCalls(cb, sizeB, |SUPPORTED|)))
  }

  lemma {:induction false} InitialCallsNegotiate(cfg: Config, size: seq<byte>, k: nat)
    requires k <= |SUPPORTED|
    ensures AllNegotiate(InitialCalls(cfg, size, k))
  {
    if k > 0 {
      InitialCallsNegotiate(cfg, size, k - 1);
    }
  }

  /** The opening bytes carry exactly the opening offers. */
  lemma OpeningBytes(m: Machine, cfg: Config, size: seq<byte>)
    requires m.state == StateData
    ensures Final(m, Wire(InitialCalls(cfg, size, |SUPPORTED|))).state == StateData
    ensures Emitted(m, Wire(InitialCalls(cfg, size, |SUPPORTED|))).cmds == InitialOffers(cfg, |SUPPORTED|)
  {
    var calls := InitialCalls(cfg, size, |SUPPORTED|);
    InitialCallsNegotiate(cfg, size, |SUPPORTED|);
    ParseWire(m, calls);
    ArrivedNegotiates(calls);
    OpeningIsInitialOffers(cfg, size, |SUPPORTED|);
  }

  lemma OpenedIsOpening(ca: Config, cb: Config, sizeA: seq<byte>, sizeB: seq<byte>)
    ensures Commands(Opened(ca, cb, sizeA, sizeB)) == Opening(ca, cb)
  {
    OpeningBytes(IDLE, ca, sizeA);
    OpeningBytes(IDLE, cb, sizeB);
  }

  /**
   Two connections back to back, on the bytes. Whatever their configurations, whatever the applications
   write meanwhile, and however the bytes are cut into reads that drop no command: once both wires are
   empty, exactly three commands per enabled option have been received, each side has on exactly the
   options it enables, knows exactly those its peer enables, and has counted as many negotiated options
   as the two enable together.
   */
  lemma HandshakeOnTheWire(ca: Config, cb: Config, sizeA: seq<byte>, sizeB: seq<byte>, events: seq<Event>, option: byte)
    requires ca.Valid() && cb.Valid()
    requires Happens(Opened(ca, cb, sizeA, sizeB), events)
    requires NothingAsked(events)
    ensures CommandsReceived(Opened(ca, cb, sizeA, sizeB), events) <= 3 * (|ca.enabled| + |cb.enabled|)
    ensures var r := After(Opened(ca, cb, sizeA, sizeB), events);
            r.ab == [] && r.ba == [] ==>
              && CommandsReceived(Opened(ca, cb, sizeA, sizeB), events) == 3 * (|ca.enabled| + |cb.enabled|)
              && (r.a.options[option].us == Enabled <==> option in ca.enabled)
              && (r.b.options[option].him == Enabled <==> option in ca.enabled)
              && (r.b.options[option].us == Enabled <==> option in cb.enabled)
              && (r.a.options[option].him == Enabled <==> option in cb.enabled)
              && r.a.negotiated == r.b.negotiated == |ca.enabled| + |cb.enabled|
  {
    OpenedIsOpening(ca, cb, sizeA, sizeB);
    var steps := BytesRefineCommands(Opened(ca, cb, sizeA, sizeB), events);
    HandshakeCompletes(ca, cb, steps, option);
  }
}
