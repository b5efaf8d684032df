/**
 A connection's part in negotiation: its opening offers, and what it does with the commands a parse
 reported. Proved to be the endpoint of module Peers, with its replies on the write stream.
 */
module Conns {
  import opened Telnet
  import opened Automaton
  import opened Options
  import opened Peers
  import opened Handshake
  import opened Session
  import Writer
  import opened Reports

  /** An endpoint processing commands in order: its final state and all its replies. */
  function ProcessAll(p: Peer, cmds: seq<Command>): (Peer, seq<Command>)
    requires |p.options| == OPTIONS
    ensures |ProcessAll(p, cmds).0.options| == OPTIONS
  {
    if cmds == [] then (p, [])
    else
      var (p', replies) := ProcessAll(p, cmds[..|cmds| - 1]);
      var (p'', reply) := Process(p', cmds[|cmds| - 1]);
      (p'', replies + reply)
  }

  function AsCalls(cmds: seq<Command>): seq<Call> {
    seq(|cmds|, i requires 0 <= i < |cmds| => SendCommand(cmds[i].command, cmds[i].option))
  }

  /** What negotiateInitial sends: a WILL per enabled option, and the window size after NAWS. */
  function InitialCalls(cfg: Config, size: seq<byte>, k: nat): seq<Call>
    requires k <= |SUPPORTED|
  {
    if k == 0 then []
    else InitialCalls(cfg, size, k - 1) + CallsFor(cfg, size, SUPPORTED[k - 1])
  }

  function CallsFor(cfg: Config, size: seq<byte>, option: byte): seq<Call> {
    if option !in cfg.enabled then []
    else [SendCommand(WILL, option)] + if option == NAWS then [SendSubnegotiation(NAWS, size)] else []
  }

  lemma {:induction false} SentConcat(s: seq<Call>, t: seq<Call>)
    ensures Sent(s + t) == Sent(s).Then(Sent(t))
  {
    if t == [] {
      assert s + t == s;
    } else {
      var t', c := t[..|t| - 1], t[|t| - 1];
      assert Sent(s + t) == Sent(s + t').Then(Meaning(c)) by {
        assert (s + t)[..|s + t| - 1] == s + t';
      }
      assert Sent(s + t') == Sent(s).Then(Sent(t')) by {
        SentConcat(s, t');
      }
    }
  }

  lemma {:induction false} WireConcat(s: seq<Call>, t: seq<Call>)
    ensures Wire(s + t) == Wire(s) + Wire(t)
  {
    if t == [] {
      assert s + t == s;
    } else {
      var t', c := t[..|t| - 1], t[|t| - 1];
      assert Wire(s + t) == Wire(s + t') + Encode(c) by {
        assert (s + t)[..|s + t| - 1] == s + t';
      }
      assert Wire(s + t') == Wire(s) + Wire(t') by {
        WireConcat(s, t');
      }
      ConcatAssociative(Wire(s), Wire(t'), Encode(c));
    }
  }

  lemma CallsForCommands(cfg: Config, size: seq<byte>, option: byte)
    ensures Sent(CallsFor(cfg, size, option)).cmds
            == if option in cfg.enabled then [Command(WILL, option)] else []
  {
    if option in cfg.enabled {
      var s: seq<Call> := [SendCommand(WILL, option)];
      assert s[..0] == [];
      assert Sent(s).cmds == [] + [Command(WILL, option)];
      if option == NAWS {
        assert (s + [SendSubnegotiation(NAWS, size)])[..1] == s;
      }
    }
  }

  /** The commands among the opening calls are exactly the opening offers of module Handshake. */
  lemma {:induction false} OpeningIsInitialOffers(cfg: Config, size: seq<byte>, k: nat)
    requires k <= |SUPPORTED|
    ensures Sent(InitialCalls(cfg, size, k)).cmds == InitialOffers(cfg, k)
  {
    if k > 0 {
      OpeningIsInitialOffers(cfg, size, k - 1);
      CallsForCommands(cfg, size, SUPPORTED[k - 1]);
      SentConcat(InitialCalls(cfg, size, k - 1), CallsFor(cfg, size, SUPPORTED[k - 1]));
    }
  }

  lemma CallsForSent(cfg: Config, size: seq<byte>, option: byte)
    ensures var o := Sent(CallsFor(cfg, size, option));
            && o.data == []
            && o.subs == if option == NAWS && NAWS in cfg.enabled then [Subnegotiation(NAWS, size)] else []
  {
    if option in cfg.enabled {
      var s: seq<Call> := [SendCommand(WILL, option)];
      assert s[..0] == [];
      assert Sent(s) == Output([], [Command(WILL, option)], []);
      if option == NAWS {
        assert (s + [SendSubnegotiation(NAWS, size)])[..1] == s;
      }
    }
  }

  lemma NawsIsFourth(k: nat)
    requires 0 < k <= |SUPPORTED|
    ensures SUPPORTED[k - 1] == NAWS <==> k == 4
  {
  }

  /** The window size, once the fourth option has been offered. */
  function SizeSent(cfg: Config, size: seq<byte>, k: nat): seq<Subnegotiation> {
    if 4 <= k && NAWS in cfg.enabled then [Subnegotiation(NAWS, size)] else []
  }

  lemma {:induction false} FirstCallsSent(cfg: Config, size: seq<byte>, k: nat)
    requires k <= |SUPPORTED|
    ensures Sent(InitialCalls(cfg, size, k)).data == []
    ensures Sent(InitialCalls(cfg, size, k)).subs == SizeSent(cfg, size, k)
  {
    if k > 0 {
      var before, o := InitialCalls(cfg, size, k - 1), SUPPORTED[k - 1];
      var more := CallsFor(cfg, size, o);
      assert Sent(before).data == [] && Sent(before).subs == SizeSent(cfg, size, k - 1) by {
        FirstCallsSent(cfg, size, k - 1);
      }
      assert Sent(more).data == []
             && Sent(more).subs == (if o == NAWS && NAWS in cfg.enabled then [Subnegotiation(NAWS, size)] else []) by {
        CallsForSent(cfg, size, o);
      }
      assert o == NAWS <==> k == 4 by {
        NawsIsFourth(k);
      }
      assert Sent(before + more) == Sent(before).Then(Sent(more)) by {
        SentConcat(before, more);
      }
      assert InitialCalls(cfg, size, k) == before + more;
    }
  }

  /** The opening brings no data, and the window size exactly when NAWS is enabled. */
  lemma OpeningSubnegotiation(cfg: Config, size: seq<byte>)
    ensures Sent(InitialCalls(cfg, size, |SUPPORTED|)).data == []
    ensures Sent(InitialCalls(cfg, size, |SUPPORTED|)).subs == if NAWS in cfg.enabled then [Subnegotiation(NAWS, size)] else []
  {
    FirstCallsSent(cfg, size, |SUPPORTED|);
  }

  /** One more command: its reply goes behind the replies so far. */
  lemma ProcessNext(p: Peer, done: seq<Command>, c: Command)
    requires |p.options| == OPTIONS
    ensures var now, next := ProcessAll(p, done), ProcessAll(p, done + [c]);
            var (q, reply) := Process(now.0, c);
            && next.0 == q
            && AsCalls(next.1) == AsCalls(now.1) + AsCalls(reply)
  {
    assert (done + [c])[..|done|] == done;
  }

  // ---------------------------------------------------------------------------------------------
  // What a connection refuses
  // ---------------------------------------------------------------------------------------------

  lemma {:induction false} RefusalsStay(p: Peer, cmds: seq<Command>, o: byte)
    requires |p.options| == OPTIONS
    ensures var q := ProcessAll(p, cmds).0;
            && q.refusesDo == p.refusesDo && q.refusesWill == p.refusesWill
            && (o in p.refusesDo && p.options[o].us == Disabled ==> q.options[o].us == Disabled)
            && (o in p.refusesWill && p.options[o].him == Disabled ==> q.options[o].him == Disabled)
  {
    if cmds != [] {
      RefusalsStay(p, cmds[..|cmds| - 1], o);
    }
  }

  /**
   An option that the configuration does not enable stays off on our side, whatever the peer sends, and
   whenever the peer asks for it the answer is a refusal and nothing changes.
   */
  lemma DisabledIsRefused(cfg: Config, cmds: seq<Command>, o: byte)
    requires o !in cfg.enabled
    ensures var p := ProcessAll(NewConn(cfg), cmds).0;
            p.options[o].us == Disabled && Process(p, Command(DO, o)) == (p, [Command(WONT, o)])
  {
    RefusalsStay(NewConn(cfg), cmds, o);
  }

  /** The same of an option outside the supported list, on the peer's side. */
  lemma UnsupportedIsRefused(cfg: Config, cmds: seq<Command>, o: byte)
    requires o !in SUPPORTED
    ensures var p := ProcessAll(NewConn(cfg), cmds).0;
            p.options[o].him == Disabled && Process(p, Command(WILL, o)) == (p, [Command(DONT, o)])
  {
    RefusalsStay(NewConn(cfg), cmds, o);
  }

  /** An option that is supported, enabled or not, may be switched on by the peer on its own side. */
  lemma SupportedIsAccepted(cfg: Config, cmds: seq<Command>, o: byte)
    requires o in SUPPORTED
    ensures var p := ProcessAll(NewConn(cfg), cmds).0;
            p.options[o].him == Disabled ==>
              && Process(p, Command(WILL, o)).0.options[o].him == Enabled
              && Process(p, Command(WILL, o)).1 == [Command(DO, o)]
  {
    RefusalsStay(NewConn(cfg), cmds, o);
  }

  /** And an enabled one, by the peer's request on ours. */
  lemma EnabledIsAccepted(cfg: Config, cmds: seq<Command>, o: byte)
    requires o in SUPPORTED && o in cfg.enabled
    ensures var p := ProcessAll(NewConn(cfg), cmds).0;
            p.options[o].us == Disabled ==>
              && Process(p, Command(DO, o)).0.options[o].us == Enabled
              && Process(p, Command(DO, o)).1 == [Command(WILL, o)]
  {
    RefusalsStay(NewConn(cfg), cmds, o);
  }

  // ---------------------------------------------------------------------------------------------
  // Replies that are lost
  // ---------------------------------------------------------------------------------------------

  /** `part` is `whole` with some of its elements left out. */
  predicate IsPart<T(==)>(part: seq<T>, whole: seq<T>) {
    if whole == [] then part == []
    else
      || IsPart(part, whole[..|whole| - 1])
      || (part != [] && part[|part| - 1] == whole[|whole| - 1] && IsPart(part[..|part| - 1], whole[..|whole| - 1]))
  }

  lemma PartSnoc<T>(part: seq<T>, whole: seq<T>, x: T)
    requires IsPart(part, whole)
    ensures IsPart(part, whole + [x]) && IsPart(part + [x], whole + [x])
  {
    assert (whole + [x])[..|whole|] == whole && (part + [x])[..|part|] == part;
  }

  lemma {:induction false} PartConcat<T>(part: seq<T>, whole: seq<T>, p: seq<T>, w: seq<T>)
    requires IsPart(part, whole) && IsPart(p, w)
    ensures IsPart(part + p, whole + w)
    decreases |w|
  {
    if w == [] {
      assert part + p == part && whole + w == whole;
    } else {
      var w', x := w[..|w| - 1], w[|w| - 1];
      assert whole + w == whole + w' + [x];
      if IsPart(p, w') {
        PartConcat(part, whole, p, w');
        PartSnoc(part + p, whole + w', x);
      } else {
        var p' := p[..|p| - 1];
        PartConcat(part, whole, p', w');
        PartSnoc(part + p', whole + w', x);
        assert part + p == part + p' + [x];
      }
    }
  }

  lemma {:induction false} PartOfItself<T>(s: seq<T>)
    ensures IsPart([], s) && IsPart(s, s)
  {
    if s != [] {
      PartOfItself(s[..|s| - 1]);
    }
  }

  /** An offer of each of the first `k` supported options. */
  function AllOffers(k: nat): seq<Command>
    requires k <= |SUPPORTED|
  {
    seq(k, i requires 0 <= i < k => Command(WILL, SUPPORTED[i]))
  }

  /** The offers come in the fixed order of the supported options. */
  lemma {:induction false} OffersInOrder(cfg: Config, k: nat)
    requires k <= |SUPPORTED|
    ensures IsPart(InitialOffers(cfg, k), AllOffers(k))
  {
    if k > 0 {
      var last, before := Command(WILL, SUPPORTED[k - 1]), InitialOffers(cfg, k - 1);
      OffersInOrder(cfg, k - 1);
      assert AllOffers(k) == AllOffers(k - 1) + [last];
      PartSnoc(before, AllOffers(k - 1), last);
      assert before + [] == before;
    }
  }

  /** The window size is sent directly behind the offer of NAWS. */
  lemma {:induction false} SizeFollowsOffer(cfg: Config, size: seq<byte>, k: nat) returns (i: nat)
    requires 4 <= k <= |SUPPORTED| && NAWS in cfg.enabled
    ensures i + 1 < |InitialCalls(cfg, size, k)|
    ensures InitialCalls(cfg, size, k)[i] == SendCommand(WILL, 31)
    ensures InitialCalls(cfg, size, k)[i + 1] == SendSubnegotiation(31, size)
  {
    if k == 4 {
      i := |InitialCalls(cfg, size, 3)|;
      assert SUPPORTED[3] == NAWS by {
        NawsIsFourth(4);
      }
      assert InitialCalls(cfg, size, 4) == InitialCalls(cfg, size, 3) + CallsFor(cfg, size, NAWS);
    } else {
      i := SizeFollowsOffer(cfg, size, k - 1);
    }
  }

  lemma WireOne(c: Call)
    ensures Wire([c]) == Encode(c)
  {
    assert [c][..0] == [];
    assert Wire([]) == [];
  }

  /** Sending more calls after those already on a stream. */
  lemma StreamConcat(stream: seq<byte>, s: seq<Call>, t: seq<Call>)
    ensures stream + Wire(s) + Wire(t) == stream + Wire(s + t)
  {
    WireConcat(s, t);
    ConcatAssociative(stream, Wire(s), Wire(t));
  }

  lemma ReplyNext(p: Peer, done: seq<Command>, c: Command, sent: seq<Call>, more: seq<Call>, stream: seq<byte>)
    requires |p.options| == OPTIONS
    requires IsPart(sent, AsCalls(ProcessAll(p, done).1))
    requires IsPart(more, AsCalls(Process(ProcessAll(p, done).0, c).1))
    ensures stream + Wire(sent) + Wire(more) == stream + Wire(sent + more)
    ensures ProcessAll(p, done + [c]).0 == Process(ProcessAll(p, done).0, c).0
    ensures var replies, reply := AsCalls(ProcessAll(p, done).1), AsCalls(Process(ProcessAll(p, done).0, c).1);
            && IsPart(sent + more, AsCalls(ProcessAll(p, done + [c]).1))
            && (sent == replies && more == reply ==> sent + more == AsCalls(ProcessAll(p, done + [c]).1))
  {
    ProcessNext(p, done, c);
    StreamConcat(stream, sent, more);
    PartConcat(sent, AsCalls(ProcessAll(p, done).1), more, AsCalls(Process(ProcessAll(p, done).0, c).1));
  }

  // ---------------------------------------------------------------------------------------------
  // The connection
  // ---------------------------------------------------------------------------------------------

  class Conn {
    const cfg: Config
    const size: seq<byte>  // the window size as NAWS sends it
    const negotiator: Negotiator
    const writer: Writer.WriteHalf
    var negotiated: nat
    var terminal: Terminal
    var subnegotiations: nat

    /** Open, and on a network that has lost nothing and will not. */
    ghost predicate Ready()
      reads writer, writer.net
    {
      writer.Valid() && !writer.closed && writer.spill == 0 && writer.net.Reliable()
    }

    ghost predicate Valid()
      reads this, negotiator.options, negotiator.Records(), writer, writer.net
    {
      && negotiator.Valid() && writer.Valid()
    }

    ghost function View(): (p: Peer)
      reads this, negotiator.options, negotiator.Records()
      requires negotiator.Valid()
      ensures |p.options| == OPTIONS
    {
      Peer(negotiator.View(),
           (set o: byte | !IsOptionEnabledLocally(cfg, o)),
           (set o: byte | !IsOptionSupported(o)),
           negotiated)
    }

    constructor (cfg: Config, width: u16, height: u16, writer: Writer.WriteHalf)
      requires writer.Valid()
      modifies writer, writer.net
      ensures Valid() && this.cfg == cfg && this.writer == writer && this.size == WindowSize(width, height)
      ensures View() == NewConn(cfg) && terminal == Terminal([], 0, 0) && subnegotiations == 0
      ensures old(writer.Valid() && !writer.closed && writer.spill == 0 && writer.net.Reliable()) ==>
                Ready() && writer.net.sent == old(writer.stream) + Wire(InitialCalls(cfg, WindowSize(width, height), |SUPPORTED|))
    {
      this.cfg, this.size, this.writer, negotiated := cfg, WindowSize(width, height), writer, 0;
      terminal, subnegotiations := Terminal([], 0, 0), 0;
      negotiator := new Negotiator();
      new;
      assert forall i :: 0 <= i < OPTIONS ==> negotiator.View()[i] == NewConn(cfg).options[i];
      assert negotiator.View() == NewConn(cfg).options;
      ghost var sent := NegotiateInitial();
    }

    /** A call whose error nobody looks at: it is accepted or not. */
    method Send(c: Call) returns (ghost sent: seq<Call>)
      requires writer.Valid() && (c.SendCommand? || c.SendSubnegotiation?)
      modifies writer, writer.net
      ensures writer.Valid() && writer.stream == old(writer.stream) + Wire(sent)
      ensures IsPart(sent, [c])
      ensures old(Ready()) ==> Ready() && sent == [c]
    {
      WireOne(c);
      PartOfItself([c]);
      var err;
      if c.SendCommand? {
        err := writer.SendCommand(c.cmd, c.option);
      } else {
        err := writer.SendSubnegotiation(c.option, c.payload);
      }
      sent := if err then [] else [c];
    }

    method SendNAWS(width: u16, height: u16) returns (ghost sent: seq<Call>)
      requires writer.Valid()
      modifies writer, writer.net
      ensures writer.Valid() && writer.stream == old(writer.stream) + Wire(sent)
      ensures IsPart(sent, [SendSubnegotiation(NAWS, [width / 256, width % 256, height / 256, height % 256])])
      ensures old(Ready()) ==> Ready() && |sent| == 1
    {
      sent := Send(SendSubnegotiation(NAWS, WindowSize(width, height)));
    }

    method SendTType(kind: seq<byte>) returns (ghost sent: seq<Call>)
      requires writer.Valid()
      modifies writer, writer.net
      ensures writer.Valid() && writer.stream == old(writer.stream) + Wire(sent)
      ensures IsPart(sent, [SendSubnegotiation(TTYPE, [0] + kind)])
      ensures old(Ready()) ==> Ready() && |sent| == 1
    {
      sent := Send(SendSubnegotiation(TTYPE, TypeReport(kind)));
    }

    /** The opening: offers in a fixed order, then a flush. Whatever fails is left out. */
    method NegotiateInitial() returns (ghost sent: seq<Call>)
      requires writer.Valid()
      modifies writer, writer.net
      ensures writer.Valid() && writer.stream == old(writer.stream) + Wire(sent)
      ensures IsPart(sent, InitialCalls(cfg, size, |SUPPORTED|))
      ensures old(Ready()) ==> Ready() && sent == InitialCalls(cfg, size, |SUPPORTED|)
                               && writer.net.sent == old(writer.stream) + Wire(sent)
    {
      sent := [];
      for k := 0 to |SUPPORTED|
        invariant writer.Valid() && writer.stream == old(writer.stream) + Wire(sent)
        invariant IsPart(sent, InitialCalls(cfg, size, k))
        invariant old(Ready()) ==> Ready() && sent == InitialCalls(cfg, size, k)
      {
        var option := SUPPORTED[k];
        ghost var more := Offer(option);
        StreamConcat(old(writer.stream), sent, more);
        PartConcat(sent, InitialCalls(cfg, size, k), more, CallsFor(cfg, size, option));
        sent := sent + more;
      }
      var err := writer.FlushLocked();
    }

    method Offer(option: byte) returns (ghost sent: seq<Call>)
      requires writer.Valid()
      modifies writer, writer.net
      ensures writer.Valid() && writer.stream == old(writer.stream) + Wire(sent)
      ensures IsPart(sent, CallsFor(cfg, size, option))
      ensures old(Ready()) ==> Ready() && sent == CallsFor(cfg, size, option)
    {
      sent := [];
      if option in cfg.enabled {
        sent := Send(SendCommand(WILL, option));
        if option == NAWS {
          ghost var more := Send(SendSubnegotiation(NAWS, size));
          StreamConcat(old(writer.stream), sent, more);
          PartConcat(sent, [SendCommand(WILL, option)], more, [SendSubnegotiation(NAWS, size)]);
          sent := sent + more;
        } else {
          assert [SendCommand(WILL, option)] + [] == [SendCommand(WILL, option)];
        }
      }
    }

    /** The command loop of processReadLocked. A reply that cannot be sent is left out. */
    method HandleCommands(cmds: seq<Command>) returns (ghost sent: seq<Call>)
      requires Valid()
      modifies this, negotiator.Records(), writer, writer.net
      ensures Valid() && terminal == old(terminal) && subnegotiations == old(subnegotiations)
      ensures View() == ProcessAll(old(View()), cmds).0
      ensures writer.stream == old(writer.stream) + Wire(sent)
      ensures IsPart(sent, AsCalls(ProcessAll(old(View()), cmds).1))
      ensures old(Ready()) ==> Ready() && sent == AsCalls(ProcessAll(old(View()), cmds).1)
    {
      ghost var done: seq<Command> := [];
      ghost var p0, stream0, ready := View(), writer.stream, Ready();
      sent := [];
      assert Replied(p0, done, sent, stream0, ready) by {
        assert AsCalls([]) == [] && Wire([]) == [] && stream0 + [] == stream0;
      }
      for i := 0 to |cmds|
        invariant done == cmds[..i] && terminal == old(terminal) && subnegotiations == old(subnegotiations)
        invariant Replied(p0, done, sent, stream0, ready)
      {
        sent := HandleNext(cmds[i], p0, done, sent, stream0, ready);
        assert cmds[..i + 1] == done + [cmds[i]];
        done := cmds[..i + 1];
      }
      assert cmds[..|cmds|] == cmds;
    }

    /** The connection has processed `done`, and what it could send of the replies, `sent`, is on its stream. */
    ghost predicate Replied(p0: Peer, done: seq<Command>, sent: seq<Call>, stream0: seq<byte>, ready: bool)
      reads this, negotiator.options, negotiator.Records(), writer, writer.net
    {
      && |p0.options| == OPTIONS && Valid()
      && View() == ProcessAll(p0, done).0
      && writer.stream == stream0 + Wire(sent)
      && IsPart(sent, AsCalls(ProcessAll(p0, done).1))
      && (ready ==> Ready() && sent == AsCalls(ProcessAll(p0, done).1))
    }

    method HandleNext(c: Command, ghost p0: Peer, ghost done: seq<Command>, ghost sent0: seq<Call>,
                      ghost stream0: seq<byte>, ghost ready: bool) returns (ghost sent: seq<Call>)
      requires Replied(p0, done, sent0, stream0, ready)
      modifies this, negotiator.Records(), writer, writer.net
      ensures terminal == old(terminal) && subnegotiations == old(subnegotiations)
      ensures Replied(p0, done + [c], sent, stream0, ready)
    {
      ghost var more := HandleCommand(c);
      ReplyNext(p0, done, c, sent0, more, stream0);
      sent := sent0 + more;
    }

    /** One command: refused at once, or given to the negotiator, whose reply is sent. */
    method HandleCommand(c: Command) returns (ghost sent: seq<Call>)
      requires Valid()
      modifies this, negotiator.Records(), writer, writer.net
      ensures Valid() && terminal == old(terminal) && subnegotiations == old(subnegotiations)
      ensures View() == Process(old(View()), c).0
      ensures writer.stream == old(writer.stream) + Wire(sent)
      ensures IsPart(sent, AsCalls(Process(old(View()), c).1))
      ensures old(Ready()) ==> Ready() && sent == AsCalls(Process(old(View()), c).1)
    {
      sent := [];
      if c.command == DO && !IsOptionEnabledLocally(cfg, c.option) {
        sent := Reply(WONT, c.option);
      } else if c.command == WILL && !IsOptionSupported(c.option) {
        sent := Reply(DONT, c.option);
      } else {
        sent := Negotiate(c);
      }
    }

    /** A command for the negotiator. */
    method Negotiate(c: Command) returns (ghost sent: seq<Call>)
      requires Valid()
      modifies this, negotiator.Records(), writer, writer.net
      ensures Valid() && terminal == old(terminal) && subnegotiations == old(subnegotiations)
      ensures var (pair, response, changed) := Handled(old(View()).options[c.option], c.command);
              && View() == old(View()).(options := old(View()).options[c.option := pair],
                                        negotiated := old(negotiated) + if changed then 1 else 0)
              && var reply := if response == 0 then [] else [Command(response, c.option)];
                 && IsPart(sent, AsCalls(reply))
                 && (old(Ready()) ==> Ready() && sent == AsCalls(reply))
      ensures writer.stream == old(writer.stream) + Wire(sent)
    {
      var response, changed := negotiator.Handle(c.command, c.option);
      sent := [];
      if response != 0 {
        sent := Reply(response, c.option);
      }
      if changed {
        negotiated := negotiated + 1;
      }
    }

    method Reply(command: byte, option: byte) returns (ghost sent: seq<Call>)
      requires writer.Valid()
      modifies writer, writer.net
      ensures writer.Valid() && writer.stream == old(writer.stream) + Wire(sent)
      ensures IsPart(sent, AsCalls([Command(command, option)]))
      ensures old(Ready()) ==> Ready() && sent == AsCalls([Command(command, option)])
    {
      var c := SendCommand(command, option);
      assert AsCalls([Command(command, option)]) == [c];
      sent := Send(c);
    }

    /** One subnegotiation, as its bytes read now. */
    method HandleSubnegotiation(option: byte, data: seq<byte>)
      modifies `terminal, `subnegotiations
      ensures terminal == Reported(old(terminal), option, data) && subnegotiations == old(subnegotiations) + 1
    {
      subnegotiations := subnegotiations + 1;
      if option == TTYPE {
        if |data| > 1 && data[0] == 0 {
          terminal := terminal.(kind := data[1..]);
        }
      } else if option == NAWS {
        if |data| >= 4 {
          terminal := terminal.(width := Word(data[0], data[1]), height := Word(data[2], data[3]));
        }
      }
    }
  }
}
