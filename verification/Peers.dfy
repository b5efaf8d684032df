/**
 Two endpoints joined by one FIFO channel each way. Every option and both directions share the two
 channels; `LinkOf` projects a configuration onto one option in one direction, and each global step
 is shown to be a step of one link that leaves every other link alone.
 */
module Peers {
  import opened Telnet
  import opened Automaton
  import opened Options

  // ---------------------------------------------------------------------------------------------
  // One endpoint and two
  // ---------------------------------------------------------------------------------------------

  /**
   An endpoint: its option states, the options it refuses without asking its negotiator (asked for
   with DO, offered with WILL), and how many state changes it has counted.
   */
  datatype Peer = Peer(options: seq<Pair>, refusesDo: set<byte>, refusesWill: set<byte>, negotiated: nat)

  datatype Net = Net(a: Peer, b: Peer, ab: seq<Command>, ba: seq<Command>)

  function Swap(n: Net): Net {
    Net(n.b, n.a, n.ba, n.ab)
  }

  /** What an endpoint does with a received command: refuse at once, or let the negotiator decide. */
  function Process(p: Peer, c: Command): (Peer, seq<Command>)
    requires |p.options| == OPTIONS
  {
    if c.command == DO && c.option in p.refusesDo then (p, [Command(WONT, c.option)])
    else if c.command == WILL && c.option in p.refusesWill then (p, [Command(DONT, c.option)])
    else
      var (pair, response, changed) := Handled(p.options[c.option], c.command);
      (p.(options := p.options[c.option := pair], negotiated := p.negotiated + if changed then 1 else 0),
       if response == 0 then [] else [Command(response, c.option)])
  }

  /** The oldest command on its way to `b` is delivered, and any reply queued. */
  function DeliverToB(n: Net): Net
    requires n.ab != [] && |n.b.options| == OPTIONS
  {
    var (b, reply) := Process(n.b, n.ab[0]);
    Net(n.a, b, n.ab[1..], n.ba + reply)
  }

  /** `a` asks its negotiator for `command`. */
  function RequestAtA(n: Net, command: byte, option: byte): Net
    requires |n.a.options| == OPTIONS
  {
    var (pair, send) := Requested(n.a.options[option], command);
    n.(a := n.a.(options := n.a.options[option := pair]),
       ab := n.ab + if send == 0 then [] else [Command(send, option)])
  }

  datatype Step = Request(atA: bool, command: byte, option: byte) | Deliver(toB: bool)

  predicate WellFormed(n: Net) {
    && |n.a.options| == OPTIONS && |n.b.options| == OPTIONS
    && (forall k :: 0 <= k < |n.ab| ==> IsNegotiation(n.ab[k].command))
    && (forall k :: 0 <= k < |n.ba| ==> IsNegotiation(n.ba[k].command))
  }

  predicate CanStep(n: Net, s: Step) {
    s.Deliver? ==> (if s.toB then n.ab else n.ba) != []
  }

  function Apply(n: Net, s: Step): Net
    requires WellFormed(n) && CanStep(n, s)
  {
    match s
    case Deliver(true) => DeliverToB(n)
    case Deliver(false) => Swap(DeliverToB(Swap(n)))
    case Request(true, command, option) => RequestAtA(n, command, option)
    case Request(false, command, option) => Swap(RequestAtA(Swap(n), command, option))
  }

  lemma ApplyWellFormed(n: Net, s: Step)
    requires WellFormed(n) && CanStep(n, s)
    ensures WellFormed(Apply(n, s))
  {
  }

  /** Whether `steps` is a run from `n`: each step possible where it is taken. */
  predicate IsRun(n: Net, steps: seq<Step>)
    requires WellFormed(n)
    decreases |steps|
  {
    steps == [] ||
    (CanStep(n, steps[0]) && (ApplyWellFormed(n, steps[0]); IsRun(Apply(n, steps[0]), steps[1..])))
  }

  function AfterRun(n: Net, steps: seq<Step>): (r: Net)
    requires WellFormed(n) && IsRun(n, steps)
    ensures WellFormed(r)
    decreases |steps|
  {
    if steps == [] then n else ApplyWellFormed(n, steps[0]); AfterRun(Apply(n, steps[0]), steps[1..])
  }

  /** How many of the deliveries to a (or to b) changed one of its option states. */
  function Changes(n: Net, steps: seq<Step>, atA: bool): nat
    requires WellFormed(n) && IsRun(n, steps)
    decreases |steps|
  {
    if steps == [] then 0
    else
      ApplyWellFormed(n, steps[0]);
      var n' := Apply(n, steps[0]);
      (if steps[0] == Deliver(!atA) && (if atA then n'.a.options != n.a.options else n'.b.options != n.b.options) then 1
       else 0) + Changes(n', steps[1..], atA)
  }

  /** Over every run, what an endpoint has counted is the deliveries that changed one of its states. */
  lemma {:induction false} NegotiatedIsChanges(n: Net, steps: seq<Step>)
    requires WellFormed(n) && IsRun(n, steps)
    ensures AfterRun(n, steps).a.negotiated == n.a.negotiated + Changes(n, steps, true)
    ensures AfterRun(n, steps).b.negotiated == n.b.negotiated + Changes(n, steps, false)
    decreases |steps|
  {
    if steps != [] {
      ApplyWellFormed(n, steps[0]);
      NegotiatedIsChanges(Apply(n, steps[0]), steps[1..]);
      match steps[0]
      case Deliver(true) => ProcessCountsChange(n.b, n.ab[0]);
      case Deliver(false) => ProcessCountsChange(n.a, n.ba[0]);
      case _ =>
    }
  }

  lemma ProcessCountsChange(p: Peer, c: Command)
    requires |p.options| == OPTIONS
    ensures Process(p, c).0.negotiated == p.negotiated + if Process(p, c).0.options != p.options then 1 else 0
  {
    var pair := Handled(p.options[c.option], c.command).0;
    assert p.options[c.option := pair][c.option] == pair;
    assert pair == p.options[c.option] ==> p.options[c.option := pair] == p.options;
  }

  // ---------------------------------------------------------------------------------------------
  // One option in one direction
  // ---------------------------------------------------------------------------------------------

  /**
   The offering side's `us`, the answering side's `him`, the WILL/WONT (true/false) on their way from
   one to the other and the DO/DONT on their way back.
   */
  datatype Link = Link(us: OptionState, him: OptionState, offers: seq<bool>, answers: seq<bool>,
                       refusesDo: bool, refusesWill: bool)

  /** The commands in `q` about `option` that are offers (or answers), as positive or negative. */
  function Select(q: seq<Command>, option: byte, offers: bool): seq<bool> {
    if q == [] then []
    else (if q[0].option == option && IsOffer(q[0].command) == offers then [IsPositive(q[0].command)] else [])
         + Select(q[1..], option, offers)
  }

  lemma {:induction false} SelectConcat(q: seq<Command>, r: seq<Command>, option: byte, offers: bool)
    ensures Select(q + r, option, offers) == Select(q, option, offers) + Select(r, option, offers)
  {
    if q == [] {
      assert q + r == r;
    } else {
      assert Select((q + r)[1..], option, offers) == Select(q[1..], option, offers) + Select(r, option, offers) by {
        assert (q + r)[1..] == q[1..] + r;
        SelectConcat(q[1..], r, option, offers);
      }
      assert (q + r)[0] == q[0];
    }
  }

  lemma SelectOne(c: Command, option: byte, offers: bool)
    ensures Select([c], option, offers)
            == if c.option == option && IsOffer(c.command) == offers then [IsPositive(c.command)] else []
  {
    assert [c][1..] == [];
  }

  /** The link of `option` on which `a` offers (or, when `aOffers` is false, `b` does). */
  function LinkOf(n: Net, option: byte, aOffers: bool): Link
    requires |n.a.options| == OPTIONS && |n.b.options| == OPTIONS
  {
    if aOffers then
      Link(n.a.options[option].us, n.b.options[option].him,
           Select(n.ab, option, true), Select(n.ba, option, false),
           option in n.a.refusesDo, option in n.b.refusesWill)
    else
      Link(n.b.options[option].us, n.a.options[option].him,
           Select(n.ba, option, true), Select(n.ab, option, false),
           option in n.b.refusesDo, option in n.a.refusesWill)
  }

  function AsFlags(r: Reply): seq<bool> {
    match r
    case Silence => []
    case Agree => [true]
    case Refuse => [false]
  }

  /** One end's new state and reply when a command reaches it. */
  function Reaction(s: OptionState, positive: bool, refuses: bool): (OptionState, seq<bool>) {
    if positive && refuses then (s, [false])
    else (Answer(s, positive).0, AsFlags(Answer(s, positive).1))
  }

  /** The oldest offer reaches the answering side. */
  function DeliverOffer(l: Link): Link
    requires l.offers != []
  {
    var (s, reply) := Reaction(l.him, l.offers[0], l.refusesWill);
    l.(him := s, offers := l.offers[1..], answers := l.answers + reply)
  }

  /** The oldest answer reaches the offering side. */
  function DeliverAnswer(l: Link): Link
    requires l.answers != []
  {
    var (s, reply) := Reaction(l.us, l.answers[0], l.refusesDo);
    l.(us := s, answers := l.answers[1..], offers := l.offers + reply)
  }

  function RequestOffer(l: Link, positive: bool): Link {
    if positive && l.us == Disabled then l.(us := WantYes, offers := l.offers + [true])
    else if !positive && l.us == Enabled then l.(us := WantNo, offers := l.offers + [false])
    else l
  }

  function RequestAnswer(l: Link, positive: bool): Link {
    if positive && l.him == Disabled then l.(him := WantYes, answers := l.answers + [true])
    else if !positive && l.him == Enabled then l.(him := WantNo, answers := l.answers + [false])
    else l
  }

  // ---------------------------------------------------------------------------------------------
  // The lift
  // ---------------------------------------------------------------------------------------------

  /** The link that the command at the head of a channel towards `b` belongs to. */
  predicate Concerns(c: Command, option: byte, aOffers: bool) {
    c.option == option && IsOffer(c.command) == aOffers
  }

  /** How `Process` acts on one side of one option, and what its reply looks like on each link. */
  lemma ProcessReacts(p: Peer, c: Command, option: byte, offers: bool)
    requires |p.options| == OPTIONS && IsNegotiation(c.command)
    ensures var offer, was := IsOffer(c.command), p.options[c.option];
            var (s, reply) := Reaction(if offer then was.him else was.us, IsPositive(c.command),
                                       if offer then c.option in p.refusesWill else c.option in p.refusesDo);
            && Process(p, c).0.refusesDo == p.refusesDo && Process(p, c).0.refusesWill == p.refusesWill
            && Process(p, c).0.options == p.options[c.option := if offer then was.(him := s) else was.(us := s)]
            && Select(Process(p, c).1, option, offers) == if option == c.option && offers != offer then reply else []
  {
    var reply := Process(p, c).1;
    if reply != [] {
      assert reply == [reply[0]];
      SelectOne(reply[0], option, offers);
    }
  }

  lemma SelectHead(q: seq<Command>, option: byte, offers: bool)
    requires q != []
    ensures Select(q, option, offers)
            == (if Concerns(q[0], option, offers) then [IsPositive(q[0].command)] else []) + Select(q[1..], option, offers)
  {
  }

  lemma DeliverProjects(n: Net, option: byte, aOffers: bool)
    requires WellFormed(n) && n.ab != []
    ensures var l := LinkOf(n, option, aOffers);
            if Concerns(n.ab[0], option, aOffers) then
              if aOffers then l.offers != [] && LinkOf(DeliverToB(n), option, aOffers) == DeliverOffer(l)
              else l.answers != [] && LinkOf(DeliverToB(n), option, aOffers) == DeliverAnswer(l)
            else LinkOf(DeliverToB(n), option, aOffers) == l
  {
    var c, reply := n.ab[0], Process(n.b, n.ab[0]).1;
    assert Select(n.ba + reply, option, !aOffers) == Select(n.ba, option, !aOffers) + Select(reply, option, !aOffers) by {
      SelectConcat(n.ba, reply, option, !aOffers);
    }
    ProcessReacts(n.b, c, option, !aOffers);
    if Concerns(c, option, aOffers) {
      assert Select(n.ab, option, aOffers) == [IsPositive(c.command)] + Select(n.ab[1..], option, aOffers) by {
        SelectHead(n.ab, option, aOffers);
      }
      assert Select(n.ab, option, aOffers)[1..] == Select(n.ab[1..], option, aOffers);
    } else {
      assert Select(n.ab, option, aOffers) == Select(n.ab[1..], option, aOffers) by {
        SelectHead(n.ab, option, aOffers);
      }
      assert Select(n.ba, option, !aOffers) + [] == Select(n.ba, option, !aOffers);
    }
  }

  lemma RequestProjects(n: Net, command: byte, opt: byte, option: byte, aOffers: bool)
    requires WellFormed(n)
    ensures var l, l' := LinkOf(n, option, aOffers), LinkOf(RequestAtA(n, command, opt), option, aOffers);
            l' == if opt == option && IsNegotiation(command) && IsOffer(command) == aOffers then
                    if aOffers then RequestOffer(l, IsPositive(command)) else RequestAnswer(l, IsPositive(command))
                  else l
  {
    var send := Requested(n.a.options[opt], command).1;
    assert n.ab + [] == n.ab;
    if send != 0 {
      SelectConcat(n.ab, [Command(send, opt)], option, aOffers);
      SelectOne(Command(send, opt), option, aOffers);
    }
  }

  lemma SwapLink(n: Net, option: byte, aOffers: bool)
    requires WellFormed(n)
    ensures WellFormed(Swap(n)) && LinkOf(Swap(n), option, aOffers) == LinkOf(n, option, !aOffers)
  {
  }

  /** A step of one link: a delivery or a request at either end. */
  predicate LinkStep(l: Link, l': Link) {
    || (l.offers != [] && l' == DeliverOffer(l))
    || (l.answers != [] && l' == DeliverAnswer(l))
    || (exists positive :: l' == RequestOffer(l, positive))
    || (exists positive :: l' == RequestAnswer(l, positive))
  }

  /** Every global step is, on every link, a step of that link or no change at all. */
  lemma StepProjects(n: Net, s: Step, option: byte, aOffers: bool)
    requires WellFormed(n) && CanStep(n, s)
    ensures WellFormed(Apply(n, s))
    ensures LinkStep(LinkOf(n, option, aOffers), LinkOf(Apply(n, s), option, aOffers))
            || LinkOf(Apply(n, s), option, aOffers) == LinkOf(n, option, aOffers)
  {
    ApplyWellFormed(n, s);
    SwapLink(n, option, !aOffers);
    match s
    case Deliver(true) => DeliverProjects(n, option, aOffers);
    case Deliver(false) =>
      DeliverProjects(Swap(n), option, !aOffers);
    case Request(true, command, opt) => RequestProjects(n, command, opt, option, aOffers);
    case Request(false, command, opt) =>
      RequestProjects(Swap(n), command, opt, option, !aOffers);
  }

  // ---------------------------------------------------------------------------------------------
  // Counting what remains
  // ---------------------------------------------------------------------------------------------

  /** The sum of `cost` over both links of the first `k` options. */
  function Total(n: Net, cost: Link -> nat, k: nat): nat
    requires WellFormed(n) && k <= OPTIONS
  {
    if k == 0 then 0
    else Total(n, cost, k - 1) + cost(LinkOf(n, k - 1, true)) + cost(LinkOf(n, k - 1, false))
  }

  /** Only the link (`option`, `aOffers`) differs between `n` and `n'`, and it costs one less in `n'`. */
  predicate Cheaper(n: Net, n': Net, cost: Link -> nat, option: byte, aOffers: bool)
    requires WellFormed(n) && WellFormed(n')
  {
    && cost(LinkOf(n', option, aOffers)) + 1 == cost(LinkOf(n, option, aOffers))
    && LinkOf(n', option, !aOffers) == LinkOf(n, option, !aOffers)
    && forall o: byte, d :: o != option ==> LinkOf(n', o, d) == LinkOf(n, o, d)
  }

  lemma {:induction false} TotalCheaper(n: Net, n': Net, cost: Link -> nat, option: byte, aOffers: bool, k: nat)
    requires WellFormed(n) && WellFormed(n') && Cheaper(n, n', cost, option, aOffers) && k <= OPTIONS
    ensures Total(n', cost, k) + (if option < k then 1 else 0) == Total(n, cost, k)
  {
    if k > 0 {
      TotalCheaper(n, n', cost, option, aOffers, k - 1);
    }
  }

  /** The option and direction that a delivery is about. */
  function Subject(n: Net, toB: bool): (byte, bool)
    requires CanStep(n, Deliver(toB))
  {
    var c := if toB then n.ab[0] else n.ba[0];
    (c.option, IsOffer(c.command) == toB)
  }

  /** A delivery moves its own link by one delivery and no other link. */
  lemma DeliveryMovesOneLink(n: Net, toB: bool)
    requires WellFormed(n) && CanStep(n, Deliver(toB))
    ensures WellFormed(Apply(n, Deliver(toB)))
    ensures var (option, aOffers) := Subject(n, toB);
            var l, l' := LinkOf(n, option, aOffers), LinkOf(Apply(n, Deliver(toB)), option, aOffers);
            if aOffers == toB then l.offers != [] && l' == DeliverOffer(l)
            else l.answers != [] && l' == DeliverAnswer(l)
    ensures var (option, aOffers) := Subject(n, toB);
            forall o: byte, d :: (o, d) != (option, aOffers) ==>
              LinkOf(Apply(n, Deliver(toB)), o, d) == LinkOf(n, o, d)
  {
    var (option, aOffers) := Subject(n, toB);
    var n' := Apply(n, Deliver(toB));
    ApplyWellFormed(n, Deliver(toB));
    if toB {
      DeliverProjects(n, option, aOffers);
      forall o: byte, d | (o, d) != (option, aOffers)
        ensures LinkOf(n', o, d) == LinkOf(n, o, d)
      {
        DeliverProjects(n, o, d);
      }
    } else {
      DeliverProjects(Swap(n), option, !aOffers);
      forall o: byte, d | (o, d) != (option, aOffers)
        ensures LinkOf(n', o, d) == LinkOf(n, o, d)
      {
        DeliverProjects(Swap(n), o, !d);
      }
    }
  }
}
