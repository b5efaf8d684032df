/**
 Two negotiators that only follow their own rules, over every run of requests at either end and
 deliveries on either channel, for all 256 options and both directions at once.
 */
module Agreement {
  import opened Telnet
  import opened Automaton
  import opened Options
  import opened Peers

  // ---------------------------------------------------------------------------------------------
  // The invariant of one link
  // ---------------------------------------------------------------------------------------------

  /** The sixteen configurations a link can be in: what is in flight is all but fixed by the states. */
  predicate Consistent(l: Link) {
    && !l.refusesDo && !l.refusesWill
    && match (l.us, l.him)
       case (Disabled, Disabled) => l.offers == [] && l.answers == []
       case (Disabled, WantNo) => l.offers == [false] && l.answers == []
       case (Disabled, WantYes) => l.offers == [] && l.answers == [true]
       case (Enabled, Enabled) => l.offers == [] && l.answers == []
       case (Enabled, WantNo) => l.offers == [] && l.answers == [false]
       case (Enabled, WantYes) => l.offers == [true] && l.answers == []
       case (WantNo, Disabled) => l.offers == [] && l.answers == [false]
       case (WantNo, Enabled) => l.offers == [false] && l.answers == []
       case (WantNo, WantNo) => l.offers == [false] && l.answers == [false]
       case (WantNo, WantYes) => (l.offers == [] && l.answers == [false, true]) || (l.offers == [true, false] && l.answers == [])
       case (WantYes, Disabled) => l.offers == [true] && l.answers == []
       case (WantYes, Enabled) => l.offers == [] && l.answers == [true]
       case (WantYes, WantNo) => (l.offers == [] && l.answers == [true, false]) || (l.offers == [false, true] && l.answers == [])
       case (WantYes, WantYes) => l.offers == [true] && l.answers == [true]
       case _ => false
  }

  predicate Wants(s: OptionState) {
    s == Enabled || s == WantYes
  }

  /** Deliveries still to come: the messages in flight, and one reply if the two ends differ in intent. */
  function Remaining(l: Link): nat {
    |l.offers| + |l.answers| + if Wants(l.us) != Wants(l.him) then 1 else 0
  }

  /** How the link will end up: the last message in flight decides. */
  function Outcome(l: Link): bool {
    if l.offers != [] then l.offers[|l.offers| - 1]
    else if l.answers != [] then l.answers[|l.answers| - 1]
    else l.us == Enabled
  }

  lemma OfferConsistent(l: Link)
    requires Consistent(l) && l.offers != []
    ensures var l' := DeliverOffer(l);
            Consistent(l') && Remaining(l') + 1 == Remaining(l) && Outcome(l') == Outcome(l)
    ensures !(l.him == WantNo && l.offers[0])
  {
  }

  lemma AnswerConsistent(l: Link)
    requires Consistent(l) && l.answers != []
    ensures var l' := DeliverAnswer(l);
            Consistent(l') && Remaining(l') + 1 == Remaining(l) && Outcome(l') == Outcome(l)
    ensures !(l.us == WantNo && l.answers[0])
  {
  }

  lemma RequestConsistent(l: Link, positive: bool)
    requires Consistent(l)
    ensures Consistent(RequestOffer(l, positive)) && Consistent(RequestAnswer(l, positive))
  {
  }

  lemma LinkStepConsistent(l: Link, l': Link)
    requires Consistent(l) && LinkStep(l, l')
    ensures Consistent(l')
  {
    if l.offers != [] { OfferConsistent(l); }
    if l.answers != [] { AnswerConsistent(l); }
    RequestConsistent(l, true);
    RequestConsistent(l, false);
  }

  // ---------------------------------------------------------------------------------------------
  // All links at once
  // ---------------------------------------------------------------------------------------------

  predicate Good(n: Net) {
    WellFormed(n) && forall o: byte, d :: Consistent(LinkOf(n, o, d))
  }

  /** An endpoint that refuses nothing of its own accord, with every option off. */
  function FreshPeer(): Peer {
    Peer(seq(OPTIONS, _ => Pair(Disabled, Disabled)), {}, {}, 0)
  }

  const START: Net := Net(FreshPeer(), FreshPeer(), [], [])

  lemma StepGood(n: Net, s: Step)
    requires Good(n) && CanStep(n, s)
    ensures Good(Apply(n, s))
  {
    ApplyWellFormed(n, s);
    forall o: byte, d
      ensures Consistent(LinkOf(Apply(n, s), o, d))
    {
      var l, l' := LinkOf(n, o, d), LinkOf(Apply(n, s), o, d);
      assert Consistent(l);
      assert LinkStep(l, l') || l' == l by {
        StepProjects(n, s, o, d);
      }
      if l' != l {
        LinkStepConsistent(l, l');
      }
    }
  }

  lemma {:induction false} RunGood(n: Net, steps: seq<Step>)
    requires Good(n) && IsRun(n, steps)
    ensures Good(AfterRun(n, steps))
    decreases |steps|
  {
    if steps != [] {
      StepGood(n, steps[0]);
      RunGood(Apply(n, steps[0]), steps[1..]);
    }
  }

  /** Nothing about this option and direction is on its way. */
  predicate AtRest(l: Link) {
    l.offers == [] && l.answers == []
  }

  predicate QMethodState(s: OptionState) {
    s == Disabled || s == Enabled || s == WantNo || s == WantYes
  }

  /**
   Safety, for every run from the start and every option in both directions: at most two messages are
   in flight; only the four Q-method states occur; nothing is in flight exactly when neither end is
   pending; and then the two ends agree.
   */
  lemma NegotiationSafety(steps: seq<Step>, option: byte, aOffers: bool)
    requires IsRun(START, steps)
    ensures var l := LinkOf(AfterRun(START, steps), option, aOffers);
            && |l.offers| + |l.answers| <= 2
            && QMethodState(l.us) && QMethodState(l.him)
            && (AtRest(l) <==> !Pending(l.us) && !Pending(l.him))
            && (AtRest(l) ==> l.us == l.him)
  {
    RunGood(START, steps);
    assert Consistent(LinkOf(AfterRun(START, steps), option, aOffers));
  }

  /**
   What IsNegotiating tells: over every run, it is false of an option at both ends if and only if nothing
   about that option is on its way in either direction.
   */
  lemma NegotiatingExactly(steps: seq<Step>, option: byte)
    requires IsRun(START, steps)
    ensures var n := AfterRun(START, steps);
            !Negotiating(n.a.options[option]) && !Negotiating(n.b.options[option])
            <==> AtRest(LinkOf(n, option, true)) && AtRest(LinkOf(n, option, false))
  {
    NegotiationSafety(steps, option, true);
    NegotiationSafety(steps, option, false);
  }

  /**
   The branches that depart from RFC 1143, a WILL or a DO received in WANTNO, are never reached: no
   command about to be delivered meets a negotiator in that state.
   */
  lemma ConflictNeverReached(steps: seq<Step>, toB: bool)
    requires IsRun(START, steps)
    requires CanStep(AfterRun(START, steps), Deliver(toB))
    ensures var n := AfterRun(START, steps);
            var c, pair := if toB then n.ab[0] else n.ba[0], (if toB then n.b else n.a).options[(if toB then n.ab[0] else n.ba[0]).option];
            !(c.command == WILL && pair.him == WantNo) && !(c.command == DO && pair.us == WantNo)
  {
    RunGood(START, steps);
    var n := AfterRun(START, steps);
    DeliveryMovesOneLink(n, toB);
    var (option, aOffers) := Subject(n, toB);
    var l := LinkOf(n, option, aOffers);
    assert Consistent(l);
    SwapLink(n, option, !aOffers);
    SelectHead(if toB then n.ab else n.ba, option, IsOffer((if toB then n.ab else n.ba)[0].command));
    if l.offers != [] { OfferConsistent(l); }
    if l.answers != [] { AnswerConsistent(l); }
  }

  // ---------------------------------------------------------------------------------------------
  // Settling
  // ---------------------------------------------------------------------------------------------

  predicate OnlyDeliveries(steps: seq<Step>) {
    forall s :: s in steps ==> s.Deliver?
  }

  ghost predicate AllAtRest(n: Net)
    requires WellFormed(n)
  {
    forall o: byte, d :: AtRest(LinkOf(n, o, d))
  }

  lemma DeliverySettles(n: Net, toB: bool)
    requires Good(n) && CanStep(n, Deliver(toB))
    ensures var n' := Apply(n, Deliver(toB));
            && Good(n') && Total(n', Remaining, OPTIONS) + 1 == Total(n, Remaining, OPTIONS)
            && forall o: byte, d :: Outcome(LinkOf(n', o, d)) == Outcome(LinkOf(n, o, d))
  {
    var n' := Apply(n, Deliver(toB));
    var (option, aOffers) := Subject(n, toB);
    var l := LinkOf(n, option, aOffers);
    StepGood(n, Deliver(toB));
    DeliveryMovesOneLink(n, toB);
    assert Consistent(l);
    if aOffers == toB { OfferConsistent(l); } else { AnswerConsistent(l); }
    TotalCheaper(n, n', Remaining, option, aOffers, OPTIONS);
  }

  /**
   Once requests stop, every order of deliveries takes exactly the same number of steps to come to
   rest, at most three per option and direction, and ends in the same states: those the configuration
   already foretells.
   */
  lemma {:induction false} NegotiationSettles(n: Net, steps: seq<Step>)
    requires Good(n) && OnlyDeliveries(steps) && IsRun(n, steps)
    ensures var r := AfterRun(n, steps);
            && Good(r) && |steps| + Total(r, Remaining, OPTIONS) == Total(n, Remaining, OPTIONS)
            && forall o: byte, d :: Outcome(LinkOf(r, o, d)) == Outcome(LinkOf(n, o, d))
    decreases |steps|
  {
    if steps != [] {
      assert steps[0] in steps;
      DeliverySettles(n, steps[0].toB);
      var n1 := Apply(n, steps[0]);
      assert OnlyDeliveries(steps[1..]);
      NegotiationSettles(n1, steps[1..]);
    }
  }

  lemma LinkSettles(l: Link)
    requires Consistent(l)
    ensures Remaining(l) <= 3
    ensures Remaining(l) == 0 <==> AtRest(l)
    ensures AtRest(l) ==> l.us == l.him == if Outcome(l) then Enabled else Disabled
  {
  }

  lemma {:induction false} TotalBound(n: Net, k: nat)
    requires Good(n) && k <= OPTIONS
    ensures Total(n, Remaining, k) <= 6 * k
  {
    if k > 0 {
      TotalBound(n, k - 1);
      LinkSettles(LinkOf(n, k - 1, true));
      LinkSettles(LinkOf(n, k - 1, false));
    }
  }

  lemma {:induction false} RestCostsNothing(n: Net, k: nat)
    requires Good(n) && AllAtRest(n) && k <= OPTIONS
    ensures Total(n, Remaining, k) == 0
  {
    if k > 0 {
      RestCostsNothing(n, k - 1);
      assert AtRest(LinkOf(n, k - 1, true)) && AtRest(LinkOf(n, k - 1, false));
      LinkSettles(LinkOf(n, k - 1, true));
      LinkSettles(LinkOf(n, k - 1, false));
    }
  }

  lemma RestIsForetold(n: Net, steps: seq<Step>, option: byte, aOffers: bool)
    requires Good(n) && OnlyDeliveries(steps) && IsRun(n, steps) && AllAtRest(AfterRun(n, steps))
    ensures |steps| == Total(n, Remaining, OPTIONS) <= 6 * OPTIONS
    ensures var l := LinkOf(AfterRun(n, steps), option, aOffers);
            l.us == l.him == if Outcome(LinkOf(n, option, aOffers)) then Enabled else Disabled
  {
    var r := AfterRun(n, steps);
    NegotiationSettles(n, steps);
    assert Total(n, Remaining, OPTIONS) <= 6 * OPTIONS by {
      TotalBound(n, OPTIONS);
    }
    assert Total(r, Remaining, OPTIONS) == 0 by {
      RestCostsNothing(r, OPTIONS);
    }
    var l := LinkOf(r, option, aOffers);
    assert Consistent(l) && AtRest(l);
    LinkSettles(l);
  }

  /** Two complete deliveries of the same configuration end in the same states of every option. */
  lemma DeliveryOrderIsIrrelevant(n: Net, steps: seq<Step>, steps': seq<Step>, option: byte, aOffers: bool)
    requires Good(n)
    requires OnlyDeliveries(steps) && IsRun(n, steps) && AllAtRest(AfterRun(n, steps))
    requires OnlyDeliveries(steps') && IsRun(n, steps') && AllAtRest(AfterRun(n, steps'))
    ensures |steps| == |steps'|
    ensures LinkOf(AfterRun(n, steps), option, aOffers).us == LinkOf(AfterRun(n, steps'), option, aOffers).us
    ensures LinkOf(AfterRun(n, steps), option, aOffers).him == LinkOf(AfterRun(n, steps'), option, aOffers).him
  {
    RestIsForetold(n, steps, option, aOffers);
    RestIsForetold(n, steps', option, aOffers);
  }

  // ---------------------------------------------------------------------------------------------
  // Requests take effect
  // ---------------------------------------------------------------------------------------------

  /**
   A request made while nothing about its option is in flight is granted: once everything has been
   delivered, in whatever order, both ends have the option on, or off, as it asked.
   */
  lemma RequestIsGranted(n: Net, atA: bool, command: byte, option: byte, steps: seq<Step>)
    requires Good(n) && IsNegotiation(command) && AtRest(LinkOf(n, option, IsOffer(command) == atA))
    requires OnlyDeliveries(steps) && IsRun(n, [Request(atA, command, option)] + steps)
    requires AllAtRest(AfterRun(n, [Request(atA, command, option)] + steps))
    ensures var l := LinkOf(AfterRun(n, [Request(atA, command, option)] + steps), option, IsOffer(command) == atA);
            l.us == l.him == if IsPositive(command) then Enabled else Disabled
  {
    var s, aOffers := Request(atA, command, option), IsOffer(command) == atA;
    var n1, l := Apply(n, s), LinkOf(n, option, aOffers);
    assert ([s] + steps)[0] == s && ([s] + steps)[1..] == steps;
    StepGood(n, s);
    assert Consistent(l);
    assert Outcome(LinkOf(n1, option, aOffers)) == IsPositive(command) by {
      if atA {
        RequestProjects(n, command, option, option, aOffers);
      } else {
        SwapLink(n, option, !aOffers);
        RequestProjects(Swap(n), command, option, option, !aOffers);
        SwapLink(Swap(n1), option, aOffers);
      }
    }
    RestIsForetold(n1, steps, option, aOffers);
  }
}
