/**
 Two connections back to back. Each opens by offering WILL for every option its configuration enables,
 without telling its negotiator, and refuses some commands before the negotiator sees them. The
 exchange this starts is followed to its end, for every pair of configurations and every order of
 deliveries.
 */
module Handshake {
  import opened Telnet
  import opened Automaton
  import opened Options
  import opened Peers

  /** The supported options, in the order in which they are offered. */
  const SUPPORTED: seq<byte> := [0, 3, 1, 31, 24, 32, 39, 42, 86, 87, 69, 201, 70, 200]

  /** The options whose flag is set in a configuration. */
  datatype Config = Config(enabled: set<byte>) {
    predicate Valid() {
      forall o :: o in enabled ==> o in SUPPORTED
    }
  }

  /** The options the library knows. */
  predicate IsOptionSupported(option: byte) {
    option == 0 || option == 1 || option == 3 || option == 31 || option == 24 || option == 32 || option == 39
    || option == 42 || option == 86 || option == 87 || option == 69 || option == 201 || option == 70 || option == 200
  }

  /** They are those it can offer. */
  lemma SupportedAreOffered(option: byte)
    ensures IsOptionSupported(option) <==> option in SUPPORTED
  {
  }

  predicate IsOptionEnabledLocally(cfg: Config, option: byte) {
    IsOptionSupported(option) && option in cfg.enabled
  }

  /** The opening commands for the first `k` options of a list. */
  function Offers(list: seq<byte>, cfg: Config, k: nat): seq<Command>
    requires k <= |list|
  {
    if k == 0 then []
    else Offers(list, cfg, k - 1) + if list[k - 1] in cfg.enabled then [Command(WILL, list[k - 1])] else []
  }

  /** The opening commands for the first `k` supported options. */
  function InitialOffers(cfg: Config, k: nat): seq<Command>
    requires k <= |SUPPORTED|
  {
    Offers(SUPPORTED, cfg, k)
  }

  function NewConn(cfg: Config): Peer {
    Peer(seq(OPTIONS, _ => Pair(Disabled, Disabled)),
         (set o: byte | !IsOptionEnabledLocally(cfg, o)),
         (set o: byte | !IsOptionSupported(o)),
         0)
  }

  function Opening(ca: Config, cb: Config): (n: Net)
    ensures WellFormed(n)
  {
    OffersAreWills(SUPPORTED, ca, |SUPPORTED|);
    OffersAreWills(SUPPORTED, cb, |SUPPORTED|);
    Net(NewConn(ca), NewConn(cb), InitialOffers(ca, |SUPPORTED|), InitialOffers(cb, |SUPPORTED|))
  }

  lemma {:induction false} OffersAreWills(list: seq<byte>, cfg: Config, k: nat)
    requires k <= |list|
    ensures forall i :: 0 <= i < |Offers(list, cfg, k)| ==> Offers(list, cfg, k)[i].command == WILL
  {
    if k > 0 {
      OffersAreWills(list, cfg, k - 1);
    }
  }

  /** What is offered of a list without repetitions. */
  lemma {:induction false} ListSelected(list: seq<byte>, cfg: Config, k: nat, option: byte)
    requires k <= |list| && forall i, j :: 0 <= i < j < |list| ==> list[i] != list[j]
    ensures Select(Offers(list, cfg, k), option, true) == if option in list[..k] && option in cfg.enabled then [true] else []
    ensures Select(Offers(list, cfg, k), option, false) == []
  {
    if k > 0 {
      var last, before := list[k - 1], Offers(list, cfg, k - 1);
      assert Select(before, option, true) == (if option in list[..k - 1] && option in cfg.enabled then [true] else [])
             && Select(before, option, false) == [] by {
        ListSelected(list, cfg, k - 1, option);
      }
      assert (option in list[..k] <==> option in list[..k - 1] || option == last) && last !in list[..k - 1];
      OfferSelected(before, last, cfg, option);
    }
  }

  /** What one more offer adds. */
  lemma OfferSelected(before: seq<Command>, last: byte, cfg: Config, option: byte)
    ensures var all := before + if last in cfg.enabled then [Command(WILL, last)] else [];
            && Select(all, option, true)
               == Select(before, option, true) + (if option == last && last in cfg.enabled then [true] else [])
            && Select(all, option, false) == Select(before, option, false)
  {
    var more := if last in cfg.enabled then [Command(WILL, last)] else [];
    SelectOne(Command(WILL, last), option, true);
    SelectOne(Command(WILL, last), option, false);
    SelectConcat(before, more, option, true);
    SelectConcat(before, more, option, false);
  }

  /** Each enabled option is offered exactly once, and nothing else is said. */
  lemma OffersSelected(cfg: Config, option: byte)
    ensures Select(InitialOffers(cfg, |SUPPORTED|), option, true)
            == if option in SUPPORTED && option in cfg.enabled then [true] else []
    ensures Select(InitialOffers(cfg, |SUPPORTED|), option, false) == []
  {
    ListSelected(SUPPORTED, cfg, |SUPPORTED|, option);
    assert SUPPORTED[..|SUPPORTED|] == SUPPORTED;
  }

  // ---------------------------------------------------------------------------------------------
  // The course of one link
  // ---------------------------------------------------------------------------------------------

  /** Offered, agreed to, confirmed (superfluously), and done; or never offered at all. */
  predicate OnCourse(l: Link, offered: bool) {
    if offered then
      && !l.refusesDo && !l.refusesWill
      && match (l.us, l.him)
         case (Disabled, Disabled) => l.offers == [true] && l.answers == []
         case (Disabled, Enabled) => l.offers == [] && l.answers == [true]
         case (Enabled, Enabled) => (l.offers == [true] || l.offers == []) && l.answers == []
         case _ => false
    else l.us == l.him == Disabled && l.offers == [] && l.answers == []
  }

  /** Deliveries still to come on a link. */
  function ToGo(l: Link): nat {
    if l.us == Disabled && l.him == Disabled then 3 * |l.offers|
    else if l.us == Disabled then 2
    else |l.offers|
  }

  ghost predicate Course(n: Net, ca: Config, cb: Config) {
    && WellFormed(n)
    && (forall o: byte :: OnCourse(LinkOf(n, o, true), o in ca.enabled))
    && (forall o: byte :: OnCourse(LinkOf(n, o, false), o in cb.enabled))
    && n.a.negotiated == CountOn(n.a.options, OPTIONS)
    && n.b.negotiated == CountOn(n.b.options, OPTIONS)
  }

  lemma OpeningOnCourse(ca: Config, cb: Config)
    requires ca.Valid() && cb.Valid()
    ensures Course(Opening(ca, cb), ca, cb)
  {
    var n := Opening(ca, cb);
    forall o: byte
      ensures OnCourse(LinkOf(n, o, true), o in ca.enabled)
      ensures OnCourse(LinkOf(n, o, false), o in cb.enabled)
    {
      SupportedAreOffered(o);
      assert Select(n.ab, o, true) == (if o in ca.enabled then [true] else []) && Select(n.ab, o, false) == [] by {
        OffersSelected(ca, o);
      }
      assert Select(n.ba, o, true) == (if o in cb.enabled then [true] else []) && Select(n.ba, o, false) == [] by {
        OffersSelected(cb, o);
      }
    }
    CountOnNone(n.a.options, OPTIONS);
  }

  // ---------------------------------------------------------------------------------------------
  // Counting
  // ---------------------------------------------------------------------------------------------

  function On(s: OptionState): nat {
    if s == Enabled then 1 else 0
  }

  /** How many of the first `k` options are enabled, each side counted on its own. */
  function CountOn(options: seq<Pair>, k: nat): nat
    requires k <= |options|
  {
    if k == 0 then 0 else CountOn(options, k - 1) + On(options[k - 1].us) + On(options[k - 1].him)
  }

  lemma {:induction false} CountOnNone(options: seq<Pair>, k: nat)
    requires k <= |options| && forall i :: 0 <= i < |options| ==> options[i] == Pair(Disabled, Disabled)
    ensures CountOn(options, k) == 0
  {
    if k > 0 {
      CountOnNone(options, k - 1);
    }
  }

  lemma {:induction false} CountOnUpdate(options: seq<Pair>, i: nat, p: Pair, k: nat)
    requires i < |options| && k <= |options|
    ensures CountOn(options[i := p], k) + (if i < k then On(options[i].us) + On(options[i].him) else 0)
            == CountOn(options, k) + (if i < k then On(p.us) + On(p.him) else 0)
  {
    if k > 0 {
      CountOnUpdate(options, i, p, k - 1);
    }
  }

  /** A positive command to a side that is off or on is counted exactly when it turns the side on. */
  lemma ProcessCounts(p: Peer, c: Command)
    requires |p.options| == OPTIONS && p.negotiated == CountOn(p.options, OPTIONS)
    requires c.command == WILL || c.command == DO
    requires var s := if c.command == WILL then p.options[c.option].him else p.options[c.option].us;
             s == Disabled || s == Enabled
    ensures Process(p, c).0.negotiated == CountOn(Process(p, c).0.options, OPTIONS)
  {
    CountOnUpdate(p.options, c.option, Handled(p.options[c.option], c.command).0, OPTIONS);
  }

  /** The members of `s` below `k`. */
  function Below(s: set<byte>, k: nat): set<byte> {
    set o | o in s && o < k
  }

  lemma BelowGrows(s: set<byte>, k: nat)
    requires k < OPTIONS
    ensures |Below(s, k + 1)| == |Below(s, k)| + if k in s then 1 else 0
  {
    var b: byte := k;
    if b in s {
      assert Below(s, k + 1) == Below(s, k) + {b};
    } else {
      assert Below(s, k + 1) == Below(s, k);
    }
  }

  lemma {:induction false} CountsFollowConfigs(n: Net, ca: Config, cb: Config, k: nat)
    requires Course(n, ca, cb) && k <= OPTIONS
    requires forall o: byte, d :: ToGo(LinkOf(n, o, d)) == 0
    ensures CountOn(n.a.options, k) == CountOn(n.b.options, k) == |Below(ca.enabled, k)| + |Below(cb.enabled, k)|
  {
    if k > 0 {
      CountsFollowConfigs(n, ca, cb, k - 1);
      BelowGrows(ca.enabled, k - 1);
      BelowGrows(cb.enabled, k - 1);
      var o: byte := k - 1;
      assert OnCourse(LinkOf(n, o, true), o in ca.enabled) && OnCourse(LinkOf(n, o, false), o in cb.enabled);
      assert ToGo(LinkOf(n, o, true)) == 0 && ToGo(LinkOf(n, o, false)) == 0;
    }
  }

  lemma {:induction false} OpeningTotal(n: Net, ca: Config, cb: Config, k: nat)
    requires Course(n, ca, cb) && k <= OPTIONS
    requires forall o: byte, d :: LinkOf(n, o, d).us == LinkOf(n, o, d).him == Disabled
    ensures Total(n, ToGo, k) == 3 * (|Below(ca.enabled, k)| + |Below(cb.enabled, k)|)
  {
    if k > 0 {
      OpeningTotal(n, ca, cb, k - 1);
      BelowGrows(ca.enabled, k - 1);
      BelowGrows(cb.enabled, k - 1);
      var o: byte := k - 1;
      assert OnCourse(LinkOf(n, o, true), o in ca.enabled) && OnCourse(LinkOf(n, o, false), o in cb.enabled);
    }
  }

  // ---------------------------------------------------------------------------------------------
  // The exchange
  // ---------------------------------------------------------------------------------------------

  lemma LinkAdvances(l: Link, offered: bool)
    requires OnCourse(l, offered)
    ensures l.offers != [] ==> l.offers[0] && (l.him == Disabled || l.him == Enabled)
                               && OnCourse(DeliverOffer(l), offered) && ToGo(DeliverOffer(l)) + 1 == ToGo(l)
    ensures l.answers != [] ==> l.answers[0] && (l.us == Disabled || l.us == Enabled)
                                && OnCourse(DeliverAnswer(l), offered) && ToGo(DeliverAnswer(l)) + 1 == ToGo(l)
  {
  }

  /** What is delivered is always positive, and finds its side simply off or on. */
  lemma HeadIsPositive(n: Net, ca: Config, cb: Config)
    requires Course(n, ca, cb) && n.ab != []
    ensures var c := n.ab[0];
            && (c.command == WILL || c.command == DO)
            && var s := if c.command == WILL then n.b.options[c.option].him else n.b.options[c.option].us;
               s == Disabled || s == Enabled
  {
    var c := n.ab[0];
    var aOffers := IsOffer(c.command);
    var offered := c.option in if aOffers then ca.enabled else cb.enabled;
    SelectHead(n.ab, c.option, aOffers);
    assert OnCourse(LinkOf(n, c.option, aOffers), offered);
    LinkAdvances(LinkOf(n, c.option, aOffers), offered);
  }

  lemma DeliveryCounts(n: Net, ca: Config, cb: Config, toB: bool)
    requires Course(n, ca, cb) && CanStep(n, Deliver(toB))
    ensures var n' := Apply(n, Deliver(toB));
            && n'.a.negotiated == CountOn(n'.a.options, OPTIONS)
            && n'.b.negotiated == CountOn(n'.b.options, OPTIONS)
  {
    if toB {
      HeadIsPositive(n, ca, cb);
      ProcessCounts(n.b, n.ab[0]);
    } else {
      HeadIsPositive(Swap(n), cb, ca);
      ProcessCounts(n.a, n.ba[0]);
    }
  }

  lemma DeliveryOnCourse(n: Net, ca: Config, cb: Config, toB: bool)
    requires Course(n, ca, cb) && CanStep(n, Deliver(toB))
    ensures Course(Apply(n, Deliver(toB)), ca, cb)
    ensures Total(Apply(n, Deliver(toB)), ToGo, OPTIONS) + 1 == Total(n, ToGo, OPTIONS)
  {
    var n' := Apply(n, Deliver(toB));
    var (option, aOffers) := Subject(n, toB);
    assert WellFormed(n') && Cheaper(n, n', ToGo, option, aOffers)
           && OnCourse(LinkOf(n', option, aOffers), option in if aOffers then ca.enabled else cb.enabled) by {
      SubjectAdvances(n, ca, cb, toB);
    }
    assert Total(n', ToGo, OPTIONS) + 1 == Total(n, ToGo, OPTIONS) by {
      TotalCheaper(n, n', ToGo, option, aOffers, OPTIONS);
    }
    assert n'.a.negotiated == CountOn(n'.a.options, OPTIONS) && n'.b.negotiated == CountOn(n'.b.options, OPTIONS) by {
      DeliveryCounts(n, ca, cb, toB);
    }
    forall o: byte, d
      ensures OnCourse(LinkOf(n', o, d), o in if d then ca.enabled else cb.enabled)
    {
      assert OnCourse(LinkOf(n, o, d), o in if d then ca.enabled else cb.enabled);
      assert (o, d) != (option, aOffers) ==> LinkOf(n', o, d) == LinkOf(n, o, d);
    }
  }

  /** The delivered command's own link gets one step on, and no other link changes. */
  lemma SubjectAdvances(n: Net, ca: Config, cb: Config, toB: bool)
    requires Course(n, ca, cb) && CanStep(n, Deliver(toB))
    ensures WellFormed(Apply(n, Deliver(toB)))
    ensures var (option, aOffers) := Subject(n, toB);
            && Cheaper(n, Apply(n, Deliver(toB)), ToGo, option, aOffers)
            && OnCourse(LinkOf(Apply(n, Deliver(toB)), option, aOffers), option in if aOffers then ca.enabled else cb.enabled)
  {
    var (option, aOffers) := Subject(n, toB);
    var l, offered := LinkOf(n, option, aOffers), option in if aOffers then ca.enabled else cb.enabled;
    DeliveryMovesOneLink(n, toB);
    assert OnCourse(l, offered);
    LinkAdvances(l, offered);
  }

  lemma {:induction false} RunOnCourse(n: Net, ca: Config, cb: Config, steps: seq<Step>)
    requires Course(n, ca, cb) && IsRun(n, steps) && forall s :: s in steps ==> s.Deliver?
    ensures Course(AfterRun(n, steps), ca, cb)
    ensures |steps| + Total(AfterRun(n, steps), ToGo, OPTIONS) == Total(n, ToGo, OPTIONS)
    decreases |steps|
  {
    if steps != [] {
      assert steps[0] in steps;
      DeliveryOnCourse(n, ca, cb, steps[0].toB);
      RunOnCourse(Apply(n, steps[0]), ca, cb, steps[1..]);
    }
  }

  /** The opening has three deliveries per enabled option to go. */
  lemma OpeningCost(ca: Config, cb: Config)
    requires ca.Valid() && cb.Valid()
    ensures Course(Opening(ca, cb), ca, cb)
    ensures Total(Opening(ca, cb), ToGo, OPTIONS) == 3 * (|ca.enabled| + |cb.enabled|)
  {
    OpeningOnCourse(ca, cb);
    OpeningTotal(Opening(ca, cb), ca, cb, OPTIONS);
    assert Below(ca.enabled, OPTIONS) == ca.enabled && Below(cb.enabled, OPTIONS) == cb.enabled;
  }

  /**
   For every two configurations and every order of deliveries: when nothing is left to deliver,
   exactly three commands per enabled option have been delivered, each side has on exactly the options
   it enables itself and knows exactly those its peer enables, and both have counted the same number
   of negotiated options.
   */
  lemma HandshakeCompletes(ca: Config, cb: Config, steps: seq<Step>, option: byte)
    requires ca.Valid() && cb.Valid()
    requires IsRun(Opening(ca, cb), steps) && forall s :: s in steps ==> s.Deliver?
    ensures |steps| <= 3 * (|ca.enabled| + |cb.enabled|)
    ensures var r := AfterRun(Opening(ca, cb), steps);
            r.ab == [] && r.ba == [] ==>
              && |steps| == 3 * (|ca.enabled| + |cb.enabled|)
              && (r.a.options[option].us == Enabled <==> option in ca.enabled)
              && (r.b.options[option].him == Enabled <==> option in ca.enabled)
              && (r.b.options[option].us == Enabled <==> option in cb.enabled)
              && (r.a.options[option].him == Enabled <==> option in cb.enabled)
              && r.a.negotiated == r.b.negotiated == |ca.enabled| + |cb.enabled|
  {
    OpeningCost(ca, cb);
    RunOnCourse(Opening(ca, cb), ca, cb, steps);
    var r := AfterRun(Opening(ca, cb), steps);
    if r.ab == [] && r.ba == [] {
      RestOfHandshake(r, ca, cb, option);
    }
  }

  lemma RestOfHandshake(r: Net, ca: Config, cb: Config, option: byte)
    requires Course(r, ca, cb) && r.ab == [] && r.ba == []
    ensures Total(r, ToGo, OPTIONS) == 0
    ensures r.a.options[option].us == Enabled <==> option in ca.enabled
    ensures r.b.options[option].him == Enabled <==> option in ca.enabled
    ensures r.b.options[option].us == Enabled <==> option in cb.enabled
    ensures r.a.options[option].him == Enabled <==> option in cb.enabled
    ensures r.a.negotiated == r.b.negotiated == |ca.enabled| + |cb.enabled|
  {
    EmptyChannelsAreDone(r, ca, cb, OPTIONS);
    assert ToGo(LinkOf(r, option, true)) == 0 && OnCourse(LinkOf(r, option, true), option in ca.enabled);
    assert ToGo(LinkOf(r, option, false)) == 0 && OnCourse(LinkOf(r, option, false), option in cb.enabled);
    assert r.a.negotiated == r.b.negotiated == |ca.enabled| + |cb.enabled| by {
      CountsFollowConfigs(r, ca, cb, OPTIONS);
      assert Below(ca.enabled, OPTIONS) == ca.enabled && Below(cb.enabled, OPTIONS) == cb.enabled;
    }
  }

  lemma {:induction false} EmptyChannelsAreDone(n: Net, ca: Config, cb: Config, k: nat)
    requires Course(n, ca, cb) && n.ab == [] && n.ba == [] && k <= OPTIONS
    ensures Total(n, ToGo, k) == 0
    ensures forall o: byte, d :: ToGo(LinkOf(n, o, d)) == 0
  {
    forall o: byte, d
      ensures ToGo(LinkOf(n, o, d)) == 0
    {
      assert OnCourse(LinkOf(n, o, d), o in if d then ca.enabled else cb.enabled);
      assert Select([], o, true) == [] && Select([], o, false) == [];
    }
    if k > 0 {
      EmptyChannelsAreDone(n, ca, cb, k - 1);
    }
  }
}
