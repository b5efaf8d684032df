/**
 The option negotiator: a four-state version of the Q method of RFC 1143 without queue bits. Each of
 the 256 options has two states, one for our side (`us`) and one for the peer's (`him`).
 */
module Options {
  import opened Telnet

  datatype OptionState = Disabled | Enabled | WantNo | WantYes | WantNoOpp | WantYesOpp

  datatype Pair = Pair(us: OptionState, him: OptionState)

  const OPTIONS: nat := 256

  datatype Reply = Silence | Agree | Refuse

  /** The common table of the four handlers: new state, reply, whether the state changed. */
  function Answer(s: OptionState, positive: bool): (r: (OptionState, Reply, bool))
    ensures r.2 <==> r.0 != s
  {
    match s
    case Disabled => if positive then (Enabled, Agree, true) else (Disabled, Silence, false)
    case Enabled => if positive then (Enabled, Silence, false) else (Disabled, Refuse, true)
    case WantNo => if positive then (Disabled, Refuse, true) else (Disabled, Silence, true)
    case WantYes => if positive then (Enabled, Silence, true) else (Disabled, Silence, true)
    case _ => (s, Silence, false)
  }

  /** WILL and WONT speak about the sender's side; DO and DONT about the receiver's. */
  predicate IsOffer(command: byte) {
    command == WILL || command == WONT
  }

  predicate IsPositive(command: byte) {
    command == WILL || command == DO
  }

  /** The command that carries a reply to `command`; zero stands for no reply. */
  function ReplyTo(command: byte, r: Reply): byte {
    match r
    case Silence => 0
    case Agree => if IsOffer(command) then DO else WILL
    case Refuse => if IsOffer(command) then DONT else WONT
  }

  /** Handling `command` for one option: new states, reply command, whether something changed. */
  function Handled(p: Pair, command: byte): (r: (Pair, byte, bool))
    ensures r.2 <==> r.0 != p
  {
    if !IsNegotiation(command) then (p, 0, false)
    else
      var (s, r, changed) := Answer(if IsOffer(command) then p.him else p.us, IsPositive(command));
      (if IsOffer(command) then p.(him := s) else p.(us := s), ReplyTo(command, r), changed)
  }

  /** Asking for `command` to be sent on our own initiative: new states, and the command or zero. */
  function Requested(p: Pair, command: byte): (Pair, byte) {
    if command == WILL && p.us == Disabled then (p.(us := WantYes), WILL)
    else if command == WONT && p.us == Enabled then (p.(us := WantNo), WONT)
    else if command == DO && p.him == Disabled then (p.(him := WantYes), DO)
    else if command == DONT && p.him == Enabled then (p.(him := WantNo), DONT)
    else (p, 0)
  }

  predicate Pending(s: OptionState) {
    s == WantNo || s == WantYes
  }

  /** A request of ours about either side of the option is still unanswered. */
  predicate Negotiating(p: Pair) {
    Pending(p.us) || Pending(p.him)
  }

  // ---------------------------------------------------------------------------------------------
  // Against RFC 1143
  // ---------------------------------------------------------------------------------------------

  /** Section 7 of RFC 1143 with every queue bit empty and every enabling request agreed to. */
  function RfcAnswer(s: OptionState, positive: bool): (OptionState, Reply)
    requires !s.WantNoOpp? && !s.WantYesOpp?
  {
    if positive then
      match s
      case Disabled => (Enabled, Agree)
      case Enabled => (Enabled, Silence)
      case WantNo => (Disabled, Silence)  // an error by the peer: the option is off, nothing is sent
      case WantYes => (Enabled, Silence)
    else
      match s
      case Disabled => (Disabled, Silence)
      case Enabled => (Disabled, Refuse)
      case WantNo => (Disabled, Silence)
      case WantYes => (Disabled, Silence)
  }

  /**
   The handlers follow the RFC in every case but one: a WILL or DO received in WANTNO is refused, where the
   RFC sends nothing. In the two queue states, which nothing enters, they do nothing.
   */
  lemma FollowsRfc(s: OptionState, positive: bool)
    ensures s.WantNoOpp? || s.WantYesOpp? ==> Answer(s, positive) == (s, Silence, false)
    ensures !s.WantNoOpp? && !s.WantYesOpp? ==>
              && Answer(s, positive).0 == RfcAnswer(s, positive).0
              && Answer(s, positive).1 == (if s == WantNo && positive then Refuse else RfcAnswer(s, positive).1)
              && (Answer(s, positive).1 == RfcAnswer(s, positive).1 <==> !(s == WantNo && positive))
  {
    match s
    case Disabled =>
    case Enabled =>
    case WantNo =>
    case WantYes =>
    case _ =>
  }

  // ---------------------------------------------------------------------------------------------
  // The negotiator
  // ---------------------------------------------------------------------------------------------

  class Option {
    var us: OptionState
    var him: OptionState

    function View(): Pair
      reads this
    {
      Pair(us, him)
    }

    constructor ()
      ensures View() == Pair(Disabled, Disabled)
    {
      us, him := Disabled, Disabled;
    }

    method Reset()
      modifies this
      ensures View() == Pair(Disabled, Disabled)
    {
      us, him := Disabled, Disabled;
    }

    method IsNegotiating() returns (r: bool)
      ensures r <==> Negotiating(View())
    {
      r := us == WantNo || us == WantYes || him == WantNo || him == WantYes;
    }

    method HandleWill() returns (response: byte, changed: bool)
      modifies `him
      ensures (View(), response, changed) == Handled(old(View()), WILL)
      ensures changed <==> View() != old(View())
    {
      match him
      case Disabled =>
        him := Enabled;
        return DO, true;
      case Enabled =>
        return 0, false;
      case WantNo =>
        him := Disabled;
        return DONT, true;
      case WantYes =>
        him := Enabled;
        return 0, true;
      case _ =>
        return 0, false;
    }

    method HandleWont() returns (response: byte, changed: bool)
      modifies `him
      ensures (View(), response, changed) == Handled(old(View()), WONT)
      ensures changed <==> View() != old(View())
    {
      match him
      case Disabled =>
        return 0, false;
      case Enabled =>
        him := Disabled;
        return DONT, true;
      case WantNo =>
        him := Disabled;
        return 0, true;
      case WantYes =>
        him := Disabled;
        return 0, true;
      case _ =>
        return 0, false;
    }

    method HandleDo() returns (response: byte, changed: bool)
      modifies `us
      ensures (View(), response, changed) == Handled(old(View()), DO)
      ensures changed <==> View() != old(View())
    {
      match us
      case Disabled =>
        us := Enabled;
        return WILL, true;
      case Enabled =>
        return 0, false;
      case WantNo =>
        us := Disabled;
        return WONT, true;
      case WantYes =>
        us := Enabled;
        return 0, true;
      case _ =>
        return 0, false;
    }

    method HandleDont() returns (response: byte, changed: bool)
      modifies `us
      ensures (View(), response, changed) == Handled(old(View()), DONT)
      ensures changed <==> View() != old(View())
    {
      match us
      case Disabled =>
        return 0, false;
      case Enabled =>
        us := Disabled;
        return WONT, true;
      case WantNo =>
        us := Disabled;
        return 0, true;
      case WantYes =>
        us := Disabled;
        return 0, true;
      case _ =>
        return 0, false;
    }
  }

  class Negotiator {
    const options: array<Option>

    /** One record per option code, no two codes sharing one. */
    ghost predicate Valid()
      reads options
    {
      && options.Length == OPTIONS
      && forall i, j :: 0 <= i < j < OPTIONS ==> options[i] != options[j]
    }

    ghost function Records(): set<object>
      reads options
    {
      set i | 0 <= i < options.Length :: options[i] as object
    }

    ghost function View(): (v: seq<Pair>)
      reads options, Records()
      requires Valid()
      ensures |v| == OPTIONS && forall i :: 0 <= i < OPTIONS ==> v[i] == options[i].View()
    {
      seq(OPTIONS, i requires 0 <= i < OPTIONS reads options, Records() => options[i].View())
    }

    constructor ()
      ensures Valid() && fresh(options) && fresh(Records())
      ensures forall i :: 0 <= i < OPTIONS ==> View()[i] == Pair(Disabled, Disabled)
    {
      var first := new Option();
      var records := new Option[OPTIONS](_ => first);
      options := records;
      new;
      for i := 1 to OPTIONS
        invariant options.Length == OPTIONS && options[0] == first
        invariant forall j :: 0 <= j < OPTIONS ==> fresh(options[j])
        invariant forall j, k :: 0 <= j < k < i ==> options[j] != options[k]
        invariant forall j :: 0 <= j < OPTIONS ==> options[j].View() == Pair(Disabled, Disabled)
        invariant forall j :: i <= j < OPTIONS ==> options[j] == first
      {
        var next := new Option();
        options[i] := next;
      }
    }

    method Reset()
      requires Valid()
      modifies Records()
      ensures Valid() && forall i :: 0 <= i < OPTIONS ==> View()[i] == Pair(Disabled, Disabled)
    {
      for i := 0 to OPTIONS
        invariant Valid() && forall j :: 0 <= j < i ==> options[j].View() == Pair(Disabled, Disabled)
      {
        options[i].Reset();
      }
    }

    /** Processes a received command. */
    method Handle(command: byte, option: byte) returns (response: byte, changed: bool)
      requires Valid()
      modifies options[option]
      ensures Valid() && View() == old(View())[option := Handled(old(View())[option], command).0]
      ensures (response, changed) == (Handled(old(View())[option], command).1, Handled(old(View())[option], command).2)
      ensures changed <==> View()[option] != old(View())[option]
      ensures command == WILL && old(View())[option].him == WantNo ==> response == DONT
      ensures command == DO && old(View())[option].us == WantNo ==> response == WONT
      ensures !IsNegotiation(command) ==> View() == old(View()) && response == 0 && !changed
    {
      ghost var before := View();
      var opt := options[option];
      response, changed := 0, false;
      if command == WILL {
        response, changed := opt.HandleWill();
      } else if command == WONT {
        response, changed := opt.HandleWont();
      } else if command == DO {
        response, changed := opt.HandleDo();
      } else if command == DONT {
        response, changed := opt.HandleDont();
      }
      assert forall i :: 0 <= i < OPTIONS && i != option ==> options[i].View() == before[i];
    }

    method RequestEnable(option: byte) returns (send: byte)
      requires Valid()
      modifies options[option]
      ensures Valid() && View() == old(View())[option := Requested(old(View())[option], WILL).0]
      ensures send == Requested(old(View())[option], WILL).1
      ensures if old(View())[option].us == Disabled then send == WILL && View()[option] == old(View())[option].(us := WantYes)
              else send == 0 && View() == old(View())
    {
      ghost var before := View();
      var opt := options[option];
      send := 0;
      if opt.us == Disabled {
        opt.us := WantYes;
        send := WILL;
      }
      assert forall i :: 0 <= i < OPTIONS && i != option ==> options[i].View() == before[i];
    }

    method RequestDisable(option: byte) returns (send: byte)
      requires Valid()
      modifies options[option]
      ensures Valid() && View() == old(View())[option := Requested(old(View())[option], WONT).0]
      ensures send == Requested(old(View())[option], WONT).1
      ensures if old(View())[option].us == Enabled then send == WONT && View()[option] == old(View())[option].(us := WantNo)
              else send == 0 && View() == old(View())
    {
      ghost var before := View();
      var opt := options[option];
      send := 0;
      if opt.us == Enabled {
        opt.us := WantNo;
        send := WONT;
      }
      assert forall i :: 0 <= i < OPTIONS && i != option ==> options[i].View() == before[i];
    }

    method RequestPeerEnable(option: byte) returns (send: byte)
      requires Valid()
      modifies options[option]
      ensures Valid() && View() == old(View())[option := Requested(old(View())[option], DO).0]
      ensures send == Requested(old(View())[option], DO).1
      ensures if old(View())[option].him == Disabled then send == DO && View()[option] == old(View())[option].(him := WantYes)
              else send == 0 && View() == old(View())
    {
      ghost var before := View();
      var opt := options[option];
      send := 0;
      if opt.him == Disabled {
        opt.him := WantYes;
        send := DO;
      }
      assert forall i :: 0 <= i < OPTIONS && i != option ==> options[i].View() == before[i];
    }

    method RequestPeerDisable(option: byte) returns (send: byte)
      requires Valid()
      modifies options[option]
      ensures Valid() && View() == old(View())[option := Requested(old(View())[option], DONT).0]
      ensures send == Requested(old(View())[option], DONT).1
      ensures if old(View())[option].him == Enabled then send == DONT && View()[option] == old(View())[option].(him := WantNo)
              else send == 0 && View() == old(View())
    {
      ghost var before := View();
      var opt := options[option];
      send := 0;
      if opt.him == Enabled {
        opt.him := WantNo;
        send := DONT;
      }
      assert forall i :: 0 <= i < OPTIONS && i != option ==> options[i].View() == before[i];
    }
  }
}
