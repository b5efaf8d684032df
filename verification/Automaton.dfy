/**
 The byte-at-a-time meaning of a TELNET stream. `Next` and `Emit` are one step of the six-state
 parser; `Final` and `Emitted` run it over a whole stream without slicing, coalescing or event
 limits. Every statement about the real parser is made against this automaton.
 */
module Automaton {
  import opened Telnet

  const PAYLOAD_LIMIT: nat := 512

  datatype ParserState =
    | StateData
    | StateIAC
    | StateNegotiation
    | StateSubnegotiation
    | StateSubnegotiationIAC
    | StateSubnegotiationOption

  datatype Command = Command(command: byte, option: byte)

  datatype Subnegotiation = Subnegotiation(option: byte, payload: seq<byte>)

  /** The parser's memory between bytes. */
  datatype Machine = Machine(state: ParserState, cmd: byte, option: byte, payload: seq<byte>)

  /** What has been decoded: plain data, commands and completed subnegotiations. */
  datatype Output = Output(data: seq<byte>, cmds: seq<Command>, subs: seq<Subnegotiation>) {
    function Then(o: Output): Output {
      Output(data + o.data, cmds + o.cmds, subs + o.subs)
    }
  }

  const NOTHING: Output := Output([], [], [])

  /** Payload bytes beyond the buffer's 512 are dropped one by one. */
  function Accumulate(payload: seq<byte>, b: byte): seq<byte> {
    if |payload| < PAYLOAD_LIMIT then payload + [b] else payload
  }

  function Next(m: Machine, b: byte): Machine {
    match m.state
    case StateData =>
      if b == IAC then m.(state := StateIAC) else m
    case StateIAC =>
      if IsNegotiation(b) then m.(state := StateNegotiation, cmd := b)
      else if b == SB then m.(state := StateSubnegotiationOption, payload := [])
      else m.(state := StateData)
    case StateNegotiation =>
      m.(state := StateData)
    case StateSubnegotiationOption =>
      m.(state := StateSubnegotiation, option := b)
    case StateSubnegotiation =>
      if b == IAC then m.(state := StateSubnegotiationIAC)
      else m.(payload := Accumulate(m.payload, b))
    case StateSubnegotiationIAC =>
      if b == SE then m.(state := StateData)
      else m.(state := StateSubnegotiation, payload := Accumulate(Accumulate(m.payload, IAC), b))
  }

  /** Whether consuming `b` yields `b` itself as plain data. */
  predicate IsDataByte(m: Machine, b: byte) {
    (m.state == StateData && b != IAC) || (m.state == StateIAC && b == IAC)
  }

  function Emit(m: Machine, b: byte): Output {
    if IsDataByte(m, b) then Output([b], [], [])
    else if m.state == StateNegotiation then Output([], [Command(m.cmd, b)], [])
    else if m.state == StateSubnegotiationIAC && b == SE then
      Output([], [], [Subnegotiation(m.option, m.payload)])
    else NOTHING
  }

  function Final(m: Machine, s: seq<byte>): Machine {
    if s == [] then m else Next(Final(m, s[..|s| - 1]), s[|s| - 1])
  }

  function Emitted(m: Machine, s: seq<byte>): Output {
    if s == [] then NOTHING
    else Emitted(m, s[..|s| - 1]).Then(Emit(Final(m, s[..|s| - 1]), s[|s| - 1]))
  }

  lemma RunSnoc(m: Machine, s: seq<byte>, b: byte)
    ensures Final(m, s + [b]) == Next(Final(m, s), b)
    ensures Emitted(m, s + [b]) == Emitted(m, s).Then(Emit(Final(m, s), b))
  {
    assert (s + [b])[..|s|] == s;
  }

  /** Running over a concatenation is running twice, whatever the split point. */
  lemma {:induction false} RunConcat(m: Machine, s: seq<byte>, t: seq<byte>)
    ensures Final(m, s + t) == Final(Final(m, s), t)
    ensures Emitted(m, s + t) == Emitted(m, s).Then(Emitted(Final(m, s), t))
  {
    if t == [] {
      assert s + t == s;
    } else {
      var t', b := t[..|t| - 1], t[|t| - 1];
      var m1 := Final(m, s);
      assert Final(m, s + t) == Next(Final(m, s + t'), b)
             && Emitted(m, s + t) == Emitted(m, s + t').Then(Emit(Final(m, s + t'), b)) by {
        assert s + t == s + t' + [b];
        RunSnoc(m, s + t', b);
      }
      assert Final(m, s + t') == Final(m1, t')
             && Emitted(m, s + t') == Emitted(m, s).Then(Emitted(m1, t')) by {
        RunConcat(m, s, t');
      }
    }
  }

  lemma RunOne(m: Machine, b: byte)
    ensures Final(m, [b]) == Next(m, b)
    ensures Emitted(m, [b]) == Emit(m, b)
  {
    assert [b][..0] == [];
    assert Final(m, []) == m && Emitted(m, []) == NOTHING;
  }

  /** The payload buffer never overflows. */
  lemma {:induction false} PayloadBounded(m: Machine, s: seq<byte>)
    requires |m.payload| <= PAYLOAD_LIMIT
    ensures |Final(m, s).payload| <= PAYLOAD_LIMIT
    ensures forall k :: 0 <= k < |Emitted(m, s).subs| ==> |Emitted(m, s).subs[k].payload| <= PAYLOAD_LIMIT
  {
    if s != [] {
      PayloadBounded(m, s[..|s| - 1]);
    }
  }

  /** A parser in the middle of a command has a negotiation command in hand. */
  predicate Sound(m: Machine) {
    m.state == StateNegotiation ==> IsNegotiation(m.cmd)
  }

  predicate AllNegotiation(cmds: seq<Command>) {
    forall k :: 0 <= k < |cmds| ==> IsNegotiation(cmds[k].command)
  }

  /** Only negotiation commands are ever reported. */
  lemma {:induction false} SoundStays(m: Machine, s: seq<byte>)
    requires Sound(m)
    ensures Sound(Final(m, s)) && AllNegotiation(Emitted(m, s).cmds)
  {
    if s != [] {
      SoundStays(m, s[..|s| - 1]);
    }
  }

  // ---------------------------------------------------------------------------------------------
  // The storage behind the payload
  // ---------------------------------------------------------------------------------------------

  /** The payload buffer's storage after `s`: old bytes stay until something overwrites them. */
  function Storage(m: Machine, store: seq<byte>, s: seq<byte>): seq<byte> {
    if s == [] then store else Overlay(Storage(m, store, s[..|s| - 1]), Final(m, s).payload)
  }

  /** Whether consuming `b` accumulates a payload byte. */
  predicate WritesPayload(m: Machine, b: byte) {
    (m.state == StateSubnegotiation && b != IAC) || (m.state == StateSubnegotiationIAC && b != SE)
  }

  lemma {:induction false} StorageHoldsPayload(m: Machine, store: seq<byte>, s: seq<byte>)
    requires |store| == PAYLOAD_LIMIT && m.payload <= store
    ensures |Storage(m, store, s)| == PAYLOAD_LIMIT && Final(m, s).payload <= Storage(m, store, s)
  {
    PayloadBounded(m, s);
    if s != [] {
      StorageHoldsPayload(m, store, s[..|s| - 1]);
    }
  }

  lemma StorageSnoc(m: Machine, store: seq<byte>, s: seq<byte>, b: byte)
    ensures Storage(m, store, s + [b]) == Overlay(Storage(m, store, s), Next(Final(m, s), b).payload)
    ensures Final(m, s + [b]) == Next(Final(m, s), b)
  {
    RunSnoc(m, s, b);
    assert (s + [b])[..|s|] == s;
  }

  lemma PayloadStays(m: Machine, b: byte, store: seq<byte>)
    requires !WritesPayload(m, b) && m.payload <= store
    ensures Next(m, b).payload <= m.payload
    ensures Overlay(store, Next(m, b).payload) == store
  {
  }

  /** No byte of `u`, read from state `m` on, is accumulated as payload. */
  predicate WritesNone(m: Machine, u: seq<byte>) {
    u == [] || (WritesNone(m, u[..|u| - 1]) && !WritesPayload(Final(m, u[..|u| - 1]), u[|u| - 1]))
  }

  /**
   A payload delivered at the end of `t` can still be read from the storage after the rest `u` of
   the same call, provided `u` accumulates no payload byte.
   */
  lemma {:induction false} DeliveredPayloadIntact(m: Machine, store: seq<byte>, t: seq<byte>, u: seq<byte>)
    requires |store| == PAYLOAD_LIMIT && m.payload <= store
    requires WritesNone(Final(m, t), u)
    ensures Final(m, t).payload <= Storage(m, store, t + u) == Storage(m, store, t)
    ensures Final(m, t + u).payload <= Final(m, t).payload
  {
    StorageHoldsPayload(m, store, t);
    if u == [] {
      assert t + u == t;
    } else {
      var u', b := u[..|u| - 1], u[|u| - 1];
      DeliveredPayloadIntact(m, store, t, u');
      RunConcat(m, t, u');
      assert t + u == t + u' + [b];
      StorageSnoc(m, store, t + u', b);
      PayloadStays(Final(m, t + u'), b, Storage(m, store, t + u'));
    }
  }

  // ---------------------------------------------------------------------------------------------
  // How many events a chunk can contain
  // ---------------------------------------------------------------------------------------------

  /** Bytes of a command sequence already consumed when a chunk starts. */
  function CommandCredit(m: Machine): nat {
    match m.state
    case StateNegotiation => 2
    case StateIAC => 1
    case _ => 0
  }

  /** Bytes of a shortest subnegotiation frame already consumed when a chunk starts. */
  function FrameCredit(m: Machine): nat {
    match m.state
    case StateIAC => 1
    case StateSubnegotiationOption => 2
    case StateSubnegotiation => 3
    case StateSubnegotiationIAC => 4
    case _ => 0
  }

  /** Each command costs three bytes and each frame at least five, up to what was already paid. */
  lemma {:induction false} EventsArePaidFor(m: Machine, s: seq<byte>)
    ensures 3 * |Emitted(m, s).cmds| + CommandCredit(Final(m, s)) <= |s| + CommandCredit(m)
    ensures 5 * |Emitted(m, s).subs| + FrameCredit(Final(m, s)) <= |s| + FrameCredit(m)
  {
    if s != [] {
      EventsArePaidFor(m, s[..|s| - 1]);
    }
  }
}
