/**
 All subnegotiation events of one `Parse` call are views of the same payload buffer. This module
 says what an event reads as when the call returns, whatever else was accumulated after it.
 */
module Aliasing {
  import opened Telnet
  import opened Automaton
  import opened Codec

  // ---------------------------------------------------------------------------------------------
  // The storage as successive overlays
  // ---------------------------------------------------------------------------------------------

  /** Whether `b` begins a frame, emptying the payload. */
  predicate Resets(m: Machine, b: byte) {
    m.state == StateIAC && b == SB
  }

  /** The payload in hand when `u` begins, then one for each frame begun in `u`, complete or not. */
  function Payloads(m: Machine, u: seq<byte>): (payloads: seq<seq<byte>>)
    ensures |payloads| > 0 && payloads[|payloads| - 1] == Final(m, u).payload
  {
    if u == [] then [m.payload]
    else
      var before := Payloads(m, u[..|u| - 1]);
      if Resets(Final(m, u[..|u| - 1]), u[|u| - 1]) then before + [[]]
      else before[|before| - 1 := Final(m, u).payload]
  }

  /** `store` with each of the payloads written over its front, in turn. */
  function OverlayAll(store: seq<byte>, payloads: seq<seq<byte>>): seq<byte> {
    if payloads == [] then store
    else Overlay(OverlayAll(store, payloads[..|payloads| - 1]), payloads[|payloads| - 1])
  }

  lemma {:induction false} OverlayAllSize(store: seq<byte>, payloads: seq<seq<byte>>)
    requires forall i :: 0 <= i < |payloads| ==> |payloads[i]| <= |store|
    ensures |OverlayAll(store, payloads)| == |store|
  {
    if payloads != [] {
      OverlayAllSize(store, payloads[..|payloads| - 1]);
    }
  }

  lemma {:induction false} PayloadsFit(m: Machine, u: seq<byte>)
    requires |m.payload| <= PAYLOAD_LIMIT
    ensures forall i :: 0 <= i < |Payloads(m, u)| ==> |Payloads(m, u)[i]| <= PAYLOAD_LIMIT
  {
    if u != [] {
      PayloadsFit(m, u[..|u| - 1]);
      PayloadBounded(m, u);
    }
  }

  /** The storage after `u` is the storage before it with every payload of `u` written over it, in turn. */
  lemma {:induction false} StorageIsOverlay(m: Machine, store: seq<byte>, u: seq<byte>)
    requires |store| == PAYLOAD_LIMIT && m.payload <= store
    ensures Storage(m, store, u) == OverlayAll(store, Payloads(m, u))
  {
    if u == [] {
      assert [m.payload][..0] == [];
      OverlayOfPrefix(store, m.payload);
    } else {
      var u' := u[..|u| - 1];
      var before, p := Payloads(m, u'), Final(m, u).payload;
      assert Storage(m, store, u') == OverlayAll(store, before) by {
        StorageIsOverlay(m, store, u');
      }
      assert |p| <= PAYLOAD_LIMIT by {
        PayloadBounded(m, u);
      }
      assert |OverlayAll(store, before)| == |OverlayAll(store, before[..|before| - 1])| == |store| by {
        PayloadsFit(m, u');
        OverlayAllSize(store, before);
        OverlayAllSize(store, before[..|before| - 1]);
      }
      if Resets(Final(m, u'), u[|u| - 1]) {
        assert (before + [[]])[..|before|] == before;
      }
    }
  }

  /** The last payload that reaches position `k`, or -1. */
  function LastReaching(payloads: seq<seq<byte>>, k: nat): (j: int)
    ensures -1 <= j < |payloads| && (j >= 0 ==> k < |payloads[j]|)
  {
    if payloads == [] then -1
    else if k < |payloads[|payloads| - 1]| then |payloads| - 1
    else LastReaching(payloads[..|payloads| - 1], k)
  }

  lemma {:induction false} OverlayAllAt(store: seq<byte>, payloads: seq<seq<byte>>, k: nat)
    requires k < |store| && forall i :: 0 <= i < |payloads| ==> |payloads[i]| <= |store|
    ensures |OverlayAll(store, payloads)| == |store|
    ensures var j := LastReaching(payloads, k);
            OverlayAll(store, payloads)[k] == if j < 0 then store[k] else payloads[j][k]
  {
    OverlayAllSize(store, payloads);
    if payloads != [] {
      OverlayAllSize(store, payloads[..|payloads| - 1]);
      OverlayAllAt(store, payloads[..|payloads| - 1], k);
    }
  }

  // ---------------------------------------------------------------------------------------------
  // When an event is intact
  // ---------------------------------------------------------------------------------------------

  /** At each position of `p` the last payload that reaches it agrees with `p`. */
  predicate Agree(payloads: seq<seq<byte>>, p: seq<byte>) {
    forall k :: 0 <= k < |p| ==> LastReaching(payloads, k) >= 0 && payloads[LastReaching(payloads, k)][k] == p[k]
  }

  lemma {:induction false} FirstReaches(m: Machine, u: seq<byte>, k: nat)
    requires m.state == StateData && k < |m.payload|
    ensures Payloads(m, u)[0] == m.payload
    ensures LastReaching(Payloads(m, u), k) >= 0
    ensures |Payloads(m, u)| == 1 ==> Final(m, u).state == StateData || Final(m, u).state == StateIAC || Final(m, u).state == StateNegotiation
  {
    if u != [] {
      FirstReaches(m, u[..|u| - 1], k);
    }
    SomeReaches(Payloads(m, u), k);
  }

  lemma {:induction false} SomeReaches(payloads: seq<seq<byte>>, k: nat)
    requires payloads != [] && k < |payloads[0]|
    ensures LastReaching(payloads, k) >= 0
  {
    if |payloads| > 1 {
      SomeReaches(payloads[..|payloads| - 1], k);
    }
  }

  /**
   After `t`, the payload then in hand, and after any `u` behind it: the front of the storage still reads
   as that payload if and only if at each of its positions the last payload of `u` to reach it agrees.
   */
  lemma PayloadIntactExactly(m: Machine, store: seq<byte>, t: seq<byte>, u: seq<byte>)
    requires |store| == PAYLOAD_LIMIT && m.payload <= store && Final(m, t).state == StateData
    ensures var p := Final(m, t).payload;
            First(Storage(m, store, t + u), |p|) == p <==> Agree(Payloads(Final(m, t), u), p)
  {
    var m1, store1 := Final(m, t), Storage(m, store, t);
    var p, payloads := m1.payload, Payloads(m1, u);
    StorageHoldsPayload(m, store, t);
    StorageConcat(m, store, t, u);
    StorageIsOverlay(m1, store1, u);
    PayloadsFit(m1, u);
    OverlayAllSize(store1, payloads);
    forall k | 0 <= k < |p|
      ensures LastReaching(payloads, k) >= 0
      ensures Storage(m, store, t + u)[k] == payloads[LastReaching(payloads, k)][k]
    {
      FirstReaches(m1, u, k);
      OverlayAllAt(store1, payloads, k);
    }
  }

  /** Where event number `k` of a call was complete. */
  function EventEnd(m: Machine, s: seq<byte>, k: nat): (e: nat)
    requires k < |Emitted(m, s).subs|
    ensures e <= |s|
  {
    if k < |Emitted(m, s[..|s| - 1]).subs| then EventEnd(m, s[..|s| - 1], k) else |s|
  }

  lemma {:induction false} EventAtEnd(m: Machine, s: seq<byte>, k: nat)
    requires k < |Emitted(m, s).subs|
    ensures var f := Final(m, s[..EventEnd(m, s, k)]);
            f.state == StateData && f.payload == Emitted(m, s).subs[k].payload && f.option == Emitted(m, s).subs[k].option
  {
    var s' := s[..|s| - 1];
    if k < |Emitted(m, s').subs| {
      EventAtEnd(m, s', k);
      assert s'[..EventEnd(m, s', k)] == s[..EventEnd(m, s', k)];
    } else {
      assert s[..|s|] == s;
    }
  }

  /** Event number `k` is intact when the call returns: the rest of the call agrees with it. */
  predicate EventIntact(m: Machine, s: seq<byte>, k: nat)
    requires k < |Emitted(m, s).subs|
  {
    var e := EventEnd(m, s, k);
    Agree(Payloads(Final(m, s[..e]), s[e..]), Emitted(m, s).subs[k].payload)
  }

  lemma EventIntactExactly(m: Machine, store: seq<byte>, s: seq<byte>, k: nat)
    requires |store| == PAYLOAD_LIMIT && m.payload <= store && k < |Emitted(m, s).subs|
    ensures var p := Emitted(m, s).subs[k].payload;
            First(Storage(m, store, s), |p|) == p <==> EventIntact(m, s, k)
  {
    var e := EventEnd(m, s, k);
    EventAtEnd(m, s, k);
    PayloadIntactExactly(m, store, s[..e], s[e..]);
    assert s[..e] + s[e..] == s;
  }

  // ---------------------------------------------------------------------------------------------
  // Whole frames
  // ---------------------------------------------------------------------------------------------

  lemma {:induction false} StorageConcat(m: Machine, store: seq<byte>, t: seq<byte>, u: seq<byte>)
    ensures Storage(m, store, t + u) == Storage(Final(m, t), Storage(m, store, t), u)
  {
    if u == [] {
      assert t + u == t;
    } else {
      var u', b := u[..|u| - 1], u[|u| - 1];
      StorageConcat(m, store, t, u');
      RunConcat(m, t, u);
      assert (t + u)[..|t + u| - 1] == t + u';
    }
  }

  /** The payload only grows while `u` is read: no byte of it opens a new frame. */
  ghost predicate Grows(m: Machine, u: seq<byte>) {
    u == [] || (Grows(m, u[..|u| - 1]) && Final(m, u[..|u| - 1]).state != StateIAC)
  }

  lemma {:induction false} StorageWhileGrowing(m: Machine, store: seq<byte>, u: seq<byte>)
    requires |store| == PAYLOAD_LIMIT && m.payload <= store && Grows(m, u)
    ensures Storage(m, store, u) == Overlay(store, Final(m, u).payload)
    ensures |Final(m, u).payload| <= PAYLOAD_LIMIT
  {
    PayloadBounded(m, u);
    if u != [] {
      StorageWhileGrowing(m, store, u[..|u| - 1]);
    }
  }

  lemma {:induction false} GrowsConcat(m: Machine, t: seq<byte>, u: seq<byte>)
    requires Grows(m, t) && Grows(Final(m, t), u)
    ensures Grows(m, t + u)
  {
    if u == [] {
      assert t + u == t;
    } else {
      var u' := u[..|u| - 1];
      GrowsConcat(m, t, u');
      RunConcat(m, t, u');
      assert (t + u)[..|t + u| - 1] == t + u';
    }
  }

  lemma {:induction false} PayloadGrows(m: Machine, s: seq<byte>)
    requires m.state == StateSubnegotiation && |m.payload| <= PAYLOAD_LIMIT
    ensures Grows(m, Escape(s))
  {
    if s != [] {
      var s', b := s[..|s| - 1], s[|s| - 1];
      PayloadGrows(m, s');
      ParsePayload(m, s');
      var m1 := Final(m, Escape(s'));
      assert Grows(m1, EscapeByte(b)) by {
        RunOne(m1, b);
        assert [IAC, IAC][..1] == [IAC];
        assert [b][..0] == [];
      }
      GrowsConcat(m, Escape(s'), EscapeByte(b));
    }
  }

  /** A frame writes its received payload over the front of the storage and touches nothing else. */
  lemma FrameOverwritesStorage(m: Machine, store: seq<byte>, option: byte, payload: seq<byte>)
    requires m.state == StateData && |store| == PAYLOAD_LIMIT && m.payload <= store
    ensures Storage(m, store, Frame(option, payload)) == Overlay(store, Received(payload))
  {
    var m1 := m.(state := StateSubnegotiation, option := option, payload := []);
    var body := Escape(payload) + [IAC, SE];
    assert Final(m, [IAC, SB, option]) == m1 && Storage(m, store, [IAC, SB, option]) == store by {
      ParseFrameStart(m, option);
      StorageOfStart(m, store, option);
    }
    assert Final(m1, body).payload == Received(payload) && Grows(m1, body) by {
      assert [] + Escape(payload) == Escape(payload);
      ParsePayload(m1, payload);
      PayloadGrows(m1, payload);
      var m2 := Final(m1, Escape(payload));
      ParseFrameEnd(m2);
      RunConcat(m1, Escape(payload), [IAC, SE]);
      assert Grows(m2, [IAC, SE]) by {
        RunOne(m2, IAC);
        assert [IAC, SE][..1] == [IAC];
        assert [IAC][..0] == [];
      }
      GrowsConcat(m1, Escape(payload), [IAC, SE]);
    }
    StorageWhileGrowing(m1, store, body);
    StorageConcat(m, store, [IAC, SB, option], body);
    assert Frame(option, payload) == [IAC, SB, option] + body;
  }

  lemma StorageOfStart(m: Machine, store: seq<byte>, option: byte)
    requires m.state == StateData && |store| == PAYLOAD_LIMIT && m.payload <= store
    ensures Storage(m, store, [IAC, SB, option]) == store
  {
    StorageSnoc(m, store, [], IAC);
    StorageSnoc(m, store, [IAC], SB);
    StorageSnoc(m, store, [IAC] + [SB], option);
    assert [] + [IAC] == [IAC];
    assert [IAC] + [SB] + [option] == [IAC, SB, option];
  }

  /** Writing `q` over the front of `p` changes `p` unless the two agree as far as both go. */
  lemma OverwrittenView(store: seq<byte>, p: seq<byte>, q: seq<byte>)
    requires |p| <= |store| && |q| <= |store|
    ensures var view := First(Overlay(Overlay(store, p), q), |p|);
            && view == Overlay(p, First(q, |p|))
            && (view == p <==> forall i :: 0 <= i < |p| && i < |q| ==> q[i] == p[i])
  {
    var view := First(Overlay(Overlay(store, p), q), |p|);
    assert forall i :: 0 <= i < |p| ==> view[i] == if i < |q| then q[i] else p[i];
  }

  /**
   Two frames in one call: when the call returns, the first event reads as its own payload with
   the second payload written over its front. It is intact if and only if the second payload
   agrees with it as far as both go.
   */
  lemma SecondFrameOverwritesFirst(m: Machine, store: seq<byte>, option1: byte, first: seq<byte>,
                                   option2: byte, second: seq<byte>)
    requires m.state == StateData && |store| == PAYLOAD_LIMIT && m.payload <= store
    ensures var p, q := Received(first), Received(second);
            var view := First(Storage(m, store, Frame(option1, first) + Frame(option2, second)), |p|);
            && view == Overlay(p, First(q, |p|))
            && (view == p <==> forall i :: 0 <= i < |p| && i < |q| ==> q[i] == p[i])
  {
    var p, q := Received(first), Received(second);
    var m1, store1 := m.(option := option1, payload := p), Overlay(store, p);
    assert Storage(m, store, Frame(option1, first) + Frame(option2, second)) == Overlay(store1, q) by {
      FrameOverwritesStorage(m, store, option1, first);
      ParseFrame(m, option1, first);
      FrameOverwritesStorage(m1, store1, option2, second);
      StorageConcat(m, store, Frame(option1, first), Frame(option2, second));
    }
    OverwrittenView(store, p, q);
  }
}
