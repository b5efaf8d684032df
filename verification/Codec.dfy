/**
 The encoders (IAC doubling, command and subnegotiation framing), and what the parser's automaton
 makes of their output.
 */
module Codec {
  import opened Telnet
  import opened Automaton

  function EscapeByte(b: byte): seq<byte> {
    if b == IAC then [IAC, IAC] else [b]
  }

  /** `s` with every IAC doubled. */
  function Escape(s: seq<byte>): seq<byte> {
    if s == [] then [] else Escape(s[..|s| - 1]) + EscapeByte(s[|s| - 1])
  }

  /** A complete subnegotiation: IAC SB option, the escaped payload, IAC SE. */
  function Frame(option: byte, payload: seq<byte>): seq<byte> {
    [IAC, SB, option] + Escape(payload) + [IAC, SE]
  }

  function CountIAC(s: seq<byte>): nat {
    if s == [] then 0 else CountIAC(s[..|s| - 1]) + if s[|s| - 1] == IAC then 1 else 0
  }

  lemma EscapeSnoc(s: seq<byte>, b: byte)
    ensures Escape(s + [b]) == Escape(s) + EscapeByte(b)
    ensures CountIAC(s + [b]) == CountIAC(s) + if b == IAC then 1 else 0
  {
    assert (s + [b])[..|s|] == s;
  }

  lemma {:induction false} EscapeConcat(s: seq<byte>, t: seq<byte>)
    ensures Escape(s + t) == Escape(s) + Escape(t)
  {
    if t == [] {
      assert s + t == s;
    } else {
      var t', b := t[..|t| - 1], t[|t| - 1];
      assert Escape(s + t) == Escape(s + t') + EscapeByte(b) by {
        assert (s + t)[..|s + t| - 1] == s + t';
      }
      assert Escape(s + t') == Escape(s) + Escape(t') by {
        EscapeConcat(s, t');
      }
      assert Escape(t) == Escape(t') + EscapeByte(b);
    }
  }

  lemma {:induction false} EscapeLength(s: seq<byte>)
    ensures |Escape(s)| == |s| + CountIAC(s)
    ensures CountIAC(s) == 0 <==> IAC !in s
    ensures IAC !in s ==> Escape(s) == s
  {
    if s != [] {
      var s', b := s[..|s| - 1], s[|s| - 1];
      EscapeLength(s');
      assert s == s' + [b];
    }
  }

  // ---------------------------------------------------------------------------------------------
  // The encoders
  // ---------------------------------------------------------------------------------------------

  /** The counting loop shared by the encoders. */
  method EscapedSize(src: seq<byte>) returns (size: nat)
    ensures size == |Escape(src)|
  {
    size := |src|;
    for i := 0 to |src|
      invariant size == |src| + CountIAC(src[..i])
    {
      EscapeSnoc(src[..i], src[i]);
      assert src[..i + 1] == src[..i] + [src[i]];
      if src[i] == IAC {
        size := size + 1;
      }
    }
    assert src[..|src|] == src;
    EscapeLength(src);
  }

  /** Escapes `src` into `dst`; a negative result is the size that would have been needed. */
  method EscapeIAC(dst: array<byte>, src: seq<byte>) returns (r: int)
    modifies dst
    ensures |Escape(src)| <= dst.Length ==>
              r == |Escape(src)| && dst[..] == Overlay(old(dst[..]), Escape(src))
    ensures |Escape(src)| > dst.Length ==> r == -|Escape(src)| && dst[..] == old(dst[..])
  {
    var required: int := EscapedSize(src);
    if dst.Length < required {
      return -required;
    }
    r := CopyEscaped(dst, 0, src);
  }

  lemma EscapePrefixFits(src: seq<byte>, i: nat)
    requires i < |src|
    ensures Escape(src[..i + 1]) == Escape(src[..i]) + EscapeByte(src[i])
    ensures |Escape(src[..i + 1])| <= |Escape(src)|
  {
    EscapeSnoc(src[..i], src[i]);
    assert src[..i + 1] == src[..i] + [src[i]];
    EscapeConcat(src[..i + 1], src[i + 1..]);
    assert src[..i + 1] + src[i + 1..] == src;
  }

  /** Writes `b`, doubled if it is IAC, at position `n`. */
  method PutEscaped(dst: array<byte>, n: nat, b: byte) returns (next: nat)
    requires n + |EscapeByte(b)| <= dst.Length
    modifies dst
    ensures next == n + |EscapeByte(b)|
    ensures dst[..] == old(dst[..n]) + EscapeByte(b) + old(dst[next..])
  {
    dst[n] := b;
    next := n + 1;
    if b == IAC {
      dst[next] := IAC;
      next := next + 1;
    }
  }

  /** The filling loop shared by the encoders: writes the escaped `src` at `start`. */
  method CopyEscaped(dst: array<byte>, start: nat, src: seq<byte>) returns (n: nat)
    requires start + |Escape(src)| <= dst.Length
    modifies dst
    ensures n == start + |Escape(src)|
    ensures dst[..] == old(dst[..start]) + Escape(src) + old(dst[n..])
  {
    n := start;
    for i := 0 to |src|
      invariant n == start + |Escape(src[..i])| <= dst.Length
      invariant dst[..n] == old(dst[..start]) + Escape(src[..i])
      invariant dst[n..] == old(dst[n..])
    {
      EscapePrefixFits(src, i);
      n := PutEscaped(dst, n, src[i]);
    }
    assert src[..|src|] == src;
  }

  method BuildCommand(dst: array<byte>, cmd: byte, option: byte) returns (r: int)
    modifies dst
    ensures dst.Length < 3 ==> r == -3 && dst[..] == old(dst[..])
    ensures dst.Length >= 3 ==> r == 3 && dst[..] == Overlay(old(dst[..]), [IAC, cmd, option])
  {
    if dst.Length < 3 {
      return -3;
    }
    dst[0] := IAC;
    dst[1] := cmd;
    dst[2] := option;
    return 3;
  }

  method BuildSubnegotiation(dst: array<byte>, option: byte, data: seq<byte>) returns (r: int)
    modifies dst
    ensures |Frame(option, data)| <= dst.Length ==>
              r == |Frame(option, data)| && dst[..] == Overlay(old(dst[..]), Frame(option, data))
    ensures |Frame(option, data)| > dst.Length ==> r == -|Frame(option, data)| && dst[..] == old(dst[..])
    ensures r == 5 + |data| + CountIAC(data) || r == -(5 + |data| + CountIAC(data))
  {
    var size := EscapedSize(data);
    var required: int := 3 + size + 2;
    assert required == |Frame(option, data)| == 5 + |data| + CountIAC(data) by {
      EscapeLength(data);
    }
    if dst.Length < required {
      return -required;
    }
    dst[0] := IAC;
    dst[1] := SB;
    dst[2] := option;
    assert dst[..3] == [IAC, SB, option];
    var n := CopyEscaped(dst, 3, data);
    dst[n] := IAC;
    dst[n + 1] := SE;
    assert dst[..n + 2] == Frame(option, data);
    return n + 2;
  }

  // ---------------------------------------------------------------------------------------------
  // What the parser makes of encoded bytes
  // ---------------------------------------------------------------------------------------------

  /** Escaped data comes back unchanged and leaves the parser as it was. */
  lemma {:induction false} ParseEscaped(m: Machine, s: seq<byte>)
    requires m.state == StateData
    ensures Final(m, Escape(s)) == m
    ensures Emitted(m, Escape(s)) == Output(s, [], [])
  {
    if s != [] {
      var s', b := s[..|s| - 1], s[|s| - 1];
      var e := Escape(s') + EscapeByte(b);
      assert Escape(s) == e && s == s' + [b];
      assert Final(m, e) == m && Emitted(m, e) == Output(s, [], []) by {
        ParseEscaped(m, s');
        ParseEscapedSnoc(m, Escape(s'), s', b);
      }
    }
  }

  lemma ParseEscapedSnoc(m: Machine, e: seq<byte>, s: seq<byte>, b: byte)
    requires m.state == StateData
    requires Final(m, e) == m && Emitted(m, e) == Output(s, [], [])
    ensures Final(m, e + EscapeByte(b)) == m
    ensures Emitted(m, e + EscapeByte(b)) == Output(s + [b], [], [])
  {
    RunConcat(m, e, EscapeByte(b));
    ParseEscapedByte(m, b);
  }

  lemma ParseEscapedByte(m: Machine, b: byte)
    requires m.state == StateData
    ensures Final(m, EscapeByte(b)) == m
    ensures Emitted(m, EscapeByte(b)) == Output([b], [], [])
  {
    RunOne(m, b);
    if b == IAC {
      RunSnoc(m, [IAC], IAC);
      assert [IAC] + [IAC] == EscapeByte(b);
    }
  }

  /** Inside a subnegotiation nothing is unescaped: the doubled bytes themselves are accumulated. */
  lemma {:induction false} ParsePayload(m: Machine, s: seq<byte>)
    requires m.state == StateSubnegotiation && |m.payload| <= PAYLOAD_LIMIT
    ensures Final(m, Escape(s)) == m.(payload := First(m.payload + Escape(s), PAYLOAD_LIMIT))
    ensures Emitted(m, Escape(s)) == NOTHING
  {
    if s == [] {
      assert m.payload + [] == m.payload;
    } else {
      var s', b := s[..|s| - 1], s[|s| - 1];
      var e := Escape(s') + EscapeByte(b);
      assert Escape(s) == e;
      var m1 := m.(payload := First(m.payload + Escape(s'), PAYLOAD_LIMIT));
      var m2 := m.(payload := First(m.payload + e, PAYLOAD_LIMIT));
      assert Final(m, Escape(s')) == m1 && Emitted(m, Escape(s')) == NOTHING by {
        ParsePayload(m, s');
      }
      assert Final(m1, EscapeByte(b)) == m2 && Emitted(m1, EscapeByte(b)) == NOTHING by {
        ParsePayloadByte(m1, b);
        FirstOfConcat(m.payload + Escape(s'), EscapeByte(b), PAYLOAD_LIMIT);
        assert m.payload + Escape(s') + EscapeByte(b) == m.payload + e;
      }
      RunConcat(m, Escape(s'), EscapeByte(b));
    }
  }

  lemma ParsePayloadByte(m: Machine, b: byte)
    requires m.state == StateSubnegotiation && |m.payload| <= PAYLOAD_LIMIT
    ensures Final(m, EscapeByte(b)) == m.(payload := First(m.payload + EscapeByte(b), PAYLOAD_LIMIT))
    ensures Emitted(m, EscapeByte(b)) == NOTHING
  {
    RunOne(m, b);
    if b == IAC {
      RunSnoc(m, [IAC], IAC);
      FirstOfConcat(m.payload + [IAC], [IAC], PAYLOAD_LIMIT);
      assert [IAC] + [IAC] == EscapeByte(b) && m.payload + [IAC] + [IAC] == m.payload + EscapeByte(b);
    }
  }

  lemma FirstOfConcat<T>(s: seq<T>, t: seq<T>, n: nat)
    ensures First(First(s, n) + t, n) == First(s + t, n)
  {
  }

  /** The payload an event carries for a frame built from `payload`. */
  function Received(payload: seq<byte>): seq<byte> {
    First(Escape(payload), PAYLOAD_LIMIT)
  }

  /**
   A frame gives exactly one event, whatever its payload contains (IAC SE included), and returns
   the parser to StateData.
   */
  lemma ParseFrame(m: Machine, option: byte, payload: seq<byte>)
    requires m.state == StateData
    ensures Final(m, Frame(option, payload)) == m.(option := option, payload := Received(payload))
    ensures Emitted(m, Frame(option, payload)) == Output([], [], [Subnegotiation(option, Received(payload))])
  {
    var m1 := m.(state := StateSubnegotiation, option := option, payload := []);
    var m2 := m1.(payload := Received(payload));
    ParseFrameStart(m, option);
    assert [] + Escape(payload) == Escape(payload);
    ParsePayload(m1, payload);
    RunConcat(m, [IAC, SB, option], Escape(payload));
    ParseFrameEnd(m2);
    RunConcat(m, [IAC, SB, option] + Escape(payload), [IAC, SE]);
  }

  lemma ParseFrameStart(m: Machine, option: byte)
    requires m.state == StateData
    ensures Final(m, [IAC, SB, option]) == m.(state := StateSubnegotiation, option := option, payload := [])
    ensures Emitted(m, [IAC, SB, option]) == NOTHING
  {
    RunOne(m, IAC);
    RunSnoc(m, [IAC], SB);
    RunSnoc(m, [IAC] + [SB], option);
    assert [IAC] + [SB] + [option] == [IAC, SB, option];
  }

  lemma ParseFrameEnd(m: Machine)
    requires m.state == StateSubnegotiation
    ensures Final(m, [IAC, SE]) == m.(state := StateData)
    ensures Emitted(m, [IAC, SE]) == Output([], [], [Subnegotiation(m.option, m.payload)])
  {
    RunOne(m, IAC);
    RunSnoc(m, [IAC], SE);
    assert [IAC] + [SE] == [IAC, SE];
  }

  /** IAC cmd option decodes to that one command if and only if cmd is WILL, WONT, DO or DONT. */
  lemma ParseCommand(m: Machine, cmd: byte, option: byte)
    requires m.state == StateData
    ensures Emitted(m, [IAC, cmd, option]) == Output([], [Command(cmd, option)], []) <==> IsNegotiation(cmd)
    ensures IsNegotiation(cmd) ==> Final(m, [IAC, cmd, option]) == m.(cmd := cmd)
  {
    RunOne(m, IAC);
    RunSnoc(m, [IAC], cmd);
    RunSnoc(m, [IAC] + [cmd], option);
    assert [IAC] + [cmd] + [option] == [IAC, cmd, option];
  }

  // ---------------------------------------------------------------------------------------------
  // Exactly which payloads survive framing
  // ---------------------------------------------------------------------------------------------

  /** Once an IAC has occurred, every later byte is IAC. */
  predicate OnlyIACAfterIAC(s: seq<byte>) {
    forall i, j :: 0 <= i < j < |s| && s[i] == IAC ==> s[j] == IAC
  }

  predicate SurvivesFraming(payload: seq<byte>) {
    && |payload| <= PAYLOAD_LIMIT
    && (IAC !in payload || (|payload| == PAYLOAD_LIMIT && OnlyIACAfterIAC(payload)))
  }

  lemma {:induction false} EscapeOfTail(s: seq<byte>)
    requires OnlyIACAfterIAC(s)
    ensures s <= Escape(s)
    ensures forall j :: |s| <= j < |Escape(s)| ==> Escape(s)[j] == IAC
  {
    EscapeLength(s);
    if s != [] && s[|s| - 1] == IAC {
      EscapeOfTail(s[..|s| - 1]);
      assert s == s[..|s| - 1] + [IAC];
    }
  }

  lemma {:induction false} TailFromEscape(s: seq<byte>)
    requires s <= Escape(s)
    ensures OnlyIACAfterIAC(s)
  {
    if s != [] {
      var s', b := s[..|s| - 1], s[|s| - 1];
      EscapeLength(s');
      assert s' == s[..|s'|] == Escape(s)[..|s'|] == Escape(s')[..|s'|];
      TailFromEscape(s');
      if IAC in s' {
        EscapeOfTail(s');
        assert b == Escape(s)[|s'|] == Escape(s')[|s'|] == IAC;
      }
    }
  }

  /**
   A payload arrives unchanged if and only if it has at most 512 bytes and no IAC, or has exactly
   512 bytes and nothing but IAC from its first IAC on (then the cut hides the doubling).
   */
  lemma FramingIsExact(payload: seq<byte>)
    ensures Received(payload) == payload <==> SurvivesFraming(payload)
  {
    EscapeLength(payload);
    if Received(payload) == payload && IAC in payload {
      TailFromEscape(payload);
    }
    if SurvivesFraming(payload) && IAC in payload {
      EscapeOfTail(payload);
    }
  }

  /** Of plain payloads those of at most 512 bytes arrive, and no others. */
  lemma PlainPayloadArrives(payload: seq<byte>)
    requires IAC !in payload
    ensures Received(payload) == payload <==> |payload| <= 512
  {
    EscapeLength(payload);
  }

  /** The escape is not undone inside a subnegotiation: a one-byte payload IAC arrives as two bytes. */
  lemma EscapedPayloadIsNotUndone()
    ensures Received([IAC]) == [IAC, IAC]
  {
    EscapeSnoc([], IAC);
    assert [] + [IAC] == [IAC];
  }

  // ---------------------------------------------------------------------------------------------
  // Escaping in place
  // ---------------------------------------------------------------------------------------------

  /** The position of the first IAC, or the length when there is none. */
  function FirstIAC(s: seq<byte>): (k: nat)
    ensures k <= |s| && (k < |s| ==> s[k] == IAC) && IAC !in s[..k]
  {
    if s == [] then 0
    else
      var k := FirstIAC(s[..|s| - 1]);
      assert k < |s| - 1 ==> s[..k] == s[..|s| - 1][..k];
      assert k == |s| - 1 ==> s[..k] == s[..|s| - 1][..k] && s[..k + 1] == s[..k] + [s[k]];
      if k < |s| - 1 || s[|s| - 1] == IAC then k else |s|
  }

  /** What is written when the source is overwritten as it is read: from the first IAC on, nothing but IAC. */
  function InPlace(s: seq<byte>): seq<byte> {
    s[..FirstIAC(s)] + seq(2 * (|s| - FirstIAC(s)), _ => IAC)
  }

  /** EscapeIAC with `src` the first `n` bytes of `dst`. */
  method EscapeInPlace(dst: array<byte>, n: nat) returns (r: int, panics: bool)
    requires n <= dst.Length
    modifies dst
    ensures var src := old(dst[..n]);
            if |Escape(src)| > dst.Length then r == -|Escape(src)| && !panics && dst[..] == old(dst[..])
            else
              && (panics <==> |InPlace(src)| > dst.Length)
              && (!panics ==> r == |InPlace(src)| && dst[..] == Overlay(old(dst[..]), InPlace(src)))
  {
    var required: int := EscapedSize(dst[..n]);
    if dst.Length < required {
      return -required, false;
    }
    var w;
    w, panics := OverwriteEscaped(dst, n);
    r := w;
  }

  /** The filling loop on a source that it overwrites. */
  method OverwriteEscaped(dst: array<byte>, n: nat) returns (w: nat, panics: bool)
    requires n <= dst.Length
    modifies dst
    ensures var k := FirstIAC(old(dst[..n]));
            && (panics <==> 2 * n - k > dst.Length)
            && (!panics ==> w == 2 * n - k
                            && forall j :: 0 <= j < dst.Length ==> dst[j] == if k <= j < w then IAC else old(dst[j]))
  {
    ghost var src := dst[..n];
    ghost var k := FirstIAC(src);
    w, panics := 0, false;
    for i := 0 to n
      invariant w == (if i <= k then i else k + 2 * (i - k)) <= dst.Length && !panics
      invariant forall j :: 0 <= j < dst.Length ==> dst[j] == if k <= j < w then IAC else old(dst[j])
    {
      assert i < k ==> src[i] in src[..k];
      w, panics := PutOrPanic(dst, w, dst[i]);
      if panics {
        return;
      }
    }
  }

  /** Writes `b`, doubled if it is IAC, at position `n`, or runs past the end. */
  method PutOrPanic(dst: array<byte>, n: nat, b: byte) returns (next: nat, panics: bool)
    requires n <= dst.Length
    modifies dst
    ensures panics <==> n + |EscapeByte(b)| > dst.Length
    ensures !panics ==> next == n + |EscapeByte(b)|
    ensures !panics ==> forall j :: 0 <= j < dst.Length ==> dst[j] == if n <= j < next then b else old(dst[j])
  {
    if n >= dst.Length || (b == IAC && n + 1 >= dst.Length) {
      return n, true;
    }
    next := PutEscaped(dst, n, b);
    panics := false;
    assert forall j :: 0 <= j < dst.Length ==> dst[j] == dst[..][j];
  }

  lemma {:induction false} OnlyIACsEscape(s: seq<byte>)
    requires forall i :: 0 <= i < |s| ==> s[i] == IAC
    ensures Escape(s) == seq(2 * |s|, _ => IAC) && CountIAC(s) == |s|
  {
    if s != [] {
      OnlyIACsEscape(s[..|s| - 1]);
      EscapeSnoc(s[..|s| - 1], IAC);
      assert s == s[..|s| - 1] + [IAC];
    }
  }

  lemma {:induction false} AllCounted(s: seq<byte>)
    requires CountIAC(s) >= |s|
    ensures forall i :: 0 <= i < |s| ==> s[i] == IAC
  {
    if s != [] {
      EscapeLength(s[..|s| - 1]);
      CountAtMost(s[..|s| - 1]);
      AllCounted(s[..|s| - 1]);
    }
  }

  lemma {:induction false} CountAtMost(s: seq<byte>)
    ensures CountIAC(s) <= |s|
  {
    if s != [] {
      CountAtMost(s[..|s| - 1]);
    }
  }

  /** What escaping comes to, from the first IAC on. */
  lemma EscapeFromFirst(s: seq<byte>)
    ensures var head, tail := s[..FirstIAC(s)], s[FirstIAC(s)..];
            Escape(s) == head + Escape(tail) && |Escape(s)| == |s| + CountIAC(tail)
  {
    var head, tail := s[..FirstIAC(s)], s[FirstIAC(s)..];
    assert s == head + tail;
    EscapeConcat(head, tail);
    EscapeLength(head);
    EscapeLength(tail);
  }

  /** Escaping in place escapes if and only if nothing but IAC follows the first IAC. */
  lemma InPlaceExactly(s: seq<byte>)
    ensures InPlace(s) == Escape(s) <==> OnlyIACAfterIAC(s)
  {
    var k := FirstIAC(s);
    var tail := s[k..];
    EscapeFromFirst(s);
    if OnlyIACAfterIAC(s) {
      assert forall i :: 0 <= i < |tail| ==> tail[i] == s[k + i];
      OnlyIACsEscape(tail);
    }
    if InPlace(s) == Escape(s) {
      AllCounted(tail);
      OnlyIACsBehind(s, k);
    }
  }

  lemma OnlyIACsBehind(s: seq<byte>, k: nat)
    requires k <= |s| && IAC !in s[..k] && forall i :: 0 <= i < |s[k..]| ==> s[k..][i] == IAC
    ensures OnlyIACAfterIAC(s)
  {
    assert forall i :: 0 <= i < k ==> s[i] in s[..k];
    assert forall i :: k <= i < |s| ==> s[i] == s[k..][i - k];
  }
}
