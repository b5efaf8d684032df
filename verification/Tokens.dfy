/**
 The grammar of a TELNET stream, and what the automaton makes of it. Every stream is a sequence of whole
 tokens followed by an unfinished one; it decodes to exactly what its whole tokens say.
 */
module Tokens {
  import opened Telnet
  import opened Automaton
  import opened Codec

  /** What a frame carries: a byte, or IAC and the byte after it. */
  datatype Piece = Single(b: byte) | Pair(b: byte)

  datatype Token =
    | Plain(b: byte)
    | EscapedIAC
    | Skipped(c: byte)                             // a single-byte or unknown command
    | Negotiation(cmd: byte, option: byte)
    | Framed(option: byte, pieces: seq<Piece>)

  /** A token that has begun. */
  datatype Tail =
    | Nothing
    | AfterIAC
    | AfterCommand(cmd: byte)
    | AfterSB
    | InFrame(option: byte, pieces: seq<Piece>)
    | InFrameAfterIAC(option: byte, pieces: seq<Piece>)

  predicate PieceOk(p: Piece) {
    match p
    case Single(b) => b != IAC
    case Pair(b) => b != SE
  }

  predicate PiecesOk(pieces: seq<Piece>) {
    forall k :: 0 <= k < |pieces| ==> PieceOk(pieces[k])
  }

  predicate TokenOk(t: Token) {
    match t
    case Plain(b) => b != IAC
    case EscapedIAC => true
    case Skipped(c) => c != IAC && c != SB && c != WILL && c != WONT && c != DO && c != DONT
    case Negotiation(cmd, _) => cmd == WILL || cmd == WONT || cmd == DO || cmd == DONT
    case Framed(_, pieces) => PiecesOk(pieces)
  }

  predicate AllOk(tokens: seq<Token>) {
    forall k :: 0 <= k < |tokens| ==> TokenOk(tokens[k])
  }

  predicate TailOk(t: Tail) {
    match t
    case AfterCommand(cmd) => cmd == WILL || cmd == WONT || cmd == DO || cmd == DONT
    case InFrame(_, pieces) => PiecesOk(pieces)
    case InFrameAfterIAC(_, pieces) => PiecesOk(pieces)
    case _ => true
  }

  // ---------------------------------------------------------------------------------------------
  // What is on the wire
  // ---------------------------------------------------------------------------------------------

  function PieceBytes(p: Piece): seq<byte> {
    match p
    case Single(b) => [b]
    case Pair(b) => [IAC, b]
  }

  function Carried(pieces: seq<Piece>): seq<byte> {
    if pieces == [] then [] else Carried(pieces[..|pieces| - 1]) + PieceBytes(pieces[|pieces| - 1])
  }

  /** A frame from its IAC SB on, without its end. */
  function FrameStart(option: byte, pieces: seq<Piece>): seq<byte> {
    if pieces == [] then [IAC, SB, option] else FrameStart(option, pieces[..|pieces| - 1]) + PieceBytes(pieces[|pieces| - 1])
  }

  function TokenBytes(t: Token): seq<byte> {
    match t
    case Plain(b) => [b]
    case EscapedIAC => [IAC, IAC]
    case Skipped(c) => [IAC, c]
    case Negotiation(cmd, option) => [IAC, cmd, option]
    case Framed(option, pieces) => FrameStart(option, pieces) + [IAC, SE]
  }

  function Bytes(tokens: seq<Token>): seq<byte> {
    if tokens == [] then [] else Bytes(tokens[..|tokens| - 1]) + TokenBytes(tokens[|tokens| - 1])
  }

  function TailBytes(t: Tail): seq<byte> {
    match t
    case Nothing => []
    case AfterIAC => [IAC]
    case AfterCommand(cmd) => [IAC, cmd]
    case AfterSB => [IAC, SB]
    case InFrame(option, pieces) => FrameStart(option, pieces)
    case InFrameAfterIAC(option, pieces) => FrameStart(option, pieces) + [IAC]
  }

  // ---------------------------------------------------------------------------------------------
  // What it says
  // ---------------------------------------------------------------------------------------------

  function TokenMeaning(t: Token): Output {
    match t
    case Plain(b) => Output([b], [], [])
    case EscapedIAC => Output([IAC], [], [])
    case Skipped(_) => NOTHING
    case Negotiation(cmd, option) => Output([], [Command(cmd, option)], [])
    case Framed(option, pieces) => Output([], [], [Subnegotiation(option, First(Carried(pieces), PAYLOAD_LIMIT))])
  }

  function Meaning(tokens: seq<Token>): Output {
    if tokens == [] then NOTHING else Meaning(tokens[..|tokens| - 1]).Then(TokenMeaning(tokens[|tokens| - 1]))
  }

  function TailState(t: Tail): ParserState {
    match t
    case Nothing => StateData
    case AfterIAC => StateIAC
    case AfterCommand(_) => StateNegotiation
    case AfterSB => StateSubnegotiationOption
    case InFrame(_, _) => StateSubnegotiation
    case InFrameAfterIAC(_, _) => StateSubnegotiationIAC
  }

  // ---------------------------------------------------------------------------------------------
  // Tokens decode to what they say
  // ---------------------------------------------------------------------------------------------

  /** Two and three bytes, one at a time. */
  lemma RunTwo(m: Machine, b: byte, c: byte)
    ensures Final(m, [b, c]) == Next(Next(m, b), c)
    ensures Emitted(m, [b, c]) == Emit(m, b).Then(Emit(Next(m, b), c))
  {
    RunOne(m, b);
    RunSnoc(m, [b], c);
    assert [b] + [c] == [b, c];
  }

  lemma RunThree(m: Machine, b: byte, c: byte, d: byte)
    ensures Final(m, [b, c, d]) == Next(Next(Next(m, b), c), d)
    ensures Emitted(m, [b, c, d]) == Emit(m, b).Then(Emit(Next(m, b), c)).Then(Emit(Next(Next(m, b), c), d))
  {
    RunTwo(m, b, c);
    RunSnoc(m, [b, c], d);
    assert [b, c] + [d] == [b, c, d];
  }

  lemma AccumulateIs(payload: seq<byte>, b: byte)
    requires |payload| <= PAYLOAD_LIMIT
    ensures Accumulate(payload, b) == First(payload + [b], PAYLOAD_LIMIT)
  {
  }

  /** A piece goes into the payload as it stands, as far as there is room. */
  lemma PieceDecodes(m: Machine, p: Piece)
    requires m.state == StateSubnegotiation && |m.payload| <= PAYLOAD_LIMIT && PieceOk(p)
    ensures Final(m, PieceBytes(p)) == m.(payload := First(m.payload + PieceBytes(p), PAYLOAD_LIMIT))
    ensures Emitted(m, PieceBytes(p)) == NOTHING
  {
    match p
    case Single(b) =>
      RunOne(m, b);
      AccumulateIs(m.payload, b);
    case Pair(b) =>
      var m1 := m.(state := StateSubnegotiationIAC);
      assert Next(m, IAC) == m1 && Emit(m, IAC) == NOTHING && Emit(m1, b) == NOTHING;
      assert Next(m1, b) == m.(payload := First(m.payload + [IAC, b], PAYLOAD_LIMIT));
      RunTwo(m, IAC, b);
  }

  /** The start of a frame says nothing; what it carries so far, cut at 512 bytes, is the payload. */
  lemma {:induction false} FrameStartDecodes(m: Machine, option: byte, pieces: seq<Piece>)
    requires m.state == StateData && PiecesOk(pieces)
    ensures Final(m, FrameStart(option, pieces))
            == m.(state := StateSubnegotiation, option := option, payload := First(Carried(pieces), PAYLOAD_LIMIT))
    ensures Emitted(m, FrameStart(option, pieces)) == NOTHING
  {
    if pieces == [] {
      ParseFrameStart(m, option);
    } else {
      var before, p := pieces[..|pieces| - 1], pieces[|pieces| - 1];
      var m1 := m.(state := StateSubnegotiation, option := option, payload := First(Carried(before), PAYLOAD_LIMIT));
      assert Final(m, FrameStart(option, before)) == m1 && Emitted(m, FrameStart(option, before)) == NOTHING by {
        FrameStartDecodes(m, option, before);
      }
      assert Final(m1, PieceBytes(p)) == m1.(payload := First(Carried(before) + PieceBytes(p), PAYLOAD_LIMIT))
             && Emitted(m1, PieceBytes(p)) == NOTHING by {
        PieceDecodes(m1, p);
        FirstOfConcat(Carried(before), PieceBytes(p), PAYLOAD_LIMIT);
      }
      RunConcat(m, FrameStart(option, before), PieceBytes(p));
    }
  }

  /** An unfinished token says nothing yet, and the state tells which it is. */
  lemma TailDecodes(m: Machine, t: Tail)
    requires m.state == StateData && TailOk(t)
    ensures Final(m, TailBytes(t)).state == TailState(t) && Emitted(m, TailBytes(t)) == NOTHING
    ensures t.AfterCommand? ==> Final(m, TailBytes(t)).cmd == t.cmd
    ensures t.InFrame? || t.InFrameAfterIAC? ==>
              && Final(m, TailBytes(t)).option == t.option
              && Final(m, TailBytes(t)).payload == First(Carried(t.pieces), PAYLOAD_LIMIT)
  {
    match t
    case Nothing =>
    case AfterIAC => RunOne(m, IAC);
    case AfterCommand(cmd) => RunTwo(m, IAC, cmd);
    case AfterSB => RunTwo(m, IAC, SB);
    case InFrame(option, pieces) => FrameStartDecodes(m, option, pieces);
    case InFrameAfterIAC(option, pieces) =>
      FrameStartDecodes(m, option, pieces);
      RunSnoc(m, FrameStart(option, pieces), IAC);
  }

  lemma TokenDecodes(m: Machine, t: Token)
    requires m.state == StateData && TokenOk(t)
    ensures Final(m, TokenBytes(t)).state == StateData && Emitted(m, TokenBytes(t)) == TokenMeaning(t)
    ensures t.Plain? || t.EscapedIAC? || t.Skipped? ==> Final(m, TokenBytes(t)) == m
  {
    match t
    case Plain(b) => RunOne(m, b);
    case EscapedIAC => RunTwo(m, IAC, IAC);
    case Skipped(c) => RunTwo(m, IAC, c);
    case Negotiation(cmd, option) => RunThree(m, IAC, cmd, option);
    case Framed(option, pieces) =>
      FrameDecodes(m, option, pieces);
  }

  lemma FrameDecodes(m: Machine, option: byte, pieces: seq<Piece>)
    requires m.state == StateData && PiecesOk(pieces)
    ensures Final(m, TokenBytes(Framed(option, pieces))).state == StateData
    ensures Emitted(m, TokenBytes(Framed(option, pieces))) == TokenMeaning(Framed(option, pieces))
  {
    FrameStartDecodes(m, option, pieces);
    EndFrame(m, FrameStart(option, pieces), Final(m, FrameStart(option, pieces)));
  }

  lemma EndFrame(m: Machine, s: seq<byte>, m1: Machine)
    requires Final(m, s) == m1 && Emitted(m, s) == NOTHING && m1.state == StateSubnegotiation
    ensures Final(m, s + [IAC, SE]) == m1.(state := StateData)
    ensures Emitted(m, s + [IAC, SE]) == Output([], [], [Subnegotiation(m1.option, m1.payload)])
  {
    var end := [IAC, SE];
    assert Final(m1, end) == m1.(state := StateData)
           && Emitted(m1, end) == Output([], [], [Subnegotiation(m1.option, m1.payload)]) by {
      ParseFrameEnd(m1);
    }
    RunConcat(m, s, end);
  }

  lemma {:induction false} TokensDecode(m: Machine, tokens: seq<Token>)
    requires m.state == StateData && AllOk(tokens)
    ensures Final(m, Bytes(tokens)).state == StateData && Emitted(m, Bytes(tokens)) == Meaning(tokens)
  {
    if tokens != [] {
      var before, t := tokens[..|tokens| - 1], tokens[|tokens| - 1];
      TokensDecode(m, before);
      TokenDecodes(Final(m, Bytes(before)), t);
      RunConcat(m, Bytes(before), TokenBytes(t));
    }
  }

  // ---------------------------------------------------------------------------------------------
  // Every stream is made of tokens
  // ---------------------------------------------------------------------------------------------

  /** One more byte finishes the token begun, or belongs to it. */
  function Finish(t: Tail, b: byte): seq<Token> {
    match t
    case Nothing => if b == IAC then [] else [Plain(b)]
    case AfterIAC =>
      if b == IAC then [EscapedIAC]
      else if b == SB || b == WILL || b == WONT || b == DO || b == DONT then [] else [Skipped(b)]
    case AfterCommand(cmd) => [Negotiation(cmd, b)]
    case AfterSB => []
    case InFrame(_, _) => []
    case InFrameAfterIAC(option, pieces) => if b == SE then [Framed(option, pieces)] else []
  }

  function Continue(t: Tail, b: byte): Tail {
    match t
    case Nothing => if b == IAC then AfterIAC else Nothing
    case AfterIAC =>
      if b == SB then AfterSB else if b == WILL || b == WONT || b == DO || b == DONT then AfterCommand(b) else Nothing
    case AfterCommand(_) => Nothing
    case AfterSB => InFrame(b, [])
    case InFrame(option, pieces) =>
      if b == IAC then InFrameAfterIAC(option, pieces) else InFrame(option, pieces + [Single(b)])
    case InFrameAfterIAC(option, pieces) => if b == SE then Nothing else InFrame(option, pieces + [Pair(b)])
  }

  /** `n` is a token begun, or one that is finished. */
  predicate Spells(more: seq<Token>, tail: Tail, n: seq<byte>) {
    && AllOk(more) && TailOk(tail)
    && if more == [] then TailBytes(tail) == n else tail == Nothing && |more| == 1 && TokenBytes(more[0]) == n
  }

  /** The byte either goes into the token begun, or finishes it. */
  lemma NextByte(t: Tail, b: byte)
    requires TailOk(t)
    ensures Spells(Finish(t, b), Continue(t, b), TailBytes(t) + [b])
  {
    match t
    case InFrame(option, pieces) => NextInFrame(option, pieces, b);
    case InFrameAfterIAC(option, pieces) => NextAfterIACInFrame(option, pieces, b);
    case _ => NextShort(t, b);
  }

  lemma NextShort(t: Tail, b: byte)
    requires TailOk(t) && !t.InFrame? && !t.InFrameAfterIAC?
    ensures Spells(Finish(t, b), Continue(t, b), TailBytes(t) + [b])
  {
    assert t.AfterSB? ==> FrameStart(b, []) == [IAC, SB, b];
  }

  lemma NextInFrame(option: byte, pieces: seq<Piece>, b: byte)
    requires PiecesOk(pieces)
    ensures Spells(Finish(InFrame(option, pieces), b), Continue(InFrame(option, pieces), b), FrameStart(option, pieces) + [b])
  {
  }

  lemma NextAfterIACInFrame(option: byte, pieces: seq<Piece>, b: byte)
    requires PiecesOk(pieces)
    ensures var t := InFrameAfterIAC(option, pieces); Spells(Finish(t, b), Continue(t, b), TailBytes(t) + [b])
  {
  }

  lemma NextTokenized(s: seq<byte>, b: byte, before: seq<Token>, t: Tail)
    requires AllOk(before) && TailOk(t) && s == Bytes(before) + TailBytes(t)
    ensures AllOk(before + Finish(t, b)) && TailOk(Continue(t, b))
    ensures s + [b] == Bytes(before + Finish(t, b)) + TailBytes(Continue(t, b))
  {
    var n, more, tail := TailBytes(t) + [b], Finish(t, b), Continue(t, b);
    assert s + [b] == Bytes(before) + n by {
      ConcatAssociative(Bytes(before), TailBytes(t), [b]);
    }
    NextByte(t, b);
    JoinToken(before, more, n, TailBytes(tail));
  }

  /** A finished token goes behind the others; an unfinished one stays behind them all. */
  lemma JoinToken(before: seq<Token>, more: seq<Token>, n: seq<byte>, tail: seq<byte>)
    requires if more == [] then tail == n else tail == [] && |more| == 1 && TokenBytes(more[0]) == n
    ensures Bytes(before) + n == Bytes(before + more) + tail
  {
    if more == [] {
      assert before + more == before;
    } else {
      assert before + more == before + [more[0]];
    }
  }

  /** Every stream is a sequence of whole tokens and an unfinished one. */
  lemma {:induction false} Tokenized(s: seq<byte>) returns (tokens: seq<Token>, tail: Tail)
    ensures AllOk(tokens) && TailOk(tail) && s == Bytes(tokens) + TailBytes(tail)
  {
    if s == [] {
      tokens, tail := [], Nothing;
    } else {
      var s', b := s[..|s| - 1], s[|s| - 1];
      var before, t := Tokenized(s');
      tokens, tail := before + Finish(t, b), Continue(t, b);
      assert s == s' + [b];
      assert AllOk(tokens) && TailOk(tail) && s' + [b] == Bytes(tokens) + TailBytes(tail) by {
        NextTokenized(s', b, before, t);
      }
    }
  }

  /**
   What the parser makes of any stream: however it is read as whole tokens and an unfinished one (and it
   always can be), the output is what the whole tokens say and the state is that of the unfinished one.
   */
  lemma StreamDecodes(m: Machine, tokens: seq<Token>, tail: Tail)
    requires m.state == StateData && AllOk(tokens) && TailOk(tail)
    ensures Emitted(m, Bytes(tokens) + TailBytes(tail)) == Meaning(tokens)
    ensures Final(m, Bytes(tokens) + TailBytes(tail)).state == TailState(tail)
  {
    TokensDecode(m, tokens);
    TailDecodes(Final(m, Bytes(tokens)), tail);
    RunConcat(m, Bytes(tokens), TailBytes(tail));
  }
}
