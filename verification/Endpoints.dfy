/**
 A whole connection end: the read half and the negotiating half together, as processReadLocked joins
 them. One call is proved to be one arrival of module Exchange; subnegotiations are handled as they
 read when the parse is over.
 */
module Endpoints {
  import opened Telnet
  import opened Automaton
  import opened Aliasing
  import opened Codec
  import opened Session
  import opened Reports
  import opened Conns
  import opened Parsing
  import opened ReadSide
  import opened Exchange
  import Chunks

  /** The subnegotiations of one call as they read once the call is over. */
  function Views(m: Machine, store: seq<byte>, data: seq<byte>): seq<Subnegotiation> {
    var subs := First(Emitted(m, data).subs, MAX_SUBS);
    seq(|subs|, k requires 0 <= k < |subs| =>
      Subnegotiation(subs[k].option, First(Storage(m, store, data), |subs[k].payload|)))
  }

  function ReportedAll(t: Terminal, subs: seq<Subnegotiation>): Terminal {
    if subs == [] then t
    else
      var last := subs[|subs| - 1];
      Reported(ReportedAll(t, subs[..|subs| - 1]), last.option, last.payload)
  }

  /** Reports are taken over in order: what the last one of its kind says stays. */
  lemma {:induction false} LastReportStays(t: Terminal, before: seq<Subnegotiation>, last: Subnegotiation, after: seq<Subnegotiation>)
    requires forall k :: 0 <= k < |after| ==> after[k].option != last.option
    ensures var u, v := Reported(ReportedAll(t, before), last.option, last.payload), ReportedAll(t, before + [last] + after);
            && (last.option == NAWS ==> v.width == u.width && v.height == u.height)
            && (last.option == TTYPE ==> v.kind == u.kind)
  {
    var all := before + [last] + after;
    if after == [] {
      assert all == before + [last] && all[..|all| - 1] == before;
    } else {
      LastReportStays(t, before, last, after[..|after| - 1]);
      assert all[..|all| - 1] == before + [last] + after[..|after| - 1];
      assert all[|all| - 1] == after[|after| - 1];
    }
  }

  /** They are those the call delivered if and only if each of them is intact. */
  lemma ViewsExactly(m: Machine, store: seq<byte>, data: seq<byte>)
    requires |store| == PAYLOAD_LIMIT && m.payload <= store
    ensures Views(m, store, data) == First(Emitted(m, data).subs, MAX_SUBS)
            <==> forall k :: 0 <= k < |Emitted(m, data).subs| && k < MAX_SUBS ==> EventIntact(m, data, k)
  {
    var subs, views := First(Emitted(m, data).subs, MAX_SUBS), Views(m, store, data);
    forall k | 0 <= k < |subs|
      ensures views[k] == subs[k] <==> EventIntact(m, data, k)
    {
      EventIntactExactly(m, store, data, k);
    }
    if forall k :: 0 <= k < |Emitted(m, data).subs| && k < MAX_SUBS ==> EventIntact(m, data, k) {
      assert forall k :: 0 <= k < |subs| ==> views[k] == subs[k];
    }
    if views == subs {
      assert forall k :: 0 <= k < |subs| ==> views[k] == subs[k];
    }
  }

  /**
   A window of 80 by 24 followed in the same read by a terminal type whose second byte is 120 is taken
   for one of 120 by 24.
   */
  lemma WindowSizeIsMisread(m: Machine, store: seq<byte>, t: Terminal)
    requires m.state == StateData && |store| == PAYLOAD_LIMIT && m.payload <= store
    ensures var data := Frame(NAWS, [0, 80, 0, 24]) + Frame(TTYPE, [0, 120]);
            && Emitted(m, data).subs == [Subnegotiation(NAWS, [0, 80, 0, 24]), Subnegotiation(TTYPE, [0, 120])]
            && Views(m, store, data)[0] == Subnegotiation(NAWS, [0, 120, 0, 24])
            && Reported(t, NAWS, [0, 120, 0, 24]) == t.(width := 120, height := 24)
  {
    var size, kind: seq<byte> := [0, 80, 0, 24], [0, 120];
    var data := Frame(NAWS, size) + Frame(TTYPE, kind);
    assert Emitted(m, data).subs == [Subnegotiation(NAWS, size), Subnegotiation(TTYPE, kind)] by {
      TwoFrames(m, NAWS, size, TTYPE, kind);
    }
    assert First(Storage(m, store, data), |size|) == Overlay(size, First(kind, |size|)) by {
      FirstOfTwo(m, store, NAWS, size, TTYPE, kind);
    }
    assert Overlay(size, First(kind, |size|)) == [0, 120, 0, 24];
  }

  /** What a plain payload reads as behind a second one. */
  lemma FirstOfTwo(m: Machine, store: seq<byte>, option: byte, first: seq<byte>, option': byte, second: seq<byte>)
    requires m.state == StateData && |store| == PAYLOAD_LIMIT && m.payload <= store
    requires IAC !in first && IAC !in second && |first| <= PAYLOAD_LIMIT && |second| <= PAYLOAD_LIMIT
    ensures First(Storage(m, store, Frame(option, first) + Frame(option', second)), |first|)
            == Overlay(first, First(second, |first|))
  {
    assert Received(first) == first && Received(second) == second by {
      EscapeLength(first);
      EscapeLength(second);
    }
    SecondFrameOverwritesFirst(m, store, option, first, option', second);
  }

  lemma TwoFrames(m: Machine, option: byte, first: seq<byte>, option': byte, second: seq<byte>)
    requires m.state == StateData && IAC !in first && IAC !in second && |first| <= PAYLOAD_LIMIT && |second| <= PAYLOAD_LIMIT
    ensures Emitted(m, Frame(option, first) + Frame(option', second)).subs
            == [Subnegotiation(option, first), Subnegotiation(option', second)]
  {
    EscapeLength(first);
    EscapeLength(second);
    ParseFrame(m, option, first);
    ParseFrame(Final(m, Frame(option, first)), option', second);
    RunConcat(m, Frame(option, first), Frame(option', second));
  }

  class Endpoint {
    const conn: Conn
    const read: ReadHalf

    ghost function Footprint(): set<object>
      reads conn.negotiator.options
    {
      {conn, conn.negotiator.options, conn.writer, conn.writer.net} + conn.negotiator.Records()
    }

    /** Both halves are valid and share nothing. */
    ghost predicate Valid()
      reads this, conn, conn.negotiator.options, conn.negotiator.Records(), conn.writer, conn.writer.net, read.Repr()
    {
      conn.Valid() && read.Valid() && read.Repr() !! Footprint()
    }

    constructor (conn: Conn, read: ReadHalf)
      requires conn.Valid() && read.Valid()
      requires read.Repr() !! {conn, conn.negotiator.options, conn.writer, conn.writer.net} + conn.negotiator.Records()
      ensures Valid() && this.conn == conn && this.read == read
    {
      this.conn, this.read := conn, read;
    }

    /**
     The bytes of one network read: data to the ring buffer, commands to the negotiator with their replies
     sent as far as that succeeds, subnegotiations handled as they read by then.
     */
    method ProcessReadLocked(data: seq<byte>) returns (ghost sent: seq<Call>)
      requires Valid() && read.readBuf.contents == []
      modifies read.Repr() - {read}, conn, conn.negotiator.Records(), conn.writer, conn.writer.net
      ensures Valid() && read.parser.Machine() == Final(old(read.parser.Machine()), data)
      ensures var delivered := Chunks.Delivered(old(read.parser.Machine()), data);
              && read.readBuf.contents == First(delivered.data, read.readBuf.mask)
              && conn.View() == ProcessAll(old(conn.View()), delivered.cmds).0
              && conn.writer.stream == old(conn.writer.stream) + Wire(sent)
              && IsPart(sent, AsCalls(ProcessAll(old(conn.View()), delivered.cmds).1))
              && (old(conn.Ready()) ==> conn.Ready() && sent == AsCalls(ProcessAll(old(conn.View()), delivered.cmds).1))
      ensures var views := Views(old(read.parser.Machine()), old(read.parser.snBuf.store[..]), data);
              && conn.terminal == ReportedAll(old(conn.terminal), views)
              && conn.subnegotiations == old(conn.subnegotiations) + |views|
    {
      ghost var views := Views(read.parser.Machine(), read.parser.snBuf.store[..], data);
      ReadEvents(data, views);
      sent := HandleEvents(views);
    }

    /** The data part; the events it leaves are commands, and subnegotiations that read as `views`. */
    method ReadEvents(data: seq<byte>, ghost views: seq<Subnegotiation>)
      requires Valid() && read.readBuf.contents == []
      requires views == Views(read.parser.Machine(), read.parser.snBuf.store[..], data)
      modifies read.Repr() - {read}
      ensures Valid() && ReadsAs(views) && read.parser.Machine() == Final(old(read.parser.Machine()), data)
      ensures read.readBuf.contents == First(Chunks.Delivered(old(read.parser.Machine()), data).data, read.readBuf.mask)
      ensures read.result.cmdEvents == Chunks.Delivered(old(read.parser.Machine()), data).cmds
    {
      read.ProcessRead(data);
      StorageHoldsPayload(old(read.parser.Machine()), old(read.parser.snBuf.store[..]), data);
      PayloadBounded(old(read.parser.Machine()), data);
    }

    /** The command loop and the subnegotiation loop. */
    method HandleEvents(ghost views: seq<Subnegotiation>) returns (ghost sent: seq<Call>)
      requires Valid() && ReadsAs(views)
      modifies conn, conn.negotiator.Records(), conn.writer, conn.writer.net
      ensures Valid()
      ensures var (peer, replies) := ProcessAll(old(conn.View()), read.result.cmdEvents);
              && conn.View() == peer
              && conn.writer.stream == old(conn.writer.stream) + Wire(sent)
              && IsPart(sent, AsCalls(replies))
              && (old(conn.Ready()) ==> conn.Ready() && sent == AsCalls(replies))
      ensures conn.terminal == ReportedAll(old(conn.terminal), views)
      ensures conn.subnegotiations == old(conn.subnegotiations) + |views|
    {
      sent := conn.HandleCommands(read.result.cmdEvents);
      HandleSubnegotiations(views);
    }

    /** The reported subnegotiations read as `views`. */
    ghost predicate ReadsAs(views: seq<Subnegotiation>)
      reads read.result, read.parser.snBuf.store
    {
      && |read.result.subEvents| == |views|
      && forall k :: 0 <= k < |views| ==>
           var e := read.result.subEvents[k];
           && e.store == read.parser.snBuf.store && e.length <= e.store.Length
           && Subnegotiation(e.option, read.parser.snBuf.store[..e.length]) == views[k]
    }

    /** The subnegotiation loop. */
    method HandleSubnegotiations(ghost views: seq<Subnegotiation>)
      requires ReadsAs(views) && read.Repr() !! {conn}
      modifies conn`terminal, conn`subnegotiations
      ensures conn.terminal == ReportedAll(old(conn.terminal), views)
      ensures conn.subnegotiations == old(conn.subnegotiations) + |views|
    {
      assert views[..0] == [];
      for k := 0 to |read.result.subEvents|
        invariant conn.terminal == ReportedAll(old(conn.terminal), views[..k])
        invariant conn.subnegotiations == old(conn.subnegotiations) + k
      {
        var e := read.result.subEvents[k];
        assert Subnegotiation(e.option, e.store[..e.length]) == views[k];
        conn.HandleSubnegotiation(e.option, e.store[..e.length]);
        assert views[..k + 1][..k] == views[..k];
      }
      assert views[..|views|] == views;
    }

    /** On a network that loses nothing, that is one arrival of module Exchange. */
    method Arrival(data: seq<byte>, ghost w: Wires, ghost k: nat)
      requires Valid() && conn.Ready() && read.readBuf.contents == []
      requires w.b == conn.View() && w.mb == read.parser.Machine() && k <= |w.ab| && w.ab[..k] == data
      modifies read.Repr() - {read}, conn, conn.negotiator.Records(), conn.writer, conn.writer.net
      ensures Valid() && conn.Ready() && old(conn.writer.stream) <= conn.writer.stream
      ensures ArriveAtB(w, k)
              == w.(b := conn.View(), mb := read.parser.Machine(), ab := w.ab[k..],
                    ba := w.ba + conn.writer.stream[|old(conn.writer.stream)|..])
    {
      ghost var sent := ProcessReadLocked(data);
    }
  }
}
