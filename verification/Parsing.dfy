/**
 The incremental parser: a slicing byte loop that hands out data as ranges of its input, keeps at
 most 64/16/8 events per call, and lets every subnegotiation event of a call alias one buffer.
 `Parser.Parse` is proved to be the automaton of module Automaton, cut off at those limits.
 */
module Parsing {
  import opened Telnet
  import opened Automaton
  import opened Spans
  import opened Buffers
  import Aliasing

  const MAX_DATA: nat := 64
  const MAX_COMMANDS: nat := 16
  const MAX_SUBS: nat := 8

  /** A completed subnegotiation as the caller gets it: a view of the first `length` bytes of `store`. */
  datatype SubEvent = SubEvent(option: byte, store: array<byte>, length: nat)

  /** The result record a caller passes to `Parse` again and again. */
  class ParseResult {
    var dataEvents: seq<Span>
    var cmdEvents: seq<Command>
    var subEvents: seq<SubEvent>
    ghost var snapshots: seq<Subnegotiation>  // each event's option and bytes when it was appended

    constructor ()
      ensures dataEvents == [] && cmdEvents == [] && subEvents == [] && snapshots == []
    {
      dataEvents, cmdEvents, subEvents, snapshots := [], [], [], [];
    }

    method Clear()
      modifies this
      ensures dataEvents == [] && cmdEvents == [] && subEvents == [] && snapshots == []
    {
      dataEvents, cmdEvents, subEvents, snapshots := [], [], [], [];
    }

    /** Adds the run `lo..hi`, coalescing with the last event when they are adjacent. */
    method AppendData(lo: nat, hi: nat, ghost all: seq<Span>)
      requires lo < hi && Separated(all, lo)
      requires dataEvents == First(all, MAX_DATA)
      modifies `dataEvents
      ensures dataEvents == First(AddRun(all, lo, hi), MAX_DATA)
    {
      var count := |dataEvents|;
      if count > 0 {
        var last := dataEvents[count - 1];
        if last.end == lo {
          dataEvents := dataEvents[count - 1 := Span(last.start, hi)];
          return;
        }
      }
      if count < MAX_DATA {
        dataEvents := dataEvents + [Span(lo, hi)];
      }
    }

    method AppendCommand(cmd: byte, option: byte, ghost all: seq<Command>)
      requires cmdEvents == First(all, MAX_COMMANDS)
      modifies `cmdEvents
      ensures cmdEvents == First(all + [Command(cmd, option)], MAX_COMMANDS)
    {
      if |cmdEvents| < MAX_COMMANDS {
        cmdEvents := cmdEvents + [Command(cmd, option)];
      }
    }

    /** The subnegotiation events are views of `buf` that recorded the snapshots when appended. */
    ghost predicate SubsView(buf: StaticBuffer)
      reads this
    {
      && |subEvents| == |snapshots|
      && forall k :: 0 <= k < |subEvents| ==>
           && subEvents[k].option == snapshots[k].option
           && subEvents[k].store == buf.store
           && subEvents[k].length == |snapshots[k].payload|
    }

    /** The bytes event number `k` reads as now. */
    ghost function Reads(k: nat): seq<byte>
      requires k < |subEvents| && subEvents[k].length <= subEvents[k].store.Length
      reads this, subEvents[k].store
    {
      subEvents[k].store[..subEvents[k].length]
    }

    /** Each event reads as it was appended if and only if nothing after it in the call disagrees with it. */
    ghost predicate IntactExactly(m: Automaton.Machine, data: seq<byte>)
      reads this, set e | e in subEvents :: e.store
      requires snapshots == First(Emitted(m, data).subs, MAX_SUBS) && |subEvents| == |snapshots|
    {
      forall k :: 0 <= k < |subEvents| ==>
        && subEvents[k].length <= subEvents[k].store.Length
        && (Reads(k) == snapshots[k].payload <==> Aliasing.EventIntact(m, data, k))
    }

    lemma ViewsAreStorage(buf: StaticBuffer, m: Automaton.Machine, store0: seq<byte>, data: seq<byte>)
      requires SubsView(buf) && snapshots == First(Emitted(m, data).subs, MAX_SUBS)
      requires |store0| == PAYLOAD_LIMIT && m.payload <= store0 && buf.store[..] == Storage(m, store0, data)
      ensures IntactExactly(m, data)
      ensures forall k :: 0 <= k < |subEvents| ==>
                Reads(k) == First(Storage(m, store0, data), |Emitted(m, data).subs[k].payload|)
    {
      StorageHoldsPayload(m, store0, data);
      PayloadBounded(m, data);
      forall k | 0 <= k < |subEvents|
        ensures subEvents[k].length <= subEvents[k].store.Length
        ensures Reads(k) == First(Storage(m, store0, data), |Emitted(m, data).subs[k].payload|)
        ensures Reads(k) == snapshots[k].payload <==> Aliasing.EventIntact(m, data, k)
      {
        Aliasing.EventIntactExactly(m, store0, data, k);
      }
    }

    method AppendSubnegotiation(option: byte, buf: StaticBuffer, ghost all: seq<Subnegotiation>)
      requires buf.Valid() && SubsView(buf)
      requires snapshots == First(all, MAX_SUBS)
      modifies `subEvents, `snapshots
      ensures SubsView(buf)
      ensures snapshots == First(all + [Subnegotiation(option, buf.Contents())], MAX_SUBS)
    {
      if |subEvents| < MAX_SUBS {
        subEvents := subEvents + [SubEvent(option, buf.store, buf.len)];
        snapshots := snapshots + [Subnegotiation(option, buf.Contents())];
      }
    }
  }

  // The bookkeeping of the byte loop: `flushed` are the runs already recorded (before any limit),
  // and in StateData the bytes from `dataStart` on are a run not recorded yet.

  function NextStart(m: Automaton.Machine, b: byte, i: nat, dataStart: nat): nat {
    if m.state != StateData && Next(m, b).state == StateData then i + 1 else dataStart
  }

  function NextFlushed(m: Automaton.Machine, b: byte, i: nat, dataStart: nat, flushed: seq<Span>): seq<Span> {
    if m.state == StateData && b == IAC && dataStart < i then AddRun(flushed, dataStart, i)
    else if m.state == StateIAC && b == IAC then AddRun(flushed, i, i + 1)
    else flushed
  }

  /** `spans` are the data runs up to position `i`, where the machine is `m`. */
  ghost predicate Pending(m: Automaton.Machine, i: nat, spans: seq<Span>, dataStart: nat, flushed: seq<Span>) {
    && dataStart <= i
    && Separated(flushed, i)
    && (m.state == StateData ==> Separated(flushed, dataStart))
    && spans == if m.state == StateData && dataStart < i then AddRun(flushed, dataStart, i) else flushed
  }

  lemma PendingStep(m: Automaton.Machine, i: nat, b: byte, spans: seq<Span>, dataStart: nat, flushed: seq<Span>)
    requires Pending(m, i, spans, dataStart, flushed)
    ensures Pending(Next(m, b), i + 1, if IsDataByte(m, b) then AddRun(spans, i, i + 1) else spans,
                    NextStart(m, b, i, dataStart), NextFlushed(m, b, i, dataStart, flushed))
  {
    if m.state == StateData {
      AddRunSeparated(flushed, dataStart, i);
      if dataStart < i {
        AddRunGrows(flushed, dataStart, i);
      }
    } else {
      AddRunSeparated(flushed, i, i + 1);
    }
  }

  lemma AddRunSeparated(spans: seq<Span>, lo: nat, hi: nat)
    requires Separated(spans, lo) && lo <= hi
    ensures Separated(spans, hi)
    ensures lo < hi ==> Separated(AddRun(spans, lo, hi), hi)
  {
    if lo < hi {
      var added := AddRun(spans, lo, hi);
      forall k | 0 <= k < |added|
        ensures added[k].start < added[k].end <= hi
        ensures forall j :: 0 <= j < k ==> added[j].end < added[k].start
      {
      }
    }
  }

  /** The automaton's run so far, byte by byte: its state, its storage, and what it has produced. */
  datatype Trace = Trace(machine: Automaton.Machine, store: seq<byte>, spans: seq<Span>, out: Output)

  function NextTrace(t: Trace, i: nat, b: byte): Trace {
    Trace(Next(t.machine, b),
          Overlay(t.store, Next(t.machine, b).payload),
          if IsDataByte(t.machine, b) then AddRun(t.spans, i, i + 1) else t.spans,
          t.out.Then(Emit(t.machine, b)))
  }

  function TraceAt(m0: Automaton.Machine, store0: seq<byte>, data: seq<byte>, i: nat): Trace
    requires i <= |data|
  {
    if i == 0 then Trace(m0, store0, [], NOTHING) else NextTrace(TraceAt(m0, store0, data, i - 1), i - 1, data[i - 1])
  }

  lemma {:induction false} TraceIsRun(m0: Automaton.Machine, store0: seq<byte>, data: seq<byte>, i: nat)
    requires i <= |data|
    ensures TraceAt(m0, store0, data, i)
            == Trace(Final(m0, data[..i]), Storage(m0, store0, data[..i]),
                     DataSpans(m0, data[..i]), Emitted(m0, data[..i]))
  {
    if i > 0 {
      var s, b := data[..i - 1], data[i - 1];
      var t := Trace(Final(m0, s), Storage(m0, store0, s), DataSpans(m0, s), Emitted(m0, s));
      assert TraceAt(m0, store0, data, i - 1) == t by {
        TraceIsRun(m0, store0, data, i - 1);
      }
      assert data[..i] == s + [b];
    }
  }

  class Parser {
    var state: ParserState
    var cmd: byte
    var snOption: byte
    const snBuf: StaticBuffer

    ghost predicate Valid()
      reads this, snBuf
    {
      snBuf.Valid() && snBuf.Capacity() == PAYLOAD_LIMIT == snBuf.store.Length
    }

    /** The parser's state as the automaton sees it. */
    ghost function Machine(): Automaton.Machine
      reads this, snBuf, snBuf.store
      requires Valid()
    {
      Automaton.Machine(state, cmd, snOption, snBuf.Contents())
    }

    constructor ()
      ensures Valid() && fresh(snBuf) && fresh(snBuf.store)
      ensures Machine() == Automaton.Machine(StateData, 0, 0, [])
    {
      state, cmd, snOption := StateData, 0, 0;
      snBuf := new StaticBuffer(PAYLOAD_LIMIT, 0);
    }

    method Reset()
      requires Valid()
      modifies this, snBuf
      ensures Valid()
      ensures Machine() == Automaton.Machine(StateData, 0, 0, [])
    {
      state, cmd, snOption := StateData, 0, 0;
      snBuf.Reset();
    }

    /** Adds a byte to the payload, silently dropping it when the buffer is full. */
    method Accumulate(b: byte)
      requires Valid()
      modifies snBuf, snBuf.store
      ensures Valid()
      ensures Machine() == old(Machine()).(payload := Automaton.Accumulate(old(Machine()).payload, b))
      ensures snBuf.store[..] == Overlay(old(snBuf.store[..]), Machine().payload)
    {
      var _ := snBuf.WriteByte(b);
    }

    /** IAC inside a subnegotiation: both it and the byte after it are stored. */
    method AccumulateEscaped(b: byte)
      requires Valid()
      modifies snBuf, snBuf.store
      ensures Valid()
      ensures Machine()
              == old(Machine()).(payload := Automaton.Accumulate(Automaton.Accumulate(old(Machine()).payload, IAC), b))
      ensures snBuf.store[..] == Overlay(old(snBuf.store[..]), Machine().payload)
    {
      Accumulate(IAC);
      Accumulate(b);
    }

    /** One turn of the byte loop: byte `b` at position `i`. */
    method ParseByte(b: byte, i: nat, dataStart0: nat, result: ParseResult,
                     ghost flushed: seq<Span>, ghost cmds: seq<Command>, ghost subs: seq<Subnegotiation>)
      returns (dataStart: nat)
      requires Valid() && result.SubsView(snBuf)
      requires dataStart0 <= i && Separated(flushed, i)
      requires state == StateData ==> Separated(flushed, dataStart0)
      requires result.dataEvents == First(flushed, MAX_DATA)
      requires result.cmdEvents == First(cmds, MAX_COMMANDS)
      requires result.snapshots == First(subs, MAX_SUBS)
      modifies this, snBuf, snBuf.store, result
      ensures Valid() && result.SubsView(snBuf)
      ensures Machine() == Next(old(Machine()), b)
      ensures snBuf.store[..] == Overlay(old(snBuf.store[..]), Machine().payload)
      ensures dataStart == NextStart(old(Machine()), b, i, dataStart0)
      ensures result.dataEvents == First(NextFlushed(old(Machine()), b, i, dataStart0, flushed), MAX_DATA)
      ensures result.cmdEvents == First(cmds + Emit(old(Machine()), b).cmds, MAX_COMMANDS)
      ensures result.snapshots == First(subs + Emit(old(Machine()), b).subs, MAX_SUBS)
    {
      assert cmds + [] == cmds && subs + [] == subs;
      OverlayOfPrefix(snBuf.store[..], snBuf.Contents());
      OverlayOfPrefix(snBuf.store[..], []);
      dataStart := dataStart0;
      match state
      case StateData =>
        if b == IAC {
          if i > dataStart {
            result.AppendData(dataStart, i, flushed);
          }
          state := StateIAC;
        }
      case StateIAC =>
        if b == IAC {
          result.AppendData(i, i + 1, flushed);
          dataStart := i + 1;
          state := StateData;
        } else if IsNegotiation(b) {
          cmd := b;
          state := StateNegotiation;
        } else if b == SB {
          snBuf.Reset();
          state := StateSubnegotiationOption;
        } else {
          // Single-byte and unknown commands alike are skipped.
          dataStart := i + 1;
          state := StateData;
        }
      case StateNegotiation =>
        result.AppendCommand(cmd, b, cmds);
        dataStart := i + 1;
        state := StateData;
      case StateSubnegotiationOption =>
        snOption := b;
        state := StateSubnegotiation;
      case StateSubnegotiation =>
        if b == IAC {
          state := StateSubnegotiationIAC;
        } else {
          Accumulate(b);
        }
      case StateSubnegotiationIAC =>
        if b == SE {
          result.AppendSubnegotiation(snOption, snBuf, subs);
          dataStart := i + 1;
          state := StateData;
        } else {
          AccumulateEscaped(b);
          state := StateSubnegotiation;
        }
    }

    /** What the byte loop has recorded by position `i`, in terms of the automaton's trace so far. */
    ghost predicate Recorded(t: Trace, i: nat, dataStart: nat, result: ParseResult, flushed: seq<Span>)
      reads this, snBuf, snBuf.store, result
    {
      && Valid() && result.SubsView(snBuf)
      && Machine() == t.machine
      && snBuf.store[..] == t.store
      && Pending(t.machine, i, t.spans, dataStart, flushed)
      && result.dataEvents == First(flushed, MAX_DATA)
      && result.cmdEvents == First(t.out.cmds, MAX_COMMANDS)
      && result.snapshots == First(t.out.subs, MAX_SUBS)
    }

    /** `ParseByte`, with its record kept. */
    method ParseNext(b: byte, i: nat, dataStart0: nat, result: ParseResult, ghost t: Trace, ghost flushed0: seq<Span>)
      returns (dataStart: nat, ghost flushed: seq<Span>)
      requires Recorded(t, i, dataStart0, result, flushed0)
      modifies this, snBuf, snBuf.store, result
      ensures Recorded(NextTrace(t, i, b), i + 1, dataStart, result, flushed)
    {
      PendingStep(t.machine, i, b, t.spans, dataStart0, flushed0);
      flushed := NextFlushed(t.machine, b, i, dataStart0, flushed0);
      dataStart := ParseByte(b, i, dataStart0, result, flushed0, t.out.cmds, t.out.subs);
    }

    /** The byte loop, with its record kept. */
    method ParseBytes(data: seq<byte>, result: ParseResult) returns (dataStart: nat, ghost flushed: seq<Span>)
      requires Valid() && result.SubsView(snBuf) && result.dataEvents == [] && result.cmdEvents == [] && result.snapshots == []
      modifies this, snBuf, snBuf.store, result
      ensures Recorded(TraceAt(old(Machine()), old(snBuf.store[..]), data, |data|), |data|, dataStart, result, flushed)
    {
      ghost var m0, store0 := Machine(), snBuf.store[..];
      dataStart, flushed := 0, [];
      for i := 0 to |data|
        invariant Recorded(TraceAt(m0, store0, data, i), i, dataStart, result, flushed)
      {
        dataStart, flushed := ParseNext(data[i], i, dataStart, result, TraceAt(m0, store0, data, i), flushed);
      }
    }

    /** The run still open at the end is recorded, and the record is the automaton's run. */
    method FinishRun(data: seq<byte>, dataStart: nat, result: ParseResult, ghost flushed: seq<Span>,
                     ghost m0: Automaton.Machine, ghost store0: seq<byte>)
      requires Recorded(TraceAt(m0, store0, data, |data|), |data|, dataStart, result, flushed)
      modifies result`dataEvents
      ensures Valid() && result.SubsView(snBuf)
      ensures Machine() == Final(m0, data) && snBuf.store[..] == Storage(m0, store0, data)
      ensures result.dataEvents == First(DataSpans(m0, data), MAX_DATA)
      ensures result.cmdEvents == First(Emitted(m0, data).cmds, MAX_COMMANDS)
      ensures result.snapshots == First(Emitted(m0, data).subs, MAX_SUBS)
    {
      TraceIsRun(m0, store0, data, |data|);
      assert data[..|data|] == data;
      if state == StateData && dataStart < |data| {
        result.AppendData(dataStart, |data|, flushed);
      }
    }

    method Parse(data: seq<byte>, result: ParseResult)
      requires Valid()
      modifies this, snBuf, snBuf.store, result
      ensures Valid()
      ensures Machine() == Final(old(Machine()), data)
      ensures snBuf.store[..] == Storage(old(Machine()), old(snBuf.store[..]), data)
      ensures result.dataEvents == First(DataSpans(old(Machine()), data), MAX_DATA)
      ensures result.cmdEvents == First(Emitted(old(Machine()), data).cmds, MAX_COMMANDS)
      ensures result.snapshots == First(Emitted(old(Machine()), data).subs, MAX_SUBS)
      ensures result.SubsView(snBuf) && result.IntactExactly(old(Machine()), data)
    {
      result.Clear();
      var dataStart, flushed := ParseBytes(data, result);
      FinishRun(data, dataStart, result, flushed, old(Machine()), old(snBuf.store[..]));
      result.ViewsAreStorage(snBuf, old(Machine()), old(snBuf.store[..]), data);
    }
  }
}
