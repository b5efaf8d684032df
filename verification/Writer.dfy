/**
 The write half of a connection: an output buffer that escapes as it fills, flushes itself when a
 call would not fit, and hands whole buffers to the network, which may fail part-way.
 */
module Writer {
  import opened Telnet
  import opened Codec
  import opened Session

  const DEFAULT_SIZE: nat := 65536

  /** What one write on the network does: all of it, or `Fault(n)`: an error after at most `n` bytes. */
  datatype Outcome = Success | Fault(n: nat)

  /** The network as the connection sees it. `plan` decides each write; past its end all succeed. */
  class Network {
    var sent: seq<byte>
    var plan: seq<Outcome>

    constructor (plan: seq<Outcome>)
      ensures sent == [] && this.plan == plan
    {
      sent, this.plan := [], plan;
    }

    ghost predicate Reliable()
      reads this
    {
      forall o :: o in plan ==> o.Success?
    }

    method Write(b: seq<byte>) returns (n: nat, err: bool)
      modifies this
      ensures n <= |b| && sent == old(sent) + b[..n]
      ensures !err ==> n == |b|
      ensures old(Reliable()) ==> !err && Reliable()
    {
      assert plan != [] ==> plan[0] in plan;
      if plan != [] && plan[0].Fault? {
        n, err := if plan[0].n < |b| then plan[0].n else |b|, true;
      } else {
        n, err := |b|, false;
      }
      sent := sent + b[..n];
      plan := if plan == [] then [] else plan[1..];
    }
  }

  // ---------------------------------------------------------------------------------------------
  // How full the buffer gets
  // ---------------------------------------------------------------------------------------------

  /** The bytes buffered after one more byte on the slow path of Write, the capacity staying `cap`. */
  function FillByte(len: nat, cap: nat, b: byte): nat {
    (if len >= cap then 0 else len) + |EscapeByte(b)|
  }

  function Fill(len: nat, cap: nat, p: seq<byte>): nat {
    if p == [] then len else FillByte(Fill(len, cap, p[..|p| - 1]), cap, p[|p| - 1])
  }

  /** A doubled IAC goes past the end: it finds room for one byte only. */
  predicate GoesPast(len: nat, cap: nat, b: byte) {
    b == IAC && (len + 1 == cap || cap == 1)
  }

  /** Some IAC of `p` finds the buffer one short of full, or the buffer holds a single byte. */
  predicate Outgrows(len: nat, cap: nat, p: seq<byte>) {
    exists i :: 0 <= i < |p| && GoesPast(Fill(len, cap, p[..i]), cap, p[i])
  }

  lemma OutgrowsNext(len: nat, cap: nat, p: seq<byte>, n: nat)
    requires n < |p|
    ensures Fill(len, cap, p[..n + 1]) == FillByte(Fill(len, cap, p[..n]), cap, p[n])
    ensures Outgrows(len, cap, p[..n + 1])
            <==> Outgrows(len, cap, p[..n]) || GoesPast(Fill(len, cap, p[..n]), cap, p[n])
  {
    var q, r := p[..n + 1], p[..n];
    assert q[..n] == r && q[n] == p[n];
    assert forall i :: 0 <= i <= n ==> q[..i] == p[..i];
    assert forall i :: 0 <= i < n ==> r[..i] == p[..i];
    if i :| 0 <= i < |q| && GoesPast(Fill(len, cap, q[..i]), cap, q[i]) {
      assert i < n ==> GoesPast(Fill(len, cap, r[..i]), cap, r[i]);
    }
    if i :| 0 <= i < |r| && GoesPast(Fill(len, cap, r[..i]), cap, r[i]) {
      assert GoesPast(Fill(len, cap, q[..i]), cap, q[i]);
    }
    if GoesPast(Fill(len, cap, r), cap, p[n]) {
      assert GoesPast(Fill(len, cap, q[..n]), cap, q[n]);
    }
  }

  /** What fits is simply added: no flush, no growth, on either path. */
  lemma {:induction false} FillFits(len: nat, cap: nat, p: seq<byte>)
    requires len + |Escape(p)| <= cap
    ensures Fill(len, cap, p) == len + |Escape(p)| && !Outgrows(len, cap, p)
  {
    if p != [] {
      var n := |p| - 1;
      FillFits(len, cap, p[..n]);
      OutgrowsNext(len, cap, p, n);
      assert p[..n + 1] == p;
    }
  }

  /** Buffers of every size are outgrown: by one IAC when nearly full, by a frame as long as they are. */
  lemma BuffersAreOutgrown(cap: nat, option: byte) returns (payload: seq<byte>)
    requires cap > 0
    ensures Outgrows(cap - 1, cap, [IAC])
    ensures |payload| == cap && IAC !in payload && |Frame(option, payload)| > cap
  {
    assert [IAC][..0] == [] && GoesPast(Fill(cap - 1, cap, [IAC][..0]), cap, [IAC][0]);
    payload := seq(cap, _ => 0);
    EscapeLength(payload);
  }

  /** The state in which a call of Write begins. */
  datatype Entry = Entry(stream: seq<byte>, buf: seq<byte>, cap: nat, sent: seq<byte>, plan: seq<Outcome>)

  class WriteHalf {
    const net: Network
    var buf: seq<byte>
    var cap: nat
    var closed: bool
    ghost var flushed: seq<byte>  // what successful flushes have handed to the network
    ghost var spill: nat          // how many bytes failed flushes have sent, to be sent again
    ghost var stream: seq<byte>   // everything accepted: what was flushed, then what is buffered

    ghost predicate Valid()
      reads this, net
    {
      && |buf| <= cap && cap > 0
      && stream == flushed + buf
      && |net.sent| == |flushed| + spill
      && (spill == 0 ==> net.sent == flushed)
    }

    /** The network has exactly what was flushed if and only if no failed flush sent anything. */
    lemma SentExactly()
      requires Valid()
      ensures net.sent == flushed <==> spill == 0
      ensures net.sent + buf == stream <==> spill == 0
    {
      assert |net.sent + buf| == |stream| + spill;
    }

    constructor (net: Network, size: int)
      requires net.sent == []
      ensures Valid() && stream == [] && spill == 0 && !closed && this.net == net
      ensures cap == if size <= 0 then 65536 else size
    {
      this.net := net;
      buf, cap, closed := [], if size <= 0 then DEFAULT_SIZE else size, false;
      flushed, spill, stream := [], 0, [];
    }

    /** Go's append: past the capacity it moves to a larger array, how much larger being unspecified. */
    method Append(b: seq<byte>)
      requires Valid()
      modifies `buf, `cap, `stream
      ensures Valid() && buf == old(buf) + b && stream == old(stream) + b && cap >= old(cap)
      ensures cap == old(cap) <==> |old(buf)| + |b| <= old(cap)
    {
      if |buf| + |b| > cap {
        var larger: nat :| larger >= |buf| + |b|;
        cap := larger;
      }
      ConcatAssociative(flushed, buf, b);
      buf := buf + b;
      stream := stream + b;
    }

    method FlushLocked() returns (err: bool)
      requires Valid()
      modifies this, net
      ensures Valid() && stream == old(stream) && cap == old(cap) && closed == old(closed)
      ensures !err ==> buf == [] && flushed == old(stream) && spill == old(spill)
      ensures !err ==> net.sent == old(net.sent) + old(buf)
      // A failed flush keeps the buffer, although some of it may already have been sent.
      ensures err ==> buf == old(buf) && flushed == old(flushed)
      ensures err ==> exists k :: 0 <= k <= |buf| && net.sent == old(net.sent) + buf[..k] && spill == old(spill) + k
      ensures old(net.Reliable()) ==> !err && net.Reliable()
      ensures old(buf) == [] ==> !err && net.sent == old(net.sent) && net.plan == old(net.plan)
    {
      if |buf| == 0 {
        assert net.sent == net.sent + buf[..0];
        return false;
      }
      var n;
      n, err := net.Write(buf);
      if err {
        spill := spill + n;
        return;
      }
      flushed := flushed + buf;
      buf := [];
    }

    /** Accepts bytes for sending, escaping them; `n` tells how many were accepted before an error. */
    method Write(p: seq<byte>) returns (n: nat, err: bool)
      requires Valid()
      modifies this, net
      ensures Valid() && closed == old(closed)
      ensures n <= |p| && stream == old(stream) + Escape(p[..n])
      ensures !err ==> n == |p| && spill == old(spill)
      ensures Filled(|old(buf)|, old(cap), p[..n])
      ensures !closed && |old(buf)| + |Escape(p)| <= old(cap) ==>
                !err && buf == old(buf) + Escape(p) && net.sent == old(net.sent) && net.plan == old(net.plan)
      ensures closed ==> err && n == 0 && buf == old(buf) && net.sent == old(net.sent)
      ensures old(net.Reliable()) && !closed ==> !err && net.Reliable()
    {
      if closed {
        return 0, true;
      }
      var needsEscape := IAC in p;
      if !needsEscape && |buf| + |p| <= cap {
        n, err := WriteBulk(p);
      } else {
        n, err := WriteBytes(p);
      }
    }

    /** The fast path of `Write`. */
    method WriteBulk(p: seq<byte>) returns (n: nat, err: bool)
      requires Valid() && IAC !in p && |buf| + |p| <= cap
      modifies `buf, `cap, `stream
      ensures Valid() && !err && n == |p| && stream == old(stream) + Escape(p[..n])
      ensures buf == old(buf) + Escape(p) && |old(buf)| + |Escape(p)| <= old(cap)
      ensures Filled(|old(buf)|, old(cap), p[..n])
    {
      EscapeLength(p);
      FillFits(|buf|, cap, p);
      Append(p);
      assert p[..|p|] == p;
      return |p|, false;
    }

    /** The slow path of `Write`, byte by byte. */
    method WriteBytes(p: seq<byte>) returns (n: nat, err: bool)
      requires Valid()
      modifies this, net
      ensures Valid() && closed == old(closed)
      ensures n <= |p| && stream == old(stream) + Escape(p[..n])
      ensures !err ==> n == |p| && spill == old(spill)
      ensures Filled(|old(buf)|, old(cap), p[..n])
      ensures |old(buf)| + |Escape(p)| <= old(cap) ==>
                !err && buf == old(buf) + Escape(p) && net.sent == old(net.sent) && net.plan == old(net.plan)
      ensures old(net.Reliable()) ==> !err && net.Reliable()
    {
      ghost var start := Entry(stream, buf, cap, net.sent, net.plan);
      n := 0;
      assert Progress(start, p, 0) by {
        assert p[..0] == [] && stream + [] == stream && buf + [] == buf;
      }
      while n < |p|
        invariant n <= |p| && Progress(start, p, n)
        invariant closed == old(closed) && spill == old(spill)
        invariant old(net.Reliable()) ==> net.Reliable()
      {
        err := PutNext(p, n, start);
        if err {
          return;
        }
        n := n + 1;
      }
      assert p[..|p|] == p;
      return n, false;
    }

    /** Where a call of Write has got to with the first `n` bytes of `p`; when `p` fits, without a flush. */
    ghost predicate Progress(start: Entry, p: seq<byte>, n: nat)
      reads this, net
    {
      && Valid() && n <= |p|
      && stream == start.stream + Escape(p[..n])
      && Filled(|start.buf|, start.cap, p[..n])
      && (|start.buf| + |Escape(p)| <= start.cap ==>
            buf == start.buf + Escape(p[..n]) && net.sent == start.sent && net.plan == start.plan)
    }

    /** How full the buffer is, and whether it has grown, after `done` on the slow path. */
    ghost predicate Filled(len: nat, cap0: nat, done: seq<byte>)
      reads this
    {
      && cap >= cap0 && (cap > cap0 <==> Outgrows(len, cap0, done))
      && (cap == cap0 ==> |buf| == Fill(len, cap0, done))
    }

    /** `PutByte` on the `n`th byte of `p`, with the record of what came before. */
    method PutNext(p: seq<byte>, n: nat, ghost start: Entry) returns (err: bool)
      requires n < |p| && Progress(start, p, n)
      modifies this, net
      ensures closed == old(closed) && Progress(start, p, if err then n else n + 1)
      ensures err ==> |start.buf| + |Escape(p)| > start.cap
      ensures !err ==> spill == old(spill)
      ensures old(net.Reliable()) ==> !err && net.Reliable()
    {
      EscapePrefixFits(p, n);
      ConcatAssociative(start.stream, Escape(p[..n]), EscapeByte(p[n]));
      ConcatAssociative(start.buf, Escape(p[..n]), EscapeByte(p[n]));
      OutgrowsNext(|start.buf|, start.cap, p, n);
      err := PutByte(p[n]);
    }

    /** One turn of the slow path of `Write`: flush a full buffer, then append the byte, escaped. */
    method PutByte(b: byte) returns (err: bool)
      requires Valid()
      modifies this, net
      ensures Valid() && closed == old(closed)
      ensures stream == old(stream) + if err then [] else EscapeByte(b)
      ensures err ==> cap == old(cap) && buf == old(buf)
      ensures |old(buf)| < old(cap) ==>
                !err && buf == old(buf) + EscapeByte(b) && net.sent == old(net.sent) && net.plan == old(net.plan)
      ensures !err && |old(buf)| == old(cap) ==> buf == EscapeByte(b) && net.sent == old(net.sent) + old(buf)
      ensures !err ==> cap >= old(cap) && (cap > old(cap) <==> GoesPast(|old(buf)|, old(cap), b))
      ensures !err ==> |buf| == FillByte(|old(buf)|, old(cap), b)
      ensures !err ==> spill == old(spill)
      ensures old(net.Reliable()) ==> !err && net.Reliable()
    {
      if |buf| >= cap {
        err := FlushLocked();
        if err {
          return;
        }
      }
      AppendByte(b);
      return false;
    }

    method SendCommand(cmd: byte, option: byte) returns (err: bool)
      requires Valid()
      modifies this, net
      ensures Valid() && closed == old(closed)
      ensures stream == old(stream) + if err then [] else [IAC, cmd, option]
      ensures cap >= old(cap) && (cap > old(cap) <==> !err && old(cap) < 3)
      ensures !closed && |old(buf)| + 3 <= old(cap) ==>
                !err && buf == old(buf) + [IAC, cmd, option] && net.sent == old(net.sent) && net.plan == old(net.plan)
      ensures !err && |old(buf)| + 3 > old(cap) ==> buf == [IAC, cmd, option] && net.sent == old(net.sent) + old(buf)
      ensures !err ==> spill == old(spill)
      ensures closed ==> err && buf == old(buf) && net.sent == old(net.sent)
      ensures old(net.Reliable()) && !closed ==> !err && net.Reliable()
    {
      if closed {
        return true;
      }
      if |buf| + 3 > cap {
        err := FlushLocked();
        if err {
          return;
        }
      }
      Append([IAC, cmd, option]);
      return false;
    }

    method SendSubnegotiation(option: byte, data: seq<byte>) returns (err: bool)
      requires Valid()
      modifies this, net
      ensures Valid() && closed == old(closed)
      ensures stream == old(stream) + if err then [] else Frame(option, data)
      ensures cap >= old(cap) && (cap > old(cap) <==> !err && |Frame(option, data)| > old(cap))
      ensures !closed && |old(buf)| + |Frame(option, data)| <= old(cap) ==>
                !err && buf == old(buf) + Frame(option, data) && net.sent == old(net.sent) && net.plan == old(net.plan)
      ensures !err && |old(buf)| + |Frame(option, data)| > old(cap) ==>
                buf == Frame(option, data) && net.sent == old(net.sent) + old(buf)
      ensures !err ==> spill == old(spill)
      ensures closed ==> err && buf == old(buf) && net.sent == old(net.sent)
      ensures old(net.Reliable()) && !closed ==> !err && net.Reliable()
    {
      if closed {
        return true;
      }
      var size := EscapedSize(data);
      if |buf| + 3 + size + 2 > cap {
        err := FlushLocked();
        if err {
          return;
        }
      }
      AppendFrame(option, data);
      return false;
    }

    method AppendFrame(option: byte, data: seq<byte>)
      requires Valid()
      modifies `buf, `cap, `stream
      ensures Valid() && stream == old(stream) + Frame(option, data) && buf == old(buf) + Frame(option, data)
      ensures cap >= old(cap) && (|buf| <= old(cap) ==> cap == old(cap))
    {
      Append([IAC, SB, option]);
      AppendEscaped(data);
      Append([IAC, SE]);
    }

    /** Appends the payload byte by byte, doubling each IAC. */
    method AppendEscaped(data: seq<byte>)
      requires Valid()
      modifies `buf, `cap, `stream
      ensures Valid() && stream == old(stream) + Escape(data) && buf == old(buf) + Escape(data)
      ensures cap >= old(cap) && (|buf| <= old(cap) ==> cap == old(cap))
    {
      for i := 0 to |data|
        invariant Valid() && stream == old(stream) + Escape(data[..i]) && buf == old(buf) + Escape(data[..i])
        invariant cap >= old(cap) && (|buf| <= old(cap) ==> cap == old(cap))
      {
        AppendByte(data[i]);
        EscapePrefixFits(data, i);
        ConcatAssociative(old(stream), Escape(data[..i]), EscapeByte(data[i]));
        ConcatAssociative(old(buf), Escape(data[..i]), EscapeByte(data[i]));
      }
      assert data[..|data|] == data;
    }

    /** Appends one byte, doubled if it is IAC. */
    method AppendByte(b: byte)
      requires Valid()
      modifies `buf, `cap, `stream
      ensures Valid() && stream == old(stream) + EscapeByte(b) && buf == old(buf) + EscapeByte(b)
      ensures cap == old(cap) <==> |buf| <= old(cap)
      ensures cap >= old(cap)
    {
      Append([b]);
      if b == IAC {
        Append([IAC]);
      }
    }

    /** Makes the calls in turn and flushes: on a reliable network the wire carries their encoding. */
    method Run(calls: seq<Call>)
      requires Valid() && !closed && spill == 0 && net.Reliable()
      modifies this, net
      ensures Valid() && spill == 0 && net.Reliable()
      ensures net.sent == old(stream) + Wire(calls) && buf == []
    {
      ghost var done: seq<Call> := [];
      for i := 0 to |calls|
        invariant done == calls[..i]
        invariant Valid() && !closed && spill == 0 && net.Reliable()
        invariant stream == old(stream) + Wire(done)
      {
        Perform(calls[i]);
        ConcatAssociative(old(stream), Wire(done), Encode(calls[i]));
        done := done + [calls[i]];
      }
      assert done == calls;
      var err := FlushLocked();
    }

    method Perform(c: Call)
      requires Valid() && !closed && spill == 0 && net.Reliable()
      modifies this, net
      ensures Valid() && !closed && spill == 0 && net.Reliable()
      ensures stream == old(stream) + Encode(c)
    {
      match c
      case Write(bytes) =>
        var n, err := Write(bytes);
        assert bytes[..n] == bytes;
      case SendCommand(cmd, option) =>
        var err := SendCommand(cmd, option);
      case SendSubnegotiation(option, payload) =>
        var err := SendSubnegotiation(option, payload);
      case Flush =>
        var err := FlushLocked();
    }
  }
}
