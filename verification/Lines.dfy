/**
 What ReadLine does, in terms of the decoded data each network read brings: the loop over 1024-byte
 reads with its pending-CR flag and its push-back to the end of the read buffer. The results relate it
 to splitting the data stream at LF.
 */
module Lines {
  import opened Telnet

  const CR: byte := 13
  const LF: byte := 10
  const READ_SIZE: nat := 1024

  /** What one network read brings: the decoded data, and whether it reported an error. */
  datatype Arrival = Arrival(data: seq<byte>, err: bool)

  /** The result of a call, and what is buffered and still to arrive after it. */
  datatype LineResult = LineResult(line: seq<byte>, err: bool, buffered: seq<byte>, rest: seq<Arrival>)

  /** The position of the first LF, or the length when there is none. */
  function FirstLF(s: seq<byte>): (k: nat)
    ensures k <= |s|
  {
    if s == [] || s[0] == LF then 0 else 1 + FirstLF(s[1..])
  }

  lemma {:induction false} FirstLFIsFirst(s: seq<byte>)
    ensures LF !in s[..FirstLF(s)]
    ensures FirstLF(s) < |s| ==> s[FirstLF(s)] == LF
  {
    if s != [] && s[0] != LF {
      FirstLFIsFirst(s[1..]);
      assert s[..FirstLF(s)] == [s[0]] + s[1..][..FirstLF(s[1..])];
    }
  }

  predicate EndsInCR(s: seq<byte>) {
    s != [] && s[|s| - 1] == CR
  }

  /** `s` without its last byte if that is CR. */
  function Chomp(s: seq<byte>): seq<byte> {
    if EndsInCR(s) then s[..|s| - 1] else s
  }

  /** Completing `line` with the part of the chunk before its LF. */
  function Complete(line: seq<byte>, cr: bool, head: seq<byte>): seq<byte> {
    if head != [] then line + Chomp(head)
    else if cr && line != [] then line[..|line| - 1]
    else line
  }

  /**
   The loop of ReadLine, with `line` and `cr` its variables, `buffered` the contents of the read buffer
   and `arrivals` the network reads to come.
   */
  function LineFrom(line: seq<byte>, cr: bool, buffered: seq<byte>, arrivals: seq<Arrival>): LineResult
    decreases |arrivals|, |buffered|
  {
    if buffered != [] then
      var chunk := First(buffered, READ_SIZE);
      var rest := buffered[|chunk|..];
      var k := FirstLF(chunk);
      if k < |chunk| then LineResult(Complete(line, cr, chunk[..k]), false, rest + chunk[k + 1..], arrivals)
      else LineFrom(line + chunk, EndsInCR(chunk), rest, arrivals)
    else if arrivals == [] then LineResult(line, true, [], [])
    else if arrivals[0].data != [] then LineFrom(line, cr, arrivals[0].data, arrivals[1..])
    else if arrivals[0].err then LineResult(line, true, [], arrivals[1..])
    else LineFrom(line, false, [], arrivals[1..])
  }

  // ---------------------------------------------------------------------------------------------
  // The stream
  // ---------------------------------------------------------------------------------------------

  /** The data still to come before a read that brings nothing but an error. */
  function Stream(arrivals: seq<Arrival>): seq<byte> {
    if arrivals == [] || (arrivals[0].data == [] && arrivals[0].err) then []
    else arrivals[0].data + Stream(arrivals[1..])
  }

  /** Whether the next LF comes first in its read, right after a read without data. */
  predicate GapBeforeLF(gap: bool, buffered: seq<byte>, arrivals: seq<Arrival>)
    decreases |arrivals|, |buffered|
  {
    if buffered != [] then
      var k := FirstLF(buffered);
      if k < |buffered| then gap && k == 0 else arrivals != [] && GapBeforeLF(false, [], arrivals)
    else
      arrivals != [] &&
      if arrivals[0].data != [] then GapBeforeLF(gap, arrivals[0].data, arrivals[1..])
      else !arrivals[0].err && GapBeforeLF(true, [], arrivals[1..])
  }

  lemma {:induction false} FirstLFConcat(s: seq<byte>, t: seq<byte>)
    ensures FirstLF(s + t) == if FirstLF(s) < |s| then FirstLF(s) else |s| + FirstLF(t)
  {
    if s == [] {
      assert s + t == t;
    } else {
      assert (s + t)[1..] == s[1..] + t;
      FirstLFConcat(s[1..], t);
    }
  }

  lemma ChompLast(line: seq<byte>, head: seq<byte>)
    requires head != []
    ensures line + Chomp(head) == Chomp(line + head) && EndsInCR(line + head) == EndsInCR(head)
  {
  }

  /** What is buffered and what arrives, as one stream. */
  function Ahead(buffered: seq<byte>, arrivals: seq<Arrival>): seq<byte> {
    buffered + Stream(arrivals)
  }

  /** What is buffered, and still to arrive, when the call reads the chunk with the LF. */
  function LFBuffer(buffered: seq<byte>, arrivals: seq<Arrival>): (seq<byte>, seq<Arrival>)
    decreases |arrivals|, |buffered|
  {
    var chunk := First(buffered, READ_SIZE);
    if buffered == [] then if arrivals == [] then ([], []) else LFBuffer(arrivals[0].data, arrivals[1..])
    else if FirstLF(chunk) < |chunk| then (buffered, arrivals)
    else LFBuffer(buffered[|chunk|..], arrivals)
  }

  /** The buffer after its first chunk has been read and what follows the LF pushed back. */
  function PushedBack(b: seq<byte>): seq<byte> {
    var chunk := First(b, READ_SIZE);
    if FirstLF(chunk) < |chunk| then b[|chunk|..] + chunk[FirstLF(chunk) + 1..] else b
  }

  /** What follows the LF, in its own order. */
  function AfterLF(b: seq<byte>): seq<byte> {
    if FirstLF(b) < |b| then b[FirstLF(b) + 1..] else []
  }

  /**
   `r` is what a call returns when `line` has been collected, `s` is ahead and its LF is met in buffer
   `at.0`. With an LF in `s`: the bytes up to it, without a final CR (unless it is kept), and the rest of
   the buffer with its first chunk pushed behind. Without one: everything, and an error.
   */
  predicate IsNext(r: LineResult, line: seq<byte>, s: seq<byte>, keepCR: bool, at: (seq<byte>, seq<Arrival>)) {
    IsNextAt(r, line, s, FirstLF(s), keepCR, at)
  }

  predicate IsNextAt(r: LineResult, line: seq<byte>, s: seq<byte>, k: nat, keepCR: bool, at: (seq<byte>, seq<Arrival>))
    requires k <= |s|
  {
    && r.err == (k == |s|)
    && (k < |s| ==> r.line == (if keepCR then line + s[..k] else Chomp(line + s[..k])))
    && (k < |s| ==> r.buffered == PushedBack(at.0) && r.rest == at.1 && s[k + 1..] == Ahead(AfterLF(at.0), at.1))
    && (k == |s| ==> r.line == line + s && r.buffered == [])
  }

  /** Moving an LF-free chunk into the line. */
  lemma IsNextShift(r: LineResult, line: seq<byte>, b: seq<byte>, s: seq<byte>, t: seq<byte>, keepCR: bool,
                    at: (seq<byte>, seq<Arrival>))
    requires t == b + s && FirstLF(t) == |b| + FirstLF(s) && IsNext(r, line + b, s, keepCR, at)
    ensures IsNext(r, line, t, keepCR, at)
  {
    NextAtShift(r, line, b, s, FirstLF(s), keepCR, at);
  }

  lemma NextAtShift(r: LineResult, line: seq<byte>, b: seq<byte>, s: seq<byte>, k: nat, keepCR: bool,
                    at: (seq<byte>, seq<Arrival>))
    requires k <= |s| && IsNextAt(r, line + b, s, k, keepCR, at)
    ensures IsNextAt(r, line, b + s, |b| + k, keepCR, at)
  {
    ShiftBytes(line, b, s, k);
  }

  lemma ShiftBytes(line: seq<byte>, b: seq<byte>, s: seq<byte>, k: nat)
    requires k <= |s|
    ensures line + (b + s)[..|b| + k] == line + b + s[..k]
    ensures line + (b + s) == line + b + s
    ensures k < |s| ==> (b + s)[|b| + k + 1..] == s[k + 1..]
  {
  }

  /** The first chunk of a buffer, and the rest of it. */
  lemma ChunkOf(buffered: seq<byte>, arrivals: seq<Arrival>)
    ensures var chunk := First(buffered, READ_SIZE);
            var rest := buffered[|chunk|..];
            && buffered == chunk + rest && Ahead(buffered, arrivals) == chunk + Ahead(rest, arrivals)
            && FirstLF(buffered) == (if FirstLF(chunk) < |chunk| then FirstLF(chunk) else |chunk| + FirstLF(rest))
            && FirstLF(Ahead(buffered, arrivals))
               == (if FirstLF(chunk) < |chunk| then FirstLF(chunk) else |chunk| + FirstLF(Ahead(rest, arrivals)))
  {
    var chunk := First(buffered, READ_SIZE);
    var rest := buffered[|chunk|..];
    assert buffered == chunk + rest;
    ConcatAssociative(chunk, rest, Stream(arrivals));
    FirstLFConcat(chunk, rest);
    FirstLFConcat(chunk, Ahead(rest, arrivals));
  }

  /** The LF is in the first chunk. */
  lemma IsNextHere(line: seq<byte>, cr: bool, gap: bool, buffered: seq<byte>, arrivals: seq<Arrival>)
    requires FirstLF(First(buffered, READ_SIZE)) < |First(buffered, READ_SIZE)|
    requires if gap then !cr else cr == EndsInCR(line)
    ensures IsNext(LineFrom(line, cr, buffered, arrivals), line, Ahead(buffered, arrivals), gap && FirstLF(buffered) == 0,
                   (buffered, arrivals))
  {
    var chunk, s := First(buffered, READ_SIZE), Ahead(buffered, arrivals);
    var k := FirstLF(chunk);
    assert FirstLF(buffered) == FirstLF(s) == k by {
      ChunkOf(buffered, arrivals);
    }
    assert s[..k] == chunk[..k] && s[k + 1..] == Ahead(AfterLF(buffered), arrivals);
    if k > 0 {
      ChompLast(line, chunk[..k]);
    } else {
      assert line + s[..k] == line;
    }
    assert IsNextAt(LineFrom(line, cr, buffered, arrivals), line, s, k, gap && k == 0, (buffered, arrivals));
  }

  /** One call, whatever the reads bring. */
  lemma {:induction false} LineFromIsNext(line: seq<byte>, cr: bool, gap: bool, buffered: seq<byte>, arrivals: seq<Arrival>)
    requires if gap then !cr else cr == EndsInCR(line)
    ensures IsNext(LineFrom(line, cr, buffered, arrivals), line, Ahead(buffered, arrivals),
                   GapBeforeLF(gap, buffered, arrivals), LFBuffer(buffered, arrivals))
    decreases |arrivals|, |buffered|
  {
    if buffered != [] {
      var chunk := First(buffered, READ_SIZE);
      if FirstLF(chunk) < |chunk| {
        ChunkOf(buffered, arrivals);
        IsNextHere(line, cr, gap, buffered, arrivals);
      } else {
        LineFromChunk(line, cr, gap, buffered, arrivals);
      }
    } else if arrivals == [] {
      assert line + [] == line && Ahead([], []) == [];
    } else {
      var a, rest := arrivals[0], arrivals[1..];
      if a.data != [] {
        assert Ahead(a.data, rest) == Ahead([], arrivals);
        LineFromIsNext(line, cr, gap, a.data, rest);
      } else if a.err {
        assert line + [] == line && Ahead([], arrivals) == [];
      } else {
        assert Ahead([], rest) == Ahead([], arrivals);
        LineFromIsNext(line, false, true, [], rest);
      }
    }
  }

  /** What arrives after the first read that brings an error and no data. */
  function AfterError(arrivals: seq<Arrival>): seq<Arrival> {
    if arrivals == [] then []
    else if arrivals[0].data == [] && arrivals[0].err then arrivals[1..]
    else AfterError(arrivals[1..])
  }

  /** A call that fails has read up to that error and no further. */
  lemma {:induction false} FailsAtError(line: seq<byte>, cr: bool, buffered: seq<byte>, arrivals: seq<Arrival>)
    ensures var r := LineFrom(line, cr, buffered, arrivals); r.err ==> r.buffered == [] && r.rest == AfterError(arrivals)
    decreases |arrivals|, |buffered|
  {
    if buffered != [] {
      var chunk := First(buffered, READ_SIZE);
      if FirstLF(chunk) == |chunk| {
        FailsAtError(line + chunk, EndsInCR(chunk), buffered[|chunk|..], arrivals);
      }
    } else if arrivals != [] {
      if arrivals[0].data != [] {
        FailsAtError(line, cr, arrivals[0].data, arrivals[1..]);
      } else if !arrivals[0].err {
        FailsAtError(line, false, [], arrivals[1..]);
      }
    }
  }

  /** A chunk without LF goes into the line. */
  lemma {:induction false} LineFromChunk(line: seq<byte>, cr: bool, gap: bool, buffered: seq<byte>, arrivals: seq<Arrival>)
    requires buffered != [] && FirstLF(First(buffered, READ_SIZE)) == |First(buffered, READ_SIZE)|
    requires if gap then !cr else cr == EndsInCR(line)
    ensures IsNext(LineFrom(line, cr, buffered, arrivals), line, Ahead(buffered, arrivals),
                   GapBeforeLF(gap, buffered, arrivals), LFBuffer(buffered, arrivals))
    decreases |arrivals|, |buffered|, 0
  {
    var chunk := First(buffered, READ_SIZE);
    var rest := buffered[|chunk|..];
    var r := LineFrom(line + chunk, EndsInCR(chunk), rest, arrivals);
    var at := LFBuffer(rest, arrivals);
    assert IsNext(r, line + chunk, Ahead(rest, arrivals), GapBeforeLF(false, rest, arrivals), at) by {
      ChompLast(line, chunk);
      LineFromIsNext(line + chunk, EndsInCR(chunk), false, rest, arrivals);
    }
    assert GapBeforeLF(gap, buffered, arrivals) == GapBeforeLF(false, rest, arrivals)
           && Ahead(buffered, arrivals) == chunk + Ahead(rest, arrivals)
           && FirstLF(Ahead(buffered, arrivals)) == |chunk| + FirstLF(Ahead(rest, arrivals)) by {
      ChunkOf(buffered, arrivals);
    }
    IsNextShift(r, line, chunk, Ahead(rest, arrivals), Ahead(buffered, arrivals), GapBeforeLF(false, rest, arrivals), at);
  }

  /**
   A call from a clean start returns the next line with a final CR removed if and only if no read
   without data separates a CR that ends the line from the LF; and it leaves the bytes after the LF in
   order if and only if pushing back does.
   */
  lemma ReadLineIsExact(buffered: seq<byte>, arrivals: seq<Arrival>)
    requires LF in Ahead(buffered, arrivals)
    ensures var r, s, b := LineFrom([], false, buffered, arrivals), Ahead(buffered, arrivals), LFBuffer(buffered, arrivals).0;
            var k := FirstLF(s);
            && k < |s| && !r.err
            && (r.line == Chomp(s[..k]) <==> !(GapBeforeLF(false, buffered, arrivals) && EndsInCR(s[..k])))
            && (Ahead(r.buffered, r.rest) == s[k + 1..] <==> PushedBack(b) == AfterLF(b))
  {
    var s := Ahead(buffered, arrivals);
    LineFromIsNext([], false, false, buffered, arrivals);
    FirstLFIsFirst(s);
    assert s[..|s|] == s && [] + s[..FirstLF(s)] == s[..FirstLF(s)];
    var (b, rest) := LFBuffer(buffered, arrivals);
    SamePrefix(PushedBack(b), AfterLF(b), Stream(rest));
  }

  lemma SamePrefix(s: seq<byte>, t: seq<byte>, u: seq<byte>)
    ensures s + u == t + u <==> s == t
  {
    if s + u == t + u {
      assert |s| == |t|;
      assert s == (s + u)[..|s|] && t == (t + u)[..|t|];
    }
  }

  // ---------------------------------------------------------------------------------------------
  // All lines of a session
  // ---------------------------------------------------------------------------------------------

  /** No read without data comes right after a byte CR; `prev` says whether the last byte was one. */
  predicate NoGap(prev: bool, buffered: seq<byte>, arrivals: seq<Arrival>)
    decreases |arrivals|, |buffered|
  {
    if buffered != [] then NoGap(EndsInCR(buffered), [], arrivals)
    else if arrivals == [] then true
    else if arrivals[0].data != [] then NoGap(EndsInCR(arrivals[0].data), [], arrivals[1..])
    else arrivals[0].err || (!prev && NoGap(false, [], arrivals[1..]))
  }

  /** With no such read, the CR is never forgotten, and the same holds of what follows the LF. */
  predicate GapFree(line: seq<byte>, s: seq<byte>, keepCR: bool, at: (seq<byte>, seq<Arrival>)) {
    FirstLF(s) < |s| ==> (keepCR ==> !EndsInCR(line + s[..FirstLF(s)])) && NoGap(false, AfterLF(at.0), at.1)
  }

  lemma {:induction false} NoGapFinds(line: seq<byte>, cr: bool, gap: bool, buffered: seq<byte>, arrivals: seq<Arrival>)
    requires cr == EndsInCR(line) && (gap ==> !cr) && NoGap(cr, buffered, arrivals)
    ensures GapFree(line, Ahead(buffered, arrivals), GapBeforeLF(gap, buffered, arrivals), LFBuffer(buffered, arrivals))
    decreases |arrivals|, |buffered|
  {
    if buffered != [] {
      NoGapInBuffer(line, cr, gap, buffered, arrivals);
    } else if arrivals != [] {
      var a, rest := arrivals[0], arrivals[1..];
      if a.data != [] {
        assert Ahead(a.data, rest) == Ahead([], arrivals);
        NoGapFinds(line, cr, gap, a.data, rest);
      } else if !a.err {
        assert Ahead([], rest) == Ahead([], arrivals);
        NoGapFinds(line, false, true, [], rest);
      }
    }
  }

  lemma {:induction false} NoGapInBuffer(line: seq<byte>, cr: bool, gap: bool, buffered: seq<byte>, arrivals: seq<Arrival>)
    requires buffered != [] && cr == EndsInCR(line) && (gap ==> !cr) && NoGap(cr, buffered, arrivals)
    ensures GapFree(line, Ahead(buffered, arrivals), GapBeforeLF(gap, buffered, arrivals), LFBuffer(buffered, arrivals))
    decreases |arrivals|, |buffered|, 0
  {
    var chunk := First(buffered, READ_SIZE);
    var rest, s := buffered[|chunk|..], Ahead(buffered, arrivals);
    ChunkOf(buffered, arrivals);
    if FirstLF(chunk) < |chunk| {
      assert FirstLF(s) == 0 ==> line + s[..FirstLF(s)] == line;
    } else {
      assert NoGap(EndsInCR(chunk), rest, arrivals) by {
        assert rest == [] ==> chunk == buffered;
        assert rest != [] ==> EndsInCR(rest) == EndsInCR(buffered);
      }
      assert GapFree(line + chunk, Ahead(rest, arrivals), GapBeforeLF(false, rest, arrivals), LFBuffer(rest, arrivals)) by {
        ChompLast(line, chunk);
        NoGapFinds(line + chunk, EndsInCR(chunk), false, rest, arrivals);
      }
      ShiftBytes(line, chunk, Ahead(rest, arrivals), FirstLF(Ahead(rest, arrivals)));
    }
  }

  /** Every LF ends a block of 1024 bytes or is in the last one. */
  predicate Aligned(b: seq<byte>) {
    forall p :: 0 <= p < |b| && b[p] == LF ==> p % READ_SIZE == READ_SIZE - 1 || |b| <= p - p % READ_SIZE + READ_SIZE
  }

  /** No read brings data that the push-back would disturb; reads of at most 1024 bytes never do. */
  predicate AllAligned(arrivals: seq<Arrival>) {
    forall i :: 0 <= i < |arrivals| ==> Aligned(arrivals[i].data)
  }

  lemma ShortIsAligned(b: seq<byte>)
    requires |b| <= READ_SIZE
    ensures Aligned(b)
  {
  }

  lemma AlignedTail(b: seq<byte>, n: nat)
    requires Aligned(b) && n <= |b|
    requires n % READ_SIZE == 0 || |b| - n < READ_SIZE
    ensures Aligned(b[n..])
  {
    forall p | 0 <= p < |b[n..]| && b[n..][p] == LF
      ensures p % READ_SIZE == READ_SIZE - 1 || |b[n..]| <= p - p % READ_SIZE + READ_SIZE
    {
      assert b[n + p] == LF;
    }
  }

  /** In an aligned buffer the push-back keeps the order, and what is left is aligned. */
  lemma AlignedKeepsOrder(b: seq<byte>)
    requires Aligned(b) && FirstLF(First(b, READ_SIZE)) < |First(b, READ_SIZE)|
    ensures PushedBack(b) == AfterLF(b) && Aligned(AfterLF(b))
  {
    var chunk := First(b, READ_SIZE);
    var k := FirstLF(chunk);
    assert FirstLF(b) == k by {
      ChunkOf(b, []);
    }
    assert b[k] == LF by {
      FirstLFIsFirst(b);
    }
    AlignedTail(b, k + 1);
    if |b| > READ_SIZE {
      assert k == READ_SIZE - 1;
      assert chunk[k + 1..] == [];
    }
  }

  lemma {:induction false} LFBufferAligned(buffered: seq<byte>, arrivals: seq<Arrival>)
    requires Aligned(buffered) && AllAligned(arrivals) && FirstLF(Ahead(buffered, arrivals)) < |Ahead(buffered, arrivals)|
    ensures var (b, rest) := LFBuffer(buffered, arrivals);
            && PushedBack(b) == AfterLF(b) && Aligned(AfterLF(b)) && AllAligned(rest)
    decreases |arrivals|, |buffered|
  {
    if buffered != [] {
      var chunk := First(buffered, READ_SIZE);
      ChunkOf(buffered, arrivals);
      if FirstLF(chunk) < |chunk| {
        AlignedKeepsOrder(buffered);
      } else {
        AlignedTail(buffered, |chunk|);
        LFBufferAligned(buffered[|chunk|..], arrivals);
      }
    } else {
      assert Ahead([], arrivals) == Stream(arrivals);
      assert Aligned(arrivals[0].data);
      LFBufferAligned(arrivals[0].data, arrivals[1..]);
    }
  }

  /** The lines of `s`: what stands before each LF, without a final CR. */
  function SplitLines(s: seq<byte>): seq<seq<byte>>
    decreases |s|
  {
    var k := FirstLF(s);
    if k == |s| then [] else [Chomp(s[..k])] + SplitLines(s[k + 1..])
  }

  /** Bytes not yet returned, wherever they are. */
  function Unread(buffered: seq<byte>, arrivals: seq<Arrival>): nat
    decreases |arrivals|
  {
    |buffered| + if arrivals == [] then 0 else Unread(arrivals[0].data, arrivals[1..])
  }

  lemma {:induction false} LineConsumes(line: seq<byte>, cr: bool, buffered: seq<byte>, arrivals: seq<Arrival>)
    ensures var r := LineFrom(line, cr, buffered, arrivals);
            !r.err ==> Unread(r.buffered, r.rest) < Unread(buffered, arrivals)
    decreases |arrivals|, |buffered|
  {
    if buffered != [] {
      var chunk := First(buffered, READ_SIZE);
      if FirstLF(chunk) == |chunk| {
        LineConsumes(line + chunk, EndsInCR(chunk), buffered[|chunk|..], arrivals);
      }
    } else if arrivals != [] {
      if arrivals[0].data != [] {
        LineConsumes(line, cr, arrivals[0].data, arrivals[1..]);
      } else {
        LineConsumes(line, false, [], arrivals[1..]);
      }
    }
  }

  /** What successive calls return before the first error. */
  function ReadAll(buffered: seq<byte>, arrivals: seq<Arrival>): seq<seq<byte>>
    decreases Unread(buffered, arrivals)
  {
    var r := LineFrom([], false, buffered, arrivals);
    if r.err then []
    else
      LineConsumes([], false, buffered, arrivals);
      [r.line] + ReadAll(r.buffered, r.rest)
  }

  /**
   However the stream is cut into reads, and however CR LF is split between them, successive calls return
   exactly its lines, provided the push-back disturbs none of them (it never does up to 1024 bytes) and no
   read without data follows a CR.
   */
  lemma {:induction false} ReadAllSplitsLines(buffered: seq<byte>, arrivals: seq<Arrival>)
    requires Aligned(buffered) && AllAligned(arrivals) && NoGap(false, buffered, arrivals)
    ensures ReadAll(buffered, arrivals) == SplitLines(Ahead(buffered, arrivals))
    decreases Unread(buffered, arrivals)
  {
    var s := Ahead(buffered, arrivals);
    var r := LineFrom([], false, buffered, arrivals);
    LineFromIsNext([], false, false, buffered, arrivals);
    assert [] + s[..FirstLF(s)] == s[..FirstLF(s)];
    if !r.err {
      NoGapFinds([], false, false, buffered, arrivals);
      LFBufferAligned(buffered, arrivals);
      LineConsumes([], false, buffered, arrivals);
      ReadAllSplitsLines(r.buffered, r.rest);
    }
  }

  // ---------------------------------------------------------------------------------------------
  // 1024 is the bound
  // ---------------------------------------------------------------------------------------------

  /** Whether a call on this much buffered data leaves the bytes after the LF in order. */
  predicate KeepsOrder(buffered: seq<byte>) {
    var r := LineFrom([], false, buffered, []);
    FirstLF(buffered) < |buffered| ==> !r.err && r.buffered == buffered[FirstLF(buffered) + 1..]
  }

  /** With more than 1024 bytes buffered, the push-back puts the rest of the chunk behind later bytes. */
  lemma LongBufferLosesOrder(n: nat) returns (buffered: seq<byte>)
    requires n > READ_SIZE
    ensures |buffered| == n && !KeepsOrder(buffered)
  {
    buffered := [LF, 1] + seq(n - 2, _ => 0);
    var chunk := First(buffered, READ_SIZE);
    var r := LineFrom([], false, buffered, []);
    assert r.buffered[0] == buffered[READ_SIZE] == 0;
    assert buffered[1..][0] == 1;
  }

  /** Order is kept for every buffer of a given length if and only if the length is at most 1024. */
  lemma OrderIsKeptUpTo1024(n: nat)
    ensures (forall buffered: seq<byte> :: |buffered| == n ==> KeepsOrder(buffered)) <==> n <= 1024
  {
    if n <= READ_SIZE {
      forall buffered: seq<byte> | |buffered| == n
        ensures KeepsOrder(buffered)
      {
      }
    } else {
      var buffered := LongBufferLosesOrder(n);
    }
  }
}
