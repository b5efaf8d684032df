/**
 Zero-copy data delivery. Plain data is handed out as index ranges of the input; this module
 says which ranges, for the byte-at-a-time automaton, and what flattening them gives.
 */
module Spans {
  import opened Telnet
  import opened Automaton

  /** The input range `start..end`. */
  datatype Span = Span(start: nat, end: nat)

  /** Adds the run `lo..hi`, extending the last range when it ends exactly at `lo`. */
  function AddRun(spans: seq<Span>, lo: nat, hi: nat): seq<Span> {
    var k := |spans| - 1;
    if k >= 0 && spans[k].end == lo then spans[k := Span(spans[k].start, hi)]
    else spans + [Span(lo, hi)]
  }

  /** Nonempty ranges within `0..n`, in order, no two of them touching. */
  ghost predicate Separated(spans: seq<Span>, n: nat) {
    && (forall k :: 0 <= k < |spans| ==> spans[k].start < spans[k].end <= n)
    && (forall j, k :: 0 <= j < k < |spans| ==> spans[j].end < spans[k].start)
  }

  /** The maximal runs of input positions whose byte is plain data. */
  function DataSpans(m: Machine, s: seq<byte>): (spans: seq<Span>)
    ensures Separated(spans, |s|)
  {
    if s == [] then [] else
      var n := |s| - 1;
      var before := DataSpans(m, s[..n]);
      if IsDataByte(Final(m, s[..n]), s[n]) then AddRun(before, n, n + 1) else before
  }

  lemma DataSpansSnoc(m: Machine, s: seq<byte>, b: byte)
    ensures DataSpans(m, s + [b])
            == if IsDataByte(Final(m, s), b) then AddRun(DataSpans(m, s), |s|, |s| + 1) else DataSpans(m, s)
  {
    assert (s + [b])[..|s|] == s;
  }

  function Slices(s: seq<byte>, spans: seq<Span>): seq<byte>
    requires forall k :: 0 <= k < |spans| ==> spans[k].start <= spans[k].end <= |s|
  {
    if spans == [] then [] else
      var k := |spans| - 1;
      Slices(s, spans[..k]) + s[spans[k].start..spans[k].end]
  }

  lemma {:induction false} SlicesOfPrefix(s: seq<byte>, n: nat, spans: seq<Span>)
    requires n <= |s|
    requires forall k :: 0 <= k < |spans| ==> spans[k].start <= spans[k].end <= n
    ensures Slices(s[..n], spans) == Slices(s, spans)
  {
    if spans != [] {
      var k := |spans| - 1;
      SlicesOfPrefix(s, n, spans[..k]);
      assert s[..n][spans[k].start..spans[k].end] == s[spans[k].start..spans[k].end];
    }
  }

  lemma SlicesAddByte(s: seq<byte>, spans: seq<Span>, i: nat)
    requires Separated(spans, i) && i < |s|
    ensures Separated(AddRun(spans, i, i + 1), i + 1)
    ensures Slices(s, AddRun(spans, i, i + 1)) == Slices(s, spans) + [s[i]]
  {
    var k := |spans| - 1;
    var added := AddRun(spans, i, i + 1);
    if k >= 0 && spans[k].end == i {
      var before, run := Slices(s, spans[..k]), s[spans[k].start..i];
      assert added[..k] == spans[..k];
      assert s[spans[k].start..i + 1] == run + [s[i]];
      ConcatAssociative(before, run, [s[i]]);
    } else {
      assert added[..k + 1] == spans;
      assert s[i..i + 1] == [s[i]];
    }
  }

  /** Flattening the maximal runs gives exactly the automaton's data stream. */
  lemma {:induction false} SpansAreTheData(m: Machine, s: seq<byte>)
    ensures Slices(s, DataSpans(m, s)) == Emitted(m, s).data
  {
    if s != [] {
      var n := |s| - 1;
      var before := DataSpans(m, s[..n]);
      SpansAreTheData(m, s[..n]);
      SlicesOfPrefix(s, n, before);
      if IsDataByte(Final(m, s[..n]), s[n]) {
        SlicesAddByte(s, before, n);
      }
    }
  }

  ghost predicate Covers(spans: seq<Span>, i: nat) {
    exists k :: 0 <= k < |spans| && spans[k].start <= i < spans[k].end
  }

  lemma AddRunCovers(spans: seq<Span>, n: nat, i: nat)
    requires Separated(spans, n)
    ensures Covers(AddRun(spans, n, n + 1), i) <==> i == n || Covers(spans, i)
  {
    var added := AddRun(spans, n, n + 1);
    var last := |added| - 1;
    assert added[last].start <= n < added[last].end == n + 1;
    if k :| 0 <= k < |spans| && spans[k].start <= i < spans[k].end {
      assert added[k].start <= i < added[k].end;
    }
  }

  /** A position lies in some range if and only if its byte is plain data. */
  lemma {:induction false} SpansCoverData(m: Machine, s: seq<byte>, i: nat)
    requires i < |s|
    ensures IsDataByte(Final(m, s[..i]), s[i]) <==> Covers(DataSpans(m, s), i)
  {
    var n := |s| - 1;
    var before := DataSpans(m, s[..n]);
    if IsDataByte(Final(m, s[..n]), s[n]) {
      AddRunCovers(before, n, i);
    }
    if i < n {
      SpansCoverData(m, s[..n], i);
      assert s[..n][..i] == s[..i] && s[..n][i] == s[i];
    }
  }

  /** Ranges that do not touch need two positions each, except the last. */
  lemma {:induction false} SpansAreSpaced(spans: seq<Span>, n: nat)
    requires Separated(spans, n)
    ensures 2 * |spans| <= n + 1
  {
    if |spans| > 0 {
      var k := |spans| - 1;
      assert spans[k].start < spans[k].end <= n;
      if k > 0 {
        assert spans[k - 1].end < spans[k].start;
        SpansAreSpaced(spans[..k], spans[k].start - 1);
      }
    }
  }

  /** Extending a run and then adding the next byte is adding the longer run. */
  lemma AddRunGrows(spans: seq<Span>, lo: nat, i: nat)
    requires lo < i
    ensures AddRun(AddRun(spans, lo, i), i, i + 1) == AddRun(spans, lo, i + 1)
  {
  }

  lemma {:induction false} SlicesMonotone(s: seq<byte>, spans: seq<Span>, n: nat)
    requires Separated(spans, |s|) && n <= |spans|
    ensures Slices(s, spans[..n]) <= Slices(s, spans)
    ensures n < |spans| ==> |Slices(s, spans[..n])| < |Slices(s, spans)|
  {
    if n < |spans| {
      var k := |spans| - 1;
      var a, b, c := Slices(s, spans[..n]), Slices(s, spans[..k]), Slices(s, spans);
      assert b <= c && |b| < |c|;
      assert a <= b by {
        SlicesMonotone(s, spans[..k], n);
        assert spans[..k][..n] == spans[..n];
      }
    } else {
      assert spans[..n] == spans;
    }
  }
}
