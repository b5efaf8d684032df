/**
 The same ring shared by one writer and one reader. Every load of an index, every byte copied and
 every store of an index is a step of its own, so each side works with an index that may be stale by
 the time it is used. `accepted` and `delivered` are history: the bytes published by the writer and
 the bytes whose slots the reader has released, since the beginning of time.
 */
module Spsc {
  import opened Telnet
  import opened Bits
  import opened Rings

  /**
   Where the writer is in `Write`. History: `seen`, how many bytes were released when it loaded rhead, and
   `asked`, the bytes it was called with.
   */
  datatype Writer =
    | WriterIdle
    | TailLoaded(p: seq<byte>, w: u32)
    | HeadLoaded(p: seq<byte>, w: u32, rh: u32, seen: nat)
    | Storing(p: seq<byte>, w: u32, i: nat, seen: nat, asked: seq<byte>)

  /**
   Where the reader is in `Read`. History: `seen`, how many bytes were published when it loaded wtail, and
   `want`, how many it was called for.
   */
  datatype Reader =
    | ReaderIdle
    | OwnLoaded(want: nat, rh: u32)
    | OtherLoaded(want: nat, rh: u32, w: u32, seen: nat)
    | Loading(n: nat, rh: u32, out: seq<byte>, seen: nat, want: nat)

  datatype State = State(bits: nat, slots: seq<byte>, rhead: u32, wtail: u32, writer: Writer, reader: Reader,
                         accepted: seq<byte>, delivered: seq<byte>)
  {
    function Mask(): nat {
      Pow2(bits) - 1
    }
  }

  datatype Action =
    | BeginWrite(p: seq<byte>)  // load wtail
    | LoadHead
    | CheckSpace
    | StoreByte
    | StoreTail
    | BeginRead(want: nat)      // load rhead
    | LoadTail
    | CheckData
    | LoadByte
    | StoreHead

  predicate Enabled(s: State, a: Action) {
    match a
    case BeginWrite(_) => s.writer.WriterIdle?
    case LoadHead => s.writer.TailLoaded?
    case CheckSpace => s.writer.HeadLoaded?
    case StoreByte => s.writer.Storing? && s.writer.i < |s.writer.p|
    case StoreTail => s.writer.Storing? && s.writer.i == |s.writer.p|
    case BeginRead(_) => s.reader.ReaderIdle?
    case LoadTail => s.reader.OwnLoaded?
    case CheckData => s.reader.OtherLoaded?
    case LoadByte => s.reader.Loading? && |s.reader.out| < s.reader.n
    case StoreHead => s.reader.Loading? && |s.reader.out| == s.reader.n
  }

  /** The array position the writer (or reader) computes from its own index. */
  function Position(s: State, base: u32, i: nat): nat {
    And(Add32(base, i), s.Mask())
  }

  function Step(s: State, a: Action): State
    requires Enabled(s, a)
  {
    match a
    case BeginWrite(p) => s.(writer := TailLoaded(p, s.wtail))
    case LoadHead => s.(writer := HeadLoaded(s.writer.p, s.writer.w, s.rhead, |s.delivered|))
    case CheckSpace =>
      var avail := s.Mask() - Sub32(s.writer.w, s.writer.rh);
      if avail <= 0 then s.(writer := WriterIdle)
      else s.(writer := Storing(First(s.writer.p, avail), s.writer.w, 0, s.writer.seen, s.writer.p))
    case StoreByte =>
      var at := Position(s, s.writer.w, s.writer.i);
      s.(slots := if at < |s.slots| then s.slots[at := s.writer.p[s.writer.i]] else s.slots,
         writer := s.writer.(i := s.writer.i + 1))
    case StoreTail =>
      s.(wtail := Add32(s.writer.w, |s.writer.p|), accepted := s.accepted + s.writer.p, writer := WriterIdle)
    case BeginRead(want) => s.(reader := OwnLoaded(want, s.rhead))
    case LoadTail => s.(reader := OtherLoaded(s.reader.want, s.reader.rh, s.wtail, |s.accepted|))
    case CheckData =>
      var avail := Sub32(s.reader.w, s.reader.rh);
      if avail == 0 then s.(reader := ReaderIdle)
      else s.(reader := Loading(if s.reader.want > avail then avail else s.reader.want, s.reader.rh, [],
                                   s.reader.seen, s.reader.want))
    case LoadByte =>
      var at := Position(s, s.reader.rh, |s.reader.out|);
      s.(reader := s.reader.(out := s.reader.out + [if at < |s.slots| then s.slots[at] else 0]))
    case StoreHead =>
      s.(rhead := Add32(s.reader.rh, s.reader.n), delivered := s.delivered + s.reader.out, reader := ReaderIdle)
  }

  predicate IsRun(s: State, actions: seq<Action>)
    decreases |actions|
  {
    actions == [] || (Enabled(s, actions[0]) && IsRun(Step(s, actions[0]), actions[1..]))
  }

  function AfterRun(s: State, actions: seq<Action>): State
    requires IsRun(s, actions)
    decreases |actions|
  {
    if actions == [] then s else AfterRun(Step(s, actions[0]), actions[1..])
  }

  /** A ring just made by NewRing. */
  ghost predicate Initial(s: State) {
    && s.bits <= 32 && |s.slots| == Pow2(s.bits)
    && s.rhead == 0 && s.wtail == 0
    && s.writer.WriterIdle? && s.reader.ReaderIdle?
    && s.accepted == [] && s.delivered == []
  }

  // ---------------------------------------------------------------------------------------------
  // The invariant
  // ---------------------------------------------------------------------------------------------

  /** The bytes between the reader's index and what the writer has stored, published or not. */
  function Window(s: State): seq<byte>
    requires |s.delivered| <= |s.accepted|
    requires s.writer.Storing? ==> s.writer.i <= |s.writer.p|
  {
    s.accepted[|s.delivered|..] + if s.writer.Storing? then s.writer.p[..s.writer.i] else []
  }

  function Least(a: nat, b: nat): nat {
    if a <= b then a else b
  }

  ghost predicate WriterOk(s: State) {
    var released, published, mask := |s.delivered|, |s.accepted|, s.Mask();
    match s.writer
    case WriterIdle => true
    case TailLoaded(_, w) => w == s.wtail
    case HeadLoaded(_, w, rh, seen) =>
      w == s.wtail && rh == seen % WRAP && seen <= released && published <= seen + mask
    case Storing(p, w, i, seen, asked) =>
      && w == s.wtail && seen <= released && i <= |p| && published <= seen + mask
      && p == First(asked, seen + mask - published)
  }

  ghost predicate ReaderOk(s: State) {
    var released, published := |s.delivered|, |s.accepted|;
    match s.reader
    case ReaderIdle => true
    case OwnLoaded(_, rh) => rh == s.rhead
    case OtherLoaded(_, rh, w, seen) => rh == s.rhead && w == seen % WRAP && released <= seen <= published
    case Loading(n, rh, out, seen, want) =>
      && rh == s.rhead && |out| <= n && released <= seen <= published && n == Least(want, seen - released)
      && out == s.accepted[released..released + |out|]
  }

  ghost predicate Inv(s: State) {
    && s.bits <= 32 && |s.slots| == Pow2(s.bits)
    && s.rhead == |s.delivered| % WRAP && s.wtail == |s.accepted| % WRAP
    && s.delivered <= s.accepted && |s.accepted| <= |s.delivered| + s.Mask()
    && WriterOk(s) && ReaderOk(s)
    && Holds(s.slots, |s.delivered|, Window(s))
  }

  lemma MaskBelowWrap(k: nat)
    requires k <= 32
    ensures Pow2(k) - 1 < WRAP
  {
    WrapIsPow2();
    Pow2Monotone(k, 32);
  }

  /** The difference of two wrapped counters less than 2^32 apart is their true difference. */
  lemma WrappedDifference(a: nat, b: nat)
    requires b <= a < b + WRAP
    ensures Sub32(a % WRAP, b % WRAP) == a - b
  {
  }

  lemma WrappedSum(a: nat, n: nat)
    ensures Add32(a % WRAP, n) == (a + n) % WRAP
  {
  }

  /** An index that wraps and is masked finds the slot of the unbounded counter. */
  lemma PositionIsSlot(s: State, base: nat, i: nat)
    requires s.bits <= 32
    ensures Position(s, base % WRAP, i) == Slot(base, i, Pow2(s.bits)) < Pow2(s.bits)
  {
    MaskedSlot(base % WRAP, i, s.bits);
    assert Slot(base % WRAP, i, Pow2(s.bits)) == Slot(base, i, Pow2(s.bits)) by {
      WrapKeepsSlot(base, s.bits);
      ModCongruent(base % WRAP, base, i, Pow2(s.bits));
    }
  }

  /**
   The byte about to be stored goes into none of the slots that hold published bytes not yet
   released, however stale the writer's view of the reader is.
   */
  lemma NoOverwrite(s: State, t: nat)
    requires Inv(s) && Enabled(s, StoreByte) && |s.delivered| <= t < |s.accepted|
    ensures Position(s, s.writer.w, s.writer.i) < |s.slots|
    ensures Position(s, s.writer.w, s.writer.i) != Slot(t, 0, |s.slots|)
  {
    PositionIsSlot(s, |s.accepted|, s.writer.i);
    SlotsDiffer(t, |s.accepted| + s.writer.i, |s.slots|);
  }

  lemma StoreByteKeeps(s: State)
    requires Inv(s) && Enabled(s, StoreByte)
    ensures Inv(Step(s, StoreByte))
  {
    var released, published, i := |s.delivered|, |s.accepted|, s.writer.i;
    var s' := Step(s, StoreByte);
    PositionIsSlot(s, published, i);
    assert Slot(published, i, |s.slots|) == Slot(released, |Window(s)|, |s.slots|);
    HoldsPut(s.slots, released, Window(s), s.writer.p[i]);
    assert Window(s') == Window(s) + [s.writer.p[i]];
  }

  lemma StoreTailKeeps(s: State)
    requires Inv(s) && Enabled(s, StoreTail)
    ensures Inv(Step(s, StoreTail))
  {
    var s' := Step(s, StoreTail);
    WrappedSum(|s.accepted|, |s.writer.p|);
    assert Window(s') == Window(s);
    if s.reader.Loading? {
      assert s'.accepted[|s.delivered|..|s.delivered| + |s.reader.out|] == s.accepted[|s.delivered|..|s.delivered| + |s.reader.out|];
    }
  }

  lemma LoadByteKeeps(s: State)
    requires Inv(s) && Enabled(s, LoadByte)
    ensures Inv(Step(s, LoadByte))
  {
    var released, i := |s.delivered|, |s.reader.out|;
    var s' := Step(s, LoadByte);
    PositionIsSlot(s, released, i);
    assert s.slots[Slot(released, i, |s.slots|)] == Window(s)[i] == s.accepted[released + i];
    assert s'.reader.out == s.accepted[released..released + i + 1];
    assert Window(s') == Window(s);
  }

  lemma StoreHeadKeeps(s: State)
    requires Inv(s) && Enabled(s, StoreHead)
    ensures Inv(Step(s, StoreHead))
  {
    var released, n := |s.delivered|, s.reader.n;
    var s' := Step(s, StoreHead);
    WrappedSum(released, n);
    HoldsDrop(s.slots, released, Window(s), n);
    assert s.accepted == s.accepted[..released] + s.accepted[released..released + n] + s.accepted[released + n..];
    assert Window(s') == Window(s)[n..];
  }

  lemma CheckSpaceKeeps(s: State)
    requires Inv(s) && Enabled(s, CheckSpace)
    ensures Inv(Step(s, CheckSpace))
  {
    MaskBelowWrap(s.bits);
    WrappedDifference(|s.accepted|, s.writer.seen);
    assert Window(Step(s, CheckSpace)) == Window(s);
  }

  lemma CheckDataKeeps(s: State)
    requires Inv(s) && Enabled(s, CheckData)
    ensures Inv(Step(s, CheckData))
  {
    MaskBelowWrap(s.bits);
    WrappedDifference(s.reader.seen, |s.delivered|);
    assert Window(Step(s, CheckData)) == Window(s);
  }

  lemma StepKeepsInv(s: State, a: Action)
    requires Inv(s) && Enabled(s, a)
    ensures Inv(Step(s, a))
  {
    match a
    case StoreByte => StoreByteKeeps(s);
    case StoreTail => StoreTailKeeps(s);
    case LoadByte => LoadByteKeeps(s);
    case StoreHead => StoreHeadKeeps(s);
    case CheckSpace => CheckSpaceKeeps(s);
    case CheckData => CheckDataKeeps(s);
    case _ => assert Window(Step(s, a)) == Window(s);
  }

  lemma {:induction false} RunKeepsInv(s: State, actions: seq<Action>)
    requires Inv(s) && IsRun(s, actions)
    ensures Inv(AfterRun(s, actions))
    decreases |actions|
  {
    if actions != [] {
      StepKeepsInv(s, actions[0]);
      RunKeepsInv(Step(s, actions[0]), actions[1..]);
    }
  }

  /**
   For every interleaving of one writer and one reader, however often the indices wrap: what the
   reader has got is a prefix of what the writer has published, at most size - 1 bytes behind, and the
   shared indices count them modulo 2^32.
   */
  lemma DeliveredIsPrefixOfAccepted(s: State, actions: seq<Action>)
    requires Initial(s) && IsRun(s, actions)
    ensures var r := AfterRun(s, actions);
            && r.delivered <= r.accepted && |r.accepted| - |r.delivered| <= r.Mask()
            && r.rhead == |r.delivered| % WRAP && r.wtail == |r.accepted| % WRAP
            && (forall t :: |r.delivered| <= t < |r.accepted| ==> 0 <= Slot(t, 0, Pow2(r.bits)) < |r.slots| && r.slots[Slot(t, 0, Pow2(r.bits))] == r.accepted[t])
  {
    assert Inv(s);
    RunKeepsInv(s, actions);
    var r := AfterRun(s, actions);
    forall t | |r.delivered| <= t < |r.accepted|
      ensures 0 <= Slot(t, 0, Pow2(r.bits)) < |r.slots| && r.slots[Slot(t, 0, Pow2(r.bits))] == r.accepted[t]
    {
      var i := t - |r.delivered|;
      assert Slot(|r.delivered|, i, |r.slots|) == Slot(t, 0, |r.slots|);
      assert Window(r)[i] == r.accepted[t];
    }
  }

  // ---------------------------------------------------------------------------------------------
  // How much a call moves
  // ---------------------------------------------------------------------------------------------

  /** `r` is where a call `Write(p)` begun in `s` has got to. */
  ghost predicate Writing(s: State, r: State, p: seq<byte>) {
    && s.bits == r.bits && |s.delivered| <= |r.delivered|
    && |s.accepted| <= |s.delivered| + s.Mask()
    && match r.writer
       case WriterIdle =>
         exists seen: nat :: |s.delivered| <= seen <= |r.delivered| && Accepts(s, r, p, seen)
       case TailLoaded(q, _) => q == p && r.accepted == s.accepted
       case HeadLoaded(q, _, _, seen) => q == p && r.accepted == s.accepted && |s.delivered| <= seen
       case Storing(_, _, _, seen, asked) => asked == p && r.accepted == s.accepted && |s.delivered| <= seen
  }

  /** Since `s` the writer has published as much of `p` as had room when `seen` bytes were released. */
  predicate Accepts(s: State, r: State, p: seq<byte>, seen: nat) {
    |s.accepted| <= seen + s.Mask() && r.accepted == s.accepted + First(p, seen + s.Mask() - |s.accepted|)
  }

  lemma StepWriting(s: State, r: State, p: seq<byte>, a: Action)
    requires Inv(r) && Writing(s, r, p) && Enabled(r, a) && !a.BeginWrite?
    ensures Writing(s, Step(r, a), p)
  {
    var t := Step(r, a);
    if r.writer.WriterIdle? {
      var seen: nat :| |s.delivered| <= seen <= |r.delivered| && Accepts(s, r, p, seen);
      assert Accepts(s, t, p, seen);
    } else if a.CheckSpace? {
      MaskBelowWrap(r.bits);
      WrappedDifference(|r.accepted|, r.writer.seen);
      if t.writer.WriterIdle? {
        assert s.accepted + First(p, 0) == s.accepted;
        assert Accepts(s, t, p, r.writer.seen);
      }
    } else if a.StoreTail? {
      assert Accepts(s, t, p, r.writer.seen);
    }
  }

  /** No other write begins among `actions`. */
  predicate NoWriteBegins(actions: seq<Action>) {
    forall a :: a in actions ==> !a.BeginWrite?
  }

  lemma {:induction false} RunWriting(s: State, r: State, p: seq<byte>, actions: seq<Action>)
    requires Inv(r) && Writing(s, r, p) && IsRun(r, actions) && NoWriteBegins(actions)
    ensures Writing(s, AfterRun(r, actions), p)
    decreases |actions|
  {
    if actions != [] {
      assert actions[0] in actions;
      StepKeepsInv(r, actions[0]);
      StepWriting(s, r, p, actions[0]);
      RunWriting(s, Step(r, actions[0]), p, actions[1..]);
    }
  }

  /**
   A whole call of Write, whatever the reader does meanwhile: it accepts exactly as much of `p` as there was
   room for at some moment of the call.
   */
  lemma WriteAcceptsExactly(s: State, p: seq<byte>, actions: seq<Action>)
    requires Inv(s) && s.writer.WriterIdle? && NoWriteBegins(actions)
    requires IsRun(Step(s, BeginWrite(p)), actions) && AfterRun(Step(s, BeginWrite(p)), actions).writer.WriterIdle?
    ensures var r := AfterRun(Step(s, BeginWrite(p)), actions);
            exists seen: nat :: |s.delivered| <= seen <= |r.delivered| && Accepts(s, r, p, seen)
  {
    StepKeepsInv(s, BeginWrite(p));
    RunWriting(s, Step(s, BeginWrite(p)), p, actions);
  }

  /** `r` is where a call of Read for `want` bytes begun in `s` has got to. */
  ghost predicate Reading(s: State, r: State, want: nat) {
    && s.accepted <= r.accepted
    && |s.delivered| <= |s.accepted|
    && match r.reader
       case ReaderIdle =>
         exists seen: nat :: |s.accepted| <= seen <= |r.accepted| && Delivers(s, r, want, seen)
       case OwnLoaded(w, _) => w == want && r.delivered == s.delivered
       case OtherLoaded(w, _, _, seen) => w == want && r.delivered == s.delivered && |s.accepted| <= seen
       case Loading(_, _, _, seen, w) => w == want && r.delivered == s.delivered && |s.accepted| <= seen
  }

  /** Since `s` the reader has got the first `want` of the bytes waiting when `seen` were published, or all. */
  predicate Delivers(s: State, r: State, want: nat, seen: nat) {
    && |s.delivered| <= seen <= |r.accepted|
    && r.delivered == s.delivered + First(r.accepted[|s.delivered|..seen], want)
  }

  lemma StepReading(s: State, r: State, want: nat, a: Action)
    requires Inv(r) && Reading(s, r, want) && Enabled(r, a) && !a.BeginRead?
    ensures Reading(s, Step(r, a), want)
  {
    var t := Step(r, a);
    if r.reader.ReaderIdle? {
      var seen: nat :| |s.accepted| <= seen <= |r.accepted| && Delivers(s, r, want, seen);
      assert t.accepted[|s.delivered|..seen] == r.accepted[|s.delivered|..seen];
      assert Delivers(s, t, want, seen);
    } else if a.CheckData? {
      MaskBelowWrap(r.bits);
      WrappedDifference(r.reader.seen, |r.delivered|);
      if t.reader.ReaderIdle? {
        assert First(r.accepted[|s.delivered|..r.reader.seen], want) == [] && s.delivered + [] == s.delivered;
        assert Delivers(s, t, want, r.reader.seen);
      }
    } else if a.StoreHead? {
      assert First(r.accepted[|s.delivered|..r.reader.seen], want) == r.reader.out;
      assert Delivers(s, t, want, r.reader.seen);
    }
  }

  /** No other read begins among `actions`. */
  predicate NoReadBegins(actions: seq<Action>) {
    forall a :: a in actions ==> !a.BeginRead?
  }

  lemma {:induction false} RunReading(s: State, r: State, want: nat, actions: seq<Action>)
    requires Inv(r) && Reading(s, r, want) && IsRun(r, actions) && NoReadBegins(actions)
    ensures Reading(s, AfterRun(r, actions), want)
    decreases |actions|
  {
    if actions != [] {
      assert actions[0] in actions;
      StepKeepsInv(r, actions[0]);
      StepReading(s, r, want, actions[0]);
      RunReading(s, Step(r, actions[0]), want, actions[1..]);
    }
  }

  /**
   A whole call of Read, whatever the writer does meanwhile: it delivers exactly the first `want` of the
   bytes that were waiting at some moment of the call, or all of them.
   */
  lemma ReadDeliversExactly(s: State, want: nat, actions: seq<Action>)
    requires Inv(s) && s.reader.ReaderIdle? && NoReadBegins(actions)
    requires IsRun(Step(s, BeginRead(want)), actions) && AfterRun(Step(s, BeginRead(want)), actions).reader.ReaderIdle?
    ensures var r := AfterRun(Step(s, BeginRead(want)), actions);
            exists seen: nat :: |s.accepted| <= seen <= |r.accepted| && Delivers(s, r, want, seen)
  {
    StepKeepsInv(s, BeginRead(want));
    RunReading(s, Step(s, BeginRead(want)), want, actions);
  }

  // ---------------------------------------------------------------------------------------------
  // One side alone
  // ---------------------------------------------------------------------------------------------

  /** The bytes published and not yet released. */
  function Waiting(s: State): seq<byte>
    requires |s.delivered| <= |s.accepted|
  {
    s.accepted[|s.delivered|..]
  }

  predicate IsWriters(a: Action) {
    a.BeginWrite? || a.LoadHead? || a.CheckSpace? || a.StoreByte? || a.StoreTail?
  }

  lemma {:induction false} OtherSideStays(s: State, actions: seq<Action>)
    requires IsRun(s, actions)
    ensures (forall a :: a in actions ==> IsWriters(a)) ==>
              AfterRun(s, actions).delivered == s.delivered && AfterRun(s, actions).reader == s.reader
    ensures (forall a :: a in actions ==> !IsWriters(a)) ==>
              AfterRun(s, actions).accepted == s.accepted && AfterRun(s, actions).writer == s.writer
    decreases |actions|
  {
    if actions != [] {
      assert actions[0] in actions;
      OtherSideStays(Step(s, actions[0]), actions[1..]);
    }
  }

  /** With no step of the reader in between, Write is that of the sequential ring. */
  lemma WriteAlone(s: State, p: seq<byte>, actions: seq<Action>)
    requires Inv(s) && s.writer.WriterIdle? && NoWriteBegins(actions) && forall a :: a in actions ==> IsWriters(a)
    requires IsRun(Step(s, BeginWrite(p)), actions) && AfterRun(Step(s, BeginWrite(p)), actions).writer.WriterIdle?
    ensures var r := AfterRun(Step(s, BeginWrite(p)), actions);
            && r.delivered == s.delivered && |r.delivered| <= |r.accepted|
            && Waiting(r) == First(Waiting(s) + p, s.Mask())
  {
    var r := AfterRun(Step(s, BeginWrite(p)), actions);
    OtherSideStays(Step(s, BeginWrite(p)), actions);
    WriteAcceptsExactly(s, p, actions);
    var seen: nat :| |s.delivered| <= seen <= |r.delivered| && Accepts(s, r, p, seen);
    RoomFor(s.accepted, |s.delivered|, p, s.Mask());
  }

  lemma RoomFor(accepted: seq<byte>, released: nat, p: seq<byte>, mask: nat)
    requires released <= |accepted| <= released + mask
    ensures (accepted + First(p, released + mask - |accepted|))[released..] == First(accepted[released..] + p, mask)
  {
    var room := released + mask - |accepted|;
    assert (accepted + First(p, room))[released..] == accepted[released..] + First(p, room);
    assert First(accepted[released..] + p, mask) == accepted[released..] + First(p, room);
  }

  /** With no step of the writer in between, Read is that of the sequential ring. */
  lemma ReadAlone(s: State, want: nat, actions: seq<Action>)
    requires Inv(s) && s.reader.ReaderIdle? && NoReadBegins(actions) && forall a :: a in actions ==> !IsWriters(a)
    requires IsRun(Step(s, BeginRead(want)), actions) && AfterRun(Step(s, BeginRead(want)), actions).reader.ReaderIdle?
    ensures var r := AfterRun(Step(s, BeginRead(want)), actions);
            && r.accepted == s.accepted && |r.delivered| <= |r.accepted|
            && r.delivered == s.delivered + First(Waiting(s), want)
            && Waiting(r) == Waiting(s)[Least(want, |Waiting(s)|)..]
  {
    var r := AfterRun(Step(s, BeginRead(want)), actions);
    OtherSideStays(Step(s, BeginRead(want)), actions);
    ReadDeliversExactly(s, want, actions);
    var seen: nat :| |s.accepted| <= seen <= |r.accepted| && Delivers(s, r, want, seen);
    assert r.accepted[|s.delivered|..seen] == Waiting(s);
  }

  /** At most how many steps are left of a write. */
  function WriteSteps(w: Writer): int {
    match w
    case WriterIdle => 0
    case Storing(p, _, i, _, _) => 1 + |p| - i
    case HeadLoaded(p, _, _, _) => 2 + |p|
    case TailLoaded(p, _) => 3 + |p|
  }

  /** And of a read. */
  function ReadSteps(r: Reader): int {
    match r
    case ReaderIdle => 0
    case Loading(n, _, out, _, _) => 1 + n - |out|
    case OtherLoaded(want, _, _, _) => 2 + want
    case OwnLoaded(want, _) => 3 + want
  }

  /** What is left of a write can always be done without the reader. */
  lemma {:induction false} WriteCanFinish(s: State) returns (actions: seq<Action>)
    requires Inv(s)
    ensures IsRun(s, actions) && AfterRun(s, actions).writer.WriterIdle? && NoWriteBegins(actions)
    ensures forall a :: a in actions ==> IsWriters(a)
    decreases WriteSteps(s.writer)
  {
    if s.writer.WriterIdle? {
      actions := [];
    } else {
      var a := match s.writer
        case TailLoaded(_, _) => LoadHead
        case HeadLoaded(_, _, _, _) => CheckSpace
        case Storing(p, _, i, _, _) => if i < |p| then StoreByte else StoreTail;
      StepKeepsInv(s, a);
      var rest := WriteCanFinish(Step(s, a));
      actions := [a] + rest;
      assert actions[1..] == rest;
    }
  }

  /** And what is left of a read without the writer. */
  lemma {:induction false} ReadCanFinish(s: State) returns (actions: seq<Action>)
    requires Inv(s)
    ensures IsRun(s, actions) && AfterRun(s, actions).reader.ReaderIdle? && NoReadBegins(actions)
    ensures forall a :: a in actions ==> !IsWriters(a)
    decreases ReadSteps(s.reader)
  {
    if s.reader.ReaderIdle? {
      actions := [];
    } else {
      var a := match s.reader
        case OwnLoaded(_, _) => LoadTail
        case OtherLoaded(_, _, _, _) => CheckData
        case Loading(n, _, out, _, _) => if |out| < n then LoadByte else StoreHead;
      StepKeepsInv(s, a);
      var rest := ReadCanFinish(Step(s, a));
      actions := [a] + rest;
      assert actions[1..] == rest;
    }
  }
}
