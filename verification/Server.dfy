/**
 At most one accept loop, any number of connection handlers and one winning Close or Shutdown, interleaved step
 by step: the accept semaphore, the three counters, the set of open connections and the shutdown
 channels.
 */
module Server {

  /** Where the accept loop is; it is not serving before Serve or ListenAndServe gets to it. */
  datatype LoopPc = NotServing | Top | Acquiring | Accepting | Releasing | Checking | CountAccepted | CountActive | Spawning | Done

  /** Where a handler is; the last three are its deferred releases, in order. */
  datatype HandlerPc = Starting | Running | Leaving | Unregistered | Released | Decremented | Finished

  /** Where the Close or Shutdown call that won the compare-and-swap is. */
  datatype CloserPc = NotCalled | Won | Signalled | ListenerClosed | Waiting | Returned | TimedOut

  datatype State = State(
    cap: nat,                          // capacity of acceptLimit
    tokens: nat,                       // values in acceptLimit
    loop: LoopPc,
    handlers: map<nat, HandlerPc>,
    conns: set<nat>,                   // the connections Close would close
    accepted: nat, active: int, closedCount: nat,
    closed: bool,                      // the closed flag
    closing: bool,                     // whether the closing channel has been closed
    doneCloses: nat,                   // how many times closeDone has been closed
    closer: CloserPc,
    told: set<nat>)                    // history: the connections Close has closed

  datatype Action =
    | Start                            // Serve is called, or ListenAndServe has its listener
    | LoopTop
    | Acquire(token: bool)             // the select: take a token, or see closing
    | Accept(ok: bool)
    | ReleaseToken
    | CheckClosed
    | AddAccepted
    | AddActive
    | Spawn(id: nat)
    | Register(id: nat)
    | HandlerReturns(id: nat)
    | Unregister(id: nat)
    | HandlerReleases(id: nat)
    | SubActive(id: nat)
    | AddClosed(id: nat)
    | WinClose
    | SignalClosing
    | CloseListener
    | CloseConns
    | SeeDone
    | TimeOut                          // Shutdown's context ends first

  predicate At(s: State, id: nat, pc: HandlerPc) {
    id in s.handlers && s.handlers[id] == pc
  }

  /** Whether Close has closed the listener, after which Accept only reports errors. */
  predicate ListenerDown(s: State) {
    s.closer == ListenerClosed || s.closer == Waiting || s.closer == Returned || s.closer == TimedOut
  }

  predicate Enabled(s: State, a: Action) {
    match a
    case Start => s.loop == NotServing
    case LoopTop => s.loop == Top
    case Acquire(token) => s.loop == Acquiring && if token then s.tokens < s.cap else s.closing
    case Accept(ok) => s.loop == Accepting && (ok ==> !ListenerDown(s))
    case ReleaseToken => s.loop == Releasing && s.tokens > 0
    case CheckClosed => s.loop == Checking
    case AddAccepted => s.loop == CountAccepted
    case AddActive => s.loop == CountActive
    case Spawn(id) => s.loop == Spawning && id !in s.handlers
    case Register(id) => At(s, id, Starting)
    case HandlerReturns(id) => At(s, id, Running)
    case Unregister(id) => At(s, id, Leaving)
    case HandlerReleases(id) => At(s, id, Unregistered) && s.tokens > 0
    case SubActive(id) => At(s, id, Released)
    case AddClosed(id) => At(s, id, Decremented)
    case WinClose => !s.closed
    case SignalClosing => s.closer == Won
    case CloseListener => s.closer == Signalled
    case CloseConns => s.closer == ListenerClosed
    case SeeDone => s.closer == Waiting && s.doneCloses > 0
    case TimeOut => s.closer == Waiting
  }

  function Exit(s: State): State {
    s.(loop := Done, doneCloses := s.doneCloses + 1)
  }

  function Move(s: State, id: nat, pc: HandlerPc): State {
    s.(handlers := s.handlers[id := pc])
  }

  function Step(s: State, a: Action): State
    requires Enabled(s, a)
  {
    match a
    case Start => s.(loop := Top)
    case LoopTop => if s.closing then Exit(s) else s.(loop := Acquiring)
    case Acquire(token) => if token then s.(tokens := s.tokens + 1, loop := Accepting) else Exit(s)
    case Accept(ok) => s.(loop := if ok then CountAccepted else Releasing)
    case ReleaseToken => s.(tokens := s.tokens - 1, loop := Checking)
    case CheckClosed => if s.closed then Exit(s) else s.(loop := Top)
    case AddAccepted => s.(accepted := s.accepted + 1, loop := CountActive)
    case AddActive => s.(active := s.active + 1, loop := Spawning)
    case Spawn(id) => Move(s, id, Starting).(loop := Top)
    case Register(id) => Move(s, id, Running).(conns := s.conns + {id})
    case HandlerReturns(id) => Move(s, id, Leaving)
    case Unregister(id) => Move(s, id, Unregistered).(conns := s.conns - {id})
    case HandlerReleases(id) => Move(s, id, Released).(tokens := s.tokens - 1)
    case SubActive(id) => Move(s, id, Decremented).(active := s.active - 1)
    case AddClosed(id) => Move(s, id, Finished).(closedCount := s.closedCount + 1)
    case WinClose => s.(closed := true, closer := Won)
    case SignalClosing => s.(closing := true, closer := Signalled)
    case CloseListener => s.(closer := ListenerClosed)
    case CloseConns => s.(closer := Waiting, told := s.conns)
    case SeeDone => s.(closer := Returned)
    case TimeOut => s.(closer := TimedOut)
  }

  predicate IsRun(s: State, actions: seq<Action>)
    decreases |actions|
  {
    actions == [] || (Enabled(s, actions[0]) && IsRun(Step(s, actions[0]), actions[1..]))
  }

  function AfterRun(s: State, actions: seq<Action>): State
    requires IsRun(s, actions)
    decreases |actions|
  {
    if actions == [] then s else AfterRun(Step(s, actions[0]), actions[1..])
  }

  function NewServer(cap: nat): State {
    State(cap, 0, NotServing, map[], {}, 0, 0, 0, false, false, 0, NotCalled, {})
  }

  // ---------------------------------------------------------------------------------------------
  // Counting handlers
  // ---------------------------------------------------------------------------------------------

  /** The handlers that are at one of the given points. */
  function AtOneOf(s: State, pcs: set<HandlerPc>): set<nat> {
    set id | id in s.handlers && s.handlers[id] in pcs
  }

  function Count(s: State, pcs: set<HandlerPc>): nat {
    |AtOneOf(s, pcs)|
  }

  lemma CountMoves(s: State, id: nat, pc: HandlerPc, pcs: set<HandlerPc>)
    ensures var before := id in s.handlers && s.handlers[id] in pcs;
            Count(Move(s, id, pc), pcs) + (if before then 1 else 0) == Count(s, pcs) + if pc in pcs then 1 else 0
  {
    var before, after := AtOneOf(s, pcs), AtOneOf(Move(s, id, pc), pcs);
    var rest := before - {id};
    assert after - {id} == rest;
    WithOrWithout(before, id);
    WithOrWithout(after, id);
  }

  lemma WithOrWithout(ids: set<nat>, id: nat)
    ensures |ids| == |ids - {id}| + if id in ids then 1 else 0
  {
    if id in ids {
      assert ids == (ids - {id}) + {id};
    } else {
      assert ids == ids - {id};
    }
  }

  // ---------------------------------------------------------------------------------------------
  // The invariant
  // ---------------------------------------------------------------------------------------------

  /** The handlers that have not given their token back. */
  const HOLDING: set<HandlerPc> := {Starting, Running, Leaving, Unregistered}
  const COUNTED_ACTIVE: set<HandlerPc> := {Starting, Running, Leaving, Unregistered, Released}
  const ALL: set<HandlerPc> := {Starting, Running, Leaving, Unregistered, Released, Decremented, Finished}

  predicate LoopHolds(pc: LoopPc) {
    pc == Accepting || pc == Releasing || pc == CountAccepted || pc == CountActive || pc == Spawning
  }

  function One(b: bool): nat {
    if b then 1 else 0
  }

  /** The part of the invariant that counts handlers. */
  predicate Counted(s: State) {
    && s.tokens == One(LoopHolds(s.loop)) + Count(s, HOLDING)
    && s.accepted == Count(s, ALL) + One(s.loop == CountActive || s.loop == Spawning)
    && s.active == Count(s, COUNTED_ACTIVE) + One(s.loop == Spawning)
    && s.closedCount == Count(s, {Finished})
    && s.conns == AtOneOf(s, {Running, Leaving})
  }

  /** The part about shutting down. */
  predicate Orderly(s: State) {
    && s.doneCloses == One(s.loop == Done)
    && (s.loop == Done ==> s.closed)
    && (s.closing ==> s.closed)
    && (s.closed <==> s.closer != NotCalled)
    && (s.closing <==> s.closer != NotCalled && s.closer != Won)
    && (s.closer == Returned ==> s.loop == Done)
  }

  predicate Inv(s: State) {
    s.tokens <= s.cap && Counted(s) && Orderly(s)
  }

  /** Counts depend on the handlers alone. */
  lemma SameHandlers(s: State, t: State, pcs: set<HandlerPc>)
    requires s.handlers == t.handlers
    ensures AtOneOf(s, pcs) == AtOneOf(t, pcs)
  {
  }

  predicate IsAt(s: State, id: nat, pcs: set<HandlerPc>) {
    id in s.handlers && s.handlers[id] in pcs
  }

  /** What moving one handler does to a count. */
  lemma MoveCount(s: State, t: State, id: nat, pc: HandlerPc, pcs: set<HandlerPc>)
    requires t.handlers == s.handlers[id := pc]
    ensures Count(t, pcs) + One(IsAt(s, id, pcs)) == Count(s, pcs) + One(pc in pcs)
  {
    CountMoves(s, id, pc, pcs);
    SameHandlers(t, Move(s, id, pc), pcs);
  }

  /** The handler whose point a step changes, and to what. */
  predicate Moves(a: Action, id: nat, pc: HandlerPc) {
    match a
    case Spawn(i) => i == id && pc == Starting
    case Register(i) => i == id && pc == Running
    case HandlerReturns(i) => i == id && pc == Leaving
    case Unregister(i) => i == id && pc == Unregistered
    case HandlerReleases(i) => i == id && pc == Released
    case SubActive(i) => i == id && pc == Decremented
    case AddClosed(i) => i == id && pc == Finished
    case _ => false
  }

  lemma HandlerStepCounted(s: State, a: Action, id: nat, pc: HandlerPc)
    requires Counted(s) && Enabled(s, a) && Moves(a, id, pc)
    ensures Counted(Step(s, a))
  {
    var t := Step(s, a);
    assert t.handlers == s.handlers[id := pc];
    assert Count(t, HOLDING) == Count(s, HOLDING) + One(pc == Starting) - One(pc == Released) by {
      MoveCount(s, t, id, pc, HOLDING);
    }
    assert Count(t, ALL) == Count(s, ALL) + One(pc == Starting) by {
      MoveCount(s, t, id, pc, ALL);
    }
    assert Count(t, COUNTED_ACTIVE) == Count(s, COUNTED_ACTIVE) + One(pc == Starting) - One(pc == Decremented) by {
      MoveCount(s, t, id, pc, COUNTED_ACTIVE);
    }
    assert Count(t, {Finished}) == Count(s, {Finished}) + One(pc == Finished) by {
      MoveCount(s, t, id, pc, {Finished});
    }
    assert t.conns == AtOneOf(t, {Running, Leaving});
  }

  lemma OtherStepCounted(s: State, a: Action)
    requires Counted(s) && Enabled(s, a) && forall id, pc :: !Moves(a, id, pc)
    ensures Counted(Step(s, a))
  {
    var t := Step(s, a);
    assert t.handlers == s.handlers by {
      match a
      case Spawn(id) => assert Moves(a, id, Starting);
      case Register(id) => assert Moves(a, id, Running);
      case HandlerReturns(id) => assert Moves(a, id, Leaving);
      case Unregister(id) => assert Moves(a, id, Unregistered);
      case HandlerReleases(id) => assert Moves(a, id, Released);
      case SubActive(id) => assert Moves(a, id, Decremented);
      case AddClosed(id) => assert Moves(a, id, Finished);
      case _ =>
    }
    SameHandlers(s, t, HOLDING);
    SameHandlers(s, t, ALL);
    SameHandlers(s, t, COUNTED_ACTIVE);
    SameHandlers(s, t, {Finished});
    SameHandlers(s, t, {Running, Leaving});
  }

  lemma StepKeepsInv(s: State, a: Action)
    requires Inv(s) && Enabled(s, a)
    ensures Inv(Step(s, a))
  {
    if id, pc :| Moves(a, id, pc) {
      HandlerStepCounted(s, a, id, pc);
    } else {
      OtherStepCounted(s, a);
    }
  }

  lemma {:induction false} RunKeepsInv(s: State, actions: seq<Action>)
    requires Inv(s) && IsRun(s, actions)
    ensures Inv(AfterRun(s, actions)) && AfterRun(s, actions).cap == s.cap
    decreases |actions|
  {
    if actions != [] {
      StepKeepsInv(s, actions[0]);
      RunKeepsInv(Step(s, actions[0]), actions[1..]);
    }
  }

  lemma StartInv(cap: nat)
    ensures Inv(NewServer(cap))
  {
    var s := NewServer(cap);
    assert AtOneOf(s, HOLDING) == AtOneOf(s, ALL) == AtOneOf(s, COUNTED_ACTIVE) == {};
    assert AtOneOf(s, {Finished}) == AtOneOf(s, {Running, Leaving}) == {};
  }

  // ---------------------------------------------------------------------------------------------
  // What holds over every run
  // ---------------------------------------------------------------------------------------------

  /**
   Permit conservation: the tokens taken are those of the handlers that have not released theirs and,
   while it is between taking one and handing it on, the accept loop's. So at most `cap` handlers live
   at once, and no release ever finds the semaphore empty.
   */
  lemma PermitsConserved(cap: nat, actions: seq<Action>)
    requires IsRun(NewServer(cap), actions)
    ensures var s := AfterRun(NewServer(cap), actions);
            && s.tokens == One(LoopHolds(s.loop)) + Count(s, HOLDING) <= cap
            && Count(s, HOLDING) <= cap
            && (s.loop == Releasing ==> s.tokens > 0)
            && (forall id :: At(s, id, Unregistered) ==> s.tokens > 0)
  {
    StartInv(cap);
    RunKeepsInv(NewServer(cap), actions);
    var s := AfterRun(NewServer(cap), actions);
    forall id | At(s, id, Unregistered)
      ensures s.tokens > 0
    {
      assert id in AtOneOf(s, HOLDING);
    }
  }

  /** Any number of free permits can be handed to handlers. */
  lemma {:induction false} PermitsCanBeTaken(s: State, k: nat) returns (actions: seq<Action>)
    requires Inv(s) && s.loop == Top && s.closer == NotCalled && s.tokens + k <= s.cap
    ensures IsRun(s, actions) && Count(AfterRun(s, actions), HOLDING) == Count(s, HOLDING) + k
    decreases k
  {
    actions := [];
    if k > 0 {
      var id := FreshId(s.handlers.Keys);
      var s1 := Step(s, LoopTop);
      var s2 := Step(s1, Acquire(true));
      var s3 := Step(s2, Accept(true));
      var s4 := Step(s3, AddAccepted);
      var s5 := Step(s4, AddActive);
      var s6 := Step(s5, Spawn(id));
      assert Inv(s6) && Count(s6, HOLDING) == Count(s, HOLDING) + 1 by {
        StepKeepsInv(s, LoopTop);
        StepKeepsInv(s1, Acquire(true));
        StepKeepsInv(s2, Accept(true));
        StepKeepsInv(s3, AddAccepted);
        StepKeepsInv(s4, AddActive);
        StepKeepsInv(s5, Spawn(id));
      }
      actions := PermitsCanBeTaken(s6, k - 1);
      var end := AfterRun(s6, actions);
      StepThen(s5, Spawn(id), s6, actions, end);
      actions := [Spawn(id)] + actions;
      StepThen(s4, AddActive, s5, actions, end);
      actions := [AddActive] + actions;
      StepThen(s3, AddAccepted, s4, actions, end);
      actions := [AddAccepted] + actions;
      StepThen(s2, Accept(true), s3, actions, end);
      actions := [Accept(true)] + actions;
      StepThen(s1, Acquire(true), s2, actions, end);
      actions := [Acquire(true)] + actions;
      StepThen(s, LoopTop, s1, actions, end);
      actions := [LoopTop] + actions;
    }
  }

  /** The limit is reached: as many handlers as the server was made for can live at once. */
  lemma LimitIsReached(cap: nat) returns (actions: seq<Action>)
    ensures IsRun(NewServer(cap), actions) && Count(AfterRun(NewServer(cap), actions), HOLDING) == cap
  {
    var s0 := NewServer(cap);
    var s1 := Step(s0, Start);
    StartInv(cap);
    StepKeepsInv(s0, Start);
    assert AtOneOf(s1, HOLDING) == {};
    actions := PermitsCanBeTaken(s1, cap);
    StepThen(s0, Start, s1, actions, AfterRun(s1, actions));
    actions := [Start] + actions;
  }

  /** Every accepted connection is active or closed, except while its counters are being updated. */
  lemma CountersAgree(cap: nat, actions: seq<Action>)
    requires IsRun(NewServer(cap), actions)
    ensures var s := AfterRun(NewServer(cap), actions);
            && s.active >= 0
            && s.accepted == s.active + s.closedCount + One(s.loop == CountActive) + Count(s, {Decremented})
  {
    var s := AfterRun(NewServer(cap), actions);
    assert Counted(s) by {
      StartInv(cap);
      RunKeepsInv(NewServer(cap), actions);
    }
    assert Count(s, ALL) == Count(s, COUNTED_ACTIVE) + Count(s, {Decremented}) + Count(s, {Finished}) by {
      HandlersByCounter(s);
    }
  }

  /** Each handler is counted active, or is between its two counters, or is finished. */
  lemma HandlersByCounter(s: State)
    ensures Count(s, ALL) == Count(s, COUNTED_ACTIVE) + Count(s, {Decremented}) + Count(s, {Finished})
  {
    var a, d, f := AtOneOf(s, COUNTED_ACTIVE), AtOneOf(s, {Decremented}), AtOneOf(s, {Finished});
    assert AtOneOf(s, ALL) == a + d + f;
    assert a !! d && (a + d) !! f;
  }

  /** closeDone is closed at most once, and Close returns nil only after the accept loop has ended. */
  lemma CloseIsOrderly(cap: nat, actions: seq<Action>)
    requires IsRun(NewServer(cap), actions)
    ensures var s := AfterRun(NewServer(cap), actions);
            && s.doneCloses <= 1 && (s.doneCloses == 1 <==> s.loop == Done)
            && (s.closer == Returned ==> s.loop == Done)
  {
    StartInv(cap);
    RunKeepsInv(NewServer(cap), actions);
  }

  // ---------------------------------------------------------------------------------------------
  // Whether Close returns
  // ---------------------------------------------------------------------------------------------

  /** Putting a step in front of a run. */
  lemma StepThen(s: State, a: Action, t: State, rest: seq<Action>, end: State)
    requires Enabled(s, a) && Step(s, a) == t && IsRun(t, rest) && AfterRun(t, rest) == end
    ensures IsRun(s, [a] + rest) && AfterRun(s, [a] + rest) == end
  {
    assert ([a] + rest)[1..] == rest;
  }

  predicate IsLoopAction(a: Action) {
    a.Start? || a.LoopTop? || a.Acquire? || a.Accept? || a.ReleaseToken? || a.CheckClosed? || a.AddAccepted? || a.AddActive? || a.Spawn?
  }

  function StepsToDone(pc: LoopPc): nat {
    match pc
    case Done => 0
    case Top => 1
    case Checking => 1
    case NotServing => 2
    case Spawning => 2
    case Releasing => 2
    case CountActive => 3
    case CountAccepted => 4
    case Accepting => 5
    case Acquiring => 6
  }

  /**
   Once closing is signalled, every step of the accept loop brings it nearer its end, at most six steps
   away, and no other step moves it.
   */
  lemma LoopEndsAfterClosing(s: State, a: Action)
    requires Inv(s) && s.closing && Enabled(s, a)
    ensures Step(s, a).closing
    ensures IsLoopAction(a) ==> StepsToDone(Step(s, a).loop) < StepsToDone(s.loop) <= 6
    ensures !IsLoopAction(a) ==> Step(s, a).loop == s.loop
  {
  }

  /** A loop that has been started and not ended has a step it can take. */
  lemma LoopCanStep(s: State) returns (a: Action)
    requires Inv(s) && s.closing && s.loop != Done && s.loop != NotServing
    ensures IsLoopAction(a) && !a.Start? && Enabled(s, a)
  {
    match s.loop
    case Top => a := LoopTop;
    case Acquiring => a := Acquire(false);
    case Accepting => a := Accept(false);
    case Releasing => a := ReleaseToken;
    case Checking => a := CheckClosed;
    case CountAccepted => a := AddAccepted;
    case CountActive => a := AddActive;
    case Spawning =>
      var id := FreshId(s.handlers.Keys);
      a := Spawn(id);
  }

  lemma {:induction false} FreshId(ids: set<nat>) returns (id: nat)
    ensures forall i :: i in ids ==> i < id
    decreases ids
  {
    if ids == {} {
      id := 0;
    } else {
      var i :| i in ids;
      var j := FreshId(ids - {i});
      id := if i < j then j else i + 1;
      assert forall k :: k in ids ==> k == i || k in ids - {i};
    }
  }

  /** From a waiting Close to its return, when the loop is running. */
  lemma {:induction false} LoopRunsOut(s: State) returns (actions: seq<Action>)
    requires Inv(s) && s.closer == Waiting && s.loop != NotServing
    ensures IsRun(s, actions) && Start !in actions && AfterRun(s, actions).closer == Returned
    decreases StepsToDone(s.loop)
  {
    var a, rest := SeeDone, [];
    if s.loop != Done {
      a := LoopCanStep(s);
      StepKeepsInv(s, a);
      LoopEndsAfterClosing(s, a);
      rest := LoopRunsOut(Step(s, a));
    }
    StepThen(s, a, Step(s, a), rest, AfterRun(Step(s, a), rest));
    actions := [a] + rest;
  }

  /** Without a Start a loop that is not serving never serves, and nobody closes closeDone. */
  lemma {:induction false} NeverServed(s: State, actions: seq<Action>)
    requires Inv(s) && s.closer != Returned && s.loop == NotServing && IsRun(s, actions) && Start !in actions
    ensures AfterRun(s, actions).closer != Returned
    decreases |actions|
  {
    if actions != [] {
      assert actions[0] in actions;
      StepKeepsInv(s, actions[0]);
      NeverServed(Step(s, actions[0]), actions[1..]);
    }
  }

  /** A Close that waits can still return, with no later call of Serve, if and only if serving was started. */
  lemma CloseReturnsIfServing(s: State)
    requires Inv(s) && s.closer == Waiting
    ensures (exists actions :: IsRun(s, actions) && Start !in actions && AfterRun(s, actions).closer == Returned)
            <==> s.loop != NotServing
  {
    if s.loop != NotServing {
      var actions := LoopRunsOut(s);
    } else {
      forall actions | IsRun(s, actions) && Start !in actions
        ensures AfterRun(s, actions).closer != Returned
      {
        NeverServed(s, actions);
      }
    }
  }

  /** Close called on a server that is not serving: it comes to wait, and waits until someone serves. */
  lemma CloseWithoutServing(cap: nat) returns (actions: seq<Action>)
    ensures IsRun(NewServer(cap), actions)
    ensures var s := AfterRun(NewServer(cap), actions);
            && s.closer == Waiting
            && forall more :: IsRun(s, more) && Start !in more ==> AfterRun(s, more).closer != Returned
  {
    var s0 := NewServer(cap);
    var s1 := Step(s0, WinClose);
    var s2 := Step(s1, SignalClosing);
    var s3 := Step(s2, CloseListener);
    var s4 := Step(s3, CloseConns);
    StepThen(s3, CloseConns, s4, [], s4);
    StepThen(s2, CloseListener, s3, [CloseConns] + [], s4);
    StepThen(s1, SignalClosing, s2, [CloseListener] + ([CloseConns] + []), s4);
    actions := [WinClose] + ([SignalClosing] + ([CloseListener] + ([CloseConns] + [])));
    StepThen(s0, WinClose, s1, actions[1..], s4);
    StartInv(cap);
    RunKeepsInv(s0, actions);
    CloseReturnsIfServing(s4);
  }

  // ---------------------------------------------------------------------------------------------
  // Which connections Close reaches
  // ---------------------------------------------------------------------------------------------

  /** Every handler that runs has had its connection closed by Close. */
  ghost predicate AllTold(s: State) {
    forall id :: IsAt(s, id, {Running, Leaving}) ==> id in s.told
  }

  /** The accept loop has a connection in hand whose handler is still to be started. */
  predicate HandsOn(pc: LoopPc) {
    pc == CountAccepted || pc == CountActive || pc == Spawning
  }

  /** Close has taken its list and no connection is on its way to a handler or in one that has not registered. */
  ghost predicate Sealed(s: State) {
    && s.closed && (s.closer == Waiting || s.closer == Returned || s.closer == TimedOut)
    && !HandsOn(s.loop) && AllTold(s) && forall id :: !At(s, id, Starting)
  }

  lemma StepKeepsSealed(s: State, a: Action)
    requires Sealed(s) && Enabled(s, a)
    ensures Sealed(Step(s, a))
  {
    var t := Step(s, a);
    forall id
      ensures !At(t, id, Starting)
      ensures IsAt(t, id, {Running, Leaving}) ==> id in t.told
    {
      assert !At(s, id, Starting) && (IsAt(s, id, {Running, Leaving}) ==> id in s.told);
    }
  }

  lemma {:induction false} RunKeepsSealed(s: State, actions: seq<Action>)
    requires Sealed(s) && IsRun(s, actions)
    ensures AllTold(AfterRun(s, actions))
    decreases |actions|
  {
    if actions != [] {
      StepKeepsSealed(s, actions[0]);
      RunKeepsSealed(Step(s, actions[0]), actions[1..]);
    }
  }

  /** A handler on its way to registering ends up running without having been reached. */
  lemma StartingIsMissed(t: State, id: nat) returns (actions: seq<Action>)
    requires At(t, id, Starting) && id !in t.told
    ensures IsRun(t, actions) && !AllTold(AfterRun(t, actions))
  {
    var end := Step(t, Register(id));
    StepThen(t, Register(id), end, [], end);
    actions := [Register(id)] + [];
    assert IsAt(end, id, {Running, Leaving});
  }

  /** So does one whose connection the accept loop has in hand. */
  lemma {:induction false} HandedOnIsMissed(t: State) returns (actions: seq<Action>)
    requires HandsOn(t.loop) && t.told <= t.handlers.Keys
    ensures IsRun(t, actions) && !AllTold(AfterRun(t, actions))
    decreases StepsToDone(t.loop)
  {
    var a, rest := AddAccepted, [];
    if t.loop == Spawning {
      var id := FreshId(t.handlers.Keys);
      a := Spawn(id);
      assert id !in t.told;
      rest := StartingIsMissed(Step(t, a), id);
    } else {
      a := if t.loop == CountAccepted then AddAccepted else AddActive;
      rest := HandedOnIsMissed(Step(t, a));
    }
    StepThen(t, a, Step(t, a), rest, AfterRun(Step(t, a), rest));
    actions := [a] + rest;
  }

  lemma ListIsSealed(s: State)
    requires Inv(s) && Enabled(s, CloseConns) && !HandsOn(s.loop) && AtOneOf(s, {Starting}) == {}
    ensures Sealed(Step(s, CloseConns))
  {
    var t := Step(s, CloseConns);
    assert t.told == AtOneOf(s, {Running, Leaving});
    forall id
      ensures !At(t, id, Starting)
      ensures IsAt(t, id, {Running, Leaving}) ==> id in t.told
    {
      assert id !in AtOneOf(s, {Starting});
    }
  }

  /**
   Close closes every connection whose handler ever runs from then on if and only if, when it takes its
   list, no handler is between its start and its registration and the accept loop has no connection in
   hand.
   */
  lemma CloseReachesAllExactly(s: State)
    requires Inv(s) && Enabled(s, CloseConns)
    ensures (forall actions :: IsRun(Step(s, CloseConns), actions) ==> AllTold(AfterRun(Step(s, CloseConns), actions)))
            <==> Count(s, {Starting}) == 0 && !HandsOn(s.loop)
  {
    var t := Step(s, CloseConns);
    if HandsOn(s.loop) {
      var actions := HandedOnIsMissed(t);
    } else if id :| id in AtOneOf(s, {Starting}) {
      var actions := StartingIsMissed(t, id);
    } else {
      ListIsSealed(s);
      forall actions | IsRun(t, actions)
        ensures AllTold(AfterRun(t, actions))
      {
        RunKeepsSealed(t, actions);
      }
    }
  }

  /** From a Close that has its list, past a registration, to its return. */
  lemma CloseReturns(s: State, end: State) returns (actions: seq<Action>)
    requires s == State(1, 1, Top, map[0 := Starting], {}, 1, 1, 0, true, true, 0, ListenerClosed, {})
    requires end == State(1, 1, Done, map[0 := Running], {0}, 1, 1, 0, true, true, 1, Returned, {})
    ensures IsRun(s, actions) && AfterRun(s, actions) == end
  {
    var s4 := s.(closer := Waiting);
    var s5 := s4.(loop := Done, doneCloses := 1);
    var s6 := s5.(closer := Returned);
    assert s6.handlers[0 := Running] == end.handlers && s6.conns + {0} == end.conns;
    StepThen(s6, Register(0), end, [], end);
    var r := [Register(0)] + [];
    StepThen(s5, SeeDone, s6, r, end);
    r := [SeeDone] + r;
    StepThen(s4, LoopTop, s5, r, end);
    r := [LoopTop] + r;
    StepThen(s, CloseConns, s4, r, end);
    actions := [CloseConns] + r;
  }

  /** From a spawned handler, through a whole Close, to that handler running. */
  lemma CloseThenRun(s: State, end: State) returns (actions: seq<Action>)
    requires s == State(1, 1, Top, map[0 := Starting], {}, 1, 1, 0, false, false, 0, NotCalled, {})
    requires end == State(1, 1, Done, map[0 := Running], {0}, 1, 1, 0, true, true, 1, Returned, {})
    ensures IsRun(s, actions) && AfterRun(s, actions) == end
  {
    var s1 := s.(closed := true, closer := Won);
    var s2 := s1.(closing := true, closer := Signalled);
    var r := CloseReturns(s2.(closer := ListenerClosed), end);
    StepThen(s2, CloseListener, s2.(closer := ListenerClosed), r, end);
    r := [CloseListener] + r;
    StepThen(s1, SignalClosing, s2, r, end);
    r := [SignalClosing] + r;
    StepThen(s, WinClose, s1, r, end);
    actions := [WinClose] + r;
  }

  lemma SpawnThenClose(s: State, end: State) returns (actions: seq<Action>)
    requires s == State(1, 1, CountAccepted, map[], {}, 0, 0, 0, false, false, 0, NotCalled, {})
    requires end == State(1, 1, Done, map[0 := Running], {0}, 1, 1, 0, true, true, 1, Returned, {})
    ensures IsRun(s, actions) && AfterRun(s, actions) == end
  {
    var s4 := s.(accepted := 1, loop := CountActive);
    var s5 := s4.(active := 1, loop := Spawning);
    var s6 := State(1, 1, Top, map[0 := Starting], {}, 1, 1, 0, false, false, 0, NotCalled, {});
    var r := CloseThenRun(s6, end);
    StepThen(s5, Spawn(0), s6, r, end);
    r := [Spawn(0)] + r;
    StepThen(s4, AddActive, s5, r, end);
    r := [AddActive] + r;
    StepThen(s, AddAccepted, s4, r, end);
    actions := [AddAccepted] + r;
  }

  /**
   Close does not wait for handlers, nor does it reach every connection: one that registers after
   Close has taken its list of connections is still running when Close has returned nil.
   */
  lemma HandlerOutlivesClose() returns (actions: seq<Action>)
    ensures IsRun(NewServer(1), actions)
    ensures var s := AfterRun(NewServer(1), actions); s.closer == Returned && At(s, 0, Running)
  {
    var end := State(1, 1, Done, map[0 := Running], {0}, 1, 1, 0, true, true, 1, Returned, {});
    var s3 := State(1, 1, CountAccepted, map[], {}, 0, 0, 0, false, false, 0, NotCalled, {});
    var r := SpawnThenClose(s3, end);
    var s0 := NewServer(1).(loop := Top);
    var s1 := s0.(loop := Acquiring);
    var s2 := s1.(tokens := 1, loop := Accepting);
    StepThen(s2, Accept(true), s3, r, end);
    r := [Accept(true)] + r;
    StepThen(s1, Acquire(true), s2, r, end);
    r := [Acquire(true)] + r;
    StepThen(s0, LoopTop, s1, r, end);
    r := [LoopTop] + r;
    StepThen(NewServer(1), Start, s0, r, end);
    actions := [Start] + r;
  }
}
