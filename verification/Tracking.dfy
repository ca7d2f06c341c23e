/**
  The tracking listener: a wait group counts accepted connections so that shutdown can wait for
  them. Accepts, repeated and concurrent closes, and the final wait interleave step by step.
*/
module Tracking {
  import opened Common

  /** The once flag of a connection: its first close call runs the decrement, the others wait for it. */
  datatype Once = Unfired | Running(call: nat) | Fired

  /** Where a close call is: before the once, inside it, or about to close the connection underneath. */
  datatype Phase = Entering | Inside | Past
  datatype Call = Call(conn: nat, phase: Phase)

  datatype Wait = NotCalled | Blocked | Returned

  datatype State = State(
    count: int,             // the wait-group counter
    accepting: set<nat>,    // accept calls in progress
    conns: map<nat, Once>,  // accepted connections
    calls: map<nat, Call>,  // close calls in progress
    closed: set<nat>,       // connections closed underneath
    looping: bool,          // the accept loop runs
    wait: Wait)

  const LISTENING := State(0, {}, map[], map[], {}, true, NotCalled)

  datatype Action =
    | BeginAccept(a: nat)
    | EndAccept(a: nat, conn: nat)
    | FailAccept(a: nat)
    | BeginClose(call: nat, conn: nat)
    | EnterOnce(call: nat)
    | Decrement(call: nat)
    | CloseUnderneath(call: nat)
    | EndLoop
    | BeginWait
    | EndWait

  predicate Enabled(s: State, x: Action) {
    match x
    case BeginAccept(a) => s.looping && a !in s.accepting
    case EndAccept(a, conn) => a in s.accepting && conn !in s.conns
    case FailAccept(a) => a in s.accepting
    case BeginClose(call, conn) => call !in s.calls && conn in s.conns
    case EnterOnce(call) =>
      call in s.calls && s.calls[call].phase.Entering? &&
      s.calls[call].conn in s.conns && !s.conns[s.calls[call].conn].Running?
    case Decrement(call) => call in s.calls && s.calls[call].phase.Inside?
    case CloseUnderneath(call) => call in s.calls && s.calls[call].phase.Past?
    case EndLoop => s.looping && s.accepting == {}
    case BeginWait => !s.looping && s.wait == NotCalled
    case EndWait => s.wait == Blocked && s.count == 0
  }

  /** One step; a step that is not enabled changes nothing. */
  function Step(s: State, x: Action): State {
    if !Enabled(s, x) then s
    else match x
      case BeginAccept(a) => s.(count := s.count + 1, accepting := s.accepting + {a})
      case EndAccept(a, conn) => s.(accepting := s.accepting - {a}, conns := s.conns[conn := Unfired])
      case FailAccept(a) => s.(count := s.count - 1, accepting := s.accepting - {a})
      case BeginClose(call, conn) => s.(calls := s.calls[call := Call(conn, Entering)])
      case EnterOnce(call) =>
        var conn := s.calls[call].conn;
        if s.conns[conn].Fired? then s.(calls := s.calls[call := Call(conn, Past)])
        else s.(conns := s.conns[conn := Running(call)], calls := s.calls[call := Call(conn, Inside)])
      case Decrement(call) =>
        var conn := s.calls[call].conn;
        s.(count := s.count - 1, conns := s.conns[conn := Fired], calls := s.calls[call := Call(conn, Past)])
      case CloseUnderneath(call) => s.(calls := s.calls - {call}, closed := s.closed + {s.calls[call].conn})
      case EndLoop => s.(looping := false)
      case BeginWait => s.(wait := Blocked)
      case EndWait => s.(wait := Returned)
  }

  function After(s: State, run: Run<Action>): State {
    match run
    case Start => s
    case Then(before, x) => Step(After(s, before), x)
  }

  /** The connections that still count: their once has not completed. */
  function Pending(s: State): set<nat> {
    set c | c in s.conns && s.conns[c] != Fired
  }

  /** Every call is where the once of its connection says. */
  ghost predicate CallsMatch(s: State) {
    (forall k :: k in s.calls ==> s.calls[k].conn in s.conns) &&
    (forall k :: k in s.calls && s.calls[k].phase.Inside? ==> s.conns[s.calls[k].conn] == Running(k)) &&
    (forall k :: k in s.calls && s.calls[k].phase.Past? ==> s.conns[s.calls[k].conn] == Fired)
  }

  /** Every running once has its call. */
  ghost predicate OncesMatch(s: State) {
    forall c :: c in s.conns && s.conns[c].Running? ==>
      s.conns[c].call in s.calls && s.calls[s.conns[c].call] == Call(c, Inside)
  }

  ghost predicate CallsInv(s: State) {
    CallsMatch(s) && OncesMatch(s)
  }

  ghost predicate EndInv(s: State) {
    (!s.looping ==> s.accepting == {}) && (s.wait != NotCalled ==> !s.looping) &&
    (s.wait == Returned ==> Pending(s) == {})
  }

  ghost predicate ClosedInv(s: State) {
    forall c :: c in s.closed ==> c in s.conns && s.conns[c] == Fired
  }

  ghost predicate Inv(s: State) {
    s.count == |s.accepting| + |Pending(s)| && CallsInv(s) && EndInv(s) && ClosedInv(s)
  }

  lemma StepKeepsOnces(s: State, x: Action)
    requires CallsInv(s)
    ensures OncesMatch(Step(s, x))
  {
  }

  lemma StepKeepsCalls(s: State, x: Action)
    requires CallsInv(s)
    ensures CallsInv(Step(s, x))
  {
    StepKeepsOnces(s, x);
  }

  /** How one step changes the connections that count. */
  lemma PendingChange(s: State, x: Action)
    requires CallsInv(s)
    ensures Pending(Step(s, x)) ==
      if !Enabled(s, x) then Pending(s)
      else if x.EndAccept? then Pending(s) + {x.conn}
      else if x.Decrement? then Pending(s) - {s.calls[x.call].conn}
      else Pending(s)
    ensures Enabled(s, x) && x.Decrement? ==> s.calls[x.call].conn in Pending(s)
  {
  }

  lemma StepKeepsCount(s: State, x: Action)
    requires Inv(s)
    ensures Step(s, x).count == |Step(s, x).accepting| + |Pending(Step(s, x))|
  {
    PendingChange(s, x);
  }

  lemma StepKeepsEnd(s: State, x: Action)
    requires Inv(s)
    ensures EndInv(Step(s, x))
  {
    PendingChange(s, x);
  }

  lemma StepKeepsClosed(s: State, x: Action)
    requires CallsInv(s) && ClosedInv(s)
    ensures ClosedInv(Step(s, x))
  {
  }

  lemma StepKeepsInv(s: State, x: Action)
    requires Inv(s)
    ensures Inv(Step(s, x))
  {
    StepKeepsCalls(s, x);
    StepKeepsCount(s, x);
    StepKeepsEnd(s, x);
    StepKeepsClosed(s, x);
  }

  /** At every step the counter is the accepts in progress plus the connections whose once has not completed. */
  lemma {:induction false} CountIsExact(run: Run<Action>)
    ensures Inv(After(LISTENING, run)) && After(LISTENING, run).count >= 0
    ensures After(LISTENING, run).count == |After(LISTENING, run).accepting| + |Pending(After(LISTENING, run))|
  {
    match run
    case Start => assert Pending(LISTENING) == {};
    case Then(before, x) =>
      CountIsExact(before);
      StepKeepsInv(After(LISTENING, before), x);
  }

  /** Some close call has begun on the connection. */
  ghost predicate CloseBegun(run: Run<Action>, conn: nat) {
    run.Then? && (CloseBegun(run.before, conn) ||
      (run.action.BeginClose? && run.action.conn == conn && Enabled(After(LISTENING, run.before), run.action)))
  }

  ghost predicate Closing(s: State, conn: nat) {
    exists k :: k in s.calls && s.calls[k].conn == conn
  }

  /** A step takes a connection from unfired only through a close call on it. */
  lemma StepOnConn(s: State, x: Action, conn: nat)
    requires CallsInv(s)
    ensures var t := Step(s, x);
      (conn in s.conns ==> conn in t.conns) &&
      (conn in s.conns && s.conns[conn].Fired? ==> t.conns[conn].Fired?) &&
      (conn in s.conns && s.conns[conn].Unfired? && !t.conns[conn].Unfired? ==> Closing(s, conn)) &&
      (conn in t.conns && conn !in s.conns ==> t.conns[conn].Unfired?) &&
      (Closing(t, conn) ==> Closing(s, conn) || (x.BeginClose? && x.conn == conn && Enabled(s, x)))
  {
    var t := Step(s, x);
    if k :| k in t.calls && t.calls[k].conn == conn {
      assert k in s.calls ==> s.calls[k].conn == conn;
    }
  }

  /** A close call in progress stays in progress until the once has completed. */
  lemma ClosingStays(s: State, x: Action, conn: nat)
    requires CallsInv(s) && Closing(s, conn)
    ensures Closing(Step(s, x), conn) || (conn in Step(s, x).conns && Step(s, x).conns[conn].Fired?)
  {
    var k :| k in s.calls && s.calls[k].conn == conn;
    var t := Step(s, x);
    assert k in t.calls ==> t.calls[k].conn == conn;
  }

  /** A close has begun exactly on the connections that are being closed or whose once has completed. */
  lemma {:induction false} CloseBegunExactly(run: Run<Action>, conn: nat)
    ensures var s := After(LISTENING, run);
      CloseBegun(run, conn) <==> Closing(s, conn) || (conn in s.conns && s.conns[conn] == Fired)
  {
    if run.Then? {
      var s := After(LISTENING, run.before);
      CountIsExact(run.before);
      CloseBegunExactly(run.before, conn);
      StepOnConn(s, run.action, conn);
      if Closing(s, conn) {
        ClosingStays(s, run.action, conn);
      }
      if run.action.BeginClose? && run.action.conn == conn && Enabled(s, run.action) {
        assert Step(s, run.action).calls[run.action.call].conn == conn;
      }
    }
  }

  /** When the wait has returned, the accept loop has ended and a close has begun on every connection ever accepted. */
  lemma WaitComesLast(run: Run<Action>)
    requires After(LISTENING, run).wait == Returned
    ensures var s := After(LISTENING, run);
      !s.looping && s.accepting == {} && s.count == 0 &&
      forall c :: c in s.conns ==> s.conns[c] == Fired && CloseBegun(run, c)
  {
    CountIsExact(run);
    var s := After(LISTENING, run);
    forall c | c in s.conns
      ensures s.conns[c] == Fired && CloseBegun(run, c)
    {
      assert c !in Pending(s);
      CloseBegunExactly(run, c);
    }
  }

  /** With no close call in progress, the wait is held back exactly by a connection that was never closed. */
  lemma WaitReturnsExactly(run: Run<Action>)
    requires After(LISTENING, run).wait == Blocked && After(LISTENING, run).calls == map[]
    ensures var s := After(LISTENING, run);
      Enabled(s, EndWait) <==> forall c :: c in s.conns ==> CloseBegun(run, c)
  {
    CountIsExact(run);
    var s := After(LISTENING, run);
    forall c | c in s.conns
      ensures CloseBegun(run, c) <==> c !in Pending(s)
    {
      CloseBegunExactly(run, c);
    }
    if forall c :: c in s.conns ==> CloseBegun(run, c) {
      assert Pending(s) == {};
    } else {
      assert Pending(s) != {};
    }
  }

  /** No close call gets stuck: either it can move, or the call that holds the once can. */
  lemma CloseNeverSticks(run: Run<Action>, call: nat)
    requires call in After(LISTENING, run).calls
    ensures var s := After(LISTENING, run);
      Enabled(s, EnterOnce(call)) || Enabled(s, Decrement(call)) || Enabled(s, CloseUnderneath(call)) ||
      (exists other :: other in s.calls && s.calls[other].conn == s.calls[call].conn && Enabled(s, Decrement(other)))
  {
    CountIsExact(run);
    var s := After(LISTENING, run);
    var once := s.conns[s.calls[call].conn];
    if once.Running? {
      assert Enabled(s, Decrement(once.call));
    }
  }

  /** After the wait nothing is accepted and nothing is counted any more. */
  lemma NothingAfterWait(run: Run<Action>, x: Action)
    requires After(LISTENING, run).wait == Returned
    ensures var s := After(LISTENING, run);
      var t := Step(s, x);
      t.conns == s.conns && t.accepting == {} && t.count == 0 && t.wait == Returned
  {
    CountIsExact(run);
    WaitComesLast(run);
  }

  predicate AboutToClose(s: State, k: nat, conn: nat) {
    k in s.calls && s.calls[k] == Call(conn, Past)
  }

  /** A connection whose once has completed is closed underneath, or some call is about to close it. */
  ghost predicate FiredAreClosing(s: State) {
    forall c :: c in s.conns && s.conns[c] == Fired ==> c in s.closed || exists k :: AboutToClose(s, k, c)
  }

  lemma StepKeepsClosing(s: State, x: Action)
    requires CallsInv(s) && FiredAreClosing(s)
    ensures FiredAreClosing(Step(s, x))
  {
    var t := Step(s, x);
    forall c | c in t.conns && t.conns[c] == Fired
      ensures c in t.closed || exists k :: AboutToClose(t, k, c)
    {
      if c in s.conns && s.conns[c] == Fired && c !in s.closed {
        var k :| AboutToClose(s, k, c);
        assert AboutToClose(t, k, c) || c in t.closed;
      } else if !(c in s.conns && s.conns[c] == Fired) {
        assert AboutToClose(t, x.call, c);
      }
    }
  }

  lemma {:induction false} FiredAlwaysClosing(run: Run<Action>)
    ensures FiredAreClosing(After(LISTENING, run))
  {
    if run.Then? {
      CountIsExact(run.before);
      FiredAlwaysClosing(run.before);
      StepKeepsClosing(After(LISTENING, run.before), run.action);
    }
  }

  /**
    When the wait has returned, all connections are closed underneath if and only if no close call is
    still to close one for the first time.
  */
  lemma FinishedExactly(run: Run<Action>)
    requires After(LISTENING, run).wait == Returned
    ensures var s := After(LISTENING, run);
      (forall c :: c in s.conns ==> c in s.closed) <==> forall k :: k in s.calls ==> s.calls[k].conn in s.closed
  {
    var s := After(LISTENING, run);
    CountIsExact(run);
    WaitComesLast(run);
    FiredAlwaysClosing(run);
  }

  const TWO_STEPS := Then(Then(Start, BeginAccept(0)), EndAccept(0, 7))
  const FOUR_STEPS := Then(Then(TWO_STEPS, EndLoop), BeginWait)
  const SIX_STEPS := Then(Then(FOUR_STEPS, BeginClose(1, 7)), EnterOnce(1))

  /** One connection, closed once, and a wait that returns between the decrement and the close underneath. */
  const EARLY_WAIT := Then(Then(SIX_STEPS, Decrement(1)), EndWait)

  lemma SixStepsState()
    ensures After(LISTENING, SIX_STEPS) ==
      State(1, {}, map[7 := Running(1)], map[1 := Call(7, Inside)], {}, false, Blocked)
  {
    assert After(LISTENING, Then(Start, BeginAccept(0))) == State(1, {0}, map[], map[], {}, true, NotCalled);
    assert After(LISTENING, TWO_STEPS) == State(1, {}, map[7 := Unfired], map[], {}, true, NotCalled);
    assert After(LISTENING, FOUR_STEPS) == State(1, {}, map[7 := Unfired], map[], {}, false, Blocked);
    assert After(LISTENING, Then(FOUR_STEPS, BeginClose(1, 7))) ==
      State(1, {}, map[7 := Unfired], map[1 := Call(7, Entering)], {}, false, Blocked);
  }

  /** The wait does not wait for the connections underneath to be closed: the decrement comes first. */
  lemma WaitMayPrecedeClose()
    ensures var s := After(LISTENING, EARLY_WAIT);
      s.wait == Returned && 7 in s.conns && 7 !in s.closed && Enabled(s, CloseUnderneath(1))
  {
    SixStepsState();
  }

  lemma AfterTwo(run: Run<Action>, x: Action, y: Action)
    ensures After(LISTENING, Then(Then(run, x), y)) == Step(Step(After(LISTENING, run), x), y)
  {
    assert After(LISTENING, Then(run, x)) == Step(After(LISTENING, run), x);
  }

  lemma AcceptAlone(s: State, run: Run<Action>, a: nat, incoming: Option<nat>)
    requires s == After(LISTENING, run)
    requires s.looping && a !in s.accepting && (incoming.Some? ==> incoming.value !in s.conns)
    ensures var end := if incoming.Some? then EndAccept(a, incoming.value) else FailAccept(a);
      After(LISTENING, Then(Then(run, BeginAccept(a)), end)) ==
      if incoming.Some? then s.(count := s.count + 1, conns := s.conns[incoming.value := Unfired]) else s
  {
    AfterTwo(run, BeginAccept(a), if incoming.Some? then EndAccept(a, incoming.value) else FailAccept(a));
    assert s.accepting + {a} - {a} == s.accepting;
  }

  function CloseActions(call: nat, conn: nat): seq<Action> {
    [BeginClose(call, conn), EnterOnce(call), Decrement(call), CloseUnderneath(call)]
  }

  lemma CloseAlone(s: State, run: Run<Action>, call: nat, conn: nat)
    requires s == After(LISTENING, run) && s.calls == map[] && conn in s.conns && !s.conns[conn].Running?
    ensures After(LISTENING, Continue(run, CloseActions(call, conn))) ==
      s.(count := if s.conns[conn].Fired? then s.count else s.count - 1,
         conns := s.conns[conn := Fired], closed := s.closed + {conn})
  {
    var r1 := Then(run, BeginClose(call, conn));
    var r2 := Then(r1, EnterOnce(call));
    var r3 := Then(r2, Decrement(call));
    var r4 := Then(r3, CloseUnderneath(call));
    assert Continue(run, CloseActions(call, conn)) == r4 by {
      assert Continue(r3, [CloseUnderneath(call)]) == Continue(r4, []) == r4;
      assert Continue(r2, [Decrement(call), CloseUnderneath(call)]) == r4;
      assert Continue(r1, [EnterOnce(call), Decrement(call), CloseUnderneath(call)]) == r4;
    }
    AfterTwo(run, BeginClose(call, conn), EnterOnce(call));
    AfterTwo(r2, Decrement(call), CloseUnderneath(call));
    var s2, s3 := After(LISTENING, r2), After(LISTENING, r3);
    assert s2 == if s.conns[conn].Fired? then s.(calls := map[call := Call(conn, Past)])
      else s.(conns := s.conns[conn := Running(call)], calls := map[call := Call(conn, Inside)]);
    assert s.conns[conn].Fired? ==> s.conns == s.conns[conn := Fired];
    assert s3 == s.(count := if s.conns[conn].Fired? then s.count else s.count - 1,
                    conns := s.conns[conn := Fired], calls := map[call := Call(conn, Past)]);
    assert s3.calls - {call} == map[];
  }

  /** The listener and its connections as the server holds them, one call at a time. */
  class TrackingListener {
    var count: int
    ghost var run: Run<Action>                // the steps taken so far
    ghost var tracked: map<nat, TrackedConn>  // the connections accepted so far

    ghost function Now(): State
      reads this
    {
      After(LISTENING, run)
    }

    ghost predicate Valid()
      reads this, tracked.Values
    {
      count == Now().count && Now().calls == map[] && tracked.Keys == Now().conns.Keys &&
      forall c :: c in tracked ==>
        tracked[c].listener == this && tracked[c].id == c &&
        Now().conns[c] == (if tracked[c].fired then Fired else Unfired)
    }

    constructor ()
      ensures Valid() && run == Start && tracked == map[]
    {
      count, run, tracked := 0, Start, map[];
    }

    /** Counts first, then accepts; a failing accept takes its count back. */
    method Accept(a: nat, incoming: Option<nat>) returns (conn: TrackedConn?)
      requires Valid() && Now().looping && a !in Now().accepting
      requires incoming.Some? ==> incoming.value !in Now().conns
      modifies this
      ensures Valid() && (conn == null <==> incoming.None?)
      ensures run == Then(Then(old(run), BeginAccept(a)),
                          if incoming.Some? then EndAccept(a, incoming.value) else FailAccept(a))
      ensures count == if incoming.Some? then old(count) + 1 else old(count)
      ensures conn != null ==> fresh(conn) && conn.listener == this && conn.id == incoming.value && !conn.fired
      ensures tracked == if conn != null then old(tracked)[conn.id := conn] else old(tracked)
    {
      AcceptAlone(Now(), run, a, incoming);
      count := count + 1;
      run := Then(run, BeginAccept(a));
      if incoming.None? {
        count := count - 1;
        run := Then(run, FailAccept(a));
        return null;
      }
      conn := new TrackedConn(this, incoming.value);
      run := Then(run, EndAccept(a, incoming.value));
      tracked := tracked[incoming.value := conn];
    }

    /** Whether the wait returns now. */
    method WaitForChildren() returns (done: bool)
      requires Valid() && !Now().looping && Now().wait == NotCalled
      modifies this`run
      ensures Valid() && run == Then(Then(old(run), BeginWait), EndWait)
      ensures done <==> forall c :: c in tracked ==> tracked[c].fired
    {
      CountIsExact(run);
      AfterTwo(run, BeginWait, EndWait);
      assert forall c :: c in tracked ==> (c in Pending(Now()) <==> !tracked[c].fired);
      done := count == 0;
      assert done <==> Pending(Now()) == {};
      if !done {
        ghost var c :| c in Pending(Now());
        assert c in tracked;
      }
      run := Then(Then(run, BeginWait), EndWait);
    }
  }

  class TrackedConn {
    const listener: TrackingListener
    const id: nat
    var fired: bool
    var closes: nat  // how often the connection underneath was closed

    constructor (listener: TrackingListener, id: nat)
      ensures this.listener == listener && this.id == id && !fired && closes == 0
    {
      this.listener, this.id, fired, closes := listener, id, false, 0;
    }

    /** Takes the connection off the count once, however often it is called, and closes it every time. */
    method Close(call: nat)
      requires listener.Valid() && id in listener.tracked && listener.tracked[id] == this
      modifies this, listener`count, listener`run
      ensures listener.Valid() && listener.run == Continue(old(listener.run), CloseActions(call, id))
      ensures fired && closes == old(closes) + 1
      ensures listener.count == if old(fired) then old(listener.count) else old(listener.count) - 1
    {
      CloseAlone(listener.Now(), listener.run, call, id);
      if !fired {
        listener.count := listener.count - 1;
        fired := true;
      }
      closes := closes + 1;
      listener.run := Continue(listener.run, CloseActions(call, id));
    }
  }
}
