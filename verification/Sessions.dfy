/**
  The session managers of the SFTP and FTP adapters (sftp/sftp.go, ftp/ftp.go),
  which share one protocol, as a transition system.

  Any number of calls acquire the current session, use it, invalidate it after a
  connection error and try once more, while Close and cancellations race with
  them. The mutex that guards the session is explicit because a dial happens
  while it is held. A dial runs in its own goroutine and may finish after its
  caller gave up; FTP's `connect` then drains and quits the late session.
 */
module Sessions {
  import opened Common

  type Session = nat

  datatype Phase =
    | Acquiring                       // waiting for the mutex
    | Holding                         // inside currentSession
    | Dialing(dial: nat)              // inside the connector, mutex held
    | Using(session: Session)
    | Lost(session: Session)          // a connection error; invalidate is next
    | Returned(result: Outcome<Session>)

  /** `second` is set once the call has invalidated its first session, `first`. */
  datatype Call = Call(retry: bool, second: bool, first: Option<Session>, phase: Phase)

  datatype Receiver = Waiting | Abandoned | Settled

  /** What a dial produced, if it finished, and who is still going to take it. */
  datatype Dial = Dial(finished: bool, session: Option<Session>, receiver: Receiver)

  /** The sessions: the current one, every one ever dialed, every Quit ever sent in order, and all dials. */
  datatype Ledger = Ledger(current: Option<Session>, dialed: set<Session>, quits: seq<Session>, dials: map<nat, Dial>)

  datatype State = State(mutex: Option<nat>, closed: bool, calls: map<nat, Call>, ledger: Ledger)

  /** Construction has dialed session 0. */
  const INITIAL := State(None, false, map[], Ledger(Some(0), {0}, [], map[]))

  datatype Label =
    | Begin(c: nat, retry: bool)
    | Refuse(c: nat)                    // the context is already canceled
    | Lock(c: nat)
    | TakeCurrent(c: nat)
    | FindClosed(c: nat)
    | StartDial(c: nat, d: nat)
    | FinishDial(d: nat, session: Option<Session>)
    | ReceiveDial(c: nat)
    | CancelDial(c: nat)
    | DrainDial(d: nat)
    | Operate(c: nat, outcome: Outcome<()>, connectionLost: bool)
    | Invalidate(c: nat)
    | CloseAdapter

  // ---- what steps do to the sessions ----

  function QuitCurrent(g: Ledger): Ledger
  {
    if g.current.Some? then g.(current := None, quits := g.quits + [g.current.value]) else g
  }

  function Open(g: Ledger, d: nat): Ledger { g.(dials := g.dials[d := Dial(false, None, Waiting)]) }

  function Finish(g: Ledger, d: nat, session: Option<Session>): Ledger
    requires d in g.dials
  {
    g.(dials := g.dials[d := g.dials[d].(finished := true, session := session)],
       dialed := if session.Some? then g.dialed + {session.value} else g.dialed)
  }

  function Receive(g: Ledger, d: nat): Ledger
    requires d in g.dials
  {
    var g' := g.(dials := g.dials[d := g.dials[d].(receiver := Settled)]);
    if g.dials[d].session.Some? then g'.(current := g.dials[d].session) else g'
  }

  function Abandon(g: Ledger, d: nat): Ledger
    requires d in g.dials
  {
    g.(dials := g.dials[d := g.dials[d].(receiver := Abandoned)])
  }

  function Drain(g: Ledger, d: nat): Ledger
    requires d in g.dials
  {
    var g' := g.(dials := g.dials[d := g.dials[d].(receiver := Settled)]);
    if g.dials[d].session.Some? then g'.(quits := g.quits + [g.dials[d].session.value]) else g'
  }

  // ---- the transition system ----

  predicate CallIn(s: State, c: nat, phase: Phase) { c in s.calls && s.calls[c].phase == phase }

  predicate IsDialing(s: State, c: nat)
  {
    c in s.calls && s.calls[c].phase.Dialing? && s.calls[c].phase.dial in s.ledger.dials
  }

  predicate Enabled(s: State, l: Label)
  {
    match l
    case Begin(c, _) => c !in s.calls
    case Refuse(c) => CallIn(s, c, Acquiring)
    case Lock(c) => CallIn(s, c, Acquiring) && s.mutex == None
    case TakeCurrent(c) => CallIn(s, c, Holding) && !s.closed && s.ledger.current.Some?
    case FindClosed(c) => CallIn(s, c, Holding) && s.closed
    case StartDial(c, d) =>
      CallIn(s, c, Holding) && !s.closed && s.ledger.current.None? && d !in s.ledger.dials
    case FinishDial(d, session) =>
      && d in s.ledger.dials && !s.ledger.dials[d].finished
      && (session.Some? ==> session.value !in s.ledger.dialed)
    case ReceiveDial(c) => IsDialing(s, c) && s.ledger.dials[s.calls[c].phase.dial].finished
    case CancelDial(c) => IsDialing(s, c)
    case DrainDial(d) =>
      d in s.ledger.dials && s.ledger.dials[d].finished && s.ledger.dials[d].receiver == Abandoned
    case Operate(c, _, _) => c in s.calls && s.calls[c].phase.Using?
    case Invalidate(c) => c in s.calls && s.calls[c].phase.Lost? && s.mutex == None
    case CloseAdapter => s.mutex == None
  }

  function LedgerAfter(s: State, l: Label): Ledger
    requires Enabled(s, l)
  {
    match l
    case StartDial(_, d) => Open(s.ledger, d)
    case FinishDial(d, session) => Finish(s.ledger, d, session)
    case ReceiveDial(c) => Receive(s.ledger, s.calls[c].phase.dial)
    case CancelDial(c) => Abandon(s.ledger, s.calls[c].phase.dial)
    case DrainDial(d) => Drain(s.ledger, d)
    case Invalidate(c) =>
      if s.ledger.current == Some(s.calls[c].phase.session) then QuitCurrent(s.ledger) else s.ledger
    case CloseAdapter => if s.closed then s.ledger else QuitCurrent(s.ledger)
    case _ => s.ledger
  }

  function CallAfter(s: State, l: Label, call: Call): Call
    requires Enabled(s, l)
  {
    match l
    case Refuse(_) => call.(phase := Returned(Err(Canceled)))
    case Lock(_) => call.(phase := Holding)
    case TakeCurrent(_) => call.(phase := Using(s.ledger.current.value))
    case FindClosed(_) => call.(phase := Returned(Err(Failed)))
    case StartDial(_, d) => call.(phase := Dialing(d))
    case ReceiveDial(c) =>
      (match s.ledger.dials[s.calls[c].phase.dial].session
       case Some(session) => call.(phase := Using(session))
       case None => call.(phase := Returned(Err(Failed))))
    case CancelDial(_) => call.(phase := Returned(Err(Canceled)))
    case Operate(c, outcome, connectionLost) =>
      var session := s.calls[c].phase.session;
      if outcome.Ok? then call.(phase := Returned(Ok(session)))
      else if call.retry && connectionLost && !call.second then call.(phase := Lost(session))
      else call.(phase := Returned(Err(outcome.error)))
    case Invalidate(c) => call.(second := true, first := Some(s.calls[c].phase.session), phase := Acquiring)
    case _ => call
  }

  function MutexAfter(s: State, l: Label): Option<nat>
  {
    match l
    case Lock(c) => Some(c)
    case TakeCurrent(_) => None
    case FindClosed(_) => None
    case ReceiveDial(_) => None
    case CancelDial(_) => None
    case _ => s.mutex
  }

  /** The call a label belongs to. */
  function Subject(l: Label): Option<nat>
  {
    match l
    case Begin(c, _) => Some(c)
    case FinishDial(_, _) => None
    case DrainDial(_) => None
    case CloseAdapter => None
    case _ => Some(l.c)
  }

  function Apply(s: State, l: Label): State
    requires Enabled(s, l)
  {
    State(
      MutexAfter(s, l),
      s.closed || l.CloseAdapter?,
      (match Subject(l)
       case None => s.calls
       case Some(c) =>
         s.calls[c := if l.Begin? then Call(l.retry, false, None, Acquiring) else CallAfter(s, l, s.calls[c])]),
      LedgerAfter(s, l))
  }

  // ---- the sessions are accounted for ----

  /** A session still in a dial's channel. */
  ghost predicate InFlight(dials: map<nat, Dial>, session: Session)
  {
    exists d :: d in dials && Carries(dials[d], session)
  }

  ghost predicate Carries(dial: Dial, session: Session) { dial.session == Some(session) && dial.receiver != Settled }

  ghost predicate NoDuplicates(quits: seq<Session>)
  {
    forall i, j :: 0 <= i < j < |quits| ==> quits[i] != quits[j]
  }

  ghost predicate DialOk(g: Ledger, dial: Dial)
  {
    && (dial.session.Some? || dial.receiver == Settled ==> dial.finished)
    && (dial.session.Some? ==> dial.session.value in g.dialed)
    && (dial.session.Some? && dial.receiver != Settled ==>
          dial.session.value !in g.quits && g.current != dial.session)
  }

  ghost predicate Located(g: Ledger, session: Session)
  {
    g.current == Some(session) || session in g.quits || InFlight(g.dials, session)
  }

  /** Every session ever dialed is in exactly one place: current, quit once, or in flight. */
  ghost predicate Accounted(g: Ledger)
  {
    && (forall d :: d in g.dials ==> DialOk(g, g.dials[d]))
    && (forall d, e :: d in g.dials && e in g.dials && d != e && g.dials[d].session.Some? ==>
          g.dials[d].session != g.dials[e].session)
    && (g.current.Some? ==> g.current.value in g.dialed && g.current.value !in g.quits)
    && (forall q :: q in g.quits ==> q in g.dialed)
    && (forall o :: o in g.dialed ==> Located(g, o))
    && NoDuplicates(g.quits)
  }

  lemma QuitCurrentAccounts(g: Ledger)
    requires Accounted(g)
    ensures Accounted(QuitCurrent(g))
  {
    var g' := QuitCurrent(g);
    forall o | o in g'.dialed
      ensures Located(g', o)
    {
      assert Located(g, o);
    }
  }

  lemma OpenAccounts(g: Ledger, d: nat)
    requires Accounted(g) && d !in g.dials
    ensures Accounted(Open(g, d))
  {
    var g' := Open(g, d);
    forall o | o in g'.dialed
      ensures Located(g', o)
    {
      assert Located(g, o);
      if InFlight(g.dials, o) {
        var e :| e in g.dials && Carries(g.dials[e], o);
        assert Carries(g'.dials[e], o);
      }
    }
  }

  lemma FinishAccounts(g: Ledger, d: nat, session: Option<Session>)
    requires Accounted(g) && d in g.dials && !g.dials[d].finished && (session.Some? ==> session.value !in g.dialed)
    requires g.dials[d].receiver != Settled
    ensures Accounted(Finish(g, d, session))
  {
    var g' := Finish(g, d, session);
    forall o | o in g'.dialed
      ensures Located(g', o)
    {
      if session == Some(o) {
        assert Carries(g'.dials[d], o);
      } else {
        assert Located(g, o);
        if InFlight(g.dials, o) {
          var e :| e in g.dials && Carries(g.dials[e], o);
          assert Carries(g'.dials[e], o);
        }
      }
    }
  }

  /** Taking a dial's session out of flight, either as the current one or by quitting it. */
  lemma SettleAccounts(g: Ledger, d: nat, quit: bool)
    requires Accounted(g) && d in g.dials && g.dials[d].finished && g.dials[d].receiver != Settled
    requires !quit ==> g.current == None
    ensures Accounted(if quit then Drain(g, d) else Receive(g, d))
  {
    var g' := if quit then Drain(g, d) else Receive(g, d);
    assert DialOk(g, g.dials[d]);
    forall o | o in g'.dialed
      ensures Located(g', o)
    {
      assert Located(g, o);
      if InFlight(g.dials, o) {
        var e :| e in g.dials && Carries(g.dials[e], o);
        if e != d { assert Carries(g'.dials[e], o); }
      }
    }
  }

  lemma AbandonAccounts(g: Ledger, d: nat)
    requires Accounted(g) && d in g.dials && g.dials[d].receiver != Settled
    ensures Accounted(Abandon(g, d))
  {
    var g' := Abandon(g, d);
    assert DialOk(g, g.dials[d]);
    forall o | o in g'.dialed
      ensures Located(g', o)
    {
      assert Located(g, o);
      if InFlight(g.dials, o) {
        var e :| e in g.dials && Carries(g.dials[e], o);
        assert Carries(g'.dials[e], o);
      }
    }
  }

  // ---- calls hold the mutex and sessions consistently ----

  /** A session handed to a call: still current, or quit meanwhile. */
  ghost predicate Known(g: Ledger, session: Session) { g.current == Some(session) || session in g.quits }

  ghost predicate CallOk(s: State, c: nat, call: Call)
  {
    && (call.phase.Holding? || call.phase.Dialing? <==> s.mutex == Some(c))
    && (call.phase.Dialing? ==>
          && !s.closed && s.ledger.current.None?
          && call.phase.dial in s.ledger.dials && s.ledger.dials[call.phase.dial].receiver == Waiting)
    && (call.phase.Using? || call.phase.Lost? ==> Known(s.ledger, call.phase.session))
    && (call.first.Some? ==> call.first.value in s.ledger.quits)
    && (call.second <==> call.first.Some?)
    && (call.phase.Using? && call.first.Some? ==> call.phase.session != call.first.value)
    && (call.phase.Returned? && call.phase.result.Ok? && call.first.Some? ==>
          call.phase.result.value != call.first.value)
    && (call.phase.Lost? ==> !call.second)
  }

  ghost predicate CallsOk(s: State)
  {
    && (forall c :: c in s.calls ==> CallOk(s, c, s.calls[c]))
    && (s.mutex.Some? ==> s.mutex.value in s.calls)
    && (s.closed ==> s.ledger.current.None?)
  }

  ghost predicate Invariant(s: State) { CallsOk(s) && Accounted(s.ledger) }

  lemma LedgerStep(s: State, l: Label)
    requires Invariant(s) && Enabled(s, l)
    ensures Accounted(LedgerAfter(s, l))
  {
    match l
    case StartDial(_, d) => OpenAccounts(s.ledger, d);
    case FinishDial(d, session) =>
      assert DialOk(s.ledger, s.ledger.dials[d]);
      FinishAccounts(s.ledger, d, session);
    case ReceiveDial(c) =>
      assert CallOk(s, c, s.calls[c]);
      SettleAccounts(s.ledger, s.calls[c].phase.dial, false);
    case CancelDial(c) =>
      assert CallOk(s, c, s.calls[c]);
      AbandonAccounts(s.ledger, s.calls[c].phase.dial);
    case DrainDial(d) => SettleAccounts(s.ledger, d, true);
    case Invalidate(_) => QuitCurrentAccounts(s.ledger);
    case CloseAdapter => QuitCurrentAccounts(s.ledger);
    case _ =>
  }

  /** Sessions in use stay known, and quit sessions stay quit. */
  lemma LedgerGrows(s: State, l: Label, session: Session)
    requires Invariant(s) && Enabled(s, l)
    ensures Known(s.ledger, session) ==> Known(LedgerAfter(s, l), session)
    ensures session in s.ledger.quits ==> session in LedgerAfter(s, l).quits
  {
    if l.ReceiveDial? { assert CallOk(s, l.c, s.calls[l.c]); }
  }

  lemma OtherCallStep(s: State, l: Label, c: nat)
    requires Invariant(s) && Enabled(s, l) && c in s.calls && Subject(l) != Some(c)
    ensures CallOk(Apply(s, l), c, s.calls[c])
  {
    var call := s.calls[c];
    assert CallOk(s, c, call);
    if Subject(l).Some? && Subject(l).value in s.calls {
      assert CallOk(s, Subject(l).value, s.calls[Subject(l).value]);
    }
    if call.phase.Using? || call.phase.Lost? { LedgerGrows(s, l, call.phase.session); }
    if call.first.Some? { LedgerGrows(s, l, call.first.value); }
  }

  lemma OwnCallStep(s: State, l: Label, c: nat)
    requires Invariant(s) && Enabled(s, l) && Subject(l) == Some(c)
    ensures c in Apply(s, l).calls && CallOk(Apply(s, l), c, Apply(s, l).calls[c])
  {
    if c in s.calls {
      var call := s.calls[c];
      assert CallOk(s, c, call);
      if call.phase.Using? || call.phase.Lost? { LedgerGrows(s, l, call.phase.session); }
      if call.first.Some? { LedgerGrows(s, l, call.first.value); }
      if l.ReceiveDial? { assert DialOk(s.ledger, s.ledger.dials[call.phase.dial]); }
    }
  }

  lemma InvariantStep(s: State, l: Label)
    requires Invariant(s) && Enabled(s, l)
    ensures Invariant(Apply(s, l))
  {
    LedgerStep(s, l);
    var s' := Apply(s, l);
    forall c | c in s'.calls
      ensures CallOk(s', c, s'.calls[c])
    {
      if Subject(l) == Some(c) { OwnCallStep(s, l, c); } else { OtherCallStep(s, l, c); }
    }
    if s'.closed && !s.closed { assert s'.ledger.current.None?; }
    if l.ReceiveDial? { assert CallOk(s, l.c, s.calls[l.c]); }
  }

  // ---- runs ----

  ghost predicate StepAt(states: seq<State>, labels: seq<Label>, k: nat)
    requires |states| == |labels| + 1 && k < |labels|
  {
    Enabled(states[k], labels[k]) && states[k + 1] == Apply(states[k], labels[k])
  }

  ghost predicate IsRun(states: seq<State>, labels: seq<Label>)
  {
    && |states| == |labels| + 1
    && states[0] == INITIAL
    && forall k :: 0 <= k < |labels| ==> StepAt(states, labels, k)
  }

  lemma {:induction false} RunInvariant(states: seq<State>, labels: seq<Label>, k: nat)
    requires IsRun(states, labels) && k < |states|
    ensures Invariant(states[k])
  {
    if k > 0 {
      RunInvariant(states, labels, k - 1);
      assert StepAt(states, labels, k - 1);
      InvariantStep(states[k - 1], labels[k - 1]);
    }
  }

  /**
    At every point of every run, each session ever dialed is current, or was quit
    exactly once, or is still in a dial's channel, and these exclude each other.
   */
  lemma SessionsAreConserved(states: seq<State>, labels: seq<Label>, k: nat, x: Session)
    requires IsRun(states, labels) && k < |states|
    ensures var g := states[k].ledger;
            && (x in g.dialed <==> g.current == Some(x) || x in g.quits || InFlight(g.dials, x))
            && (g.current == Some(x) ==> x !in g.quits && !InFlight(g.dials, x))
            && (x in g.quits ==> !InFlight(g.dials, x))
            && multiset(g.quits)[x] <= 1
  {
    RunInvariant(states, labels, k);
    var g := states[k].ledger;
    if x in g.dialed { assert Located(g, x); }
    if InFlight(g.dials, x) {
      var d :| d in g.dials && Carries(g.dials[d], x);
      assert DialOk(g, g.dials[d]);
    }
    CountsOnce(g.quits, x);
  }

  lemma {:induction false} CountsOnce(quits: seq<Session>, x: Session)
    requires NoDuplicates(quits)
    ensures multiset(quits)[x] <= 1
  {
    if quits != [] {
      CountsOnce(quits[1..], x);
      assert quits == [quits[0]] + quits[1..];
      if quits[0] == x { assert x !in quits[1..]; }
    }
  }

  /** The step that gives session `x` to call `c`, as the current session. */
  ghost predicate Hands(states: seq<State>, labels: seq<Label>, j: nat, c: nat, x: Session)
  {
    && j < |labels| < |states| && (labels[j] == TakeCurrent(c) || labels[j] == ReceiveDial(c))
    && CallIn(states[j + 1], c, Using(x)) && states[j + 1].ledger.current == Some(x)
  }

  /** A call that uses or has just lost a session was handed it as the current one. */
  lemma {:induction false} WasHanded(states: seq<State>, labels: seq<Label>, k: nat, c: nat, x: Session)
    returns (j: nat)
    requires IsRun(states, labels) && k < |states|
    requires CallIn(states[k], c, Using(x)) || CallIn(states[k], c, Lost(x))
    ensures j < k && Hands(states, labels, j, c, x)
  {
    assert StepAt(states, labels, k - 1);
    var s, l := states[k - 1], labels[k - 1];
    if CallIn(s, c, Using(x)) || CallIn(s, c, Lost(x)) {
      j := WasHanded(states, labels, k - 1, c, x);
    } else {
      j := k - 1;
    }
  }

  lemma {:induction false} QuitForever(states: seq<State>, labels: seq<Label>, i: nat, k: nat, x: Session)
    requires IsRun(states, labels) && i <= k < |states| && x in states[i].ledger.quits
    ensures x in states[k].ledger.quits
    decreases k
  {
    if i < k {
      QuitForever(states, labels, i, k - 1, x);
      RunInvariant(states, labels, k - 1);
      assert StepAt(states, labels, k - 1);
      LedgerGrows(states[k - 1], labels[k - 1], x);
    }
  }

  /** Step `j` quits `x`: Close, a call that lost that very session, or the drain of an abandoned dial. */
  ghost predicate QuitsAt(states: seq<State>, labels: seq<Label>, j: nat, x: Session)
  {
    && j < |labels| < |states|
    && var s, l := states[j], labels[j];
       match l {
         case CloseAdapter => !s.closed && s.ledger.current == Some(x)
         case Invalidate(c) => CallIn(s, c, Lost(x)) && s.ledger.current == Some(x)
         case DrainDial(d) =>
           d in s.ledger.dials && s.ledger.dials[d].session == Some(x) && s.ledger.dials[d].receiver == Abandoned
         case _ => false
       }
  }

  lemma QuitStep(states: seq<State>, labels: seq<Label>, k: nat, x: Session)
    requires IsRun(states, labels) && k < |labels|
    ensures x in states[k + 1].ledger.quits <==> x in states[k].ledger.quits || QuitsAt(states, labels, k, x)
    ensures QuitsAt(states, labels, k, x) ==> x !in states[k].ledger.quits
  {
    assert StepAt(states, labels, k);
    RunInvariant(states, labels, k);
    var s, l := states[k], labels[k];
    LedgerGrows(s, l, x);
    if l.DrainDial? { assert DialOk(s.ledger, s.ledger.dials[l.d]); }
  }

  /** In every run a session has been quit exactly when one of those steps has happened to it, and it happens once. */
  lemma {:induction false} QuitReasons(states: seq<State>, labels: seq<Label>, k: nat, x: Session)
    requires IsRun(states, labels) && k < |states|
    ensures x in states[k].ledger.quits <==> exists j :: 0 <= j < k && QuitsAt(states, labels, j, x)
    ensures forall i, j :: 0 <= i < k && 0 <= j < k && QuitsAt(states, labels, i, x) && QuitsAt(states, labels, j, x)
                           ==> i == j
  {
    if k > 0 {
      QuitReasons(states, labels, k - 1, x);
      QuitStep(states, labels, k - 1, x);
    }
  }

  /** The current session is replaced only after it was quit. */
  lemma ReplacedIsQuit(s: State, l: Label, x: Session)
    requires Invariant(s) && Enabled(s, l)
    ensures s.ledger.current == Some(x) && Apply(s, l).ledger.current != Some(x) ==> x in Apply(s, l).ledger.quits
  {
    if l.ReceiveDial? { assert CallOk(s, l.c, s.calls[l.c]); }
  }

  /** A session that is current at two points of a run is current at every point between them. */
  lemma {:induction false} CurrentThroughout(states: seq<State>, labels: seq<Label>, j: nat, i: nat, k: nat, x: Session)
    requires IsRun(states, labels) && j <= i <= k < |states|
    requires states[j].ledger.current == Some(x) && states[k].ledger.current == Some(x)
    ensures states[i].ledger.current == Some(x)
    decreases i
  {
    if j < i {
      CurrentThroughout(states, labels, j, i - 1, k, x);
      assert StepAt(states, labels, i - 1);
      RunInvariant(states, labels, i - 1);
      RunInvariant(states, labels, k);
      if states[i].ledger.current != Some(x) {
        ReplacedIsQuit(states[i - 1], labels[i - 1], x);
        QuitForever(states, labels, i, k, x);
      }
    }
  }

  /**
    In every run, a call that lost a session was handed it, and its invalidate quits that session if it
    has been the current one ever since, and otherwise quits nothing: never a newer session.
   */
  lemma LostSessionIsQuitIff(states: seq<State>, labels: seq<Label>, k: nat, c: nat) returns (j: nat)
    requires IsRun(states, labels) && k < |labels| && labels[k] == Invalidate(c)
    ensures c in states[k].calls && states[k].calls[c].phase.Lost?
    ensures var x := states[k].calls[c].phase.session;
            && j < k && Hands(states, labels, j, c, x)
            && if forall i :: j < i <= k ==> states[i].ledger.current == Some(x)
               then states[k + 1].ledger.quits == states[k].ledger.quits + [x] && states[k + 1].ledger.current == None
               else states[k + 1].ledger == states[k].ledger
  {
    assert StepAt(states, labels, k);
    var x := states[k].calls[c].phase.session;
    j := WasHanded(states, labels, k, c, x);
    if states[k].ledger.current == Some(x) {
      forall i | j < i <= k ensures states[i].ledger.current == Some(x) {
        CurrentThroughout(states, labels, j + 1, i, k, x);
      }
    }
  }

  /** Once closed, the adapter stays closed and never has a session again. */
  lemma {:induction false} ClosedForever(states: seq<State>, labels: seq<Label>, i: nat, k: nat)
    requires IsRun(states, labels) && i <= k < |states| && states[i].closed
    ensures states[k].closed && states[k].ledger.current == None
    decreases k
  {
    RunInvariant(states, labels, k);
    if i < k {
      ClosedForever(states, labels, i, k - 1);
      assert StepAt(states, labels, k - 1);
    }
  }

  /** The session of an abandoned dial is still undelivered, or has been quit. */
  ghost predicate LateSessionHandled(g: Ledger, d: nat)
  {
    && d in g.dials && g.dials[d].receiver != Waiting
    && (g.dials[d].session.Some? ==>
          if g.dials[d].receiver == Abandoned then g.dials[d].session.value !in g.quits
          else g.dials[d].session.value in g.quits)
  }

  lemma {:induction false} LateSessionsAreQuit(states: seq<State>, labels: seq<Label>, i: nat, k: nat, d: nat)
    requires IsRun(states, labels) && i <= k < |states|
    requires d in states[i].ledger.dials && states[i].ledger.dials[d].receiver == Abandoned
    ensures LateSessionHandled(states[k].ledger, d)
    decreases k
  {
    RunInvariant(states, labels, k);
    if i == k {
      assert DialOk(states[k].ledger, states[k].ledger.dials[d]);
    } else {
      LateSessionsAreQuit(states, labels, i, k - 1, d);
      assert StepAt(states, labels, k - 1);
      RunInvariant(states, labels, k - 1);
      LateStep(states[k - 1], labels[k - 1], d);
    }
  }

  lemma LateStep(s: State, l: Label, d: nat)
    requires Invariant(s) && Enabled(s, l) && LateSessionHandled(s.ledger, d)
    ensures LateSessionHandled(Apply(s, l).ledger, d)
  {
    var g, g' := s.ledger, LedgerAfter(s, l);
    LedgerStep(s, l);
    assert DialOk(g, g.dials[d]) && DialOk(g', g'.dials[d]) by {
      assert d in g'.dials;
    }
    if (l.ReceiveDial? || l.CancelDial?) { assert CallOk(s, l.c, s.calls[l.c]); }
    if g.dials[d].session.Some? { LedgerGrows(s, l, g.dials[d].session.value); }
  }

  /** A call that succeeds after reconnecting got its result from a session other than the one it lost. */
  lemma ResultFromOneSession(states: seq<State>, labels: seq<Label>, k: nat, c: nat)
    requires IsRun(states, labels) && k < |states| && c in states[k].calls
    requires states[k].calls[c].phase.Returned? && states[k].calls[c].phase.result.Ok? && states[k].calls[c].second
    ensures states[k].calls[c].first.Some? && states[k].calls[c].first.value in states[k].ledger.quits
    ensures states[k].calls[c].phase.result.value != states[k].calls[c].first.value
  {
    RunInvariant(states, labels, k);
    assert CallOk(states[k], c, states[k].calls[c]);
  }

  /** The mutex is held by exactly the call inside currentSession, and by nobody else. */
  lemma MutexHasOneOwner(states: seq<State>, labels: seq<Label>, k: nat, c: nat)
    requires IsRun(states, labels) && k < |states| && c in states[k].calls
    ensures states[k].mutex == Some(c) <==> states[k].calls[c].phase.Holding? || states[k].calls[c].phase.Dialing?
  {
    RunInvariant(states, labels, k);
    assert CallOk(states[k], c, states[k].calls[c]);
  }

  // ---- how often a call operates, and what it returns ----

  predicate OperatesAt(labels: seq<Label>, j: nat, c: nat) { j < |labels| && labels[j].Operate? && labels[j].c == c }

  /** The operation at step `j` failed with a lost connection. */
  predicate LosesAt(labels: seq<Label>, j: nat, c: nat)
  {
    OperatesAt(labels, j, c) && labels[j].outcome.Err? && labels[j].connectionLost
  }

  function Operations(labels: seq<Label>, c: nat): nat
  {
    if labels == [] then 0
    else
      var last := |labels| - 1;
      Operations(labels[..last], c) + if OperatesAt(labels, last, c) then 1 else 0
  }

  function Invalidations(labels: seq<Label>, c: nat): nat
  {
    if labels == [] then 0
    else
      var last := |labels| - 1;
      Invalidations(labels[..last], c) + if labels[last] == Invalidate(c) then 1 else 0
  }

  /** How often a call in this phase has operated and invalidated. */
  ghost predicate CountsOk(call: Call, operations: nat, invalidations: nat)
  {
    && (call.second ==> call.retry) && invalidations == (if call.second then 1 else 0)
    && match call.phase
       case Lost(_) => call.retry && !call.second && operations == 1
       case Returned(_) => operations <= invalidations + 1
       case _ => operations == invalidations
  }

  lemma CountsStep(s: State, l: Label, c: nat, operations: nat, invalidations: nat)
    requires Enabled(s, l) && c in Apply(s, l).calls
    requires if c in s.calls then CountsOk(s.calls[c], operations, invalidations) else operations == invalidations == 0
    ensures CountsOk(Apply(s, l).calls[c], operations + if l.Operate? && l.c == c then 1 else 0,
                     invalidations + if l == Invalidate(c) then 1 else 0)
    ensures c in s.calls ==> Apply(s, l).calls[c].retry == s.calls[c].retry
    ensures c !in s.calls ==> l == Begin(c, Apply(s, l).calls[c].retry)
  {}

  lemma {:induction false} CallCounts(states: seq<State>, labels: seq<Label>, k: nat, c: nat)
    requires IsRun(states, labels) && k < |states|
    ensures if c in states[k].calls
            then CountsOk(states[k].calls[c], Operations(labels[..k], c), Invalidations(labels[..k], c))
            else Operations(labels[..k], c) == Invalidations(labels[..k], c) == 0
  {
    if k > 0 {
      CallCounts(states, labels, k - 1, c);
      assert StepAt(states, labels, k - 1);
      assert labels[..k][..k - 1] == labels[..k - 1] && labels[..k][k - 1] == labels[k - 1];
      if c in states[k].calls {
        CountsStep(states[k - 1], labels[k - 1], c, Operations(labels[..k - 1], c), Invalidations(labels[..k - 1], c));
      }
    }
  }

  /** The retry mode of a call is the one it was begun with. */
  lemma {:induction false} CallIsAsBegun(states: seq<State>, labels: seq<Label>, k: nat, c: nat) returns (j: nat)
    requires IsRun(states, labels) && k < |states| && c in states[k].calls
    ensures j < k && labels[j] == Begin(c, states[k].calls[c].retry)
  {
    assert StepAt(states, labels, k - 1);
    if c in states[k - 1].calls {
      j := CallIsAsBegun(states, labels, k - 1, c);
    } else {
      j := k - 1;
    }
  }

  /**
    In every run a call operates at most once, and at most once more after one invalidate; a call begun without
    retry neither invalidates nor operates again.
   */
  lemma OperatesAtMost(states: seq<State>, labels: seq<Label>, k: nat, c: nat)
    requires IsRun(states, labels) && k < |states| && c in states[k].calls
    ensures var operations, invalidations := Operations(labels[..k], c), Invalidations(labels[..k], c);
            && operations <= invalidations + 1 && invalidations <= 1
            && (!states[k].calls[c].retry ==> operations <= 1 && invalidations == 0)
  {
    CallCounts(states, labels, k, c);
  }

  /** Step `j` is the first one of call `c` behind step `i`. */
  ghost predicate NextOwnStep(labels: seq<Label>, i: nat, j: nat, c: nat)
  {
    && i < j < |labels| && Subject(labels[j]) == Some(c)
    && forall n :: i < n < j ==> Subject(labels[n]) != Some(c)
  }

  lemma {:induction false} QuietCall(states: seq<State>, labels: seq<Label>, i: nat, k: nat, c: nat)
    requires IsRun(states, labels) && i <= k < |states| && c in states[i].calls
    requires forall n :: i <= n < k ==> Subject(labels[n]) != Some(c)
    ensures c in states[k].calls && states[k].calls[c] == states[i].calls[c]
    decreases k
  {
    if i < k {
      QuietCall(states, labels, i, k - 1, c);
      assert StepAt(states, labels, k - 1);
    }
  }

  /**
    What follows an operation, in every run: the first one of a retrying call that loses its connection is followed
    by the call's invalidate as its next own step, and after any other operation the call has no step at all.
   */
  lemma AfterOperation(states: seq<State>, labels: seq<Label>, i: nat, j: nat, c: nat)
    requires IsRun(states, labels) && OperatesAt(labels, i, c) && NextOwnStep(labels, i, j, c)
    ensures c in states[i].calls && states[i].calls[c].retry
    ensures LosesAt(labels, i, c) && Operations(labels[..i], c) == 0 && labels[j] == Invalidate(c)
  {
    assert StepAt(states, labels, i) && StepAt(states, labels, j);
    CallCounts(states, labels, i, c);
    QuietCall(states, labels, i + 1, j, c);
  }

  /** A second operation of a call needs a first one that lost its connection, and an invalidate between them. */
  lemma SecondOperation(states: seq<State>, labels: seq<Label>, i: nat, j: nat, c: nat) returns (n: nat)
    requires IsRun(states, labels) && i < j && OperatesAt(labels, i, c) && OperatesAt(labels, j, c)
    ensures c in states[i].calls && states[i].calls[c].retry && LosesAt(labels, i, c)
    ensures i < n < j && labels[n] == Invalidate(c)
  {
    n := FirstOwnStep(labels, i, j, c);
    AfterOperation(states, labels, i, n, c);
  }

  lemma {:induction false} FirstOwnStep(labels: seq<Label>, i: nat, j: nat, c: nat) returns (n: nat)
    requires i < j < |labels| && Subject(labels[j]) == Some(c)
    ensures n <= j && NextOwnStep(labels, i, n, c)
    decreases j - i
  {
    n := i + 1;
    while Subject(labels[n]) != Some(c)
      invariant i < n <= j && forall m :: i < m < n ==> Subject(labels[m]) != Some(c)
      decreases j - n
    {
      n := n + 1;
    }
  }

  /** The step that ends a call, and the result it calls for. */
  ghost predicate EndsCall(s: State, l: Label, c: nat, result: Outcome<Session>)
  {
    && c in s.calls
    && match l {
         case Refuse(b) => b == c && result == Err(Canceled)
         case FindClosed(b) => b == c && result == Err(Failed)
         case CancelDial(b) => b == c && result == Err(Canceled)
         case ReceiveDial(b) =>
           b == c && IsDialing(s, c) && s.ledger.dials[s.calls[c].phase.dial].session == None && result == Err(Failed)
         case Operate(b, outcome, lost) =>
           && b == c && s.calls[c].phase.Using?
           && (match outcome {
                 case Ok(_) => result == Ok(s.calls[c].phase.session)
                 case Err(e) => result == Err(e) && !(lost && s.calls[c].retry && s.calls[c].first == None)
               })
         case _ => false
       }
  }

  ghost predicate HasEnded(states: seq<State>, labels: seq<Label>, k: nat, c: nat, result: Outcome<Session>)
    requires k <= |labels| < |states|
  {
    exists j :: 0 <= j < k && EndsCall(states[j], labels[j], c, result)
  }

  lemma EndStep(s: State, l: Label, c: nat, result: Outcome<Session>)
    requires Invariant(s) && Enabled(s, l) && c in Apply(s, l).calls
    requires c in s.calls ==> (s.calls[c].first.Some? <==> s.calls[c].second)
    ensures Apply(s, l).calls[c].phase == Returned(result) <==>
            (c in s.calls && s.calls[c].phase == Returned(result)) || EndsCall(s, l, c, result)
  {}

  lemma {:induction false} FirstIffSecond(states: seq<State>, labels: seq<Label>, k: nat, c: nat)
    requires IsRun(states, labels) && k < |states| && c in states[k].calls
    ensures states[k].calls[c].first.Some? <==> states[k].calls[c].second
  {
    assert StepAt(states, labels, k - 1);
    if c in states[k - 1].calls { FirstIffSecond(states, labels, k - 1, c); }
  }

  lemma {:induction false} CallsStay(states: seq<State>, labels: seq<Label>, j: nat, k: nat, c: nat)
    requires IsRun(states, labels) && j <= k < |states| && c in states[j].calls
    ensures c in states[k].calls
    decreases k
  {
    if j < k {
      CallsStay(states, labels, j, k - 1, c);
      assert StepAt(states, labels, k - 1);
    }
  }

  /**
    In every run a call has returned a result exactly when one of its steps called for it: the session its operation
    succeeded on, the error of an operation that is not retried, or the failure to get a session.
   */
  lemma {:induction false} CallReturnsIff(
    states: seq<State>, labels: seq<Label>, k: nat, c: nat, result: Outcome<Session>)
    requires IsRun(states, labels) && k < |states| && c in states[k].calls
    ensures states[k].calls[c].phase == Returned(result) <==> HasEnded(states, labels, k, c, result)
  {
    var s, l := states[k - 1], labels[k - 1];
    assert StepAt(states, labels, k - 1);
    RunInvariant(states, labels, k - 1);
    if c in s.calls { FirstIffSecond(states, labels, k - 1, c); }
    EndStep(s, l, c, result);
    assert HasEnded(states, labels, k, c, result) <==>
           HasEnded(states, labels, k - 1, c, result) || EndsCall(s, l, c, result);
    if c in s.calls {
      CallReturnsIff(states, labels, k - 1, c, result);
    } else if j :| 0 <= j < k - 1 && EndsCall(states[j], labels[j], c, result) {
      CallsStay(states, labels, j, k - 1, c);
    }
  }

  // ---- reconnects and late dials are reachable ----

  ghost predicate Reachable(s: State)
  {
    exists states, labels :: IsRun(states, labels) && states[|labels|] == s
  }

  lemma ReachableStep(s: State, l: Label)
    requires Reachable(s) && Enabled(s, l)
    ensures Reachable(Apply(s, l))
  {
    var states, labels :| IsRun(states, labels) && states[|labels|] == s;
    var states', labels' := states + [Apply(s, l)], labels + [l];
    forall k | 0 <= k < |labels'| ensures StepAt(states', labels', k) {
      if k < |labels| { assert StepAt(states, labels, k); }
    }
    assert IsRun(states', labels') && states'[|labels'|] == Apply(s, l);
  }

  /** A call that lost session 0 and is dialing again. */
  const REDIALING :=
    State(Some(0), false, map[0 := Call(true, true, Some(0), Dialing(0))],
          Ledger(None, {0}, [0], map[0 := Dial(false, None, Waiting)]))

  lemma RedialingHappens()
    ensures Reachable(REDIALING)
  {
    assert IsRun([INITIAL], []);
    var labels := [Begin(0, true), Lock(0), TakeCurrent(0), Operate(0, Err(Failed), true), Invalidate(0), Lock(0),
                   StartDial(0, 0)];
    var s := INITIAL;
    assert Reachable(s);
    for i := 0 to |labels|
      invariant Reachable(s) && !s.closed
      invariant i == 0 ==> s == INITIAL
      invariant 0 < i < 5 ==> s.ledger == INITIAL.ledger
      invariant 0 < i < 5 ==>
                  s.calls == map[0 := Call(true, false, None, [Acquiring, Acquiring, Holding, Using(0), Lost(0)][i])]
      invariant 5 <= i < 7 ==> s.ledger == Ledger(None, {0}, [0], map[])
      invariant 5 <= i < 7 ==> s.calls == map[0 := Call(true, true, Some(0), if i == 5 then Acquiring else Holding)]
      invariant s.mutex == if i == 2 || i >= 6 then Some(0) else None
      invariant i == 7 ==> s == REDIALING
    {
      ReachableStep(s, labels[i]);
      s := Apply(s, labels[i]);
    }
  }

  /** A call can reconnect and succeed on the new session, the lost one having been quit. */
  lemma ReconnectHappens() returns (s: State)
    ensures Reachable(s) && s.ledger.current == Some(1) && s.ledger.quits == [0]
    ensures 0 in s.calls && s.calls[0].second && s.calls[0].phase == Returned(Ok(1))
  {
    RedialingHappens();
    var finished := FinishDial(0, Some(1));
    ReachableStep(REDIALING, finished);
    s := Apply(REDIALING, finished);
    ReachableStep(s, ReceiveDial(0));
    s := Apply(s, ReceiveDial(0));
    ReachableStep(s, Operate(0, Ok(()), false));
    s := Apply(s, Operate(0, Ok(()), false));
  }

  /** A dial can finish after its caller gave up, and its session is then quit. */
  lemma LateDialHappens() returns (s: State)
    ensures Reachable(s) && s.ledger.current == None && s.ledger.quits == [0, 1]
    ensures 0 in s.calls && s.calls[0].phase == Returned(Err(Canceled))
  {
    RedialingHappens();
    ReachableStep(REDIALING, CancelDial(0));
    s := Apply(REDIALING, CancelDial(0));
    ReachableStep(s, FinishDial(0, Some(1)));
    s := Apply(s, FinishDial(0, Some(1)));
    ReachableStep(s, DrainDial(0));
    s := Apply(s, DrainDial(0));
  }
}
