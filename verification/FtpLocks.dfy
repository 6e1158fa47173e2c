/**
  The goroutines of the FTP adapter (ftp/ftp.go), with its two mutexes and its session field: `opMu`
  serializes operations on the control session, `mu` guards the field. Every operation is a small program,
  a tree with one branch for each way its calls can go. A program is disciplined when it locks only what it
  does not own and only upwards in the order opMu, mu, unlocks only what it owns, hands mutexes only to
  goroutines that release them, touches the session field only under the right mutexes and works only on the
  session it found or dialed there. The theorems hold for any number of goroutines in any interleaving.
 */
module FtpLocks {
  import opened Common

  datatype Mutex = OpMu | Mu

  type Thread = nat
  type Session = nat

  datatype Action =
    | StartUse    // an operation begins work on its session,
    | EndUse      // and ends it
    | Invalidate  // quits and clears the field if it still holds the failed session
    | Shut        // Close: quits and clears the field for good
    | Read        // abortTransfer copies the field
    | Abort       // and aborts what it copied, if anything
    | Finish      // close(done)

  datatype Program =
    | Stop
    | Lock(mutex: Mutex, next: Program)
    | Unlock(mutex: Mutex, next: Program)
    | Choose(left: Program, right: Program)
    | Take(ok: Program, failed: Program)  // the session in the field, or a dialed one, or an error
    | Do(action: Action, next: Program)
    | Await(next: Program)                // <-done
    | Spawn(child: Program, handed: set<Mutex>, next: Program)

  function Rank(m: Mutex): nat { if m == OpMu then 0 else 1 }

  // ---- the adapter's operations ----

  function CurrentSession(ok: Program, failed: Program): Program {
    Choose(failed, Lock(Mu, Take(Unlock(Mu, ok), Unlock(Mu, failed))))
  }

  function Use(next: Program): Program { Do(StartUse, Do(EndUse, next)) }

  /** What a call does with a session: once, and once more after a reconnect. */
  function Attempts(next: Program, failed: Program): Program {
    Use(Choose(next, Lock(Mu, Do(Invalidate, Unlock(Mu, CurrentSession(Use(next), failed))))))
  }

  function AbortTransfer(next: Program): Program { Lock(Mu, Do(Read, Unlock(Mu, Do(Abort, next)))) }

  const UNLOCK: Program := Unlock(OpMu, Stop)

  const WITH_LOCKED: Program := Lock(OpMu, CurrentSession(Attempts(UNLOCK, UNLOCK), UNLOCK))

  const END_TRANSFER: Program := Do(Finish, UNLOCK)

  const TRANSFER: Program := Attempts(END_TRANSFER, END_TRANSFER)

  const WATCH_CANCELLATION: Program := Choose(Await(Stop), AbortTransfer(Stop))

  const OPEN_STREAM: Program := Spawn(TRANSFER, {OpMu}, Spawn(WATCH_CANCELLATION, {}, Stop))

  const OPEN: Program := Lock(OpMu, CurrentSession(Attempts(Choose(UNLOCK, OPEN_STREAM), UNLOCK), UNLOCK))

  const WRITE: Program :=
    Lock(OpMu, CurrentSession(Use(Choose(UNLOCK, Unlock(OpMu, WITH_LOCKED))), UNLOCK))

  const DELETE: Program := Lock(OpMu, CurrentSession(Use(UNLOCK), UNLOCK))

  const CLOSE: Program := AbortTransfer(Lock(OpMu, Lock(Mu, Do(Shut, Unlock(Mu, UNLOCK)))))

  /** The Close of a stream whose once has run only waits. */
  const CLOSE_STREAM: Program := Choose(Await(Stop), AbortTransfer(Await(Stop)))

  datatype Operation = Open | Write | Stat | List | Delete | Close | CloseStream(transfer: Thread)

  function ProgramOf(op: Operation): Program {
    match op
    case Open => Choose(Stop, OPEN)
    case Write => Choose(Stop, WRITE)
    case Stat => WITH_LOCKED
    case List => Choose(Stop, WITH_LOCKED)
    case Delete => DELETE
    case Close => CLOSE
    case CloseStream(_) => CLOSE_STREAM
  }

  // ---- the discipline ----

  predicate MayLock(m: Mutex, owned: set<Mutex>) {
    forall n :: n in owned ==> Rank(n) < Rank(m)
  }

  /** What a goroutine needs for an action; `known` means that its session is the one in the field. */
  predicate MayDo(a: Action, owned: set<Mutex>, known: bool) {
    match a
    case StartUse => OpMu in owned && known
    case EndUse => OpMu in owned && known
    case Invalidate => OpMu in owned && Mu in owned
    case Shut => OpMu in owned && Mu in owned
    case Read => OpMu !in owned && Mu in owned
    case Abort => owned == {}
    case Finish => OpMu in owned
  }

  predicate Forgets(a: Action) { a == Invalidate || a == Shut || a == Read }

  /** A transfer keeps opMu up to its end, and closes done just before. */
  predicate TransferLeft(p: Program) {
    match p
    case Lock(m, next) => m == Mu && TransferLeft(next)
    case Unlock(m, next) => m == Mu && TransferLeft(next)
    case Choose(left, right) => TransferLeft(left) && TransferLeft(right)
    case Take(ok, failed) => TransferLeft(ok) && TransferLeft(failed)
    case Do(a, next) => if a == Finish then next == UNLOCK else TransferLeft(next)
    case _ => false
  }

  /** Waits for done only once it belongs to a stream. */
  predicate Streamless(p: Program) {
    match p
    case Stop => true
    case Lock(_, next) => Streamless(next)
    case Unlock(_, next) => Streamless(next)
    case Choose(left, right) => Streamless(left) && Streamless(right)
    case Take(ok, failed) => Streamless(ok) && Streamless(failed)
    case Do(_, next) => Streamless(next)
    case Await(_) => false
    case Spawn(child, handed, next) => OpMu in handed || (Streamless(child) && Streamless(next))
  }

  predicate Disciplined(p: Program, owned: set<Mutex>, known: bool) {
    match p
    case Stop => owned == {}
    case Lock(m, next) => MayLock(m, owned) && Disciplined(next, owned + {m}, known)
    case Unlock(m, next) => m in owned && Disciplined(next, owned - {m}, known && m != OpMu)
    case Choose(left, right) => Disciplined(left, owned, known) && Disciplined(right, owned, known)
    case Take(ok, failed) =>
      OpMu in owned && Mu in owned && Disciplined(ok, owned, true) && Disciplined(failed, owned, false)
    case Do(a, next) => MayDo(a, owned, known) && Disciplined(next, owned, known && !Forgets(a))
    case Await(next) => owned == {} && Disciplined(next, owned, known)
    case Spawn(child, handed, next) =>
      && handed <= owned && (OpMu in handed ==> TransferLeft(child))
      && Disciplined(child, handed, known && OpMu in handed)
      && Disciplined(next, owned - handed, known && OpMu !in handed)
  }

  lemma CurrentSessionDisciplined(ok: Program, failed: Program, known: bool)
    requires Disciplined(ok, {OpMu}, true) && Disciplined(failed, {OpMu}, false) && Disciplined(failed, {OpMu}, known)
    ensures Disciplined(CurrentSession(ok, failed), {OpMu}, known)
  {
    assert {OpMu} + {Mu} - {Mu} == {OpMu};
    assert Disciplined(Unlock(Mu, ok), {OpMu} + {Mu}, true);
    assert Disciplined(Unlock(Mu, failed), {OpMu} + {Mu}, false);
  }

  lemma UseDisciplined(next: Program)
    requires Disciplined(next, {OpMu}, true)
    ensures Disciplined(Use(next), {OpMu}, true)
  {
    assert Disciplined(Do(EndUse, next), {OpMu}, true);
  }

  lemma AttemptsDisciplined(next: Program, failed: Program)
    requires Disciplined(next, {OpMu}, true) && Disciplined(failed, {OpMu}, false)
    ensures Disciplined(Attempts(next, failed), {OpMu}, true)
  {
    UseDisciplined(next);
    var again := CurrentSession(Use(next), failed);
    CurrentSessionDisciplined(Use(next), failed, false);
    assert {OpMu} + {Mu} - {Mu} == {OpMu};
    assert Disciplined(Unlock(Mu, again), {OpMu} + {Mu}, false);
    assert Disciplined(Do(Invalidate, Unlock(Mu, again)), {OpMu} + {Mu}, true);
    assert Disciplined(Lock(Mu, Do(Invalidate, Unlock(Mu, again))), {OpMu}, true);
    UseDisciplined(Choose(next, Lock(Mu, Do(Invalidate, Unlock(Mu, again)))));
  }

  lemma AbortDisciplined(next: Program)
    requires Disciplined(next, {}, false)
    ensures Disciplined(AbortTransfer(next), {}, false)
  {
    assert {} + {Mu} - {Mu} == {};
    assert Disciplined(Unlock(Mu, Do(Abort, next)), {} + {Mu}, false);
  }

  lemma UnlockDisciplined(known: bool)
    ensures Disciplined(UNLOCK, {OpMu}, known)
  {
    assert {OpMu} - {OpMu} == {};
  }

  lemma LockedDisciplined(p: Program)
    requires Disciplined(p, {OpMu}, true)
    ensures Disciplined(Lock(OpMu, CurrentSession(p, UNLOCK)), {}, false)
  {
    UnlockDisciplined(false);
    CurrentSessionDisciplined(p, UNLOCK, false);
    assert {} + {OpMu} == {OpMu};
  }

  lemma WithLockedDisciplined()
    ensures Disciplined(WITH_LOCKED, {}, false)
  {
    UnlockDisciplined(true);
    UnlockDisciplined(false);
    AttemptsDisciplined(UNLOCK, UNLOCK);
    LockedDisciplined(Attempts(UNLOCK, UNLOCK));
  }

  lemma TransferStarts()
    ensures TransferLeft(TRANSFER)
  {
    var again := CurrentSession(Use(END_TRANSFER), END_TRANSFER);
    assert TransferLeft(END_TRANSFER) && TransferLeft(Use(END_TRANSFER));
    assert TransferLeft(Unlock(Mu, Use(END_TRANSFER))) && TransferLeft(Unlock(Mu, END_TRANSFER));
    assert TransferLeft(again);
    assert TransferLeft(Lock(Mu, Do(Invalidate, Unlock(Mu, again))));
  }

  lemma OpenDisciplined()
    ensures Disciplined(TRANSFER, {OpMu}, true) && Disciplined(OPEN, {}, false)
  {
    TransferStarts();
    UnlockDisciplined(true);
    UnlockDisciplined(false);
    AttemptsDisciplined(END_TRANSFER, END_TRANSFER);
    AbortDisciplined(Stop);
    assert {OpMu} - {OpMu} == {};
    var watch := Spawn(WATCH_CANCELLATION, {}, Stop);
    assert Disciplined(watch, {}, false) by {
      var none: set<Mutex> := {};
      assert none - none == none;
    }
    assert Disciplined(OPEN_STREAM, {OpMu}, true);
    var streaming := Choose(UNLOCK, OPEN_STREAM);
    AttemptsDisciplined(streaming, UNLOCK);
    LockedDisciplined(Attempts(streaming, UNLOCK));
  }

  lemma CloseDisciplined()
    ensures Disciplined(CLOSE, {}, false)
  {
    UnlockDisciplined(false);
    assert {} + {OpMu} == {OpMu};
    assert {OpMu} + {Mu} - {Mu} == {OpMu};
    var shut := Do(Shut, Unlock(Mu, UNLOCK));
    assert Disciplined(Unlock(Mu, UNLOCK), {OpMu} + {Mu}, false);
    assert Disciplined(Lock(Mu, shut), {OpMu}, false);
    AbortDisciplined(Lock(OpMu, Lock(Mu, shut)));
  }

  lemma StreamlessParts(ok: Program, failed: Program)
    requires Streamless(ok) && Streamless(failed)
    ensures Streamless(CurrentSession(ok, failed)) && Streamless(Use(ok)) && Streamless(AbortTransfer(ok))
  {
    assert Streamless(Unlock(Mu, ok)) && Streamless(Unlock(Mu, failed));
    assert Streamless(Take(Unlock(Mu, ok), Unlock(Mu, failed)));
    assert Streamless(Do(EndUse, ok)) && Streamless(Unlock(Mu, Do(Abort, ok)));
  }

  lemma StreamlessAttempts(next: Program)
    requires Streamless(next)
    ensures Streamless(Attempts(next, UNLOCK))
  {
    StreamlessParts(next, UNLOCK);
    StreamlessParts(Use(next), UNLOCK);
    var again := Do(Invalidate, Unlock(Mu, CurrentSession(Use(next), UNLOCK)));
    assert Streamless(again);
    StreamlessParts(Choose(next, Lock(Mu, again)), UNLOCK);
  }

  lemma OperationsAreStreamless(op: Operation)
    requires !op.CloseStream?
    ensures Streamless(ProgramOf(op))
  {
    StreamlessAttempts(UNLOCK);
    StreamlessParts(Attempts(UNLOCK, UNLOCK), UNLOCK);
    match op
    case Open =>
      StreamlessAttempts(Choose(UNLOCK, OPEN_STREAM));
      StreamlessParts(Attempts(Choose(UNLOCK, OPEN_STREAM), UNLOCK), UNLOCK);
    case Write =>
      var after := Choose(UNLOCK, Unlock(OpMu, WITH_LOCKED));
      StreamlessParts(after, UNLOCK);
      StreamlessParts(Use(after), UNLOCK);
    case Delete =>
      StreamlessParts(UNLOCK, UNLOCK);
      StreamlessParts(Use(UNLOCK), UNLOCK);
    case Close => CloseIsStreamless();
    case _ =>
  }

  lemma CloseIsStreamless()
    ensures Streamless(CLOSE)
  {
    var shut := Lock(Mu, Do(Shut, Unlock(Mu, UNLOCK)));
    assert Streamless(Unlock(Mu, UNLOCK)) && Streamless(shut);
    StreamlessParts(Lock(OpMu, shut), UNLOCK);
  }

  /** Every operation is disciplined on every path. */
  lemma OperationsAreDisciplined(op: Operation)
    ensures Disciplined(ProgramOf(op), {}, false)
  {
    UnlockDisciplined(true);
    match op
    case Open => OpenDisciplined();
    case Write =>
      WithLockedDisciplined();
      assert {OpMu} - {OpMu} == {};
      UseDisciplined(Choose(UNLOCK, Unlock(OpMu, WITH_LOCKED)));
      LockedDisciplined(Use(Choose(UNLOCK, Unlock(OpMu, WITH_LOCKED))));
    case Delete =>
      UseDisciplined(UNLOCK);
      LockedDisciplined(Use(UNLOCK));
    case Close => CloseDisciplined();
    case CloseStream(_) => AbortDisciplined(Await(Stop));
    case _ => WithLockedDisciplined();
  }

  /** Had Write called Stat before its own unlock, it would block on itself: the discipline refuses it. */
  lemma StatInsideWriteIsRefused()
    ensures !Disciplined(Lock(OpMu, CurrentSession(Use(WITH_LOCKED), UNLOCK)), {}, false)
  {
    var inside := Lock(Mu, Take(Unlock(Mu, Use(WITH_LOCKED)), Unlock(Mu, UNLOCK)));
    var owned := {} + {OpMu} + {Mu} - {Mu};
    assert OpMu in owned;
    assert !Disciplined(WITH_LOCKED, owned, true);
    assert !Disciplined(Do(EndUse, WITH_LOCKED), owned, true);
    assert !Disciplined(Use(WITH_LOCKED), owned, true);
    assert !Disciplined(Unlock(Mu, Use(WITH_LOCKED)), {} + {OpMu} + {Mu}, true);
    assert !Disciplined(inside, {} + {OpMu}, false);
  }

  // ---- goroutines ----

  /** What happened to the mutexes so far, in order. */
  datatype Event =
    | Acquired(mutex: Mutex, thread: Thread)
    | Released(mutex: Mutex, thread: Thread)
    | Handed(mutex: Mutex, from: Thread, to: Thread)

  /** The program left, the local session, and the transfer goroutine of the stream it belongs to. */
  datatype Goroutine = Goroutine(program: Program, session: Option<Session>, stream: Option<Thread>)

  /** Sessions are numbered as they are dialed; `done` are the transfers whose done channel is closed. */
  datatype State = State(
    threads: seq<Goroutine>,
    holders: map<Mutex, Thread>,
    current: Option<Session>,
    dialed: nat,
    closed: bool,
    done: set<Thread>,
    log: seq<Event>)

  datatype Label = Begin(op: Operation) | Step(thread: Thread, left: bool)

  const INITIAL := State([], map[], Some(0), 1, false, {}, [])

  /** Open has returned the stream of transfer `t`. */
  ghost predicate Returned(s: State, t: Thread) {
    exists o :: 0 <= o < |s.threads| && o != t && s.threads[o].stream == Some(t) && s.threads[o].program == Stop
  }

  ghost predicate Enabled(s: State, l: Label)
  {
    match l
    case Begin(op) => op.CloseStream? ==> Returned(s, op.transfer)
    case Step(t, _) =>
      && t < |s.threads|
      && match s.threads[t].program {
           case Stop => false
           case Lock(m, _) => m !in s.holders
           case Unlock(m, _) => m in s.holders
           case Await(_) => s.threads[t].stream.Some? && s.threads[t].stream.value in s.done
           case _ => true
         }
  }

  function HandedTo(holders: map<Mutex, Thread>, handed: set<Mutex>, child: Thread): map<Mutex, Thread> {
    map m | m in holders :: if m in handed then child else holders[m]
  }

  /** `mutexes` handed from one goroutine to another, opMu first. */
  function HandedEvents(handed: set<Mutex>, from: Thread, to: Thread): seq<Event> {
    (if OpMu in handed then [Handed(OpMu, from, to)] else []) +
    (if Mu in handed then [Handed(Mu, from, to)] else [])
  }

  function WithThread(s: State, t: Thread, g: Goroutine): State
    requires t < |s.threads|
  {
    s.(threads := s.threads[t := g])
  }

  function Acted(s: State, t: Thread, a: Action, next: Program): State
    requires t < |s.threads|
  {
    var g := s.threads[t].(program := next);
    match a
    case Invalidate => WithThread(s, t, g).(current := if s.current == g.session then None else s.current)
    case Shut => WithThread(s, t, g).(current := None, closed := true)
    case Read => WithThread(s, t, g.(session := s.current))
    case Finish => WithThread(s, t, g).(done := s.done + {t})
    case _ => WithThread(s, t, g)
  }

  /** A closed adapter refuses; an empty field is dialed; both dial and context may fail. */
  function Taken(s: State, t: Thread, ok: Program, failed: Program, fails: bool): State
    requires t < |s.threads|
  {
    var g := s.threads[t];
    if fails || s.closed then WithThread(s, t, g.(program := failed, session := None))
    else if s.current.Some? then WithThread(s, t, g.(program := ok, session := s.current))
    else
      WithThread(s, t, g.(program := ok, session := Some(s.dialed)))
        .(current := Some(s.dialed), dialed := s.dialed + 1)
  }

  /** The goroutine that takes over opMu is the transfer of a new stream. */
  function Spawned(s: State, t: Thread, child: Program, handed: set<Mutex>, next: Program): State
    requires t < |s.threads|
  {
    var g, id := s.threads[t], |s.threads|;
    var stream := if OpMu in handed then Some(id) else g.stream;
    s.(threads := s.threads[t := g.(program := next, stream := stream)] + [Goroutine(child, g.session, stream)],
       holders := HandedTo(s.holders, handed, id), log := s.log + HandedEvents(handed, t, id))
  }

  ghost function Apply(s: State, l: Label): State
    requires Enabled(s, l)
  {
    match l
    case Begin(op) =>
      var stream := if op.CloseStream? then Some(op.transfer) else None;
      s.(threads := s.threads + [Goroutine(ProgramOf(op), None, stream)])
    case Step(t, left) =>
      var g := s.threads[t];
      match g.program {
        case Lock(m, next) =>
          WithThread(s, t, g.(program := next)).(holders := s.holders[m := t], log := s.log + [Acquired(m, t)])
        case Unlock(m, next) =>
          WithThread(s, t, g.(program := next)).(holders := s.holders - {m}, log := s.log + [Released(m, t)])
        case Choose(a, b) => WithThread(s, t, g.(program := if left then a else b))
        case Take(ok, failed) => Taken(s, t, ok, failed, left)
        case Do(a, next) => Acted(s, t, a, next)
        case Await(next) => WithThread(s, t, g.(program := next))
        case Spawn(child, handed, next) => Spawned(s, t, child, handed, next)
      }
  }

  ghost function Owned(s: State, t: Thread): set<Mutex> {
    set m | m in s.holders && s.holders[m] == t
  }

  /**
    Who owns `m` after these events, or None for nobody. The outer None means the events break the
    rules: a mutex acquired while owned, or released or handed over by a goroutine that does not own it.
   */
  function OwnerAfter(log: seq<Event>, m: Mutex): Option<Option<Thread>> {
    if log == [] then Some(None)
    else
      var owner := OwnerAfter(log[..|log| - 1], m);
      var e := log[|log| - 1];
      if owner.None? || e.mutex != m then owner
      else
        match e
        case Acquired(_, t) => if owner.value == None then Some(Some(t)) else None
        case Released(_, t) => if owner.value == Some(t) then Some(None) else None
        case Handed(_, from, to) => if owner.value == Some(from) then Some(Some(to)) else None
  }

  /** `t` owns opMu and its session is the one in the field. */
  ghost predicate Knows(s: State, t: Thread)
    requires t < |s.threads|
  {
    OpMu in s.holders && s.holders[OpMu] == t && s.current.Some? && s.threads[t].session == s.current
  }

  ghost predicate Follows(s: State, t: Thread, known: bool)
    requires t < |s.threads|
  {
    (known ==> Knows(s, t)) && Disciplined(s.threads[t].program, Owned(s, t), known)
  }

  ghost predicate ThreadOk(s: State, t: Thread)
    requires t < |s.threads|
  {
    Follows(s, t, false) || Follows(s, t, true)
  }

  ghost predicate IsTransfer(s: State, t: Thread) {
    && t < |s.threads| && s.threads[t].stream == Some(t)
    && var p := s.threads[t].program;
       if t in s.done then p == UNLOCK || p == Stop else TransferLeft(p)
  }

  ghost predicate StreamOk(s: State, t: Thread)
    requires t < |s.threads|
  {
    match s.threads[t].stream
    case Some(transfer) => IsTransfer(s, transfer)
    case None => Streamless(s.threads[t].program)
  }

  ghost predicate LogOk(s: State, m: Mutex) {
    OwnerAfter(s.log, m) == Some(if m in s.holders then Some(s.holders[m]) else None)
  }

  ghost predicate HoldersOk(s: State) {
    && (forall m :: m in s.holders ==> s.holders[m] < |s.threads|)
    && (forall t :: t in s.done ==> t < |s.threads|)
  }

  ghost predicate SessionsOk(s: State) { s.current.Some? ==> s.current.value < s.dialed }

  ghost predicate Invariant(s: State) {
    && HoldersOk(s) && SessionsOk(s)
    && (forall t :: 0 <= t < |s.threads| ==> ThreadOk(s, t) && StreamOk(s, t))
    && (forall m :: LogOk(s, m))
  }

  lemma InvariantStep(s: State, l: Label)
    requires Invariant(s) && Enabled(s, l)
    ensures Invariant(Apply(s, l))
  {
    var s' := Apply(s, l);
    match l
    case Begin(op) => BeginStep(s, op);
    case Step(t, left) =>
      assert ThreadOk(s, t) && StreamOk(s, t);
      FieldsStep(s, t, left);
      forall u | 0 <= u < |s'.threads| ensures ThreadOk(s', u) && StreamOk(s', u) {
        if u < |s.threads| { assert ThreadOk(s, u) && StreamOk(s, u); }
        ThreadStep(s, t, left, u);
        StreamStep(s, t, left, u);
      }
      forall m ensures LogOk(s', m) { LogStep(s, t, left, m); }
  }

  lemma FieldsStep(s: State, t: Thread, left: bool)
    requires Enabled(s, Step(t, left)) && HoldersOk(s) && SessionsOk(s)
    ensures HoldersOk(Apply(s, Step(t, left))) && SessionsOk(Apply(s, Step(t, left)))
  {}

  lemma ThreadStep(s: State, t: Thread, left: bool, u: Thread)
    requires Enabled(s, Step(t, left)) && ThreadOk(s, t) && HoldersOk(s) && u < |Apply(s, Step(t, left)).threads|
    requires u < |s.threads| ==> ThreadOk(s, u)
    ensures ThreadOk(Apply(s, Step(t, left)), u)
  {
    if u == t {
      OwnStep(s, t, left, !Follows(s, t, false));
    } else if u < |s.threads| {
      OtherStep(s, t, left, u);
    } else {
      ChildStep(s, t, left);
    }
  }

  lemma BeginStep(s: State, op: Operation)
    requires Invariant(s) && Enabled(s, Begin(op))
    ensures Invariant(Apply(s, Begin(op)))
  {
    var s' := Apply(s, Begin(op));
    OperationsAreDisciplined(op);
    if op.CloseStream? {
      var o :| 0 <= o < |s.threads| && s.threads[o].stream == Some(op.transfer);
      assert StreamOk(s, o);
    } else {
      OperationsAreStreamless(op);
    }
    forall t | 0 <= t < |s'.threads| ensures ThreadOk(s', t) && StreamOk(s', t) {
      assert t < |s.threads| ==> ThreadOk(s, t) && StreamOk(s, t);
      assert Owned(s', t) == if t < |s.threads| then Owned(s, t) else {};
      assert t < |s.threads| && Follows(s, t, true) ==> Follows(s', t, true);
      assert t < |s.threads| && Follows(s, t, false) ==> Follows(s', t, false);
      if t == |s.threads| { assert Follows(s', t, false); }
    }
    forall m ensures LogOk(s', m) { assert LogOk(s, m); }
  }

  lemma OwnStep(s: State, t: Thread, left: bool, known: bool)
    requires Enabled(s, Step(t, left)) && Follows(s, t, known) && HoldersOk(s)
    ensures ThreadOk(Apply(s, Step(t, left)), t)
  {
    var s' := Apply(s, Step(t, left));
    var owned := Owned(s, t);
    match s.threads[t].program
    case Lock(m, _) =>
      assert Owned(s', t) == owned + {m};
      assert Follows(s', t, known);
    case Unlock(m, _) =>
      assert Owned(s', t) == owned - {m};
      assert Follows(s', t, known && m != OpMu);
    case Take(_, _) => OwnTake(s, t, left, known);
    case Do(_, _) => OwnAction(s, t, left, known);
    case Spawn(_, handed, _) =>
      assert Owned(s', t) == owned - handed;
      assert Follows(s', t, known && OpMu !in handed);
    case Choose(_, _) =>
      assert Owned(s', t) == owned;
      assert Follows(s', t, known);
    case Await(_) =>
      assert Owned(s', t) == owned;
      assert Follows(s', t, known);
  }

  lemma OwnTake(s: State, t: Thread, left: bool, known: bool)
    requires Enabled(s, Step(t, left)) && Follows(s, t, known) && s.threads[t].program.Take?
    ensures ThreadOk(Apply(s, Step(t, left)), t)
  {
    var s' := Apply(s, Step(t, left));
    assert Owned(s', t) == Owned(s, t) && OpMu in Owned(s, t);
    assert Follows(s', t, !(left || s.closed));
  }

  lemma OwnAction(s: State, t: Thread, left: bool, known: bool)
    requires Enabled(s, Step(t, left)) && Follows(s, t, known) && s.threads[t].program.Do?
    ensures ThreadOk(Apply(s, Step(t, left)), t)
  {
    var s' := Apply(s, Step(t, left));
    assert Owned(s', t) == Owned(s, t);
    assert Follows(s', t, known && !Forgets(s.threads[t].program.action));
  }

  /** Only the owner of opMu replaces the session. */
  lemma SessionKept(s: State, t: Thread, left: bool)
    requires Enabled(s, Step(t, left)) && ThreadOk(s, t) && OpMu !in Owned(s, t)
    ensures Apply(s, Step(t, left)).current == s.current
  {}

  lemma OtherStep(s: State, t: Thread, left: bool, u: Thread)
    requires Enabled(s, Step(t, left)) && ThreadOk(s, t) && HoldersOk(s)
    requires u != t && u < |s.threads| && ThreadOk(s, u)
    ensures ThreadOk(Apply(s, Step(t, left)), u)
  {
    var s' := Apply(s, Step(t, left));
    OthersOwn(s, t, left, u);
    if Follows(s, u, true) {
      assert OpMu in Owned(s, u) && OpMu !in Owned(s, t) && OpMu in Owned(s', u);
      SessionKept(s, t, left);
      assert Follows(s', u, true);
    } else {
      assert Follows(s', u, false);
    }
  }

  lemma OthersOwn(s: State, t: Thread, left: bool, u: Thread)
    requires Enabled(s, Step(t, left)) && ThreadOk(s, t) && HoldersOk(s)
    requires u != t && u < |s.threads|
    ensures Owned(Apply(s, Step(t, left)), u) == Owned(s, u)
    ensures Apply(s, Step(t, left)).threads[u] == s.threads[u]
  {
    match s.threads[t].program
    case Spawn(_, handed, _) => assert handed <= Owned(s, t);
    case Unlock(m, _) => assert m in Owned(s, t);
    case _ =>
  }

  lemma ChildStep(s: State, t: Thread, left: bool)
    requires Enabled(s, Step(t, left)) && ThreadOk(s, t) && HoldersOk(s) && s.threads[t].program.Spawn?
    ensures ThreadOk(Apply(s, Step(t, left)), |s.threads|)
  {
    var s', handed := Apply(s, Step(t, left)), s.threads[t].program.handed;
    assert handed <= Owned(s, t);
    assert Owned(s', |s.threads|) == handed;
    if Follows(s, t, true) {
      assert Follows(s', |s.threads|, OpMu in handed);
    } else {
      assert Follows(s', |s.threads|, false);
    }
  }

  lemma TransferStep(s: State, t: Thread, left: bool, r: Thread)
    requires Enabled(s, Step(t, left)) && IsTransfer(s, r)
    ensures IsTransfer(Apply(s, Step(t, left)), r)
  {
    if t == r { TransferOwnStep(s, t, left); }
  }

  lemma TransferOwnStep(s: State, t: Thread, left: bool)
    requires Enabled(s, Step(t, left)) && IsTransfer(s, t)
    ensures IsTransfer(Apply(s, Step(t, left)), t)
  {
    if t in s.done {
      assert s.threads[t].program == UNLOCK;
    }
  }

  lemma StreamStep(s: State, t: Thread, left: bool, u: Thread)
    requires Enabled(s, Step(t, left)) && ThreadOk(s, t) && HoldersOk(s) && u < |Apply(s, Step(t, left)).threads|
    requires StreamOk(s, t) && (u < |s.threads| ==> StreamOk(s, u))
    ensures StreamOk(Apply(s, Step(t, left)), u)
  {
    if s.threads[t].program.Spawn? && (u == t || u == |s.threads|) {
      SpawnStream(s, t, left, u);
    } else {
      StreamKept(s, t, left, u);
      if s.threads[u].stream.Some? { TransferStep(s, t, left, s.threads[u].stream.value); }
    }
  }

  lemma StreamKept(s: State, t: Thread, left: bool, u: Thread)
    requires Enabled(s, Step(t, left)) && u < |Apply(s, Step(t, left)).threads|
    requires !(s.threads[t].program.Spawn? && (u == t || u == |s.threads|))
    ensures u < |s.threads| && Apply(s, Step(t, left)).threads[u].stream == s.threads[u].stream
    ensures Streamless(s.threads[u].program) ==> Streamless(Apply(s, Step(t, left)).threads[u].program)
  {}

  lemma SpawnStream(s: State, t: Thread, left: bool, u: Thread)
    requires Enabled(s, Step(t, left)) && ThreadOk(s, t) && HoldersOk(s) && StreamOk(s, t)
    requires s.threads[t].program.Spawn? && (u == t || u == |s.threads|)
    ensures StreamOk(Apply(s, Step(t, left)), u)
  {
    if OpMu in s.threads[t].program.handed {
      assert IsTransfer(Apply(s, Step(t, left)), |s.threads|);
    } else if s.threads[t].stream.Some? {
      TransferStep(s, t, left, s.threads[t].stream.value);
    }
  }

  lemma OneMoreEvent(log: seq<Event>, e: Event)
    ensures (log + [e])[..|log|] == log && (log + [e])[|log|] == e
  {}

  lemma LogStep(s: State, t: Thread, left: bool, m: Mutex)
    requires Enabled(s, Step(t, left)) && ThreadOk(s, t) && LogOk(s, m)
    ensures LogOk(Apply(s, Step(t, left)), m)
  {
    var p := s.threads[t].program;
    if p.Lock? {
      LockLog(s, t, left, m);
    } else if p.Unlock? {
      assert p.mutex in Owned(s, t);
      UnlockLog(s, t, left, m);
    } else if p.Spawn? {
      assert p.handed <= Owned(s, t);
      SpawnLog(s, t, left, m);
    } else {
      QuietStep(s, t, left);
    }
  }

  lemma LockLog(s: State, t: Thread, left: bool, m: Mutex)
    requires Enabled(s, Step(t, left)) && LogOk(s, m) && s.threads[t].program.Lock?
    ensures LogOk(Apply(s, Step(t, left)), m)
  {
    OneMoreEvent(s.log, Acquired(s.threads[t].program.mutex, t));
  }

  lemma UnlockLog(s: State, t: Thread, left: bool, m: Mutex)
    requires Enabled(s, Step(t, left)) && LogOk(s, m)
    requires s.threads[t].program.Unlock? && s.threads[t].program.mutex in Owned(s, t)
    ensures LogOk(Apply(s, Step(t, left)), m)
  {
    OneMoreEvent(s.log, Released(s.threads[t].program.mutex, t));
  }

  lemma QuietStep(s: State, t: Thread, left: bool)
    requires Enabled(s, Step(t, left))
    requires var p := s.threads[t].program; !p.Lock? && !p.Unlock? && !p.Spawn?
    ensures Apply(s, Step(t, left)).log == s.log && Apply(s, Step(t, left)).holders == s.holders
  {}

  lemma SpawnLog(s: State, t: Thread, left: bool, m: Mutex)
    requires Enabled(s, Step(t, left)) && LogOk(s, m)
    requires s.threads[t].program.Spawn? && s.threads[t].program.handed <= Owned(s, t)
    ensures LogOk(Apply(s, Step(t, left)), m)
  {
    var handed := s.threads[t].program.handed;
    HandedLog(s, t, handed, m);
    assert m in handed ==> m in Owned(s, t);
  }

  lemma HandedLog(s: State, t: Thread, handed: set<Mutex>, m: Mutex)
    requires LogOk(s, m) && handed <= Owned(s, t)
    ensures OwnerAfter(s.log + HandedEvents(handed, t, |s.threads|), m) ==
            if m in handed then Some(Some(|s.threads|)) else OwnerAfter(s.log, m)
  {
    assert m in handed ==> m in Owned(s, t);
    var first := if OpMu in handed then [Handed(OpMu, t, |s.threads|)] else [];
    if OpMu in handed { OneMoreEvent(s.log, first[0]); }
    assert OpMu !in handed ==> s.log + first == s.log;
    var middle := s.log + first;
    if Mu in handed {
      OneMoreEvent(middle, Handed(Mu, t, |s.threads|));
      assert s.log + HandedEvents(handed, t, |s.threads|) == middle + [Handed(Mu, t, |s.threads|)];
    } else {
      assert s.log + HandedEvents(handed, t, |s.threads|) == middle;
    }
  }

  // ---- runs ----

  ghost predicate StepAt(states: seq<State>, labels: seq<Label>, k: nat)
    requires |states| == |labels| + 1 && k < |labels|
  {
    Enabled(states[k], labels[k]) && states[k + 1] == Apply(states[k], labels[k])
  }

  ghost predicate IsRun(states: seq<State>, labels: seq<Label>)
  {
    && |states| == |labels| + 1
    && states[0] == INITIAL
    && forall k :: 0 <= k < |labels| ==> StepAt(states, labels, k)
  }

  lemma {:induction false} RunInvariant(states: seq<State>, labels: seq<Label>, k: nat)
    requires IsRun(states, labels) && k < |states|
    ensures Invariant(states[k])
  {
    if k > 0 {
      RunInvariant(states, labels, k - 1);
      assert StepAt(states, labels, k - 1);
      InvariantStep(states[k - 1], labels[k - 1]);
    } else {
      forall m ensures LogOk(INITIAL, m) {}
    }
  }

  /**
    Over every run, each mutex alternates between one acquisition and one release by whoever owns it
    by then, handovers included: never acquired while owned, never released by anybody else or twice.
   */
  lemma ReleasedOnceByItsOwner(states: seq<State>, labels: seq<Label>, k: nat, m: Mutex)
    requires IsRun(states, labels) && k < |states|
    ensures OwnerAfter(states[k].log, m) ==
            Some(if m in states[k].holders then Some(states[k].holders[m]) else None)
  {
    RunInvariant(states, labels, k);
    assert LogOk(states[k], m);
  }

  /** A goroutine about to unlock owns the mutex; one about to lock owns nothing of that rank or above. */
  ghost predicate Legal(s: State, t: Thread)
    requires t < |s.threads|
  {
    match s.threads[t].program
    case Unlock(m, _) => m in s.holders && s.holders[m] == t
    case Lock(m, _) => forall n :: n in s.holders && s.holders[n] == t ==> n == OpMu && m == Mu
    case Await(_) => forall n :: n in s.holders ==> s.holders[n] != t
    case _ => true
  }

  lemma NextStepIsLegal(states: seq<State>, labels: seq<Label>, k: nat, t: Thread)
    requires IsRun(states, labels) && k < |states| && t < |states[k].threads|
    ensures Legal(states[k], t)
  {
    RunInvariant(states, labels, k);
    var s := states[k];
    assert ThreadOk(s, t);
    match s.threads[t].program
    case Unlock(m, _) => assert m in Owned(s, t);
    case Lock(m, _) =>
      forall n | n in s.holders && s.holders[n] == t ensures n == OpMu && m == Mu {
        assert n in Owned(s, t);
        assert Rank(n) < Rank(m);
      }
    case Await(_) =>
      forall n | n in s.holders ensures s.holders[n] != t {
        assert s.holders[n] == t ==> n in Owned(s, t);
      }
    case _ =>
  }

  /** A goroutine that has finished owns nothing. */
  lemma FinishedOwnNothing(states: seq<State>, labels: seq<Label>, k: nat, m: Mutex)
    requires IsRun(states, labels) && k < |states| && m in states[k].holders
    ensures states[k].holders[m] < |states[k].threads| && states[k].threads[states[k].holders[m]].program != Stop
  {
    RunInvariant(states, labels, k);
    var s := states[k];
    assert ThreadOk(s, s.holders[m]);
    assert m in Owned(s, s.holders[m]);
  }

  ghost predicate Waits(s: State, t: Thread, m: Mutex)
  {
    t < |s.threads| && s.threads[t].program.Lock? && s.threads[t].program.mutex == m && m in s.holders
  }

  ghost predicate WaitsForDone(s: State, t: Thread)
  {
    t < |s.threads| && s.threads[t].program.Await? && !Enabled(s, Step(t, true))
  }

  /**
    No cycle of waits: the holder of mu waits for nothing, the holder of opMu at most for mu, and who waits for
    a stream to be done owns nothing and waits for a transfer that owns opMu.
   */
  lemma WaitsOnlyUpwards(states: seq<State>, labels: seq<Label>, k: nat, t: Thread, m: Mutex)
    requires IsRun(states, labels) && k < |states| && Waits(states[k], t, m)
    ensures var holder := states[k].holders[m];
            && holder != t && !WaitsForDone(states[k], holder)
            && forall n :: Waits(states[k], holder, n) ==> m == OpMu && n == Mu
  {
    var s := states[k];
    var holder := s.holders[m];
    NextStepIsLegal(states, labels, k, t);
    FinishedOwnNothing(states, labels, k, m);
    NextStepIsLegal(states, labels, k, holder);
  }

  /** A transfer owns opMu exactly until it ends. */
  lemma TransferOwnsOpMu(states: seq<State>, labels: seq<Label>, k: nat, c: Thread, t: Thread)
    requires IsRun(states, labels) && k < |states|
    requires c < |states[k].threads| && states[k].threads[c].stream == Some(t)
    ensures IsTransfer(states[k], t)
    ensures states[k].threads[t].program != Stop <==> OpMu in states[k].holders && states[k].holders[OpMu] == t
  {
    RunInvariant(states, labels, k);
    var s := states[k];
    assert StreamOk(s, c) && ThreadOk(s, t);
    var p, owned := s.threads[t].program, Owned(s, t);
    assert OpMu in owned <==> OpMu in s.holders && s.holders[OpMu] == t;
    if TransferLeft(p) { LeftOwnsOpMu(p, owned, !Follows(s, t, false)); }
  }

  lemma {:induction false} LeftOwnsOpMu(p: Program, owned: set<Mutex>, known: bool)
    requires TransferLeft(p) && Disciplined(p, owned, known)
    ensures OpMu in owned
  {
    match p
    case Lock(m, next) => LeftOwnsOpMu(next, owned + {m}, known);
    case Unlock(m, next) => LeftOwnsOpMu(next, owned - {m}, known && m != OpMu);
    case Choose(left, _) => LeftOwnsOpMu(left, owned, known);
    case Take(ok, _) => LeftOwnsOpMu(ok, owned, true);
    case Do(a, next) => if a != Finish { LeftOwnsOpMu(next, owned, known && !Forgets(a)); }
  }

  lemma DoneWaitsForOwner(states: seq<State>, labels: seq<Label>, k: nat, t: Thread)
    requires IsRun(states, labels) && k < |states| && WaitsForDone(states[k], t)
    ensures OpMu in states[k].holders && states[k].threads[t].stream == Some(states[k].holders[OpMu])
  {
    RunInvariant(states, labels, k);
    assert StreamOk(states[k], t);
    TransferOwnsOpMu(states, labels, k, t, states[k].threads[t].stream.value);
  }

  /** The holder of a mutex can step, or the holder of mu can. */
  lemma HolderGoesOn(states: seq<State>, labels: seq<Label>, k: nat, m: Mutex)
    requires IsRun(states, labels) && k < |states| && m in states[k].holders
    ensures exists u: Thread :: u < |states[k].threads| && Enabled(states[k], Step(u, true))
  {
    var s := states[k];
    var holder := s.holders[m];
    FinishedOwnNothing(states, labels, k, m);
    NextStepIsLegal(states, labels, k, holder);
    if Waits(s, holder, Mu) {
      var last := s.holders[Mu];
      FinishedOwnNothing(states, labels, k, Mu);
      NextStepIsLegal(states, labels, k, last);
      assert Enabled(s, Step(last, true));
    } else {
      assert !Waits(s, holder, OpMu);
      assert Enabled(s, Step(holder, true));
    }
  }

  /** While any goroutine has work left, one of them can take a step. */
  lemma NeverStuck(states: seq<State>, labels: seq<Label>, k: nat, t: Thread)
    requires IsRun(states, labels) && k < |states| && t < |states[k].threads| && states[k].threads[t].program != Stop
    ensures exists u: Thread :: u < |states[k].threads| && Enabled(states[k], Step(u, true))
  {
    var s := states[k];
    NextStepIsLegal(states, labels, k, t);
    if WaitsForDone(s, t) {
      DoneWaitsForOwner(states, labels, k, t);
      HolderGoesOn(states, labels, k, OpMu);
    } else if m :| Waits(s, t, m) {
      HolderGoesOn(states, labels, k, m);
    } else {
      assert s.threads[t].program.Lock? ==> !Waits(s, t, s.threads[t].program.mutex);
      assert Enabled(s, Step(t, true));
    }
  }

  function Size(p: Program): nat {
    match p
    case Stop => 0
    case Lock(_, next) => Size(next) + 1
    case Unlock(_, next) => Size(next) + 1
    case Choose(left, right) => Size(left) + Size(right) + 1
    case Take(ok, failed) => Size(ok) + Size(failed) + 1
    case Do(_, next) => Size(next) + 1
    case Await(next) => Size(next) + 1
    case Spawn(child, _, next) => Size(child) + Size(next) + 1
  }

  function TotalSize(threads: seq<Goroutine>): nat {
    if threads == [] then 0 else TotalSize(threads[..|threads| - 1]) + Size(threads[|threads| - 1].program)
  }

  lemma {:induction false} TotalSizeUpdate(threads: seq<Goroutine>, t: Thread, g: Goroutine)
    requires t < |threads|
    ensures TotalSize(threads[t := g]) == TotalSize(threads) - Size(threads[t].program) + Size(g.program)
  {
    var last := |threads| - 1;
    if t == last {
      assert threads[t := g][..last] == threads[..last];
    } else {
      assert threads[t := g][..last] == threads[..last][t := g];
      TotalSizeUpdate(threads[..last], t, g);
    }
  }

  /** Every step uses up some of the work left, so no schedule goes on forever without new calls. */
  lemma StepsUseUpWork(s: State, t: Thread, left: bool)
    requires Enabled(s, Step(t, left))
    ensures TotalSize(Apply(s, Step(t, left)).threads) < TotalSize(s.threads)
  {
    var after := Apply(s, Step(t, left)).threads;
    TotalSizeUpdate(s.threads, t, after[t]);
    if s.threads[t].program.Spawn? {
      assert after[..|s.threads|] == s.threads[t := after[t]];
    } else {
      OneThreadMoves(s, t, left);
    }
  }

  lemma OneThreadMoves(s: State, t: Thread, left: bool)
    requires Enabled(s, Step(t, left)) && !s.threads[t].program.Spawn?
    ensures var after := Apply(s, Step(t, left)).threads;
            after == s.threads[t := after[t]] && Size(after[t].program) < Size(s.threads[t].program)
  {}

  ghost predicate AllFinished(s: State) {
    forall t :: 0 <= t < |s.threads| ==> s.threads[t].program == Stop
  }

  lemma FinishedFree(states: seq<State>, labels: seq<Label>, k: nat)
    requires IsRun(states, labels) && k < |states| && AllFinished(states[k])
    ensures states[k].holders == map[]
  {
    forall m ensures m !in states[k].holders {
      if m in states[k].holders { FinishedOwnNothing(states, labels, k, m); }
    }
  }

  lemma NextStep(states: seq<State>, labels: seq<Label>, k: nat) returns (u: Thread)
    requires IsRun(states, labels) && k < |states| && !AllFinished(states[k])
    ensures Enabled(states[k], Step(u, true))
    ensures TotalSize(Apply(states[k], Step(u, true)).threads) < TotalSize(states[k].threads)
  {
    var t: Thread :| t < |states[k].threads| && states[k].threads[t].program != Stop;
    NeverStuck(states, labels, k, t);
    u :| u < |states[k].threads| && Enabled(states[k], Step(u, true));
    StepsUseUpWork(states[k], u, true);
  }

  /** From every reachable state the calls in progress can all finish, and then both mutexes are free. */
  lemma {:induction false} EveryRunCanFinish(states: seq<State>, labels: seq<Label>)
    returns (finished: seq<State>, steps: seq<Label>)
    requires IsRun(states, labels)
    ensures IsRun(finished, labels + steps) && states <= finished
    ensures forall l :: l in steps ==> l.Step?
    ensures AllFinished(finished[|finished| - 1]) && finished[|finished| - 1].holders == map[]
    decreases TotalSize(states[|states| - 1].threads)
  {
    var last := |states| - 1;
    if AllFinished(states[last]) {
      FinishedFree(states, labels, last);
      finished, steps := states, [];
      assert labels + steps == labels;
    } else {
      var u := NextStep(states, labels, last);
      var l := Step(u, true);
      RunExtends(states, labels, l);
      var later;
      finished, later := EveryRunCanFinish(states + [Apply(states[last], l)], labels + [l]);
      steps := [l] + later;
      assert labels + steps == labels + [l] + later;
    }
  }

  lemma RunExtends(states: seq<State>, labels: seq<Label>, l: Label)
    requires IsRun(states, labels) && Enabled(states[|states| - 1], l)
    ensures IsRun(states + [Apply(states[|states| - 1], l)], labels + [l])
  {
    var states', labels' := states + [Apply(states[|states| - 1], l)], labels + [l];
    forall k | 0 <= k < |labels'| ensures StepAt(states', labels', k) {
      assert k < |labels| ==> StepAt(states, labels, k);
    }
  }
}
