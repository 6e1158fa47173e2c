/**
  What an Abort meets (ftp/ftp.go). The Close of a read stream and its cancellation copy the session out of the
  field under `mu` and abort the copy after the unlock, without `opMu`. Meant is the stream's own transfer; the
  theorems say, over every run, whom such an Abort finds at work on that session.
 */
module FtpAborts {
  import opened Common
  import opened FtpLocks

  /** `u` is at work on session `x`. */
  ghost predicate Using(s: State, u: Thread, x: Session) {
    && u < |s.threads| && s.threads[u].program.Do? && s.threads[u].program.action == EndUse
    && s.threads[u].session == Some(x)
  }

  /** Work is exclusive: only the owner of opMu is at work, and on the session that is in the field. */
  lemma WorkIsExclusive(states: seq<State>, labels: seq<Label>, k: nat, u: Thread, x: Session)
    requires IsRun(states, labels) && k < |states| && Using(states[k], u, x)
    ensures OpMu in states[k].holders && states[k].holders[OpMu] == u && states[k].current == Some(x)
  {
    RunInvariant(states, labels, k);
    assert ThreadOk(states[k], u);
  }

  ghost predicate ActsAt(states: seq<State>, labels: seq<Label>, k: nat, c: Thread, a: Action) {
    && k < |labels| < |states| && labels[k].Step? && labels[k].thread == c < |states[k].threads|
    && states[k].threads[c].program.Do? && states[k].threads[c].program.action == a
  }

  /** Step `i` of goroutine `c` copies session `x` out of the field. */
  ghost predicate ReadsAt(states: seq<State>, labels: seq<Label>, i: nat, c: Thread, x: Session) {
    ActsAt(states, labels, i, c, Read) && states[i].current == Some(x)
  }

  /** Step `k` of goroutine `c` aborts session `x`. */
  ghost predicate AbortsAt(states: seq<State>, labels: seq<Label>, k: nat, c: Thread, x: Session) {
    ActsAt(states, labels, k, c, Abort) && states[k].threads[c].session == Some(x)
  }

  ghost predicate KeptSince(states: seq<State>, i: nat, k: nat, x: Session)
    requires k < |states|
  {
    forall n :: i <= n <= k ==> states[n].current == Some(x)
  }

  ghost predicate Ended(s: State, t: Thread) { t < |s.threads| && s.threads[t].program == Stop }

  ghost predicate OwnerAtWork(s: State) {
    OpMu in s.holders && exists x :: Using(s, s.holders[OpMu], x)
  }

  /** Every Abort comes right after a Read and the unlock behind it. */
  predicate Paired(p: Program) {
    match p
    case Stop => true
    case Lock(_, next) => Paired(next)
    case Unlock(_, next) => Paired(next)
    case Choose(left, right) => Paired(left) && Paired(right)
    case Take(ok, failed) => Paired(ok) && Paired(failed)
    case Do(a, next) =>
      if a == Read then next.Unlock? && Aborting(next.next) && Paired(next.next.next)
      else a != Abort && Paired(next)
    case Await(next) => Paired(next)
    case Spawn(child, _, next) => Paired(child) && Paired(next)
  }

  predicate Aborting(p: Program) { p.Do? && p.action == Abort }

  /** Between a Read and its Abort. */
  predicate HasRead(p: Program) {
    var q := if p.Unlock? then p.next else p;
    Aborting(q) && Paired(q.next)
  }

  lemma PairedParts(ok: Program, failed: Program)
    requires Paired(ok) && Paired(failed)
    ensures Paired(CurrentSession(ok, failed)) && Paired(Use(ok)) && Paired(AbortTransfer(ok))
  {
    assert Paired(Unlock(Mu, ok)) && Paired(Unlock(Mu, failed));
    assert Paired(Take(Unlock(Mu, ok), Unlock(Mu, failed)));
    assert Paired(Do(EndUse, ok));
  }

  lemma PairedAttempts(next: Program, failed: Program)
    requires Paired(next) && Paired(failed)
    ensures Paired(Attempts(next, failed))
  {
    PairedParts(next, failed);
    PairedParts(Use(next), failed);
    var again := Do(Invalidate, Unlock(Mu, CurrentSession(Use(next), failed)));
    assert Paired(again);
    PairedParts(Choose(next, Lock(Mu, again)), failed);
  }

  lemma OpenIsPaired()
    ensures Paired(OPEN)
  {
    PairedAttempts(END_TRANSFER, END_TRANSFER);
    PairedParts(Stop, Stop);
    var after := Choose(UNLOCK, OPEN_STREAM);
    assert Paired(WATCH_CANCELLATION) && Paired(OPEN_STREAM) && Paired(after);
    PairedAttempts(after, UNLOCK);
    PairedParts(Attempts(after, UNLOCK), UNLOCK);
  }

  lemma CloseIsPaired()
    ensures Paired(CLOSE)
  {
    var shut := Lock(Mu, Do(Shut, Unlock(Mu, UNLOCK)));
    assert Paired(Unlock(Mu, UNLOCK)) && Paired(shut);
    PairedParts(Lock(OpMu, shut), UNLOCK);
  }

  lemma OperationsArePaired(op: Operation)
    ensures Paired(ProgramOf(op))
  {
    PairedAttempts(UNLOCK, UNLOCK);
    PairedParts(Attempts(UNLOCK, UNLOCK), UNLOCK);
    PairedParts(UNLOCK, UNLOCK);
    match op
    case Open => OpenIsPaired();
    case Write =>
      var after := Choose(UNLOCK, Unlock(OpMu, WITH_LOCKED));
      PairedParts(after, UNLOCK);
      PairedParts(Use(after), UNLOCK);
    case Delete => PairedParts(Use(UNLOCK), UNLOCK);
    case Close => CloseIsPaired();
    case CloseStream(_) => PairedParts(Await(Stop), Stop);
    case _ =>
  }

  ghost predicate PairedThreads(s: State) {
    forall t :: 0 <= t < |s.threads| ==> Paired(s.threads[t].program) || HasRead(s.threads[t].program)
  }

  lemma PairedStep(s: State, l: Label)
    requires PairedThreads(s) && Enabled(s, l)
    ensures PairedThreads(Apply(s, l))
  {
    if l.Begin? { OperationsArePaired(l.op); }
  }

  lemma {:induction false} PairedRun(states: seq<State>, labels: seq<Label>, k: nat)
    requires IsRun(states, labels) && k < |states|
    ensures PairedThreads(states[k])
  {
    if k > 0 {
      PairedRun(states, labels, k - 1);
      assert StepAt(states, labels, k - 1);
      PairedStep(states[k - 1], labels[k - 1]);
    }
  }

  /** A goroutine between Read and Abort was there one step earlier too, or reads at this step. */
  lemma ReadStep(s: State, l: Label, c: Thread)
    requires PairedThreads(s) && Enabled(s, l) && c < |Apply(s, l).threads|
    requires HasRead(Apply(s, l).threads[c].program)
    ensures c < |s.threads| && var g, g' := s.threads[c], Apply(s, l).threads[c];
            if HasRead(g.program) then g'.session == g.session
            else l.Step? && l.thread == c && g.program.Do? && g.program.action == Read && g'.session == s.current
  {
    NotBoth(Apply(s, l).threads[c].program);
    if l.Begin? {
      OperationsArePaired(l.op);
    } else {
      var p := s.threads[l.thread].program;
      assert Paired(p) || HasRead(p);
    }
  }

  lemma NotBoth(p: Program)
    ensures !(Paired(p) && HasRead(p))
  {
    if HasRead(p) { assert p.Unlock? ==> !Paired(p.next); }
  }

  lemma {:induction false} AbortFollowsRead(states: seq<State>, labels: seq<Label>, k: nat, c: Thread, x: Session)
    returns (i: nat)
    requires IsRun(states, labels) && k < |states| && c < |states[k].threads|
    requires HasRead(states[k].threads[c].program) && states[k].threads[c].session == Some(x)
    ensures i < k && ReadsAt(states, labels, i, c, x)
  {
    PairedRun(states, labels, k - 1);
    assert StepAt(states, labels, k - 1);
    ReadStep(states[k - 1], labels[k - 1], c);
    if HasRead(states[k - 1].threads[c].program) {
      i := AbortFollowsRead(states, labels, k - 1, c, x);
    } else {
      i := k - 1;
    }
  }

  /** A session that has left the field does not come back. */
  lemma {:induction false} ReplacedForever(states: seq<State>, labels: seq<Label>, n: nat, k: nat, x: Session)
    requires IsRun(states, labels) && n <= k < |states| && x < states[n].dialed && states[n].current != Some(x)
    ensures x < states[k].dialed && states[k].current != Some(x)
    decreases k
  {
    if n < k {
      ReplacedForever(states, labels, n, k - 1, x);
      assert StepAt(states, labels, k - 1);
    }
  }

  lemma {:induction false} DialedGrows(states: seq<State>, labels: seq<Label>, i: nat, k: nat)
    requires IsRun(states, labels) && i <= k < |states|
    ensures states[i].dialed <= states[k].dialed
    decreases k
  {
    if i < k {
      DialedGrows(states, labels, i, k - 1);
      assert StepAt(states, labels, k - 1);
    }
  }

  lemma CurrentMeansKept(states: seq<State>, labels: seq<Label>, i: nat, k: nat, x: Session)
    requires IsRun(states, labels) && i <= k < |states| && states[i].current == Some(x)
    ensures states[k].current == Some(x) <==> KeptSince(states, i, k, x)
  {
    RunInvariant(states, labels, i);
    if states[k].current == Some(x) {
      forall n | i <= n <= k ensures states[n].current == Some(x) {
        DialedGrows(states, labels, i, n);
        if states[n].current != Some(x) { ReplacedForever(states, labels, n, k, x); }
      }
    }
  }

  /**
    The Close of a stream, or its cancellation, aborts a session `x` that it copied out of the field at an earlier
    step `i`. Another goroutine than the stream's transfer `t` is at work on `x` at that moment if and only if `t`
    has ended, the session was not replaced since `i`, and the owner of opMu is at work. Until `t` has ended the
    Abort can meet nobody but `t`.
   */
  lemma AbortHitsAnotherIff(states: seq<State>, labels: seq<Label>, k: nat, c: Thread, t: Thread, x: Session)
    returns (i: nat)
    requires IsRun(states, labels) && AbortsAt(states, labels, k, c, x) && states[k].threads[c].stream == Some(t)
    ensures i < k && ReadsAt(states, labels, i, c, x)
    ensures (exists u :: u != t && Using(states[k], u, x)) <==>
            Ended(states[k], t) && KeptSince(states, i, k, x) && OwnerAtWork(states[k])
    ensures !Ended(states[k], t) ==> forall u :: Using(states[k], u, x) ==> u == t
  {
    var s := states[k];
    PairedRun(states, labels, k);
    assert HasRead(s.threads[c].program);
    i := AbortFollowsRead(states, labels, k, c, x);
    CurrentMeansKept(states, labels, i, k, x);
    TransferOwnsOpMu(states, labels, k, c, t);
    forall u | Using(s, u, x)
      ensures OpMu in s.holders && s.holders[OpMu] == u && s.current == Some(x)
    {
      WorkIsExclusive(states, labels, k, u, x);
    }
    if OwnerAtWork(s) {
      var y :| Using(s, s.holders[OpMu], y);
      WorkIsExclusive(states, labels, k, s.holders[OpMu], y);
    }
  }

  // ---- both outcomes happen ----

  ghost predicate Reachable(s: State) {
    exists states, labels :: IsRun(states, labels) && states[|labels|] == s
  }

  lemma ReachableStep(s: State, l: Label)
    requires Reachable(s) && Enabled(s, l)
    ensures Reachable(Apply(s, l))
  {
    var states, labels :| IsRun(states, labels) && states[|labels|] == s;
    RunExtends(states, labels, l);
    var states', labels' := states + [Apply(s, l)], labels + [l];
    assert IsRun(states', labels') && states'[|labels'|] == Apply(s, l);
  }

  /** The next step of `c` aborts `x`. */
  ghost predicate AboutToAbort(s: State, c: Thread, x: Session) {
    c < |s.threads| && Aborting(s.threads[c].program) && s.threads[c].session == Some(x)
  }

  /** Same goroutines but for the program and session of `t`; same holders and done channels; still open. */
  ghost predicate Moved(s: State, s': State, t: Thread, p: Program, session: Option<Session>) {
    && t < |s.threads| && s'.threads == s.threads[t := s.threads[t].(program := p, session := session)]
    && s'.holders == s.holders && s'.closed == s.closed && s'.done == s.done
  }

  lemma Acquires(s: State, t: Thread, ok: Program, failed: Program) returns (s': State)
    requires Reachable(s) && t < |s.threads| && s.threads[t].program == CurrentSession(ok, failed)
    requires Mu !in s.holders && !s.closed
    ensures Reachable(s') && Moved(s, s', t, ok, s'.current)
    ensures s'.current == if s.current.Some? then s.current else Some(s.dialed)
    ensures s'.dialed >= s.dialed
  {
    ReachableStep(s, Step(t, false));
    var s1 := Apply(s, Step(t, false));
    ReachableStep(s1, Step(t, false));
    var s2 := Apply(s1, Step(t, false));
    ReachableStep(s2, Step(t, false));
    var s3 := Apply(s2, Step(t, false));
    ReachableStep(s3, Step(t, false));
    s' := Apply(s3, Step(t, false));
    assert s.holders[Mu := t] - {Mu} == s.holders;
  }

  lemma Copies(s: State, c: Thread, next: Program) returns (s': State)
    requires Reachable(s) && c < |s.threads| && s.threads[c].program == AbortTransfer(next) && Mu !in s.holders
    ensures Reachable(s') && Moved(s, s', c, Do(Abort, next), s.current)
    ensures s'.current == s.current && s'.dialed == s.dialed
  {
    ReachableStep(s, Step(c, false));
    var s1 := Apply(s, Step(c, false));
    ReachableStep(s1, Step(c, false));
    var s2 := Apply(s1, Step(c, false));
    ReachableStep(s2, Step(c, false));
    s' := Apply(s2, Step(c, false));
    assert s.holders[Mu := c] - {Mu} == s.holders;
  }

  /** An open adapter with both mutexes free and a session. */
  ghost predicate Idle(s: State) { Reachable(s) && s.holders == map[] && !s.closed && s.current.Some? }

  /** The first attempt succeeds. */
  lemma Works(s: State, t: Thread, next: Program, failed: Program) returns (s': State)
    requires Reachable(s) && t < |s.threads| && s.threads[t].program == Attempts(next, failed)
    ensures Reachable(s') && Moved(s, s', t, next, s.threads[t].session)
    ensures s'.current == s.current && s'.dialed == s.dialed
  {
    ReachableStep(s, Step(t, true));
    var s1 := Apply(s, Step(t, true));
    ReachableStep(s1, Step(t, true));
    var s2 := Apply(s1, Step(t, true));
    ReachableStep(s2, Step(t, true));
    s' := Apply(s2, Step(t, true));
  }

  /** An operation that locks opMu and gets the session in the field. */
  lemma LocksAndAcquires(s: State, t: Thread, ok: Program) returns (s': State)
    requires Idle(s) && t < |s.threads| && s.threads[t].program == Lock(OpMu, CurrentSession(ok, UNLOCK))
    ensures Reachable(s') && !s'.closed && s'.done == s.done && s'.current == s.current && s'.dialed >= s.dialed
    ensures s'.holders == map[OpMu := t]
    ensures s'.threads == s.threads[t := s.threads[t].(program := ok, session := s.current)]
  {
    ReachableStep(s, Step(t, false));
    var s1 := Apply(s, Step(t, false));
    s' := Acquires(s1, t, ok, UNLOCK);
  }

  /** Open up to the two goroutines of its stream. */
  lemma OpensStream(s: State) returns (s': State, t: Thread)
    requires Idle(s)
    ensures Reachable(s') && !s'.closed && s'.current == s.current && s'.holders == map[OpMu := t]
    ensures t + 2 == |s'.threads| && s'.threads[t] == Goroutine(TRANSFER, s.current, Some(t)) && Returned(s', t)
  {
    var o := |s.threads|;
    var after := Choose(UNLOCK, OPEN_STREAM);
    ReachableStep(s, Begin(Open));
    var s1 := Apply(s, Begin(Open));
    ReachableStep(s1, Step(o, false));
    var s2 := Apply(s1, Step(o, false));
    var s3 := LocksAndAcquires(s2, o, Attempts(after, UNLOCK));
    var s4 := Works(s3, o, after, UNLOCK);
    s', t := SpawnsStream(s4, o);
  }

  lemma SpawnsStream(s: State, o: Thread) returns (s': State, t: Thread)
    requires Reachable(s) && o < |s.threads| && s.threads[o].program == Choose(UNLOCK, OPEN_STREAM)
    requires s.holders == map[OpMu := o]
    ensures Reachable(s') && s'.closed == s.closed && s'.current == s.current && s'.holders == map[OpMu := t]
    ensures t + 2 == |s'.threads| && s'.threads[t] == Goroutine(TRANSFER, s.threads[o].session, Some(t))
    ensures Returned(s', t)
  {
    t := |s.threads|;
    ReachableStep(s, Step(o, false));
    var s1 := Apply(s, Step(o, false));
    ReachableStep(s1, Step(o, false));
    var s2 := Apply(s1, Step(o, false));
    ReachableStep(s2, Step(o, false));
    s' := Apply(s2, Step(o, false));
    assert s'.threads[o].stream == Some(t) && s'.threads[o].program == Stop;
    assert s'.holders == map[OpMu := t];
  }

  /** A stream whose transfer has ended, opMu free again. */
  lemma StreamEnds(s: State) returns (s': State, t: Thread)
    requires Idle(s)
    ensures Idle(s') && s'.current == s.current && Returned(s', t) && Ended(s', t)
  {
    var s1;
    s1, t := OpensStream(s);
    var o :| 0 <= o < |s1.threads| && o != t && s1.threads[o].stream == Some(t) && s1.threads[o].program == Stop;
    var s2 := Works(s1, t, END_TRANSFER, END_TRANSFER);
    ReachableStep(s2, Step(t, false));
    var s3 := Apply(s2, Step(t, false));
    ReachableStep(s3, Step(t, false));
    s' := Apply(s3, Step(t, false));
    assert s'.threads[o].stream == Some(t) && s'.threads[o].program == Stop;
    assert s'.holders == map[];
  }

  /** Then its Close begins, and a Stat that is at work when the Close has not yet looked at the field. */
  lemma CloseMeetsStat(s: State) returns (s': State, c: Thread, t: Thread, u: Thread)
    requires Idle(s)
    ensures Reachable(s') && !s'.closed && s'.current == s.current && s'.holders == map[OpMu := u] && Ended(s', t)
    ensures c < u && u + 1 == |s'.threads| && t != u
    ensures s'.threads[c] == Goroutine(AbortTransfer(Await(Stop)), None, Some(t))
    ensures s'.threads[u] == Goroutine(Attempts(UNLOCK, UNLOCK), s.current, None)
  {
    var s1;
    s1, t := StreamEnds(s);
    c, u := |s1.threads|, |s1.threads| + 1;
    ReachableStep(s1, Begin(CloseStream(t)));
    var s2 := Apply(s1, Begin(CloseStream(t)));
    ReachableStep(s2, Step(c, false));
    var s3 := Apply(s2, Step(c, false));
    ReachableStep(s3, Begin(Stat));
    var s4 := Apply(s3, Begin(Stat));
    s' := LocksAndAcquires(s4, u, Attempts(UNLOCK, UNLOCK));
  }

  /** From every idle state: a stream closed late aborts an operation that is not its own. */
  lemma AbortHitsAnotherHappens(s: State) returns (s': State, c: Thread, t: Thread, u: Thread)
    requires Idle(s)
    ensures Reachable(s') && s'.current == s.current && AboutToAbort(s', c, s.current.value)
    ensures s'.threads[c].stream == Some(t) && Ended(s', t) && u != t && Using(s', u, s.current.value)
  {
    var s1;
    s1, c, t, u := CloseMeetsStat(s);
    ReachableStep(s1, Step(u, false));
    var s2 := Apply(s1, Step(u, false));
    s' := Copies(s2, c, Await(Stop));
  }

  /** Also from every idle state: the session is replaced in between, and the Abort meets nobody. */
  lemma AbortMissesHappens(s: State) returns (s': State, c: Thread, t: Thread)
    requires Idle(s)
    ensures Reachable(s') && AboutToAbort(s', c, s.current.value) && s'.threads[c].stream == Some(t)
    ensures Ended(s', t) && OwnerAtWork(s') && forall v :: !Using(s', v, s.current.value)
  {
    var s1, u;
    s1, c, t, u := CloseMeetsStat(s);
    var s2 := Copies(s1, c, Await(Stop));
    var s3 := Reconnects(s2, u, UNLOCK, UNLOCK);
    ReachableStep(s3, Step(u, false));
    s' := Apply(s3, Step(u, false));
    assert Using(s', s'.holders[OpMu], s'.current.value);
    var states, labels :| IsRun(states, labels) && states[|labels|] == s';
    forall v ensures !Using(s', v, s.current.value) {
      if Using(s', v, s.current.value) { WorkIsExclusive(states, labels, |labels|, v, s.current.value); }
    }
  }

  /** The first attempt loses its connection, and the second one begins on a new session. */
  lemma Reconnects(s: State, u: Thread, next: Program, failed: Program) returns (s': State)
    requires Reachable(s) && !s.closed && u < |s.threads| && s.threads[u].program == Attempts(next, failed)
    requires s.threads[u].session == s.current && s.current.Some? && Mu !in s.holders
    ensures Reachable(s') && Moved(s, s', u, Use(next), s'.current) && s'.current.Some? && s'.current != s.current
  {
    ReachableStep(s, Step(u, false));
    var s1 := Apply(s, Step(u, false));
    ReachableStep(s1, Step(u, false));
    var s2 := Apply(s1, Step(u, false));
    ReachableStep(s2, Step(u, false));
    var s3 := Apply(s2, Step(u, false));
    var s4 := Clears(s3, u, CurrentSession(Use(next), failed));
    s' := Acquires(s4, u, Use(next), failed);
    var states, labels :| IsRun(states, labels) && states[|labels|] == s;
    RunInvariant(states, labels, |labels|);
  }

  lemma Clears(s: State, u: Thread, next: Program) returns (s': State)
    requires Reachable(s) && u < |s.threads| && s.threads[u].session == s.current && Mu !in s.holders
    requires s.threads[u].program == Lock(Mu, Do(Invalidate, Unlock(Mu, next)))
    ensures Reachable(s') && Moved(s, s', u, next, s.current) && s'.current == None && s'.dialed == s.dialed
  {
    ReachableStep(s, Step(u, false));
    var s1 := Apply(s, Step(u, false));
    ReachableStep(s1, Step(u, false));
    var s2 := Apply(s1, Step(u, false));
    ReachableStep(s2, Step(u, false));
    s' := Apply(s2, Step(u, false));
    assert s.holders[Mu := u] - {Mu} == s.holders;
  }

  lemma InitialIsIdle()
    ensures Idle(INITIAL)
  {
    assert IsRun([INITIAL], []);
  }
}
