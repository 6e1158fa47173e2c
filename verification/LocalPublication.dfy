/**
  The local adapter's publication protocol (local/local.go) as a transition system.

  Any number of Write, Move, Delete and read calls interleave over one directory
  map. Each label is one system call, or one failure of a system call. Link,
  Rename, exclusive rename and O_EXCL creation are atomic. A Write creates at most
  one file, so a file is named by the call that created it. Generated temporary
  names are kept apart from the paths clients use.
 */
module LocalPublication {
  import opened Common

  type Call = nat

  datatype Name = Temporary(token: nat) | Logical(path: string)

  datatype WritePhase =
    | Checking                 // before the create-only precheck
    | Naming                   // about to create the temporary file
    | Copying                  // temporary open, a prefix of the source copied
    | Copied                   // whole source copied; Sync and Close to come
    | Closed                   // ready to publish
    | Published                // linked, temporary name still present
    | Committed                // only the final Stat is left
    | Unwinding(error: Error)  // deferred Close
    | Removing(error: Error)   // deferred Remove
    | Returned(result: Outcome<()>)

  /**
    One Write call and the file it created: `content` and `open` describe that
    file, `published` records whether Link or Rename ever took effect.
   */
  datatype Write = Write(
    destination: string, createOnly: bool, source: seq<Byte>,
    phase: WritePhase, token: nat, content: seq<Byte>, open: bool, published: bool)

  datatype MovePhase = Prechecking | Ready | MoveReturned(result: Outcome<()>)

  datatype Move = Move(source: string, destination: string, overwrite: bool, phase: MovePhase)

  datatype Reader = Reader(file: Call, data: seq<Byte>, ended: bool)

  datatype State = State(
    names: map<Name, Call>,
    writes: map<Call, Write>,
    moves: map<Call, Move>,
    readers: map<Call, Reader>)

  const INITIAL := State(map[], map[], map[], map[])

  datatype Label =
    | WriteBegin(w: Call, destination: string, createOnly: bool, source: seq<Byte>)
    | WriteStep(w: Call, step: WriteStep)
    | MoveBegin(m: Call, from: string, to: string, overwrite: bool)
    | MoveStat(m: Call)
    | MoveRename(m: Call)
    | MoveFail(m: Call)
    | Delete(path: string)
    | ReadOpen(r: Call, path: string)
    | ReadChunk(r: Call, count: nat)
    | ReadEnd(r: Call)

  datatype WriteStep =
    | Stat                    // the fast create-only precheck
    | Abort                   // any failure before the temporary exists
    | TempOpen(token: nat)    // O_CREATE|O_EXCL
    | CopyChunk(count: nat)
    | CopyEnd                 // the source reported its end
    | TempClose               // Sync, then Close
    | Link
    | TempRemove
    | Rename
    | FinalStat(ok: bool)
    | Fail                    // a failure after the temporary exists
    | CleanupClose
    | CleanupRemove(ok: bool)

  // ---- one Write step: its effect on the call and on the directory ----

  predicate StepEnabled(names: map<Name, Call>, c: Write, step: WriteStep)
  {
    match step
    case Stat => c.phase.Checking?
    case Abort => c.phase.Checking? || c.phase.Naming?
    case TempOpen(token) => c.phase.Naming? && Temporary(token) !in names
    case CopyChunk(count) => c.phase.Copying? && |c.content| + count <= |c.source|
    case CopyEnd => c.phase.Copying? && |c.content| == |c.source|
    case TempClose => c.phase.Copied?
    case Link => c.phase.Closed? && c.createOnly
    case TempRemove => c.phase.Published?
    case Rename => c.phase.Closed? && !c.createOnly && Temporary(c.token) in names
    case FinalStat(_) => c.phase.Committed?
    case Fail => c.phase.Copying? || c.phase.Copied? || c.phase.Closed? || c.phase.Published?
    case CleanupClose => c.phase.Unwinding?
    case CleanupRemove(_) => c.phase.Removing?
  }

  function CallAfter(names: map<Name, Call>, c: Write, step: WriteStep): Write
    requires StepEnabled(names, c, step)
  {
    match step
    case Stat =>
      if Logical(c.destination) in names then c.(phase := Returned(Err(PreconditionFailed)))
      else c.(phase := Naming)
    case Abort => c.(phase := Returned(Err(Failed)))
    case TempOpen(token) => c.(phase := Copying, token := token, content := [], open := true)
    case CopyChunk(count) => c.(content := c.content + c.source[|c.content|..|c.content| + count])
    case CopyEnd => c.(phase := Copied)
    case TempClose => c.(phase := Closed, open := false)
    case Link =>
      if Logical(c.destination) in names then c.(phase := Unwinding(PreconditionFailed))
      else c.(phase := Published, published := true)
    case TempRemove => c.(phase := Committed)
    case Rename => c.(phase := Committed, published := true)
    case FinalStat(ok) => c.(phase := Returned(if ok then Ok(()) else Err(Failed)))
    case Fail => c.(phase := Unwinding(Failed))
    case CleanupClose => c.(phase := Removing(c.phase.error), open := false)
    case CleanupRemove(_) => c.(phase := Returned(Err(c.phase.error)))
  }

  /** POSIX rename: two names of one file are left alone. */
  function Renamed(names: map<Name, Call>, from: Name, to: Name): map<Name, Call>
    requires from in names
  {
    if to in names && names[to] == names[from] then names
    else names[to := names[from]] - {from}
  }

  function NamesAfter(names: map<Name, Call>, w: Call, c: Write, step: WriteStep): map<Name, Call>
    requires StepEnabled(names, c, step)
  {
    match step
    case TempOpen(token) => names[Temporary(token) := w]
    case Link => if Logical(c.destination) in names then names else names[Logical(c.destination) := w]
    case Rename => Renamed(names, Temporary(c.token), Logical(c.destination))
    case TempRemove => names - {Temporary(c.token)}
    case CleanupRemove(ok) => if ok then names - {Temporary(c.token)} else names
    case _ => names
  }

  // ---- the transition system ----

  predicate Enabled(s: State, l: Label)
  {
    match l
    case WriteBegin(w, _, _, _) => w !in s.writes
    case WriteStep(w, step) => w in s.writes && StepEnabled(s.names, s.writes[w], step)
    case MoveBegin(m, _, _, _) => m !in s.moves
    case MoveStat(m) => m in s.moves && s.moves[m].phase.Prechecking?
    case MoveRename(m) => m in s.moves && s.moves[m].phase.Ready?
    case MoveFail(m) => m in s.moves && !s.moves[m].phase.MoveReturned?
    case Delete(path) => Logical(path) in s.names
    case ReadOpen(r, path) => r !in s.readers && Logical(path) in s.names
    case ReadChunk(r, count) =>
      r in s.readers && !s.readers[r].ended && s.readers[r].file in s.writes
      && |s.readers[r].data| + count <= |s.writes[s.readers[r].file].content|
    case ReadEnd(r) =>
      r in s.readers && s.readers[r].file in s.writes
      && |s.readers[r].data| >= |s.writes[s.readers[r].file].content|
  }

  /** Whether the rename of move `m` takes effect, and otherwise its error. */
  function MoveOutcome(s: State, m: Move): Outcome<()>
  {
    if Logical(m.source) !in s.names then Err(NotFound)
    else if !m.overwrite && Logical(m.destination) in s.names then Err(AlreadyExists)
    else Ok(())
  }

  function Apply(s: State, l: Label): State
    requires Enabled(s, l)
  {
    match l
    case WriteBegin(w, destination, createOnly, source) =>
      var phase := if createOnly then Checking else Naming;
      s.(writes := s.writes[w := Write(destination, createOnly, source, phase, 0, [], false, false)])
    case WriteStep(w, step) =>
      s.(names := NamesAfter(s.names, w, s.writes[w], step),
         writes := s.writes[w := CallAfter(s.names, s.writes[w], step)])
    case MoveBegin(m, from, to, overwrite) =>
      s.(moves := s.moves[m := Move(from, to, overwrite, if overwrite then Ready else Prechecking)])
    case MoveStat(m) =>
      WithMove(s, m, if Logical(s.moves[m].destination) in s.names then MoveReturned(Err(AlreadyExists)) else Ready)
    case MoveRename(m) =>
      var c := s.moves[m];
      var s' := WithMove(s, m, MoveReturned(MoveOutcome(s, c)));
      if MoveOutcome(s, c).Err? then s'
      else s'.(names := Renamed(s.names, Logical(c.source), Logical(c.destination)))
    case MoveFail(m) => WithMove(s, m, MoveReturned(Err(Failed)))
    case Delete(path) => s.(names := s.names - {Logical(path)})
    case ReadOpen(r, path) => s.(readers := s.readers[r := Reader(s.names[Logical(path)], [], false)])
    case ReadChunk(r, count) =>
      var c := s.readers[r];
      s.(readers := s.readers[r := c.(data := c.data + s.writes[c.file].content[|c.data|..|c.data| + count])])
    case ReadEnd(r) => s.(readers := s.readers[r := s.readers[r].(ended := true)])
  }

  function WithMove(s: State, m: Call, phase: MovePhase): State
    requires m in s.moves
  {
    s.(moves := s.moves[m := s.moves[m].(phase := phase)])
  }

  // ---- the inductive invariant ----

  /** A closed file that holds its author's entire source. */
  ghost predicate Complete(c: Write) { !c.open && c.content == c.source }

  ghost predicate HasTemporary(phase: WritePhase)
  {
    phase.Copying? || phase.Copied? || phase.Closed? || phase.Published? || phase.Unwinding? || phase.Removing?
  }

  ghost predicate CallOk(c: Write)
  {
    && c.content <= c.source
    && (c.published ==> Complete(c))
    && match c.phase
       case Checking => c.createOnly && !c.published
       case Naming => !c.published
       case Copying => c.open && !c.published
       case Copied => c.open && c.content == c.source && !c.published
       case Closed => Complete(c) && !c.published
       case Published => c.published && c.createOnly
       case Committed => c.published
       case Unwinding(e) => e == PreconditionFailed ==> !c.published
       case Removing(e) => e == PreconditionFailed ==> !c.published
       case Returned(Ok(_)) => c.published
       case Returned(Err(e)) => e == PreconditionFailed ==> !c.published
  }

  /** A call's temporary name, while it exists, is bound to that call's own file. */
  ghost predicate TemporaryOk(names: map<Name, Call>, w: Call, c: Write)
  {
    HasTemporary(c.phase) ==> Temporary(c.token) in names && names[Temporary(c.token)] == w
  }

  ghost predicate NameOk(writes: map<Call, Write>, n: Name, w: Call)
  {
    && w in writes
    && (n.Logical? ==> writes[w].published)
    && (n.Temporary? ==> writes[w].token == n.token && !writes[w].phase.Checking? && !writes[w].phase.Naming?)
  }

  /** What a reader has is a prefix of one author's entire source. */
  ghost predicate ReaderOk(writes: map<Call, Write>, r: Reader)
  {
    && r.file in writes && writes[r.file].published
    && r.data <= writes[r.file].source
    && (r.ended ==> r.data == writes[r.file].source)
  }

  ghost predicate Invariant(s: State)
  {
    && (forall n :: n in s.names ==> NameOk(s.writes, n, s.names[n]))
    && (forall w :: w in s.writes ==> CallOk(s.writes[w]) && TemporaryOk(s.names, w, s.writes[w]))
    && (forall r :: r in s.readers ==> ReaderOk(s.writes, s.readers[r]))
  }

  lemma CallStepOk(names: map<Name, Call>, c: Write, step: WriteStep)
    requires CallOk(c) && StepEnabled(names, c, step)
    ensures CallOk(CallAfter(names, c, step))
    ensures c.published ==> CallAfter(names, c, step).published && CallAfter(names, c, step).source == c.source
  {}

  /** One name after one Write step. */
  lemma NameAfterStep(names: map<Name, Call>, writes: map<Call, Write>, w: Call, step: WriteStep, n: Name)
    requires w in writes && CallOk(writes[w]) && TemporaryOk(names, w, writes[w])
    requires StepEnabled(names, writes[w], step) && n in NamesAfter(names, w, writes[w], step)
    requires n in names ==> NameOk(writes, n, names[n])
    ensures NameOk(writes[w := CallAfter(names, writes[w], step)], n, NamesAfter(names, w, writes[w], step)[n])
  {}

  /** The stepping call's own temporary, and every other call's. */
  lemma TemporariesAfterStep(names: map<Name, Call>, w: Call, c: Write, step: WriteStep, v: Call, d: Write)
    requires CallOk(c) && StepEnabled(names, c, step)
    requires TemporaryOk(names, w, c) && TemporaryOk(names, v, d)
    ensures TemporaryOk(NamesAfter(names, w, c, step), w, CallAfter(names, c, step))
    ensures v != w ==> TemporaryOk(NamesAfter(names, w, c, step), v, d)
  {}

  lemma WriteStepInvariant(s: State, w: Call, step: WriteStep)
    requires Invariant(s) && Enabled(s, WriteStep(w, step))
    ensures Invariant(Apply(s, WriteStep(w, step)))
  {
    var s', c := Apply(s, WriteStep(w, step)), s.writes[w];
    CallStepOk(s.names, c, step);
    forall n | n in s'.names
      ensures NameOk(s'.writes, n, s'.names[n])
    {
      NameAfterStep(s.names, s.writes, w, step, n);
    }
    forall v | v in s'.writes
      ensures CallOk(s'.writes[v]) && TemporaryOk(s'.names, v, s'.writes[v])
    {
      TemporariesAfterStep(s.names, w, c, step, v, s.writes[v]);
    }
    forall r | r in s'.readers
      ensures ReaderOk(s'.writes, s'.readers[r])
    {
      assert ReaderOk(s.writes, s.readers[r]);
    }
  }

  lemma MoveInvariant(s: State, m: Call)
    requires Invariant(s) && Enabled(s, MoveRename(m))
    ensures Invariant(Apply(s, MoveRename(m)))
  {
    var s' := Apply(s, MoveRename(m));
    forall n | n in s'.names
      ensures NameOk(s'.writes, n, s'.names[n])
    {
      assert NameOk(s.writes, n, s'.names[n]) by {
        if n in s.names { assert NameOk(s.writes, n, s.names[n]); }
      }
    }
    forall w | w in s'.writes
      ensures TemporaryOk(s'.names, w, s'.writes[w])
    {
      assert TemporaryOk(s.names, w, s.writes[w]);
    }
  }

  lemma ReaderInvariant(s: State, l: Label)
    requires Invariant(s) && Enabled(s, l) && (l.ReadOpen? || l.ReadChunk? || l.ReadEnd?)
    ensures Invariant(Apply(s, l))
  {
    var s' := Apply(s, l);
    forall r | r in s'.readers
      ensures ReaderOk(s'.writes, s'.readers[r])
    {
      if l.ReadOpen? && r == l.r {
        assert NameOk(s.writes, Logical(l.path), s.names[Logical(l.path)]);
      } else {
        assert ReaderOk(s.writes, s.readers[r]);
        assert CallOk(s.writes[s.readers[r].file]);
      }
    }
  }

  /** Starting calls and dropping client names keep the invariant. */
  lemma OtherInvariant(s: State, s': State)
    requires Invariant(s) && s'.readers == s.readers
    requires forall n :: n in s'.names ==> n in s.names && s'.names[n] == s.names[n]
    requires forall n :: n in s.names && n.Temporary? ==> n in s'.names
    requires forall w :: w in s.writes ==> w in s'.writes && s'.writes[w] == s.writes[w]
    requires forall w :: w in s'.writes && w !in s.writes ==>
               CallOk(s'.writes[w]) && !HasTemporary(s'.writes[w].phase)
    ensures Invariant(s')
  {
    forall w | w in s'.writes
      ensures CallOk(s'.writes[w]) && TemporaryOk(s'.names, w, s'.writes[w])
    {
      if w in s.writes { assert TemporaryOk(s.names, w, s.writes[w]); }
    }
    forall n | n in s'.names
      ensures NameOk(s'.writes, n, s'.names[n])
    {
      assert NameOk(s.writes, n, s.names[n]);
    }
  }

  lemma InvariantStep(s: State, l: Label)
    requires Invariant(s) && Enabled(s, l)
    ensures Invariant(Apply(s, l))
  {
    if l.WriteStep? {
      WriteStepInvariant(s, l.w, l.step);
    } else if l.MoveRename? {
      MoveInvariant(s, l.m);
    } else if l.ReadOpen? || l.ReadChunk? || l.ReadEnd? {
      ReaderInvariant(s, l);
    } else {
      OtherInvariant(s, Apply(s, l));
    }
  }

  // ---- runs ----

  ghost predicate StepAt(states: seq<State>, labels: seq<Label>, k: nat)
    requires |states| == |labels| + 1 && k < |labels|
  {
    Enabled(states[k], labels[k]) && states[k + 1] == Apply(states[k], labels[k])
  }

  ghost predicate IsRun(states: seq<State>, labels: seq<Label>)
  {
    && |states| == |labels| + 1
    && states[0] == INITIAL
    && forall k :: 0 <= k < |labels| ==> StepAt(states, labels, k)
  }

  lemma {:induction false} RunInvariant(states: seq<State>, labels: seq<Label>, k: nat)
    requires IsRun(states, labels) && k < |states|
    ensures Invariant(states[k])
  {
    if k > 0 {
      RunInvariant(states, labels, k - 1);
      assert StepAt(states, labels, k - 1);
      InvariantStep(states[k - 1], labels[k - 1]);
    }
  }

  /** In every run, a client-visible name is bound to a closed file with one Write's whole source. */
  lemma NamesHoldWholeSources(states: seq<State>, labels: seq<Label>, k: nat, path: string)
    requires IsRun(states, labels) && k < |states| && Logical(path) in states[k].names
    ensures var s := states[k]; var w := s.names[Logical(path)];
            w in s.writes && !s.writes[w].open && s.writes[w].content == s.writes[w].source
  {
    RunInvariant(states, labels, k);
    assert NameOk(states[k].writes, Logical(path), states[k].names[Logical(path)]);
  }

  /** A published file never changes again. */
  lemma {:induction false} PublishedIsFrozen(states: seq<State>, labels: seq<Label>, i: nat, j: nat, w: Call)
    requires IsRun(states, labels) && i <= j < |states|
    requires w in states[i].writes && states[i].writes[w].published
    ensures w in states[j].writes
    ensures var c, d := states[i].writes[w], states[j].writes[w];
            d.published && d.source == c.source && d.content == c.content && !d.open
    decreases j
  {
    RunInvariant(states, labels, j);
    if i < j {
      PublishedIsFrozen(states, labels, i, j - 1, w);
      RunInvariant(states, labels, j - 1);
      assert StepAt(states, labels, j - 1);
      PublishedStep(states[j - 1], labels[j - 1], w);
    }
  }

  lemma PublishedStep(s: State, l: Label, w: Call)
    requires Invariant(s) && Enabled(s, l) && w in s.writes && s.writes[w].published
    ensures w in Apply(s, l).writes
    ensures var d := Apply(s, l).writes[w];
            d.published && d.source == s.writes[w].source && d.content == s.writes[w].content
  {
    if l.WriteStep? && l.w == w { CallStepOk(s.names, s.writes[w], l.step); }
  }

  /** A reader only ever holds a prefix of one Write's source, and all of it at the end. */
  lemma ReadsAreNeverMixed(states: seq<State>, labels: seq<Label>, k: nat, r: Call)
    requires IsRun(states, labels) && k < |states| && r in states[k].readers
    ensures var reader := states[k].readers[r];
            && reader.file in states[k].writes
            && reader.data <= states[k].writes[reader.file].source
            && (reader.ended ==> reader.data == states[k].writes[reader.file].source)
  {
    RunInvariant(states, labels, k);
  }

  // ---- temporary files ----

  ghost predicate NoStrayTemporaries(s: State)
  {
    forall n :: n in s.names && n.Temporary? ==>
      s.names[n] in s.writes && HasTemporary(s.writes[s.names[n]].phase)
  }

  /** After a step of `w`, a temporary bound to `w` is still in use, and others are as before. */
  lemma StrayCall(names: map<Name, Call>, writes: map<Call, Write>, w: Call, step: WriteStep, n: Name)
    requires w in writes && CallOk(writes[w]) && TemporaryOk(names, w, writes[w])
    requires StepEnabled(names, writes[w], step) && step != CleanupRemove(false)
    requires n.Temporary? && n in NamesAfter(names, w, writes[w], step)
    requires forall m :: m in names ==> NameOk(writes, m, names[m])
    requires n in names ==> names[n] in writes && HasTemporary(writes[names[n]].phase)
    ensures var v := NamesAfter(names, w, writes[w], step)[n];
            if v == w then HasTemporary(CallAfter(names, writes[w], step).phase)
            else v in writes && HasTemporary(writes[v].phase)
  {
    var to := Logical(writes[w].destination);
    if n in names { assert NameOk(writes, n, names[n]); }
    if to in names { assert NameOk(writes, to, names[to]); }
  }

  lemma StrayStep(s: State, l: Label)
    requires Invariant(s) && Enabled(s, l) && NoStrayTemporaries(s)
    requires !(l.WriteStep? && l.step == CleanupRemove(false))
    ensures NoStrayTemporaries(Apply(s, l))
  {
    var s' := Apply(s, l);
    forall n | n in s'.names && n.Temporary?
      ensures s'.names[n] in s'.writes && HasTemporary(s'.writes[s'.names[n]].phase)
    {
      if l.WriteStep? { StrayCall(s.names, s.writes, l.w, l.step, n); }
    }
  }

  /** Without a failing cleanup Remove, every temporary belongs to a Write that has not returned. */
  lemma {:induction false} TemporariesDoNotLeak(states: seq<State>, labels: seq<Label>, k: nat)
    requires IsRun(states, labels) && k < |states|
    requires forall j :: 0 <= j < k && labels[j].WriteStep? ==> labels[j].step != CleanupRemove(false)
    ensures NoStrayTemporaries(states[k])
    ensures (forall w :: w in states[k].writes ==> states[k].writes[w].phase.Returned?) ==>
              forall n :: n in states[k].names ==> n.Logical?
  {
    if k > 0 {
      TemporariesDoNotLeak(states, labels, k - 1);
      RunInvariant(states, labels, k - 1);
      assert StepAt(states, labels, k - 1);
      StrayStep(states[k - 1], labels[k - 1]);
    }
  }

  // ---- writes are linearizable ----

  /** The Link of a create-only Write that finds its destination unbound, or the Rename of an overwriting one. */
  ghost predicate PublishingStep(names: map<Name, Call>, c: Write, step: WriteStep)
  {
    if c.createOnly then step == Link && Logical(c.destination) !in names else step == Rename
  }

  ghost predicate PublishesAt(s: State, l: Label, w: Call, path: string)
  {
    && l.WriteStep? && l.w == w && w in s.writes
    && s.writes[w].destination == path && PublishingStep(s.names, s.writes[w], l.step)
  }

  /** A precheck or Link of a create-only Write that finds the destination bound. */
  ghost predicate ConflictsAt(s: State, l: Label, w: Call, path: string)
  {
    && (l == WriteStep(w, Link) || l == WriteStep(w, Stat)) && w in s.writes
    && s.writes[w].destination == path && Logical(path) in s.names
  }

  ghost predicate Conflicted(phase: WritePhase)
  {
    phase == Unwinding(PreconditionFailed) || phase == Removing(PreconditionFailed)
    || phase == Returned(Err(PreconditionFailed))
  }

  /** Where one step of a call can set `published` or report a conflict. */
  lemma CallLinearization(names: map<Name, Call>, c: Write, step: WriteStep)
    requires CallOk(c) && StepEnabled(names, c, step)
    ensures var d := CallAfter(names, c, step);
            && d.destination == c.destination && d.createOnly == c.createOnly
            && (d.published <==> c.published || PublishingStep(names, c, step))
            && (Conflicted(d.phase) <==>
                  Conflicted(c.phase) || ((step == Link || step == Stat) && Logical(c.destination) in names))
  {}

  lemma LinearizationStep(s: State, l: Label, w: Call)
    requires Invariant(s) && Enabled(s, l) && w in Apply(s, l).writes
    ensures var d := Apply(s, l).writes[w];
            && (w in s.writes ==> d.destination == s.writes[w].destination && d.createOnly == s.writes[w].createOnly)
            && (d.published <==> (w in s.writes && s.writes[w].published) || PublishesAt(s, l, w, d.destination))
            && (Conflicted(d.phase) <==>
                  (w in s.writes && Conflicted(s.writes[w].phase)) || ConflictsAt(s, l, w, d.destination))
  {
    if l.WriteStep? && l.w == w {
      CallLinearization(s.names, s.writes[w], l.step);
    }
  }

  lemma PublishingBinds(s: State, l: Label, w: Call, path: string)
    requires Invariant(s) && Enabled(s, l) && PublishesAt(s, l, w, path)
    ensures Logical(path) in Apply(s, l).names && Apply(s, l).names[Logical(path)] == w
  {
    assert TemporaryOk(s.names, w, s.writes[w]);
  }

  /** Step `j` of the call published its file: it left `path` bound to it. */
  ghost predicate BindsAt(states: seq<State>, labels: seq<Label>, j: nat, w: Call, path: string)
  {
    && j < |labels| && j + 1 < |states| && PublishesAt(states[j], labels[j], w, path)
    && Logical(path) in states[j + 1].names && states[j + 1].names[Logical(path)] == w
  }

  ghost predicate HasBound(states: seq<State>, labels: seq<Label>, k: nat, w: Call, path: string)
  {
    exists j :: 0 <= j < k && BindsAt(states, labels, j, w, path)
  }

  lemma {:induction false} WritesStay(states: seq<State>, labels: seq<Label>, j: nat, k: nat, w: Call)
    requires IsRun(states, labels) && j <= k < |states| && w in states[j].writes
    ensures w in states[k].writes
    decreases k
  {
    if j < k {
      WritesStay(states, labels, j, k - 1, w);
      assert StepAt(states, labels, k - 1);
    }
  }

  /** A Write counts as published exactly when one of its own steps has bound the destination to its file. */
  lemma {:induction false} PublishedIffBound(states: seq<State>, labels: seq<Label>, k: nat, w: Call)
    requires IsRun(states, labels) && k < |states| && w in states[k].writes
    ensures states[k].writes[w].published <==> HasBound(states, labels, k, w, states[k].writes[w].destination)
  {
    if k > 0 {
      var path := states[k].writes[w].destination;
      RunInvariant(states, labels, k - 1);
      assert StepAt(states, labels, k - 1);
      LinearizationStep(states[k - 1], labels[k - 1], w);
      if PublishesAt(states[k - 1], labels[k - 1], w, path) {
        PublishingBinds(states[k - 1], labels[k - 1], w, path);
        assert BindsAt(states, labels, k - 1, w, path);
      } else {
        assert HasBound(states, labels, k, w, path) <==> HasBound(states, labels, k - 1, w, path);
        if w in states[k - 1].writes {
          PublishedIffBound(states, labels, k - 1, w);
        } else if j :| 0 <= j < k - 1 && BindsAt(states, labels, j, w, path) {
          WritesStay(states, labels, j, k - 1, w);
        }
      }
    }
  }

  /**
    A successful Write took effect at a step of its own that bound the destination to its file: the Link of a
    create-only Write, which found the destination absent, or the Rename of an overwriting one.
   */
  lemma SuccessLinearizes(states: seq<State>, labels: seq<Label>, k: nat, w: Call)
    requires IsRun(states, labels) && k < |states| && w in states[k].writes
    requires states[k].writes[w].phase == Returned(Ok(()))
    ensures HasBound(states, labels, k, w, states[k].writes[w].destination)
  {
    RunInvariant(states, labels, k);
    assert CallOk(states[k].writes[w]);
    PublishedIffBound(states, labels, k, w);
  }

  ghost predicate HasConflicted(states: seq<State>, labels: seq<Label>, k: nat, w: Call, path: string)
    requires k <= |labels| < |states|
  {
    exists j :: 0 <= j < k && ConflictsAt(states[j], labels[j], w, path)
  }

  /**
    A Write is returning PreconditionFailed exactly when its precheck or its Link found the destination bound, and
    then it has published nothing.
   */
  lemma {:induction false} ConflictLinearizes(states: seq<State>, labels: seq<Label>, k: nat, w: Call)
    requires IsRun(states, labels) && k < |states| && w in states[k].writes
    ensures Conflicted(states[k].writes[w].phase) <==>
            HasConflicted(states, labels, k, w, states[k].writes[w].destination)
    ensures Conflicted(states[k].writes[w].phase) ==> !states[k].writes[w].published
  {
    RunInvariant(states, labels, k);
    assert CallOk(states[k].writes[w]);
    if k > 0 {
      var path := states[k].writes[w].destination;
      RunInvariant(states, labels, k - 1);
      assert StepAt(states, labels, k - 1);
      LinearizationStep(states[k - 1], labels[k - 1], w);
      assert HasConflicted(states, labels, k, w, path) <==>
             HasConflicted(states, labels, k - 1, w, path) || ConflictsAt(states[k - 1], labels[k - 1], w, path);
      if w in states[k - 1].writes {
        ConflictLinearizes(states, labels, k - 1, w);
      } else if j :| 0 <= j < k - 1 && ConflictsAt(states[j], labels[j], w, path) {
        WritesStay(states, labels, j, k - 1, w);
      }
    }
  }

  /** Destination, mode and source of a Write are those it was called with. */
  lemma {:induction false} WriteIsAsBegun(states: seq<State>, labels: seq<Label>, k: nat, w: Call) returns (j: nat)
    requires IsRun(states, labels) && k < |states| && w in states[k].writes
    ensures var c := states[k].writes[w];
            j < k && labels[j] == WriteBegin(w, c.destination, c.createOnly, c.source)
  {
    assert StepAt(states, labels, k - 1);
    if w in states[k - 1].writes {
      j := WriteIsAsBegun(states, labels, k - 1, w);
    } else {
      j := k - 1;
    }
  }

  // ---- competing for one name ----

  /** A step that removes or replaces whatever `path` is bound to. */
  ghost predicate Unbinds(s: State, l: Label, path: string)
  {
    match l
    case Delete(p) => p == path
    case WriteStep(w, Rename) => w in s.writes && s.writes[w].destination == path
    case MoveRename(m) =>
      m in s.moves && MoveOutcome(s, s.moves[m]).Ok?
      && (s.moves[m].source == path || (s.moves[m].destination == path && s.moves[m].overwrite))
    case _ => false
  }

  /** A create-only Link or exclusive rename that takes effect on `path`. */
  ghost predicate Claims(s: State, l: Label, path: string)
  {
    match l
    case WriteStep(w, Link) => w in s.writes && s.writes[w].destination == path && Logical(path) !in s.names
    case MoveRename(m) =>
      m in s.moves && !s.moves[m].overwrite && s.moves[m].destination == path && MoveOutcome(s, s.moves[m]).Ok?
    case _ => false
  }

  lemma BindingStep(s: State, l: Label, path: string)
    requires Enabled(s, l)
    ensures Logical(path) in s.names && !Unbinds(s, l, path) ==>
              Logical(path) in Apply(s, l).names && Apply(s, l).names[Logical(path)] == s.names[Logical(path)]
    ensures Claims(s, l, path) ==> Logical(path) !in s.names && Logical(path) in Apply(s, l).names
  {}

  lemma {:induction false} BindingIsStable(states: seq<State>, labels: seq<Label>, i: nat, j: nat, path: string)
    requires IsRun(states, labels) && i <= j < |states| && Logical(path) in states[i].names
    requires forall k :: i <= k < j ==> !Unbinds(states[k], labels[k], path)
    ensures Logical(path) in states[j].names && states[j].names[Logical(path)] == states[i].names[Logical(path)]
    decreases j
  {
    if i < j {
      BindingIsStable(states, labels, i, j - 1, path);
      assert StepAt(states, labels, j - 1);
      BindingStep(states[j - 1], labels[j - 1], path);
    }
  }

  /** However many creators and exclusive movers compete for an undisturbed name, at most one wins. */
  lemma AtMostOneClaim(states: seq<State>, labels: seq<Label>, i: nat, j: nat, path: string)
    requires IsRun(states, labels) && i < |labels| && j < |labels|
    requires forall k :: 0 <= k < |labels| ==> !Unbinds(states[k], labels[k], path)
    requires Claims(states[i], labels[i], path) && Claims(states[j], labels[j], path)
    ensures i == j
  {
    assert StepAt(states, labels, i) && StepAt(states, labels, j);
    BindingStep(states[i], labels[i], path);
    BindingStep(states[j], labels[j], path);
    if i < j {
      BindingIsStable(states, labels, i + 1, j, path);
    } else if j < i {
      BindingIsStable(states, labels, j + 1, i, path);
    }
  }

  // ---- what a Move does ----

  /** The step of Move `m` that ends it, with the result that what it finds calls for. */
  ghost predicate EndsMove(s: State, l: Label, m: Call, result: Outcome<()>)
  {
    && m in s.moves
    && var source, destination := Logical(s.moves[m].source), Logical(s.moves[m].destination);
       if l == MoveFail(m) then result == Err(Failed)
       else if l == MoveStat(m) then destination in s.names && result == Err(AlreadyExists)
       else
         && l == MoveRename(m)
         && result == if source !in s.names then Err(NotFound)
                      else if destination in s.names && !s.moves[m].overwrite then Err(AlreadyExists)
                      else Ok(())
  }

  ghost predicate HasEnded(states: seq<State>, labels: seq<Label>, k: nat, m: Call, result: Outcome<()>)
    requires k <= |labels| < |states|
  {
    exists j :: 0 <= j < k && EndsMove(states[j], labels[j], m, result)
  }

  lemma MoveStep(s: State, l: Label, m: Call)
    requires Enabled(s, l) && m in Apply(s, l).moves
    ensures var c := Apply(s, l).moves[m];
            if m !in s.moves
            then l == MoveBegin(m, c.source, c.destination, c.overwrite) && !c.phase.MoveReturned?
            else
              && c.source == s.moves[m].source && c.destination == s.moves[m].destination
              && c.overwrite == s.moves[m].overwrite
              && (s.moves[m].phase.MoveReturned? ==> c.phase == s.moves[m].phase && !StepOfMove(l, m))
    ensures forall result :: m in s.moves && !s.moves[m].phase.MoveReturned? ==>
              (Apply(s, l).moves[m].phase == MoveReturned(result) <==> EndsMove(s, l, m, result))
  {}

  lemma {:induction false} MovesStay(states: seq<State>, labels: seq<Label>, j: nat, k: nat, m: Call)
    requires IsRun(states, labels) && j <= k < |states| && m in states[j].moves
    ensures m in states[k].moves
    decreases k
  {
    if j < k {
      MovesStay(states, labels, j, k - 1, m);
      assert StepAt(states, labels, k - 1);
    }
  }

  /** In every run a Move has returned a result exactly when one of its steps found what calls for it. */
  lemma {:induction false} MoveReturnsIff(
    states: seq<State>, labels: seq<Label>, k: nat, m: Call, result: Outcome<()>)
    requires IsRun(states, labels) && k < |states| && m in states[k].moves
    ensures states[k].moves[m].phase == MoveReturned(result) <==> HasEnded(states, labels, k, m, result)
  {
    if k > 0 {
      var s, l := states[k - 1], labels[k - 1];
      assert StepAt(states, labels, k - 1);
      MoveStep(s, l, m);
      assert HasEnded(states, labels, k, m, result) <==>
             HasEnded(states, labels, k - 1, m, result) || EndsMove(s, l, m, result);
      if m in s.moves {
        MoveReturnsIff(states, labels, k - 1, m, result);
      } else if j :| 0 <= j < k - 1 && EndsMove(states[j], labels[j], m, result) {
        MovesStay(states, labels, j, k - 1, m);
      }
    }
  }

  /** Only one step of a Move ends it. */
  lemma MoveEndsOnce(
    states: seq<State>, labels: seq<Label>, i: nat, j: nat, m: Call, a: Outcome<()>, b: Outcome<()>)
    requires IsRun(states, labels) && i < |labels| && j < |labels|
    requires EndsMove(states[i], labels[i], m, a) && EndsMove(states[j], labels[j], m, b)
    ensures i == j && a == b
  {
    if i < j {
      MoveIsOver(states, labels, i, j, m, a);
    } else if j < i {
      MoveIsOver(states, labels, j, i, m, b);
    }
  }

  lemma MoveIsOver(states: seq<State>, labels: seq<Label>, i: nat, j: nat, m: Call, result: Outcome<()>)
    requires IsRun(states, labels) && i < j < |labels| && EndsMove(states[i], labels[i], m, result)
    ensures !StepOfMove(labels[j], m)
  {
    assert StepAt(states, labels, j);
    MovesStay(states, labels, i, j, m);
    MoveReturnsIff(states, labels, j, m, result);
    MoveStep(states[j], labels[j], m);
  }

  /** What the rename of a successful Move does to the directory. */
  ghost predicate MovesBinding(before: map<Name, Call>, after: map<Name, Call>, source: Name, destination: Name)
  {
    && source in before && destination in after && after[destination] == before[source]
    && (source in after <==> destination in before && before[destination] == before[source])
    && (forall n :: n != source && n != destination ==>
          (n in after <==> n in before) && (n in before ==> after[n] == before[n]))
  }

  /**
    In every run, a Move that has returned nil has one step that found its source bound, and its destination
    unbound if it must not overwrite. That step bound the destination to the source's file, unbound the source
    unless both names already held that file, and left every other binding as it was.
   */
  lemma SuccessfulMoveMoves(states: seq<State>, labels: seq<Label>, k: nat, m: Call) returns (j: nat)
    requires IsRun(states, labels) && k < |states| && m in states[k].moves
    requires states[k].moves[m].phase == MoveReturned(Ok(()))
    ensures j < k && labels[j] == MoveRename(m)
    ensures var c := states[k].moves[m];
            && MovesBinding(states[j].names, states[j + 1].names, Logical(c.source), Logical(c.destination))
            && (!c.overwrite ==> Logical(c.destination) !in states[j].names)
  {
    MoveReturnsIff(states, labels, k, m, Ok(()));
    j :| 0 <= j < k && EndsMove(states[j], labels[j], m, Ok(()));
    assert StepAt(states, labels, j);
    SameMove(states, labels, j, k, m);
  }

  lemma {:induction false} SameMove(states: seq<State>, labels: seq<Label>, j: nat, k: nat, m: Call)
    requires IsRun(states, labels) && j <= k < |states| && m in states[j].moves
    ensures m in states[k].moves
    ensures var a, b := states[j].moves[m], states[k].moves[m];
            a.source == b.source && a.destination == b.destination && a.overwrite == b.overwrite
    decreases k
  {
    if j < k {
      SameMove(states, labels, j, k - 1, m);
      assert StepAt(states, labels, k - 1);
      MoveStep(states[k - 1], labels[k - 1], m);
    }
  }

  /** Source, destination and mode of a Move are those it was called with. */
  lemma {:induction false} MoveIsAsBegun(states: seq<State>, labels: seq<Label>, k: nat, m: Call) returns (j: nat)
    requires IsRun(states, labels) && k < |states| && m in states[k].moves
    ensures var c := states[k].moves[m];
            j < k && labels[j] == MoveBegin(m, c.source, c.destination, c.overwrite)
  {
    assert StepAt(states, labels, k - 1);
    MoveStep(states[k - 1], labels[k - 1], m);
    if m in states[k - 1].moves {
      j := MoveIsAsBegun(states, labels, k - 1, m);
    } else {
      j := k - 1;
    }
  }

  // ---- exclusive moves conserve files ----

  /** An exclusive rename that succeeds rebinds the current source file and disturbs nothing else. */
  lemma ExclusiveMoveConserves(s: State, m: Call)
    requires Enabled(s, MoveRename(m)) && !s.moves[m].overwrite && MoveOutcome(s, s.moves[m]).Ok?
    ensures var s', from, to := Apply(s, MoveRename(m)), Logical(s.moves[m].source), Logical(s.moves[m].destination);
            && to !in s.names && from in s.names && s'.names.Keys == s.names.Keys - {from} + {to}
            && s'.names[to] == s.names[from]
            && (forall n :: n in s.names && n != from ==> n in s'.names && s'.names[n] == s.names[n])
            && s'.names.Values == s.names.Values
  {
    var s', from, to := Apply(s, MoveRename(m)), Logical(s.moves[m].source), Logical(s.moves[m].destination);
    forall v
      ensures v in s'.names.Values <==> v in s.names.Values
    {
      if v in s.names.Values {
        var n :| n in s.names && s.names[n] == v;
        assert s'.names[if n == from then to else n] == v;
      }
      if v in s'.names.Values {
        var n :| n in s'.names && s'.names[n] == v;
        assert s.names[if n == to then from else n] == v;
      }
    }
  }

  ghost predicate StepOfMove(l: Label, m: Call)
  {
    l == MoveStat(m) || l == MoveRename(m) || l == MoveFail(m)
  }

  /** A Move that reports an error left every binding alone, at each of its own steps. */
  lemma {:induction false} FailedMoveChangesNothing(states: seq<State>, labels: seq<Label>, j: nat, k: nat, m: Call)
    requires IsRun(states, labels) && j < k < |states| && m in states[k].moves
    requires states[k].moves[m].phase.MoveReturned? && states[k].moves[m].phase.result.Err?
    requires StepOfMove(labels[j], m)
    ensures states[j + 1].names == states[j].names
    decreases k
  {
    assert StepAt(states, labels, j);
    MoveStaysReturned(states, labels, j + 1, k, m);
  }

  lemma {:induction false} MoveStaysReturned(states: seq<State>, labels: seq<Label>, i: nat, k: nat, m: Call)
    requires IsRun(states, labels) && i <= k < |states| && m in states[i].moves
    ensures m in states[k].moves
    ensures states[i].moves[m].phase.MoveReturned? ==> states[k].moves[m] == states[i].moves[m]
    decreases k
  {
    if i < k {
      MoveStaysReturned(states, labels, i, k - 1, m);
      assert StepAt(states, labels, k - 1);
    }
  }

  /** A step that discards a file: Delete, or a replacing rename onto a bound name. */
  ghost predicate Discards(s: State, l: Label)
  {
    match l
    case Delete(_) => true
    case WriteStep(w, Rename) => w in s.writes && Logical(s.writes[w].destination) in s.names
    case MoveRename(m) => m in s.moves && s.moves[m].overwrite && Logical(s.moves[m].destination) in s.names
    case _ => false
  }

  ghost predicate Visible(s: State, w: Call)
  {
    exists path :: Logical(path) in s.names && s.names[Logical(path)] == w
  }

  lemma VisibleStep(s: State, l: Label, w: Call)
    requires Enabled(s, l) && !Discards(s, l) && Visible(s, w)
    ensures Visible(Apply(s, l), w)
  {
    var path :| Logical(path) in s.names && s.names[Logical(path)] == w;
    var s' := Apply(s, l);
    if l.MoveRename? && MoveOutcome(s, s.moves[l.m]).Ok? && s.moves[l.m].source == path {
      var q := s.moves[l.m].destination;
      assert Logical(q) in s'.names && s'.names[Logical(q)] == w;
    } else {
      assert Logical(path) in s'.names && s'.names[Logical(path)] == w;
    }
  }

  /** Over any run without deletion or replacement, no visible file ever loses its last name. */
  lemma {:induction false} FilesStayVisible(states: seq<State>, labels: seq<Label>, i: nat, j: nat, w: Call)
    requires IsRun(states, labels) && i <= j < |states| && Visible(states[i], w)
    requires forall k :: i <= k < j ==> !Discards(states[k], labels[k])
    ensures Visible(states[j], w)
    decreases j
  {
    if i < j {
      FilesStayVisible(states, labels, i, j - 1, w);
      assert StepAt(states, labels, j - 1);
      VisibleStep(states[j - 1], labels[j - 1], w);
    }
  }

  // ---- the whole history of a name ----

  function Binding(s: State, path: string): Option<Call>
  {
    if Logical(path) in s.names then Some(s.names[Logical(path)]) else None
  }

  /** A step that decides what `path` is bound to, and to what. */
  ghost predicate Sets(s: State, l: Label, path: string, file: Option<Call>)
  {
    match l
    case WriteStep(w, _) => PublishesAt(s, l, w, path) && file == Some(w)
    case Delete(p) => p == path && file == None
    case MoveRename(m) =>
      && m in s.moves && EndsMove(s, l, m, Ok(()))
      && var c := s.moves[m];
         || (c.destination == path && file == Binding(s, c.source))
         || (c.source == path && Binding(s, c.destination) != Binding(s, path) && file == None)
    case _ => false
  }

  lemma SetsDecides(s: State, l: Label, path: string)
    requires Invariant(s) && Enabled(s, l)
    ensures forall file :: Sets(s, l, path, file) ==> Binding(Apply(s, l), path) == file
    ensures (forall file :: !Sets(s, l, path, file)) ==> Binding(Apply(s, l), path) == Binding(s, path)
  {
    if l.WriteStep? {
      WriteSets(s, l, path);
    } else if l.MoveRename? {
      MoveSets(s, l, path);
    } else {
      if l.Delete? {
        assert l.path == path ==> Sets(s, l, path, None);
      } else {
        OthersKeepNames(s, l);
      }
    }
  }

  lemma OthersKeepNames(s: State, l: Label)
    requires Enabled(s, l) && !l.WriteStep? && !l.MoveRename? && !l.Delete?
    ensures Apply(s, l).names == s.names
  {}

  lemma WriteSets(s: State, l: Label, path: string)
    requires Invariant(s) && Enabled(s, l) && l.WriteStep?
    ensures Binding(Apply(s, l), path) == if PublishesAt(s, l, l.w, path) then Some(l.w) else Binding(s, path)
    ensures forall file :: Sets(s, l, path, file) <==> PublishesAt(s, l, l.w, path) && file == Some(l.w)
    ensures PublishesAt(s, l, l.w, path) ==> Sets(s, l, path, Some(l.w))
  {
    assert CallOk(s.writes[l.w]) && TemporaryOk(s.names, l.w, s.writes[l.w]);
  }

  lemma MoveSets(s: State, l: Label, path: string)
    requires Enabled(s, l) && l.MoveRename?
    ensures forall file :: Sets(s, l, path, file) ==> Binding(Apply(s, l), path) == file
    ensures (forall file :: !Sets(s, l, path, file)) ==> Binding(Apply(s, l), path) == Binding(s, path)
  {
    var c := s.moves[l.m];
    if EndsMove(s, l, l.m, Ok(())) {
      if c.destination == path {
        assert Sets(s, l, path, Binding(s, c.source));
      } else if c.source == path && Binding(s, c.destination) != Binding(s, path) {
        assert Sets(s, l, path, None);
      }
    }
  }

  /**
    In every run a name is bound to what the last step that decides it set: the Link or Rename of a Write, a
    successful Move onto or away from it, or a Delete. A name no step has decided is unbound.
   */
  lemma {:induction false} BindingHistory(states: seq<State>, labels: seq<Label>, k: nat, path: string)
    returns (last: Option<nat>)
    requires IsRun(states, labels) && k < |states|
    ensures match last {
              case Some(j) => j < k && Sets(states[j], labels[j], path, Binding(states[k], path))
              case None => Binding(states[k], path) == None
            }
    ensures forall i, file :: 0 <= i < k && (last.Some? ==> last.value < i) ==> !Sets(states[i], labels[i], path, file)
  {
    last := None;
    if k > 0 {
      RunInvariant(states, labels, k - 1);
      assert StepAt(states, labels, k - 1);
      var s, l := states[k - 1], labels[k - 1];
      SetsDecides(s, l, path);
      if file :| Sets(s, l, path, file) {
        last := Some(k - 1);
      } else {
        last := BindingHistory(states, labels, k - 1, path);
      }
    }
  }

  // ---- what a reader gets ----

  /** The bytes its reads have asked for since it was opened. */
  function Requested(labels: seq<Label>, r: Call): nat
  {
    if labels == [] then 0
    else
      var l := labels[|labels| - 1];
      match l {
        case ReadOpen(q, _) => if q == r then 0 else Requested(labels[..|labels| - 1], r)
        case ReadChunk(q, count) => Requested(labels[..|labels| - 1], r) + if q == r then count else 0
        case _ => Requested(labels[..|labels| - 1], r)
      }
  }

  lemma ReaderStep(s: State, l: Label, r: Call)
    requires Enabled(s, l) && r in Apply(s, l).readers
    ensures var d := Apply(s, l).readers[r];
            if r !in s.readers then l.ReadOpen? && l.r == r && Binding(s, l.path) == Some(d.file) && d.data == []
            else && d.file == s.readers[r].file && !(l.ReadOpen? && l.r == r)
                 && |d.data| == |s.readers[r].data| + if l.ReadChunk? && l.r == r then l.count else 0
  {}

  /** A reader has the file its name was bound to when it was opened, and of it the bytes asked for so far. */
  lemma {:induction false} ReaderGetsItsFile(states: seq<State>, labels: seq<Label>, k: nat, r: Call)
    returns (j: nat, path: string)
    requires IsRun(states, labels) && k < |states| && r in states[k].readers
    ensures j < k && labels[j] == ReadOpen(r, path) && Binding(states[j], path) == Some(states[k].readers[r].file)
    ensures |states[k].readers[r].data| == Requested(labels[..k], r)
  {
    var s, l := states[k - 1], labels[k - 1];
    assert StepAt(states, labels, k - 1);
    ReaderStep(s, l, r);
    assert labels[..k][..k - 1] == labels[..k - 1] && labels[..k][k - 1] == l;
    if r in s.readers {
      j, path := ReaderGetsItsFile(states, labels, k - 1, r);
    } else {
      j, path := k - 1, l.path;
    }
  }

  // ---- errors after publication ----

  /** The call is going to return an error, or has returned one. */
  ghost predicate Erring(phase: WritePhase)
  {
    phase.Unwinding? || phase.Removing? || (phase.Returned? && phase.result.Err?)
  }

  /** The two failures behind the publishing step: of removing the linked temporary, and of the final Stat. */
  ghost predicate FailsLate(s: State, l: Label, w: Call)
  {
    l == WriteStep(w, FinalStat(false)) || (l == WriteStep(w, Fail) && w in s.writes && s.writes[w].phase.Published?)
  }

  ghost predicate HasFailedLate(states: seq<State>, labels: seq<Label>, k: nat, w: Call)
    requires k <= |labels| < |states|
  {
    exists j :: 0 <= j < k && FailsLate(states[j], labels[j], w)
  }

  lemma LateFailureStep(s: State, l: Label, w: Call)
    requires Invariant(s) && Enabled(s, l) && w in Apply(s, l).writes
    ensures var d := Apply(s, l).writes[w];
            if FailsLate(s, l, w) then w in s.writes && !Erring(s.writes[w].phase) && Erring(d.phase) && d.published
            else if w in s.writes && Erring(s.writes[w].phase)
            then Erring(d.phase) && d.published == s.writes[w].published
            else Erring(d.phase) ==> !d.published
  {
    if l.WriteStep? && l.w == w {
      assert CallOk(s.writes[w]);
      LateCallStep(s.names, s.writes[w], l.step);
    }
  }

  lemma LateCallStep(names: map<Name, Call>, c: Write, step: WriteStep)
    requires CallOk(c) && StepEnabled(names, c, step)
    ensures var d := CallAfter(names, c, step);
            if step == FinalStat(false) || (step == Fail && c.phase.Published?)
            then !Erring(c.phase) && Erring(d.phase) && d.published
            else if Erring(c.phase) then Erring(d.phase) && d.published == c.published
            else Erring(d.phase) ==> !d.published
  {}

  lemma {:induction false} LateFailureFlag(states: seq<State>, labels: seq<Label>, k: nat, w: Call)
    requires IsRun(states, labels) && k < |states|
    ensures w in states[k].writes && Erring(states[k].writes[w].phase) ==>
              (states[k].writes[w].published <==> HasFailedLate(states, labels, k, w))
    ensures w in states[k].writes && !Erring(states[k].writes[w].phase) ==> !HasFailedLate(states, labels, k, w)
    ensures w !in states[k].writes ==> !HasFailedLate(states, labels, k, w)
  {
    if k > 0 {
      var s, l := states[k - 1], labels[k - 1];
      LateFailureFlag(states, labels, k - 1, w);
      RunInvariant(states, labels, k - 1);
      assert StepAt(states, labels, k - 1);
      assert HasFailedLate(states, labels, k, w) <==> HasFailedLate(states, labels, k - 1, w) || FailsLate(s, l, w);
      if w in states[k].writes { LateFailureStep(s, l, w); }
    }
  }

  /**
    In every run, a Write that is returning an error has bound its destination to its file exactly when it failed
    behind that step, and a Write that is not returning an error has not failed there.
   */
  lemma ErrorPublishedIff(states: seq<State>, labels: seq<Label>, k: nat, w: Call)
    requires IsRun(states, labels) && k < |states| && w in states[k].writes
    ensures var c := states[k].writes[w];
            if Erring(c.phase)
            then HasBound(states, labels, k, w, c.destination) <==> HasFailedLate(states, labels, k, w)
            else !HasFailedLate(states, labels, k, w)
  {
    PublishedIffBound(states, labels, k, w);
    LateFailureFlag(states, labels, k, w);
  }

  ghost predicate Reachable(s: State)
  {
    exists states, labels :: IsRun(states, labels) && states[|labels|] == s
  }

  lemma ReachableStep(s: State, l: Label)
    requires Reachable(s) && Enabled(s, l)
    ensures Reachable(Apply(s, l))
  {
    var states, labels :| IsRun(states, labels) && states[|labels|] == s;
    var states', labels' := states + [Apply(s, l)], labels + [l];
    forall k | 0 <= k < |labels'|
      ensures StepAt(states', labels', k)
    {
      if k < |labels| { assert StepAt(states, labels, k); }
    }
    assert IsRun(states', labels') && states'[|labels'|] == Apply(s, l);
  }

  function Solo(names: map<Name, Call>, c: Write): State { State(names, map[0 := c], map[], map[]) }

  lemma SoloStep(names: map<Name, Call>, c: Write, step: WriteStep)
    requires Reachable(Solo(names, c)) && StepEnabled(names, c, step)
    ensures Reachable(Solo(NamesAfter(names, 0, c, step), CallAfter(names, c, step)))
  {
    assert map[0 := c][0 := CallAfter(names, c, step)] == map[0 := CallAfter(names, c, step)];
    ReachableStep(Solo(names, c), WriteStep(0, step));
  }

  /** A Write on its own whose copy is complete. */
  lemma CopiedAlone(path: string, source: seq<Byte>, createOnly: bool) returns (names: map<Name, Call>, c: Write)
    ensures Reachable(Solo(names, c)) && c.phase == Copied && c.createOnly == createOnly && c.source == source
    ensures c.destination == path && names == map[Temporary(c.token) := 0]
  {
    c := NamedAlone(path, source, createOnly);
    names := map[];
    var steps := [TempOpen(0), CopyChunk(|source|), CopyEnd];
    for i := 0 to |steps|
      invariant Reachable(Solo(names, c)) && c.destination == path && c.createOnly == createOnly && c.source == source
      invariant names == if i == 0 then map[] else map[Temporary(c.token) := 0]
      invariant i == 1 ==> c.content == []
      invariant i == 2 ==> |c.content| == |source|
      invariant c.phase == [Naming, Copying, Copying, Copied][i]
    {
      SoloStep(names, c, steps[i]);
      names, c := NamesAfter(names, 0, c, steps[i]), CallAfter(names, c, steps[i]);
    }
  }

  /** A Write on its own, past the precheck of a create-only one. */
  lemma NamedAlone(path: string, source: seq<Byte>, createOnly: bool) returns (c: Write)
    ensures Reachable(Solo(map[], c)) && c.phase == Naming && c.createOnly == createOnly
    ensures c.source == source && c.destination == path
  {
    c := Write(path, createOnly, source, if createOnly then Checking else Naming, 0, [], false, false);
    assert IsRun([INITIAL], []);
    ReachableStep(INITIAL, WriteBegin(0, path, createOnly, source));
    if createOnly {
      SoloStep(map[], c, Stat);
      c := CallAfter(map[], c, Stat);
    }
  }

  /**
    An error other than PreconditionFailed does not mean nothing was published: here the final Stat
    of a Write, create-only or overwriting, fails after its object became visible.
   */
  lemma ErrorAfterPublication(path: string, source: seq<Byte>, createOnly: bool) returns (s: State)
    ensures Reachable(s) && 0 in s.writes && s.writes[0].source == source && s.writes[0].createOnly == createOnly
    ensures s.writes[0].phase == Returned(Err(Failed))
    ensures Logical(path) in s.names && s.names[Logical(path)] == 0
  {
    var names, c := CopiedAlone(path, source, createOnly);
    SoloStep(names, c, TempClose);
    c := CallAfter(names, c, TempClose);
    if createOnly {
      SoloStep(names, c, Link);
      names, c := NamesAfter(names, 0, c, Link), CallAfter(names, c, Link);
      SoloStep(names, c, TempRemove);
      names, c := NamesAfter(names, 0, c, TempRemove), CallAfter(names, c, TempRemove);
    } else {
      SoloStep(names, c, Rename);
      names, c := NamesAfter(names, 0, c, Rename), CallAfter(names, c, Rename);
    }
    SoloStep(names, c, FinalStat(false));
    s := Solo(names, CallAfter(names, c, FinalStat(false)));
  }
}
