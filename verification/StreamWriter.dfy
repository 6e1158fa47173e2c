/**
  The streaming writer (internal/streamwriter/writer.go) feeding the in-memory
  adapter's Write (memory/memory.go), as a transition system.

  Producers, closers, the context's cancellation callback, the consuming
  goroutine and other users of the store interleave freely. `io.Pipe` is
  modelled by its documented rendezvous: one step moves bytes from a writer to
  the reader, and either end may be closed once with an error.
 */
module StreamWriter {
  import opened Common
  import opened Paths
  import opened Listing
  import opened Memory

  datatype PipeError = EOF | ClosedPipe | Cause(error: Error)

  datatype Pipe = Pipe(writeEnd: Option<PipeError>, readEnd: Option<PipeError>) {
    predicate IsClosed() { writeEnd.Some? || readEnd.Some? }

    function ReadError(): PipeError
    {
      if readEnd.None? && writeEnd.Some? then writeEnd.value else ClosedPipe
    }

    function WriteError(): PipeError
    {
      if writeEnd.None? && readEnd.Some? then readEnd.value else ClosedPipe
    }

    /** The first close of an end wins. */
    function CloseWrite(e: PipeError): Pipe { if writeEnd.Some? then this else this.(writeEnd := Some(e)) }

    function CloseRead(e: PipeError): Pipe { if readEnd.Some? then this else this.(readEnd := Some(e)) }
  }

  datatype WritePhase = Locking | Sending | WriteReturned(count: nat, error: Option<PipeError>)

  /** `sent` bytes of `data` have been taken by the reader. */
  datatype WriteCall = WriteCall(data: seq<Byte>, sent: nat, phase: WritePhase)

  datatype Consumer =
    | Starting
    | Polling                           // contextReader's poll of the context
    | Entering                          // the pipe's first look at its done channel
    | Reading                           // waiting for a writer or for done
    | SawEOF                            // io.Copy has returned; the context check is next
    | Committing                        // the context was live; the store is next
    | Consumed(result: Outcome<()>)     // consume returned
    | ReadClosed(result: Outcome<()>)   // the read end is closed
    | Delivered(result: Outcome<()>)    // the result is in the done channel

  datatype CloseCall = Closing | Joining | WaitingForOnce | CloseReturned(result: Outcome<()>)

  datatype Once = Unused | Running(closer: nat) | Finished(result: Outcome<()>)

  datatype Callback = Armed | Pending | Ran | Stopped

  /** A piece of one Write's data, in the order the reader took the pieces. */
  datatype Piece = Piece(writer: nat, bytes: seq<Byte>)

  datatype State = State(
    path: Path, options: WriteOptions,
    canceled: bool, callback: Callback, pipe: Pipe,
    lock: Option<nat>, writes: map<nat, WriteCall>,
    consumer: Consumer, buffer: seq<Byte>, pieces: seq<Piece>,
    once: Once, closers: map<nat, CloseCall>,
    store: Store, published: Option<seq<Byte>>)

  function Initial(path: Path, options: WriteOptions, store: Store): State
  {
    State(path, options, false, Armed, Pipe(None, None), None, map[], Starting, [], [], Unused, map[], store, None)
  }

  datatype Label =
    | Cancel
    | RunCallback
    | WriteBegin(w: nat, data: seq<Byte>)
    | WriteLock(w: nat)
    | Transfer(w: nat, count: nat)
    | WriteFail(w: nat)
    | Start
    | Poll
    | Enter
    | ReadEnds
    | CheckContext
    | Commit(now: Time)
    | CloseRead
    | Deliver
    | StopCallback
    | CloseBegin(c: nat)
    | ClosePipe(c: nat)
    | Join(c: nat)
    | WaitOnce(c: nat)
    | OtherClient(store: Store)

  predicate WriteIn(s: State, w: nat, phase: WritePhase) { w in s.writes && s.writes[w].phase == phase }

  predicate CloseIn(s: State, c: nat, phase: CloseCall) { c in s.closers && s.closers[c] == phase }

  predicate Enabled(s: State, l: Label)
  {
    match l
    case Cancel => true
    case RunCallback => s.callback == Pending
    case WriteBegin(w, _) => w !in s.writes
    case WriteLock(w) => WriteIn(s, w, Locking) && s.lock == None
    case Transfer(w, count) =>
      && WriteIn(s, w, Sending) && s.consumer == Reading
      && s.writes[w].sent + count <= |s.writes[w].data|
      && (count == 0 ==> s.writes[w].sent == |s.writes[w].data|)
    case WriteFail(w) => WriteIn(s, w, Sending) && s.pipe.IsClosed()
    case Start => s.consumer == Starting
    case Poll => s.consumer == Polling
    case Enter => s.consumer == Entering
    case ReadEnds => s.consumer == Reading && s.pipe.IsClosed()
    case CheckContext => s.consumer == SawEOF
    case Commit(_) => s.consumer == Committing
    case CloseRead => s.consumer.Consumed?
    case Deliver => s.consumer.ReadClosed?
    case StopCallback => s.consumer.Delivered? && s.callback == Armed
    case CloseBegin(c) => c !in s.closers
    case ClosePipe(c) => CloseIn(s, c, Closing)
    case Join(c) => CloseIn(s, c, Joining) && s.consumer.Delivered?
    case WaitOnce(c) => CloseIn(s, c, WaitingForOnce) && s.once.Finished?
    case OtherClient(_) => true
  }

  /** The error a Write reports: the context's, once it is canceled. */
  function Reported(s: State, e: PipeError): Option<PipeError>
  {
    Some(if s.canceled then Cause(Canceled) else e)
  }

  function OnRead(s: State, e: PipeError): Consumer
  {
    match e
    case EOF => SawEOF
    case ClosedPipe => Consumed(Err(Failed))
    case Cause(error) => Consumed(Err(error))
  }

  function PublishOp(s: State): Op { Op.Write(s.path, Ok(s.buffer), s.options) }

  function Apply(s: State, l: Label): State
    requires Enabled(s, l)
  {
    match l
    case Cancel => s.(canceled := true, callback := if s.callback == Armed then Pending else s.callback)
    case RunCallback => s.(callback := Ran, pipe := s.pipe.CloseWrite(Cause(Canceled)))
    case WriteBegin(w, data) =>
      var phase := if s.pipe.IsClosed() then WriteReturned(0, Reported(s, s.pipe.WriteError())) else Locking;
      s.(writes := s.writes[w := WriteCall(data, 0, phase)])
    case WriteLock(w) => s.(lock := Some(w), writes := s.writes[w := s.writes[w].(phase := Sending)])
    case Transfer(w, count) => AfterTransfer(s, w, count)
    case WriteFail(w) =>
      var c := s.writes[w];
      var phase := WriteReturned(c.sent, Reported(s, s.pipe.WriteError()));
      s.(lock := None, writes := s.writes[w := c.(phase := phase)])
    case Start =>
      s.(consumer := if s.path.IsRoot() then Consumed(Err(InvalidPath))
                     else if NormalizeVisibility(s.options.visibility).Err? then Consumed(Err(InvalidArgument))
                     else Polling)
    case Poll => s.(consumer := if s.canceled then Consumed(Err(Canceled)) else Entering)
    case Enter => s.(consumer := if s.pipe.IsClosed() then OnRead(s, s.pipe.ReadError()) else Reading)
    case ReadEnds => s.(consumer := OnRead(s, s.pipe.ReadError()))
    case CheckContext => s.(consumer := if s.canceled then Consumed(Err(Canceled)) else Committing)
    case Commit(now) => AfterCommit(s, now)
    case CloseRead =>
      var r := s.consumer.result;
      s.(consumer := ReadClosed(r), pipe := s.pipe.CloseRead(if r.Ok? then ClosedPipe else Cause(r.error)))
    case Deliver => s.(consumer := Delivered(s.consumer.result))
    case StopCallback => s.(callback := Stopped)
    case CloseBegin(c) =>
      if s.once == Unused then s.(once := Running(c), closers := s.closers[c := Closing])
      else s.(closers := s.closers[c := WaitingForOnce])
    case ClosePipe(c) => s.(pipe := s.pipe.CloseWrite(EOF), closers := s.closers[c := Joining])
    case Join(c) =>
      var r := s.consumer.result;
      s.(once := Finished(r), closers := s.closers[c := CloseReturned(r)])
    case WaitOnce(c) => s.(closers := s.closers[c := CloseReturned(s.once.result)])
    case OtherClient(store) => s.(store := store)
  }

  /** The reader takes `count` bytes; the Write returns once all its data is taken. */
  function AfterTransfer(s: State, w: nat, count: nat): State
    requires Enabled(s, Transfer(w, count))
  {
    var c := s.writes[w];
    var bytes := c.data[c.sent..c.sent + count];
    var sent := c.sent + count;
    var all := sent == |c.data|;
    s.(buffer := s.buffer + bytes, pieces := s.pieces + [Piece(w, bytes)], consumer := Polling,
       lock := if all then None else s.lock,
       writes := s.writes[w := c.(sent := sent, phase := if all then WriteReturned(sent, None) else Sending)])
  }

  function AfterCommit(s: State, now: Time): State
  {
    var op := PublishOp(s);
    match Refusal(s.store, true, op)
    case Some(e) => s.(consumer := Consumed(Err(e)))
    case None => s.(consumer := Consumed(Ok(())), store := Effect(s.store, true, now, op), published := Some(s.buffer))
  }

  // ---- what the reader took ----

  /** All pieces in order. */
  function Accepted(pieces: seq<Piece>): seq<Byte>
  {
    if pieces == [] then [] else Accepted(pieces[..|pieces| - 1]) + pieces[|pieces| - 1].bytes
  }

  /** The pieces of one Write in order. */
  function AcceptedFrom(pieces: seq<Piece>, w: nat): seq<Byte>
  {
    if pieces == [] then []
    else
      var last := pieces[|pieces| - 1];
      AcceptedFrom(pieces[..|pieces| - 1], w) + (if last.writer == w then last.bytes else [])
  }

  // ---- the inductive invariant ----

  ghost predicate WriteOk(lock: Option<nat>, pieces: seq<Piece>, w: nat, c: WriteCall)
  {
    && c.sent <= |c.data|
    && AcceptedFrom(pieces, w) == c.data[..c.sent]
    && (c.phase == Sending <==> lock == Some(w))
    && (c.phase == Locking ==> c.sent == 0)
    && (c.phase.WriteReturned? ==>
          c.phase.count == c.sent && (c.phase.error == None ==> c.sent == |c.data|))
  }

  /** Every Write's bytes were taken in order, and the reader holds exactly the bytes taken. */
  ghost predicate ProducersOk(s: State)
  {
    && (forall w :: w in s.writes ==> WriteOk(s.lock, s.pieces, w, s.writes[w]))
    && (forall w :: w !in s.writes ==> AcceptedFrom(s.pieces, w) == [])
    && (s.lock.Some? ==> s.lock.value in s.writes)
    && s.buffer == Accepted(s.pieces)
  }

  ghost predicate CloseOk(once: Once, closed: bool, c: nat, call: CloseCall)
  {
    match call
    case Closing => once == Running(c)
    case Joining => once == Running(c) && closed
    case WaitingForOnce => once != Unused
    case CloseReturned(r) => once == Finished(r)
  }

  /** One closer runs the once body; the others wait for its result. */
  ghost predicate ClosersOk(s: State)
  {
    && (forall c :: c in s.closers ==> CloseOk(s.once, s.pipe.writeEnd.Some?, c, s.closers[c]))
    && (s.once.Finished? ==> s.consumer == Delivered(s.once.result))
  }

  predicate HasResult(c: Consumer) { c.Consumed? || c.ReadClosed? || c.Delivered? }

  /** Only Close puts a clean end into the pipe; only cancellation puts another one. */
  ghost predicate PipeOk(s: State)
  {
    && (s.pipe.writeEnd == Some(EOF) ==> s.once != Unused)
    && (s.pipe.writeEnd.Some? && s.pipe.writeEnd != Some(EOF) ==>
          s.pipe.writeEnd == Some(Cause(Canceled)) && s.canceled)
    && (s.callback == Ran ==> s.canceled && s.pipe.writeEnd.Some?)
    && (s.callback == Pending ==> s.canceled)
    && (s.pipe.readEnd.Some? <==> s.consumer.ReadClosed? || s.consumer.Delivered?)
  }

  /** Only a clean end leads to publication, and what is published is what was taken. */
  ghost predicate ConsumerOk(s: State)
  {
    && (s.published.Some? <==> HasResult(s.consumer) && s.consumer.result.Ok?)
    && (s.published.Some? ==> s.published == Some(s.buffer))
    && (s.consumer == SawEOF || s.consumer == Committing || s.published.Some? ==> s.pipe.writeEnd == Some(EOF))
    && (!s.consumer.Starting? && !HasResult(s.consumer) ==>
          !s.path.IsRoot() && NormalizeVisibility(s.options.visibility).Ok?)
  }

  ghost predicate Invariant(s: State)
  {
    ProducersOk(s) && ClosersOk(s) && PipeOk(s) && ConsumerOk(s)
  }

  lemma AcceptedAppend(pieces: seq<Piece>, piece: Piece, w: nat)
    ensures Accepted(pieces + [piece]) == Accepted(pieces) + piece.bytes
    ensures AcceptedFrom(pieces + [piece], w) ==
            AcceptedFrom(pieces, w) + (if piece.writer == w then piece.bytes else [])
  {
    assert (pieces + [piece])[..|pieces|] == pieces;
  }

  lemma TransferProducers(s: State, w: nat, count: nat)
    requires ProducersOk(s) && Enabled(s, Transfer(w, count))
    ensures ProducersOk(AfterTransfer(s, w, count))
  {
    var c, s' := s.writes[w], AfterTransfer(s, w, count);
    assert WriteOk(s.lock, s.pieces, w, c);
    TransferSender(s.lock, s.pieces, w, c, count);
    TransferAppends(s, s', w, Piece(w, c.data[c.sent..c.sent + count]), s'.writes[w]);
  }

  lemma TransferAppends(s: State, s': State, w: nat, piece: Piece, c: WriteCall)
    requires ProducersOk(s) && s.lock == Some(w) && (s'.lock == None || s'.lock == Some(w)) && piece.writer == w
    requires s'.writes == s.writes[w := c] && s'.pieces == s.pieces + [piece] && s'.buffer == s.buffer + piece.bytes
    requires WriteOk(s'.lock, s'.pieces, w, c)
    ensures ProducersOk(s')
  {
    forall v | v != w
      ensures v in s.writes ==> WriteOk(s'.lock, s'.pieces, v, s.writes[v])
      ensures v !in s.writes ==> AcceptedFrom(s'.pieces, v) == []
    {
      AcceptedAppend(s.pieces, piece, v);
      if v in s.writes { TransferOther(s.lock, s'.lock, s.pieces, piece, v, s.writes[v]); }
    }
    AcceptedAppend(s.pieces, piece, w);
  }

  lemma TransferOther(
    lock: Option<nat>, lock': Option<nat>, pieces: seq<Piece>, piece: Piece, v: nat, c: WriteCall)
    requires WriteOk(lock, pieces, v, c) && piece.writer != v && lock != Some(v) && lock' != Some(v)
    ensures WriteOk(lock', pieces + [piece], v, c)
  {
    AcceptedAppend(pieces, piece, v);
  }

  lemma TransferSender(lock: Option<nat>, pieces: seq<Piece>, w: nat, c: WriteCall, count: nat)
    requires WriteOk(lock, pieces, w, c) && lock == Some(w) && c.sent + count <= |c.data|
    ensures var bytes, sent := c.data[c.sent..c.sent + count], c.sent + count;
            var all := sent == |c.data|;
            WriteOk(if all then None else lock, pieces + [Piece(w, bytes)], w,
                    c.(sent := sent, phase := if all then WriteReturned(sent, None) else Sending))
  {
    AcceptedAppend(pieces, Piece(w, c.data[c.sent..c.sent + count]), w);
    assert c.data[..c.sent] + c.data[c.sent..c.sent + count] == c.data[..c.sent + count];
  }

  /** Changing one Write, and the lock only between free and held by that Write. */
  lemma UpdateWrite(s: State, s': State, w: nat, c: WriteCall)
    requires ProducersOk(s) && s'.pieces == s.pieces && s'.buffer == s.buffer && s'.writes == s.writes[w := c]
    requires WriteOk(s'.lock, s.pieces, w, c)
    requires s'.lock == s.lock || ((s.lock == None || s.lock == Some(w)) && (s'.lock == None || s'.lock == Some(w)))
    ensures ProducersOk(s')
  {
    forall v | v in s'.writes
      ensures WriteOk(s'.lock, s'.pieces, v, s'.writes[v])
    {
      if v != w { assert WriteOk(s.lock, s.pieces, v, s.writes[v]); }
    }
  }

  predicate WriteLabels(l: Label) { l.WriteBegin? || l.WriteLock? || l.Transfer? || l.WriteFail? }

  predicate CloseLabels(l: Label) { l.CloseBegin? || l.ClosePipe? || l.Join? || l.WaitOnce? }

  /** The consumer's steps up to the end of its input, and those after it. */
  predicate ReadLabels(l: Label) { l.Start? || l.Poll? || l.Enter? || l.ReadEnds? }

  predicate ResultLabels(l: Label) { l.CheckContext? || l.Commit? || l.CloseRead? || l.Deliver? }

  predicate ContextLabels(l: Label) { l.Cancel? || l.RunCallback? || l.StopCallback? || l.OtherClient? }

  lemma WriteProducers(s: State, l: Label)
    requires ProducersOk(s) && Enabled(s, l) && WriteLabels(l)
    ensures ProducersOk(Apply(s, l))
  {
    if l.Transfer? {
      TransferProducers(s, l.w, l.count);
    } else {
      if l.w in s.writes { assert WriteOk(s.lock, s.pieces, l.w, s.writes[l.w]); }
      assert l.WriteBegin? ==> s.lock != Some(l.w);
      UpdateWrite(s, Apply(s, l), l.w, Apply(s, l).writes[l.w]);
    }
  }

  lemma SameProducers(s: State, s': State)
    requires ProducersOk(s) && s'.writes == s.writes && s'.lock == s.lock
    requires s'.pieces == s.pieces && s'.buffer == s.buffer
    ensures ProducersOk(s')
  {}

  lemma ProducersStep(s: State, l: Label)
    requires ProducersOk(s) && Enabled(s, l)
    ensures ProducersOk(Apply(s, l))
  {
    if WriteLabels(l) { WriteProducers(s, l); } else { SameProducers(s, Apply(s, l)); }
  }

  /** Neither the once nor a closer changes, the pipe at most closes, and a delivered result stays. */
  lemma SameClosers(s: State, s': State)
    requires ClosersOk(s) && s'.closers == s.closers && s'.once == s.once
    requires s.pipe.writeEnd.Some? ==> s'.pipe.writeEnd.Some?
    requires s.consumer.Delivered? ==> s'.consumer == s.consumer
    ensures ClosersOk(s')
  {
    forall c | c in s'.closers ensures CloseOk(s'.once, s'.pipe.writeEnd.Some?, c, s'.closers[c]) {
      assert CloseOk(s.once, s.pipe.writeEnd.Some?, c, s.closers[c]);
    }
  }

  lemma CloseClosers(s: State, l: Label)
    requires ClosersOk(s) && Enabled(s, l) && CloseLabels(l)
    ensures ClosersOk(Apply(s, l))
  {
    var s' := Apply(s, l);
    if l.c in s.closers { assert CloseOk(s.once, s.pipe.writeEnd.Some?, l.c, s.closers[l.c]); }
    forall c | c in s'.closers ensures CloseOk(s'.once, s'.pipe.writeEnd.Some?, c, s'.closers[c]) {
      if c in s.closers { assert CloseOk(s.once, s.pipe.writeEnd.Some?, c, s.closers[c]); }
    }
  }

  lemma ClosersStep(s: State, l: Label)
    requires ClosersOk(s) && Enabled(s, l)
    ensures ClosersOk(Apply(s, l))
  {
    if CloseLabels(l) { CloseClosers(s, l); } else { SameClosers(s, Apply(s, l)); }
  }

  lemma PipeStep(s: State, l: Label)
    requires PipeOk(s) && ClosersOk(s) && Enabled(s, l)
    ensures PipeOk(Apply(s, l))
  {
    if CloseLabels(l) {
      ClosePipes(s, l);
    } else if ReadLabels(l) {
      ReadPipe(s, l);
    } else if ResultLabels(l) {
      ResultPipe(s, l);
    } else if ContextLabels(l) {
      ContextPipe(s, l);
    } else {
      WritePipe(s, l);
    }
  }

  lemma ClosePipes(s: State, l: Label)
    requires PipeOk(s) && ClosersOk(s) && Enabled(s, l) && CloseLabels(l)
    ensures PipeOk(Apply(s, l))
  {
    if l.ClosePipe? { assert CloseOk(s.once, s.pipe.writeEnd.Some?, l.c, s.closers[l.c]); }
  }

  lemma ReadPipe(s: State, l: Label)
    requires PipeOk(s) && Enabled(s, l) && ReadLabels(l)
    ensures PipeOk(Apply(s, l))
  {}

  lemma ResultPipe(s: State, l: Label)
    requires PipeOk(s) && Enabled(s, l) && ResultLabels(l)
    ensures PipeOk(Apply(s, l))
  {}

  lemma ContextPipe(s: State, l: Label)
    requires PipeOk(s) && Enabled(s, l) && ContextLabels(l)
    ensures PipeOk(Apply(s, l))
  {}

  lemma WritePipe(s: State, l: Label)
    requires PipeOk(s) && Enabled(s, l) && WriteLabels(l)
    ensures PipeOk(Apply(s, l))
  {}

  lemma ConsumerStep(s: State, l: Label)
    requires PipeOk(s) && ConsumerOk(s) && Enabled(s, l)
    ensures ConsumerOk(Apply(s, l))
  {
    if ReadLabels(l) {
      ReadConsumer(s, l);
    } else if ResultLabels(l) {
      ResultConsumer(s, l);
    } else if l.Transfer? {
      TransferConsumer(s, l);
    } else {
      SameConsumer(s, Apply(s, l));
    }
  }

  lemma ReadConsumer(s: State, l: Label)
    requires PipeOk(s) && ConsumerOk(s) && Enabled(s, l) && ReadLabels(l)
    ensures ConsumerOk(Apply(s, l))
  {}

  lemma ResultConsumer(s: State, l: Label)
    requires ConsumerOk(s) && Enabled(s, l) && ResultLabels(l)
    ensures ConsumerOk(Apply(s, l))
  {}

  lemma TransferConsumer(s: State, l: Label)
    requires ConsumerOk(s) && Enabled(s, l) && l.Transfer?
    ensures ConsumerOk(Apply(s, l))
  {}

  /** Nothing of the consumer changes, and a clean end of the pipe stays one. */
  lemma SameConsumer(s: State, s': State)
    requires ConsumerOk(s) && s'.consumer == s.consumer && s'.buffer == s.buffer && s'.published == s.published
    requires s'.path == s.path && s'.options == s.options
    requires s.pipe.writeEnd == Some(EOF) ==> s'.pipe.writeEnd == Some(EOF)
    ensures ConsumerOk(s')
  {}

  lemma InvariantStep(s: State, l: Label)
    requires Invariant(s) && Enabled(s, l)
    ensures Invariant(Apply(s, l))
  {
    ProducersStep(s, l);
    ClosersStep(s, l);
    PipeStep(s, l);
    ConsumerStep(s, l);
  }

  // ---- runs ----

  ghost predicate StepAt(states: seq<State>, labels: seq<Label>, k: nat)
    requires |states| == |labels| + 1 && k < |labels|
  {
    Enabled(states[k], labels[k]) && states[k + 1] == Apply(states[k], labels[k])
  }

  ghost predicate IsRun(states: seq<State>, labels: seq<Label>)
  {
    && |states| == |labels| + 1
    && (exists path, options, store :: states[0] == Initial(path, options, store))
    && forall k :: 0 <= k < |labels| ==> StepAt(states, labels, k)
  }

  lemma {:induction false} RunInvariant(states: seq<State>, labels: seq<Label>, k: nat)
    requires IsRun(states, labels) && k < |states|
    ensures Invariant(states[k])
  {
    if k > 0 {
      RunInvariant(states, labels, k - 1);
      assert StepAt(states, labels, k - 1);
      InvariantStep(states[k - 1], labels[k - 1]);
    }
  }

  // ---- what reaches the store ----

  /** Step `j` leaves the store alone, or is another client's. */
  ghost predicate KeepsStore(states: seq<State>, labels: seq<Label>, j: nat)
    requires j < |labels| < |states|
  {
    labels[j].OtherClient? || states[j + 1].store == states[j].store
  }

  /** No step up to `k` but those of other clients has changed the store. */
  ghost predicate StoresNothing(states: seq<State>, labels: seq<Label>, k: nat)
    requires k <= |labels| < |states|
  {
    forall j :: 0 <= j < k ==> KeepsStore(states, labels, j)
  }

  /** Step `j` stores `data` under the writer's path, over nothing if asked so, and changes no other key. */
  ghost predicate StoresAt(states: seq<State>, labels: seq<Label>, j: nat, data: seq<Byte>)
    requires j < |labels| < |states|
  {
    var before, after, key := states[j].store, states[j + 1].store, states[j].path.value;
    && labels[j].Commit? && key in after && after[key].content == data && after == before[key := after[key]]
    && (states[j].options.ifNoneMatch ==> key !in before)
  }

  /** Up to `k`, step `i` has stored all accepted bytes under the path, and no other step of the writer anything. */
  ghost predicate StoresOnlyAt(states: seq<State>, labels: seq<Label>, k: nat, i: nat)
    requires k <= |labels| < |states|
  {
    && i < k && StoresAt(states, labels, i, Accepted(states[k].pieces))
    && states[i].path == states[k].path && states[i].options == states[k].options
    && forall j :: 0 <= j < k && j != i ==> KeepsStore(states, labels, j)
  }

  ghost predicate StoresOnce(states: seq<State>, labels: seq<Label>, k: nat)
    requires k <= |labels| < |states|
  {
    exists i: nat :: StoresOnlyAt(states, labels, k, i)
  }

  /** One step: a Commit that is not refused stores and publishes; nothing else of the writer does either. */
  lemma StoreStep(s: State, l: Label)
    requires Invariant(s) && Enabled(s, l)
    ensures var s' := Apply(s, l);
            && s'.path == s.path && s'.options == s.options
            && if s'.published == s.published then l.OtherClient? || s'.store == s.store
               else && s.published == None && l.Commit? && s'.published == Some(s.buffer)
                    && s'.store == Effect(s.store, true, l.now, PublishOp(s))
                    && Refusal(s.store, true, PublishOp(s)).None?
  {
    if !l.Commit? { OtherStepsKeep(s, l); }
  }

  lemma OtherStepsKeep(s: State, l: Label)
    requires Enabled(s, l) && !l.Commit?
    ensures var s' := Apply(s, l);
            && s'.path == s.path && s'.options == s.options && s'.published == s.published
            && (l.OtherClient? || s'.store == s.store)
  {}

  lemma CommitStoresAccepted(states: seq<State>, labels: seq<Label>, k: nat)
    requires IsRun(states, labels) && k < |labels| && states[k + 1].published != states[k].published
    ensures StoresAt(states, labels, k, Accepted(states[k + 1].pieces))
  {
    RunInvariant(states, labels, k);
    RunInvariant(states, labels, k + 1);
    assert StepAt(states, labels, k);
    StoreStep(states[k], labels[k]);
  }

  /**
    In every run the store follows the publication: before it the writer has stored nothing, and after it exactly
    once, namely the accepted bytes under its path.
   */
  lemma {:induction false} StoreFollowsPublication(states: seq<State>, labels: seq<Label>, k: nat)
    requires IsRun(states, labels) && k < |states|
    ensures if states[k].published == None then StoresNothing(states, labels, k) else StoresOnce(states, labels, k)
  {
    if k > 0 {
      StoreFollowsPublication(states, labels, k - 1);
      RunInvariant(states, labels, k - 1);
      RunInvariant(states, labels, k);
      assert StepAt(states, labels, k - 1);
      StoreStep(states[k - 1], labels[k - 1]);
      if states[k].published != states[k - 1].published {
        CommitStoresAccepted(states, labels, k - 1);
        assert StoresOnlyAt(states, labels, k, k - 1);
      } else if states[k].published.Some? {
        StoredStays(states, labels, k);
      }
    }
  }

  lemma StoredStays(states: seq<State>, labels: seq<Label>, k: nat)
    requires 0 < k <= |labels| < |states| && StoresOnce(states, labels, k - 1) && KeepsStore(states, labels, k - 1)
    requires states[k].path == states[k - 1].path && states[k].options == states[k - 1].options
    requires Accepted(states[k].pieces) == Accepted(states[k - 1].pieces)
    ensures StoresOnce(states, labels, k)
  {
    var i: nat :| StoresOnlyAt(states, labels, k - 1, i);
    assert StoresOnlyAt(states, labels, k, i);
  }

  /**
    Close returns nil exactly when the object was published, with exactly the
    bytes the pipe accepted from all Writes; every Close returns the same result.
   */
  lemma CloseReportsPublication(states: seq<State>, labels: seq<Label>, k: nat, c: nat, d: nat)
    requires IsRun(states, labels) && k < |states|
    requires c in states[k].closers && states[k].closers[c].CloseReturned?
    requires d in states[k].closers && states[k].closers[d].CloseReturned?
    ensures states[k].closers[c].result.Ok? <==> states[k].published == Some(Accepted(states[k].pieces))
    ensures if states[k].closers[c].result.Ok? then StoresOnce(states, labels, k) else StoresNothing(states, labels, k)
    ensures states[k].closers[c].result == states[k].closers[d].result
  {
    RunInvariant(states, labels, k);
    StoreFollowsPublication(states, labels, k);
    var s := states[k];
    assert CloseOk(s.once, s.pipe.writeEnd.Some?, c, s.closers[c]);
    assert CloseOk(s.once, s.pipe.writeEnd.Some?, d, s.closers[d]);
  }

  /** A writer that is never closed publishes nothing. */
  lemma UnclosedPublishesNothing(states: seq<State>, labels: seq<Label>, k: nat)
    requires IsRun(states, labels) && k < |states| && states[k].closers == map[]
    ensures states[k].published == None && StoresNothing(states, labels, k) && states[k].pipe.writeEnd != Some(EOF)
  {
    RunInvariant(states, labels, k);
    NoCloserNoOnce(states, labels, k);
    StoreFollowsPublication(states, labels, k);
  }

  lemma {:induction false} NoCloserNoOnce(states: seq<State>, labels: seq<Label>, k: nat)
    requires IsRun(states, labels) && k < |states|
    ensures states[k].once == Unused <==> states[k].closers == map[]
  {
    if k > 0 {
      NoCloserNoOnce(states, labels, k - 1);
      assert StepAt(states, labels, k - 1);
      OnceNeedsCloser(states[k - 1], labels[k - 1]);
    }
  }

  lemma OnceNeedsCloser(s: State, l: Label)
    requires Enabled(s, l) && (s.once == Unused <==> s.closers == map[])
    ensures Apply(s, l).once == Unused <==> Apply(s, l).closers == map[]
  {
    var s' := Apply(s, l);
    if l.CloseBegin? || l.ClosePipe? || l.Join? || l.WaitOnce? {
      assert l.c in s'.closers;
    }
  }

  /** Once canceled before the commit check, a writer never publishes. */
  ghost predicate TooLate(s: State)
  {
    s.canceled && s.consumer != Committing && s.published == None
  }

  lemma CanceledPublishesNothing(states: seq<State>, labels: seq<Label>, i: nat, k: nat)
    requires IsRun(states, labels) && i <= k < |states| && TooLate(states[i])
    ensures TooLate(states[k]) && StoresNothing(states, labels, k)
  {
    StaysTooLate(states, labels, i, k);
    StoreFollowsPublication(states, labels, k);
  }

  lemma {:induction false} StaysTooLate(states: seq<State>, labels: seq<Label>, i: nat, k: nat)
    requires IsRun(states, labels) && i <= k < |states| && TooLate(states[i])
    ensures TooLate(states[k])
    decreases k
  {
    if i < k {
      StaysTooLate(states, labels, i, k - 1);
      assert StepAt(states, labels, k - 1);
      TooLateStep(states[k - 1], labels[k - 1]);
    }
  }

  lemma TooLateStep(s: State, l: Label)
    requires Enabled(s, l) && TooLate(s)
    ensures TooLate(Apply(s, l))
  {}

  // ---- which error Close returns ----

  /** The consumer's step that settles the result, and the result that what it finds calls for. */
  ghost predicate SettlesResult(s: State, l: Label, r: Outcome<()>)
  {
    match l
    case Start =>
      if s.path.IsRoot() then r == Err(InvalidPath)
      else s.options.visibility == Unknown && r == Err(InvalidArgument)
    case Poll => s.canceled && r == Err(Canceled)
    case Enter => AbortedInput(s) && r == Err(Canceled)
    case ReadEnds => AbortedInput(s) && r == Err(Canceled)
    case CheckContext => s.canceled && r == Err(Canceled)
    case Commit(_) =>
      r == if s.options.ifNoneMatch && s.path.value in s.store then Err(PreconditionFailed) else Ok(())
    case _ => false
  }

  /** The writing end was closed by cancellation and not by Close. */
  ghost predicate AbortedInput(s: State) { s.pipe.writeEnd.Some? && s.pipe.writeEnd != Some(EOF) }

  ghost predicate HasSettled(states: seq<State>, labels: seq<Label>, k: nat, r: Outcome<()>)
    requires k <= |labels| < |states|
  {
    exists j :: 0 <= j < k && SettlesResult(states[j], labels[j], r)
  }

  predicate IsResult(c: Consumer, r: Outcome<()>) { HasResult(c) && c.result == r }

  lemma SettleStep(s: State, l: Label, r: Outcome<()>)
    requires Invariant(s) && Enabled(s, l)
    ensures IsResult(Apply(s, l).consumer, r) <==> IsResult(s.consumer, r) || SettlesResult(s, l, r)
  {
    if l.Start? || l.Poll? || l.CheckContext? {
      OwnSettleStep(s, l, r);
    } else if l.Commit? {
      CommitSettles(s, l, r);
    } else if l.Enter? || l.ReadEnds? {
      InputSettleStep(s, l, r);
    } else {
      OthersKeepResult(s, l, r);
    }
  }

  lemma OwnSettleStep(s: State, l: Label, r: Outcome<()>)
    requires Enabled(s, l) && (l.Start? || l.Poll? || l.CheckContext?)
    ensures IsResult(Apply(s, l).consumer, r) <==> IsResult(s.consumer, r) || SettlesResult(s, l, r)
  {}

  lemma CommitSettles(s: State, l: Label, r: Outcome<()>)
    requires Invariant(s) && Enabled(s, l) && l.Commit?
    ensures IsResult(Apply(s, l).consumer, r) <==> IsResult(s.consumer, r) || SettlesResult(s, l, r)
  {}

  lemma InputSettleStep(s: State, l: Label, r: Outcome<()>)
    requires Invariant(s) && Enabled(s, l) && (l.Enter? || l.ReadEnds?)
    ensures IsResult(Apply(s, l).consumer, r) <==> IsResult(s.consumer, r) || SettlesResult(s, l, r)
  {}

  lemma OthersKeepResult(s: State, l: Label, r: Outcome<()>)
    requires Enabled(s, l) && !ReadLabels(l) && !l.CheckContext? && !l.Commit?
    ensures IsResult(Apply(s, l).consumer, r) <==> IsResult(s.consumer, r)
  {}

  lemma {:induction false} ResultIsSettled(states: seq<State>, labels: seq<Label>, k: nat, r: Outcome<()>)
    requires IsRun(states, labels) && k < |states|
    ensures IsResult(states[k].consumer, r) <==> HasSettled(states, labels, k, r)
  {
    if k > 0 {
      ResultIsSettled(states, labels, k - 1, r);
      RunInvariant(states, labels, k - 1);
      assert StepAt(states, labels, k - 1);
      SettleStep(states[k - 1], labels[k - 1], r);
      assert HasSettled(states, labels, k, r) <==>
             HasSettled(states, labels, k - 1, r) || SettlesResult(states[k - 1], labels[k - 1], r);
    }
  }

  /**
    In every run a Close that has returned returned `r` exactly when some step of the consumer called for `r`:
    the refusal of the path, of the visibility or of the commit, cancellation seen at a poll, in the pipe or before
    the commit, or success. So all Closes return the refusal of a refused commit, and Canceled after cancellation.
   */
  lemma CloseReturnsIff(states: seq<State>, labels: seq<Label>, k: nat, c: nat, r: Outcome<()>)
    requires IsRun(states, labels) && k < |states|
    requires c in states[k].closers && states[k].closers[c].CloseReturned?
    ensures states[k].closers[c].result == r <==> HasSettled(states, labels, k, r)
  {
    RunInvariant(states, labels, k);
    ResultIsSettled(states, labels, k, r);
    var s := states[k];
    assert CloseOk(s.once, s.pipe.writeEnd.Some?, c, s.closers[c]);
  }

  /** Cancellation never reaches the consumer as a clean end of input. */
  lemma CleanEndNeedsClose(states: seq<State>, labels: seq<Label>, k: nat)
    requires IsRun(states, labels) && k < |states|
    ensures states[k].consumer == SawEOF || states[k].consumer == Committing ==>
              states[k].pipe.writeEnd == Some(EOF) && states[k].closers != map[]
    ensures states[k].pipe.writeEnd.Some? && states[k].closers == map[] ==>
              states[k].pipe.writeEnd == Some(Cause(Canceled)) && states[k].canceled
  {
    RunInvariant(states, labels, k);
    NoCloserNoOnce(states, labels, k);
  }

  /** A Write that returned reports exactly the bytes the consumer took from it. */
  lemma WritesReportWhatWasTaken(states: seq<State>, labels: seq<Label>, k: nat, w: nat)
    requires IsRun(states, labels) && k < |states| && w in states[k].writes
    requires states[k].writes[w].phase.WriteReturned?
    ensures var c := states[k].writes[w];
            && c.phase.count <= |c.data| && AcceptedFrom(states[k].pieces, w) == c.data[..c.phase.count]
            && (c.phase.error == None ==> c.phase.count == |c.data|)
  {
    RunInvariant(states, labels, k);
    assert WriteOk(states[k].lock, states[k].pieces, w, states[k].writes[w]);
  }

  /** The step that ends Write `w`, and the error that what it finds calls for. */
  ghost predicate EndsWrite(s: State, l: Label, w: nat, error: Option<PipeError>)
  {
    match l
    case Transfer(v, count) =>
      v == w && w in s.writes && s.writes[w].sent + count == |s.writes[w].data| && error == None
    case WriteBegin(v, _) => v == w && s.pipe.IsClosed() && error == ClosedError(s)
    case WriteFail(v) => v == w && error == ClosedError(s)
    case _ => false
  }

  /** A closed pipe: the context's error once it is canceled, else the consumer's if only it has closed its end. */
  function ClosedError(s: State): Option<PipeError>
  {
    if s.canceled then Some(Cause(Canceled))
    else if s.pipe.readEnd.Some? && s.pipe.writeEnd.None? then s.pipe.readEnd
    else Some(ClosedPipe)
  }

  ghost predicate HasEndedWrite(states: seq<State>, labels: seq<Label>, k: nat, w: nat, error: Option<PipeError>)
    requires k <= |labels| < |states|
  {
    exists j :: 0 <= j < k && EndsWrite(states[j], labels[j], w, error)
  }

  ghost predicate WriteErred(s: State, w: nat, error: Option<PipeError>)
  {
    w in s.writes && s.writes[w].phase.WriteReturned? && s.writes[w].phase.error == error
  }

  lemma EndWriteStep(s: State, l: Label, w: nat, error: Option<PipeError>)
    requires Enabled(s, l)
    ensures WriteErred(Apply(s, l), w, error) <==> WriteErred(s, w, error) || EndsWrite(s, l, w, error)
  {
    if !WriteLabels(l) { OthersKeepWrites(s, l); }
  }

  lemma OthersKeepWrites(s: State, l: Label)
    requires Enabled(s, l) && !WriteLabels(l)
    ensures Apply(s, l).writes == s.writes
  {}

  /** In every run a Write has returned an error, or none, exactly when one of its steps called for it. */
  lemma {:induction false} WriteReturnsIff(
    states: seq<State>, labels: seq<Label>, k: nat, w: nat, error: Option<PipeError>)
    requires IsRun(states, labels) && k < |states|
    ensures WriteErred(states[k], w, error) <==> HasEndedWrite(states, labels, k, w, error)
  {
    if k > 0 {
      WriteReturnsIff(states, labels, k - 1, w, error);
      assert StepAt(states, labels, k - 1);
      EndWriteStep(states[k - 1], labels[k - 1], w, error);
      assert HasEndedWrite(states, labels, k, w, error) <==>
             HasEndedWrite(states, labels, k - 1, w, error) || EndsWrite(states[k - 1], labels[k - 1], w, error);
    }
  }

  // ---- every call returns ----

  /** Steps of the calls already made, of the consumer and of the callback. */
  predicate Internal(l: Label) { !l.WriteBegin? && !l.CloseBegin? && !l.Cancel? && !l.OtherClient? }

  /** Nobody waits: every Write and Close has returned, and nothing is left to do once the pipe is closed. */
  ghost predicate Settled(s: State)
  {
    && (forall w :: w in s.writes ==> s.writes[w].phase.WriteReturned?)
    && (forall c :: c in s.closers ==> s.closers[c].CloseReturned?)
    && (s.pipe.IsClosed() ==> s.consumer.Delivered?)
    && s.callback != Pending
  }

  /** The closer inside the once body is closing the pipe or waiting for the consumer. */
  ghost predicate RunnerOk(s: State)
  {
    s.once.Running? ==> CloseIn(s, s.once.closer, Closing) || CloseIn(s, s.once.closer, Joining)
  }

  lemma RunnerStep(s: State, l: Label)
    requires RunnerOk(s) && ClosersOk(s) && Enabled(s, l)
    ensures RunnerOk(Apply(s, l))
  {
    if l.ClosePipe? || l.Join? { assert CloseOk(s.once, s.pipe.writeEnd.Some?, l.c, s.closers[l.c]); }
  }

  lemma {:induction false} RunRunner(states: seq<State>, labels: seq<Label>, k: nat)
    requires IsRun(states, labels) && k < |states|
    ensures RunnerOk(states[k])
  {
    if k > 0 {
      RunRunner(states, labels, k - 1);
      RunInvariant(states, labels, k - 1);
      assert StepAt(states, labels, k - 1);
      RunnerStep(states[k - 1], labels[k - 1]);
    }
  }

  /** The consumer's next own step; while it waits for a writer only a closed pipe gives it one. */
  function ConsumerLabel(s: State): Label
    requires !s.consumer.Delivered?
  {
    match s.consumer
    case Starting => Start
    case Polling => Poll
    case Entering => Enter
    case Reading => ReadEnds
    case SawEOF => CheckContext
    case Committing => Commit(0)
    case Consumed(_) => CloseRead
    case ReadClosed(_) => Deliver
  }

  /** A Write that has not returned, or the one in its way, can go on, or the consumer can. */
  function WriteLabel(s: State, w: nat): Label
    requires w in s.writes && s.writes[w].sent <= |s.writes[w].data|
    requires s.lock.Some? ==> s.lock.value in s.writes && s.writes[s.lock.value].sent <= |s.writes[s.lock.value].data|
  {
    if s.lock.None? then WriteLock(w)
    else
      var x := s.lock.value;
      if s.pipe.IsClosed() then WriteFail(x)
      else if s.consumer == Reading then Transfer(x, |s.writes[x].data| - s.writes[x].sent)
      else if s.consumer.Delivered? then WriteFail(x)
      else ConsumerLabel(s)
  }

  lemma WriteCanGoOn(s: State, w: nat)
    requires ProducersOk(s) && PipeOk(s) && w in s.writes && !s.writes[w].phase.WriteReturned?
    ensures WriteOk(s.lock, s.pieces, w, s.writes[w])
    ensures s.lock.Some? ==> WriteOk(s.lock, s.pieces, s.lock.value, s.writes[s.lock.value])
    ensures Enabled(s, WriteLabel(s, w)) && Internal(WriteLabel(s, w))
  {
    assert WriteOk(s.lock, s.pieces, w, s.writes[w]);
    if s.lock.Some? { assert WriteOk(s.lock, s.pieces, s.lock.value, s.writes[s.lock.value]); }
  }

  lemma CloseCanGoOn(s: State, c: nat) returns (l: Label)
    requires ClosersOk(s) && RunnerOk(s) && c in s.closers && !s.closers[c].CloseReturned?
    ensures Enabled(s, l) && Internal(l)
  {
    assert CloseOk(s.once, s.pipe.writeEnd.Some?, c, s.closers[c]);
    if s.closers[c].WaitingForOnce? && s.once.Finished? { return WaitOnce(c); }
    var x := s.once.closer;
    assert CloseOk(s.once, s.pipe.writeEnd.Some?, x, s.closers[x]);
    l := if s.closers[x].Closing? then ClosePipe(x) else if s.consumer.Delivered? then Join(x) else ConsumerLabel(s);
  }

  /** In every reachable state that is not settled, a call already made, the consumer or the callback has a step. */
  lemma NeverStuck(states: seq<State>, labels: seq<Label>, k: nat) returns (l: Label)
    requires IsRun(states, labels) && k < |states| && !Settled(states[k])
    ensures Enabled(states[k], l) && Internal(l)
  {
    RunInvariant(states, labels, k);
    RunRunner(states, labels, k);
    var s := states[k];
    if w :| w in s.writes && !s.writes[w].phase.WriteReturned? {
      WriteCanGoOn(s, w);
      l := WriteLabel(s, w);
    } else if c :| c in s.closers && !s.closers[c].CloseReturned? {
      l := CloseCanGoOn(s, c);
    } else {
      l := if s.callback == Pending then RunCallback else ConsumerLabel(s);
    }
  }

  ghost function Total(ranks: map<nat, nat>): nat
  {
    if ranks == map[] then 0
    else
      var k :| k in ranks;
      ranks[k] + Total(ranks - {k})
  }

  lemma {:induction false} TotalTakes(ranks: map<nat, nat>, k: nat)
    requires k in ranks
    ensures Total(ranks) == ranks[k] + Total(ranks - {k})
  {
    var j :| j in ranks && Total(ranks) == ranks[j] + Total(ranks - {j});
    if j != k {
      TotalTakes(ranks - {j}, k);
      TotalTakes(ranks - {k}, j);
      assert ranks - {j} - {k} == ranks - {k} - {j};
    }
  }

  lemma TotalUpdate(ranks: map<nat, nat>, k: nat, rank: nat)
    requires k in ranks
    ensures Total(ranks[k := rank]) + ranks[k] == Total(ranks) + rank
  {
    TotalTakes(ranks, k);
    TotalTakes(ranks[k := rank], k);
    assert ranks[k := rank] - {k} == ranks - {k};
  }

  function WriteRank(c: WriteCall): nat
  {
    var unsent := if c.sent <= |c.data| then |c.data| - c.sent else 0;
    match c.phase
    case Locking => 2 + unsent
    case Sending => 1 + unsent
    case WriteReturned(_, _) => 0
  }

  function CloseRank(c: CloseCall): nat
  {
    match c
    case Closing => 2
    case Joining => 1
    case WaitingForOnce => 1
    case CloseReturned(_) => 0
  }

  function ConsumerRank(c: Consumer): nat
  {
    match c
    case Starting => 8
    case Polling => 7
    case Entering => 6
    case Reading => 5
    case SawEOF => 4
    case Committing => 3
    case Consumed(_) => 2
    case ReadClosed(_) => 1
    case Delivered(_) => 0
  }

  function WriteRanks(writes: map<nat, WriteCall>): map<nat, nat> { map w | w in writes :: WriteRank(writes[w]) }

  function CloseRanks(closers: map<nat, CloseCall>): map<nat, nat> { map c | c in closers :: CloseRank(closers[c]) }

  /** Unsent bytes and open Writes count four times: a transfer sends the consumer two phases back. */
  ghost function Work(s: State): nat
  {
    4 * Total(WriteRanks(s.writes)) + Total(CloseRanks(s.closers)) + ConsumerRank(s.consumer)
    + if s.callback == Armed || s.callback == Pending then 1 else 0
  }

  lemma WriteWork(s: State, w: nat, c: WriteCall)
    requires w in s.writes
    ensures Total(WriteRanks(s.writes[w := c])) + WriteRank(s.writes[w]) == Total(WriteRanks(s.writes)) + WriteRank(c)
  {
    TotalUpdate(WriteRanks(s.writes), w, WriteRank(c));
    assert WriteRanks(s.writes[w := c]) == WriteRanks(s.writes)[w := WriteRank(c)];
  }

  lemma CloseWork(s: State, c: nat, call: CloseCall)
    requires c in s.closers
    ensures Total(CloseRanks(s.closers[c := call])) + CloseRank(s.closers[c]) ==
            Total(CloseRanks(s.closers)) + CloseRank(call)
  {
    TotalUpdate(CloseRanks(s.closers), c, CloseRank(call));
    assert CloseRanks(s.closers[c := call]) == CloseRanks(s.closers)[c := CloseRank(call)];
  }

  lemma WritesUseUpWork(s: State, l: Label)
    requires Enabled(s, l) && Internal(l) && WriteLabels(l)
    ensures Work(Apply(s, l)) < Work(s)
  {
    var s' := Apply(s, l);
    WriteWork(s, l.w, s'.writes[l.w]);
    assert s'.writes == s.writes[l.w := s'.writes[l.w]];
  }

  lemma ClosesUseUpWork(s: State, l: Label)
    requires Enabled(s, l) && Internal(l) && CloseLabels(l)
    ensures Work(Apply(s, l)) < Work(s)
  {
    var s' := Apply(s, l);
    CloseWork(s, l.c, s'.closers[l.c]);
    assert s'.closers == s.closers[l.c := s'.closers[l.c]];
  }

  lemma ConsumerUsesUpWork(s: State, l: Label)
    requires Enabled(s, l) && (ReadLabels(l) || ResultLabels(l))
    ensures Work(Apply(s, l)) < Work(s)
  {
    RankDrops(s, Apply(s, l));
  }

  lemma RankDrops(s: State, s': State)
    requires s'.writes == s.writes && s'.closers == s.closers && s'.callback == s.callback
    requires ConsumerRank(s'.consumer) < ConsumerRank(s.consumer)
    ensures Work(s') < Work(s)
  {}

  /** Every such step uses up work, so no schedule goes on forever without new calls. */
  lemma StepsUseUpWork(s: State, l: Label)
    requires Enabled(s, l) && Internal(l)
    ensures Work(Apply(s, l)) < Work(s)
  {
    if WriteLabels(l) {
      WritesUseUpWork(s, l);
    } else if CloseLabels(l) {
      ClosesUseUpWork(s, l);
    } else if ReadLabels(l) || ResultLabels(l) {
      ConsumerUsesUpWork(s, l);
    }
  }

  lemma RunExtends(states: seq<State>, labels: seq<Label>, l: Label)
    requires IsRun(states, labels) && Enabled(states[|labels|], l)
    ensures IsRun(states + [Apply(states[|labels|], l)], labels + [l])
  {
    var states', labels' := states + [Apply(states[|labels|], l)], labels + [l];
    assert states'[0] == states[0];
    forall k | 0 <= k < |labels'| ensures StepAt(states', labels', k) {
      assert k < |labels| ==> StepAt(states, labels, k);
    }
  }

  /**
    From every reachable state, without any new call, all Writes and Closes return; a closed pipe leaves
    neither its reader nor a writer waiting.
   */
  lemma {:induction false} EveryCallReturns(states: seq<State>, labels: seq<Label>)
    returns (settled: seq<State>, steps: seq<Label>)
    requires IsRun(states, labels)
    ensures IsRun(settled, labels + steps) && states <= settled
    ensures forall l :: l in steps ==> Internal(l)
    ensures Settled(settled[|settled| - 1])
    decreases Work(states[|labels|])
  {
    var s := states[|labels|];
    if Settled(s) {
      settled, steps := states, [];
      assert labels + steps == labels;
    } else {
      var l := NeverStuck(states, labels, |labels|);
      StepsUseUpWork(s, l);
      RunExtends(states, labels, l);
      var later;
      settled, later := EveryCallReturns(states + [Apply(s, l)], labels + [l]);
      steps := [l] + later;
      assert labels + steps == labels + [l] + later;
    }
  }

  // ---- publication is reachable ----

  ghost predicate Reachable(start: State, s: State)
  {
    exists states, labels :: IsRun(states, labels) && states[0] == start && states[|labels|] == s
  }

  lemma ReachableStep(start: State, s: State, l: Label)
    requires Reachable(start, s) && Enabled(s, l)
    ensures Reachable(start, Apply(s, l))
  {
    var states, labels :| IsRun(states, labels) && states[0] == start && states[|labels|] == s;
    RunExtends(states, labels, l);
    var states', labels' := states + [Apply(s, l)], labels + [l];
    assert IsRun(states', labels') && states'[0] == start && states'[|labels'|] == Apply(s, l);
  }

  /** The start of a call whose path and options Write accepts. */
  ghost predicate Acceptable(start: State)
  {
    && start == Initial(start.path, start.options, start.store)
    && !start.path.IsRoot() && NormalizeVisibility(start.options.visibility).Ok?
    && (start.options.ifNoneMatch ==> start.path.value !in start.store)
  }

  /** One Write is waiting to send, and the consumer has got this far. */
  function Offered(start: State, data: seq<Byte>, consumer: Consumer): State
  {
    start.(writes := map[0 := WriteCall(data, 0, Locking)], consumer := consumer)
  }

  lemma OfferedHappens(start: State, data: seq<Byte>)
    requires Acceptable(start)
    ensures Reachable(start, Offered(start, data, Reading))
  {
    assert IsRun([start], []);
    assert Reachable(start, start);
    ReachableStep(start, start, WriteBegin(0, data));
    assert Apply(start, WriteBegin(0, data)) == Offered(start, data, Starting);
    ReachableStep(start, Offered(start, data, Starting), Start);
    ReachableStep(start, Offered(start, data, Polling), Poll);
    ReachableStep(start, Offered(start, data, Entering), Enter);
  }

  /** The consumer has taken all of the Write's data, and closing has got this far. */
  function Taken(start: State, data: seq<Byte>, consumer: Consumer, pipe: Pipe, closers: map<nat, CloseCall>): State
  {
    start.(writes := map[0 := WriteCall(data, |data|, WriteReturned(|data|, None))],
           buffer := data, pieces := [Piece(0, data)], consumer := consumer, pipe := pipe,
           once := if closers == map[] then Unused else Running(0), closers := closers)
  }

  lemma TakenHappens(start: State, data: seq<Byte>)
    requires Acceptable(start)
    ensures Reachable(start, Taken(start, data, Polling, start.pipe, map[]))
  {
    OfferedHappens(start, data);
    var s := Offered(start, data, Reading);
    ReachableStep(start, s, WriteLock(0));
    s := Apply(s, WriteLock(0));
    assert s == start.(writes := map[0 := WriteCall(data, 0, Sending)], lock := Some(0), consumer := Reading);
    ReachableStep(start, s, Transfer(0, |data|));
    assert data[0..|data|] == data;
    assert Apply(s, Transfer(0, |data|)) == Taken(start, data, Polling, start.pipe, map[]);
  }

  lemma ClosingHappens(start: State, data: seq<Byte>)
    requires Acceptable(start)
    ensures Reachable(start, Taken(start, data, Reading, start.pipe, map[0 := Closing]))
  {
    TakenHappens(start, data);
    ReachableStep(start, Taken(start, data, Polling, start.pipe, map[]), Poll);
    ReachableStep(start, Taken(start, data, Entering, start.pipe, map[]), Enter);
    ReachableStep(start, Taken(start, data, Reading, start.pipe, map[]), CloseBegin(0));
    assert map[][0 := Closing] == map[0 := Closing];
  }

  lemma EndedHappens(start: State, data: seq<Byte>)
    requires Acceptable(start)
    ensures Reachable(start, Taken(start, data, Committing, Pipe(Some(EOF), None), map[0 := Joining]))
  {
    ClosingHappens(start, data);
    ReachableStep(start, Taken(start, data, Reading, start.pipe, map[0 := Closing]), ClosePipe(0));
    assert map[0 := Closing][0 := Joining] == map[0 := Joining];
    var ended := Pipe(Some(EOF), None);
    ReachableStep(start, Taken(start, data, Reading, ended, map[0 := Joining]), ReadEnds);
    ReachableStep(start, Taken(start, data, SawEOF, ended, map[0 := Joining]), CheckContext);
  }

  lemma CommitHappens(start: State, data: seq<Byte>) returns (s: State)
    requires Acceptable(start)
    ensures Reachable(start, s) && s.consumer == ReadClosed(Ok(())) && CloseIn(s, 0, Joining)
    ensures s.published == Some(data) && s.path.value in s.store && s.store[s.path.value].content == data
  {
    EndedHappens(start, data);
    s := Taken(start, data, Committing, Pipe(Some(EOF), None), map[0 := Joining]);
    ReachableStep(start, s, Commit(0));
    s := Apply(s, Commit(0));
    ReachableStep(start, s, CloseRead);
    s := Apply(s, CloseRead);
  }

  /** For every path, store and data there is a run in which Close returns nil and the object holds the data. */
  lemma PublicationHappens(start: State, data: seq<Byte>) returns (s: State)
    requires Acceptable(start)
    ensures Reachable(start, s)
    ensures 0 in s.closers && s.closers[0] == CloseReturned(Ok(()))
    ensures s.published == Some(data) && s.path.value in s.store && s.store[s.path.value].content == data
  {
    s := CommitHappens(start, data);
    ReachableStep(start, s, Deliver);
    s := Apply(s, Deliver);
    ReachableStep(start, s, Join(0));
    s := Apply(s, Join(0));
  }
}
