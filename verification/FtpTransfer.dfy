/**
  The goroutine behind an FTP read stream (ftp/ftp.go, `readStream.transfer` and `countingWriter`).
  What the network and the reader do is given as parameters: the chunks and the result of each
  Retrieve, the result of the reconnect, whether the context is live each time it is asked, and how
  many bytes the reader takes before it closes its end of the pipe.
 */
module FtpTransfer {
  import opened Common
  import opened Text

  /** Errors as the classifiers see them: sentinels, a wrapped error, or two joined errors. */
  datatype Fault =
    | EndOfFile
    | UnexpectedEnd
    | NetClosed
    | NetOperation
    | Protocol(code: int)
    | ContextDone
    | OtherFault
    | Wrapped(inner: Fault)
    | Joined(left: Fault, right: Fault)

  /** The error and everything it wraps, in the order errors.Is and errors.As visit them. */
  function Members(f: Fault): seq<Fault> {
    [f] +
    match f {
      case Wrapped(inner) => Members(inner)
      case Joined(left, right) => Members(left) + Members(right)
      case _ => []
    }
  }

  /** The code of the first protocol error among `members`. */
  function FirstCode(members: seq<Fault>): Option<int> {
    if members == [] then None
    else if members[0].Protocol? then Some(members[0].code)
    else FirstCode(members[1..])
  }

  predicate HasTransportFault(f: Fault) {
    EndOfFile in Members(f) || UnexpectedEnd in Members(f) || NetClosed in Members(f) || NetOperation in Members(f)
  }

  /** A lost transport: the codes are the transient ones of section 4.2 of RFC 959. */
  predicate IsConnectionError(f: Fault) {
    HasTransportFault(f) || FirstCode(Members(f)) in {Some(421), Some(425), Some(426)}
  }

  lemma {:induction false} FirstCodeOf(a: seq<Fault>, b: seq<Fault>)
    ensures FirstCode(a + b) == if FirstCode(a).Some? then FirstCode(a) else FirstCode(b)
  {
    if a == [] {
      assert a + b == b;
    } else {
      assert (a + b)[0] == a[0] && (a + b)[1..] == a[1..] + b;
      FirstCodeOf(a[1..], b);
    }
  }

  /**
    Wrapping does not hide a lost transport, of the reply codes exactly three mean one, and an error joined
    behind another counts unless it is only such a code and the first has a reply code of its own.
   */
  lemma ClassOfErrors(f: Fault, g: Fault, code: int)
    ensures IsConnectionError(Wrapped(f)) <==> IsConnectionError(f)
    ensures IsConnectionError(Protocol(code)) <==> code == 421 || code == 425 || code == 426
    ensures IsConnectionError(Joined(f, g)) <==>
            || IsConnectionError(f) || HasTransportFault(g)
            || (IsConnectionError(g) && FirstCode(Members(f)).None?)
  {
    WrappedError(f);
    JoinedErrors(f, g);
    PlainErrors(Protocol(code));
    JoinedClass(f, g);
  }

  lemma JoinedClass(f: Fault, g: Fault)
    ensures IsConnectionError(Joined(f, g)) <==>
            || IsConnectionError(f) || HasTransportFault(g)
            || (IsConnectionError(g) && FirstCode(Members(f)).None?)
  {
    JoinedErrors(f, g);
  }

  /** Of the plain errors the four transport sentinels and the three codes mean a lost transport, and no other. */
  lemma PlainErrors(f: Fault)
    requires !f.Wrapped? && !f.Joined?
    ensures IsConnectionError(f) <==>
            match f {
              case EndOfFile => true
              case UnexpectedEnd => true
              case NetClosed => true
              case NetOperation => true
              case Protocol(code) => code == 421 || code == 425 || code == 426
              case _ => false
            }
    ensures HasTransportFault(f) <==> IsConnectionError(f) && !f.Protocol?
  {
    assert Members(f) == [f];
  }

  lemma WrappedError(f: Fault)
    ensures HasTransportFault(Wrapped(f)) <==> HasTransportFault(f)
    ensures FirstCode(Members(Wrapped(f))) == FirstCode(Members(f))
  {
    FirstCodeOf([Wrapped(f)], Members(f));
  }

  lemma JoinedErrors(f: Fault, g: Fault)
    ensures HasTransportFault(Joined(f, g)) <==> HasTransportFault(f) || HasTransportFault(g)
    ensures FirstCode(Members(Joined(f, g))) ==
            if FirstCode(Members(f)).Some? then FirstCode(Members(f)) else FirstCode(Members(g))
  {
    FirstCodeOf([Joined(f, g)], Members(f) + Members(g));
    FirstCodeOf(Members(f), Members(g));
  }

  type Bytes = seq<Byte>

  /** One Retrieve: the chunks it hands to its writer, and its error if it fails. */
  datatype Attempt = Attempt(chunks: seq<Bytes>, failure: Option<Fault>)

  /** What a reconnect gave: a session with its Retrieve, or its error. */
  datatype Reconnect = Session(second: Attempt) | NoSession(fault: Fault)

  function Concat(chunks: seq<Bytes>): Bytes {
    if chunks == [] then [] else Concat(chunks[..|chunks| - 1]) + chunks[|chunks| - 1]
  }

  function Output(a: Attempt): Bytes { Concat(a.chunks) }

  /** The counting writer on top of the pipe whose reader takes `room` more bytes. */
  class CountingWriter {
    var wroteAny: bool
    var room: nat
    var delivered: Bytes

    constructor (room: nat)
      ensures !wroteAny && this.room == room && delivered == []
    {
      wroteAny, this.room, delivered := false, room, [];
    }

    method Write(buffer: Bytes) returns (written: nat, ok: bool)
      modifies this
      ensures written == if |buffer| <= old(room) then |buffer| else old(room)
      ensures ok <==> written == |buffer|
      ensures room == old(room) - written && delivered == old(delivered) + buffer[..written]
      ensures wroteAny <==> old(wroteAny) || written > 0
    {
      written := if |buffer| <= room then |buffer| else room;
      ok := written == |buffer|;
      room := room - written;
      delivered := delivered + buffer[..written];
      wroteAny := wroteAny || written > 0;
    }
  }

  /** However Retrieve cuts its output, a fresh reader gets the longest part it still takes. */
  method Retrieve(attempt: Attempt, writer: CountingWriter) returns (failure: Option<Fault>)
    requires writer.delivered == [] && !writer.wroteAny
    modifies writer
    ensures failure == attempt.failure
    ensures writer.delivered == AtMost(Output(attempt), old(writer.room))
    ensures writer.room == old(writer.room) - |writer.delivered|
    ensures writer.wroteAny <==> writer.delivered != []
  {
    var i := 0;
    while i < |attempt.chunks|
      invariant i <= |attempt.chunks|
      invariant writer.delivered == AtMost(Concat(attempt.chunks[..i]), old(writer.room))
      invariant writer.room == old(writer.room) - |writer.delivered|
      invariant writer.wroteAny <==> writer.delivered != []
    {
      assert attempt.chunks[..i + 1][..i] == attempt.chunks[..i];
      var _, _ := writer.Write(attempt.chunks[i]);
      i := i + 1;
    }
    assert attempt.chunks[..i] == attempt.chunks;
    failure := attempt.failure;
  }

  /** The reader sees a clean end of file for a nil error and for a bare io.EOF. */
  predicate CleanEnd(failure: Option<Fault>) { failure.None? || failure.value.EndOfFile? }

  /** Whether a first Retrieve that ended this way may be replayed. */
  predicate Replayable(first: Attempt, room: nat, live: bool) {
    first.failure.Some? && IsConnectionError(first.failure.value) && live &&
    (Output(first) == [] || room == 0)
  }

  /**
    The body of the transfer goroutine. `reconnect` is the second Retrieve, or the error of the new
    session. The context may end at any time and then stays ended. The result is the error the pipe is
    closed with, and the number of Retrieves.
   */
  method Transfer(first: Attempt, reconnect: Reconnect, room: nat, live: bool, liveAtEnd: bool)
    returns (failure: Option<Fault>, attempts: nat, delivered: Bytes)
    requires liveAtEnd ==> live
    ensures attempts == if Replayable(first, room, live) && reconnect.Session? then 2 else 1
    ensures delivered == AtMost(Output(if attempts == 2 then reconnect.second else first), room)
    ensures attempts == 2 ==> AtMost(Output(first), room) == []
    ensures CleanEnd(failure) <==>
              liveAtEnd && !(Replayable(first, room, live) && reconnect.NoSession?) &&
              CleanEnd(if attempts == 2 then reconnect.second.failure else first.failure)
    ensures failure == if !liveAtEnd then Some(ContextDone)
                       else if attempts == 2 then reconnect.second.failure
                       else if Replayable(first, room, live) then Some(Joined(first.failure.value, reconnect.fault))
                       else first.failure
  {
    var writer := new CountingWriter(room);
    failure := Retrieve(first, writer);
    attempts := 1;
    if failure.Some? && IsConnectionError(failure.value) && !writer.wroteAny && live {
      match reconnect {
        case Session(second) =>
          failure := Retrieve(second, writer);
          attempts := 2;
        case NoSession(fault) => failure := Some(Joined(failure.value, fault));
      }
    }
    if !liveAtEnd {
      failure := Some(ContextDone);
    }
    delivered := writer.delivered;
  }

  /**
    A stream that ends cleanly for a reader that read on to the end holds the whole output of one
    successful Retrieve, provided no failing Retrieve returns a bare io.EOF.
   */
  method ReadAll(first: Attempt, reconnect: Reconnect, room: nat, live: bool, liveAtEnd: bool)
    returns (content: Option<Bytes>)
    requires liveAtEnd ==> live
    requires room >= |Output(first)| && (reconnect.Session? ==> room >= |Output(reconnect.second)|)
    ensures first.failure != Some(EndOfFile) && (reconnect.Session? ==> reconnect.second.failure != Some(EndOfFile)) ==>
              match content {
                case Some(bytes) =>
                  && liveAtEnd
                  && (|| (first.failure.None? && bytes == Output(first))
                      || (reconnect.Session? && reconnect.second.failure.None? && bytes == Output(reconnect.second)))
                case None =>
                  && (liveAtEnd ==> first.failure.Some?)
                  && (liveAtEnd && Replayable(first, room, live) && reconnect.Session? ==>
                        reconnect.second.failure.Some?)
              }
  {
    var failure, attempts, delivered := Transfer(first, reconnect, room, live, liveAtEnd);
    content := if CleanEnd(failure) then Some(delivered) else None;
  }

  /** A Retrieve cut short with a bare io.EOF after some bytes looks like a complete, shorter file. */
  method BareEndLooksComplete(sent: Bytes) returns (failure: Option<Fault>, delivered: Bytes)
    requires sent != []
    ensures CleanEnd(failure) && delivered == sent
  {
    var cut := Attempt([sent], Some(EndOfFile));
    assert Concat([sent]) == sent by { assert [sent][..0] == []; }
    var attempts;
    failure, attempts, delivered := Transfer(cut, NoSession(OtherFault), |sent|, true, true);
  }
}
