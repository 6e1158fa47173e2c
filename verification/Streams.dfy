/**
  Readers with a byte cursor: the fault-injecting reader (fstest/fault.go) and the size-bounded reader
  (integration/tabular-ingestion/composition.go). The wrapped reader is a fixed content behind a
  cursor; how much it hands out per call, and when it fails, is a parameter of every call.
 */
module Streams {
  import opened Common

  type Bytes = seq<Byte>

  datatype Fault = EndOfInput | Broken | Injected | TooLarge | ContextDone

  /** How the wrapped reader answers one call: at most `count` bytes, and perhaps an early end or a failure. */
  datatype Answer = Answer(count: nat, endsEarly: bool, fails: bool)

  class Source {
    const content: Bytes
    var position: nat

    ghost predicate Valid() reads this { position <= |content| }

    constructor (content: Bytes)
      ensures Valid() && this.content == content && position == 0
    {
      this.content, position := content, 0;
    }

    /** An io.Reader on the first `limit` bytes of `buffer`: the end is reported with the last bytes or after them. */
    method Read(buffer: array<Byte>, limit: nat, answer: Answer) returns (count: nat, err: Option<Fault>)
      requires Valid() && limit <= buffer.Length
      modifies this`position, buffer
      ensures Valid() && count == Min(answer.count, Min(limit, |content| - old(position)))
      ensures position == old(position) + count
      ensures forall k :: 0 <= k < count ==> buffer[k] == content[old(position) + k]
      ensures forall k :: count <= k < buffer.Length ==> buffer[k] == old(buffer[k])
      ensures err == Some(Broken) <==> answer.fails
      ensures err.Some? ==> err.value.Broken? || (err.value.EndOfInput? && position == |content|)
      ensures limit > 0 && old(position) == |content| ==> err.Some?
    {
      count := Min(answer.count, Min(limit, |content| - position));
      forall i | 0 <= i < count {
        buffer[i] := content[position + i];
      }
      var exhausted := position + count == |content|;
      err := if answer.fails then Some(Broken)
             else if exhausted && (answer.endsEarly || (count == 0 && limit > 0)) then Some(EndOfInput)
             else None;
      position := position + count;
    }
  }

  // ---- injected faults ----

  function Inverted(b: Byte): Byte { 255 - b }

  /** The content with the bytes at the given offsets inverted. */
  function Corrupted(content: Bytes, offsets: set<nat>): (r: Bytes)
    ensures |r| == |content|
    ensures forall i :: 0 <= i < |content| ==> r[i] == if i in offsets then Inverted(content[i]) else content[i]
  {
    seq(|content|, i requires 0 <= i < |content| => if i in offsets then Inverted(content[i]) else content[i])
  }

  /** Inverts, in place, the bytes whose absolute offset is marked. */
  method Corrupt(buffer: array<Byte>, count: nat, start: nat, offsets: set<nat>)
    requires count <= buffer.Length
    modifies buffer
    ensures forall k :: 0 <= k < count ==>
              buffer[k] == if start + k in offsets then Inverted(old(buffer[k])) else old(buffer[k])
    ensures forall k :: count <= k < buffer.Length ==> buffer[k] == old(buffer[k])
  {
    var index := 0;
    while index < count
      invariant index <= count
      invariant forall k :: 0 <= k < index ==>
                  buffer[k] == if start + k in offsets then Inverted(old(buffer[k])) else old(buffer[k])
      invariant forall k :: index <= k < buffer.Length ==> buffer[k] == old(buffer[k])
    {
      if start + index in offsets {
        buffer[index] := Inverted(buffer[index]);
      }
      index := index + 1;
    }
  }

  /** Corrupting a chunk where it lies is cutting it out of the corrupted content. */
  lemma SliceCorrupted(content: Bytes, offsets: set<nat>, start: nat, raw: Bytes, chunk: Bytes)
    requires start + |raw| <= |content| && raw == content[start..start + |raw|] && |chunk| == |raw|
    requires forall k :: 0 <= k < |raw| ==> chunk[k] == if start + k in offsets then Inverted(raw[k]) else raw[k]
    ensures chunk == Corrupted(content, offsets)[start..start + |raw|]
  {}

  class FaultReader {
    const reader: Source
    const maxChunk: int
    const failAfter: int
    const offsets: set<nat>
    var consumed: nat

    ghost predicate Valid() reads this, reader {
      reader.Valid() && consumed == reader.position && (failAfter >= 0 ==> consumed <= failAfter)
    }

    constructor (reader: Source, maxChunk: int, failAfter: int, corruptOffsets: seq<int>)
      requires reader.Valid() && reader.position == 0
      ensures Valid() && this.reader == reader && this.maxChunk == maxChunk && this.failAfter == failAfter
      ensures consumed == 0 && offsets == set k | k in corruptOffsets && k >= 0
    {
      this.reader, this.maxChunk, this.failAfter, consumed := reader, maxChunk, failAfter, 0;
      offsets := set k | k in corruptOffsets && k >= 0;
    }

    ghost predicate Exhausted() reads this { failAfter >= 0 && consumed >= failAfter }

    /** How much of a buffer a read may fill. */
    ghost function Room(size: nat): int reads this {
      var chunk := if maxChunk > 0 then Min(size, maxChunk) else size;
      if failAfter >= 0 then Min(chunk, failAfter - consumed) else chunk
    }

    /** One read of the wrapped reader, corrupted in place. */
    method ReadChunk(buffer: array<Byte>, limit: nat, answer: Answer) returns (count: nat, err: Option<Fault>)
      requires Valid() && limit <= buffer.Length && (failAfter >= 0 ==> consumed + limit <= failAfter)
      modifies this`consumed, reader`position, buffer
      ensures Valid() && consumed == old(consumed) + count
      ensures count == Min(answer.count, Min(limit, |reader.content| - old(consumed)))
      ensures buffer[..count] == Corrupted(reader.content, offsets)[old(consumed)..consumed]
      ensures err == Some(Broken) <==> answer.fails
      ensures err.Some? ==> err.value.Broken? || (err.value.EndOfInput? && consumed == |reader.content|)
      ensures limit > 0 && old(consumed) == |reader.content| ==> err.Some?
    {
      var start := consumed;
      count, err := reader.Read(buffer, limit, answer);
      ghost var raw := buffer[..count];
      assert raw == reader.content[start..start + count];
      Corrupt(buffer, count, start, offsets);
      SliceCorrupted(reader.content, offsets, start, raw, buffer[..count]);
      consumed := consumed + count;
    }

    /**
      Hands out the next bytes of the corrupted content, never past the failure point. The injected error
      comes exactly when that point is reached, together with the last bytes before it.
     */
    method Read(buffer: array<Byte>, answer: Answer) returns (count: nat, err: Option<Fault>)
      requires Valid()
      modifies this`consumed, reader`position, buffer
      ensures Valid() && consumed == old(consumed) + count && count <= buffer.Length
      ensures buffer[..count] == Corrupted(reader.content, offsets)[old(consumed)..consumed]
      ensures count == Min(answer.count, Min(old(Room(buffer.Length)), |reader.content| - old(consumed)))
      ensures err == Some(Injected) <==> Exhausted()
      ensures !Exhausted() ==> (err == Some(Broken) <==> answer.fails)
      ensures err == Some(EndOfInput) ==> consumed == |reader.content|
      ensures buffer.Length > 0 && old(consumed) == |reader.content| ==> err.Some?
      ensures err.Some? ==> err.value in {Injected, Broken, EndOfInput}
    {
      if failAfter >= 0 && consumed >= failAfter {
        return 0, Some(Injected);
      }
      var limit := buffer.Length;
      if maxChunk > 0 && limit > maxChunk {
        limit := maxChunk;
      }
      if failAfter >= 0 && limit > failAfter - consumed {
        limit := failAfter - consumed;
      }
      assert limit == Room(buffer.Length);
      count, err := ReadChunk(buffer, limit, answer);
      if failAfter >= 0 && consumed >= failAfter {
        err := Some(Injected);
      }
    }

    /** A read into a buffer of its own. */
    method ReadInto(size: nat, answer: Answer) returns (chunk: Bytes, err: Option<Fault>)
      requires Valid()
      modifies this`consumed, reader`position
      ensures Valid() && consumed == old(consumed) + |chunk|
      ensures chunk == Corrupted(reader.content, offsets)[old(consumed)..consumed]
      ensures |chunk| == Min(answer.count, Min(old(Room(size)), |reader.content| - old(consumed)))
      ensures err == Some(Injected) <==> Exhausted()
      ensures !Exhausted() ==> (err == Some(Broken) <==> answer.fails)
      ensures err == Some(EndOfInput) ==> consumed == |reader.content|
      ensures size > 0 && old(consumed) == |reader.content| ==> err.Some?
      ensures err.Some? ==> err.value in {Injected, Broken, EndOfInput}
    {
      var buffer := new Byte[size];
      var count;
      count, err := Read(buffer, answer);
      chunk := buffer[..count];
    }
  }

  /** One call by the consumer: the size of its buffer, how the wrapped reader answers, whether the context lives. */
  datatype Call = Call(size: nat, answer: Answer, live: bool)

  lemma Extend(whole: Bytes, delivered: Bytes, chunk: Bytes)
    requires delivered <= whole && |delivered| + |chunk| <= |whole|
    requires chunk == whole[|delivered|..|delivered| + |chunk|]
    ensures delivered + chunk <= whole
  {}

  /** A consumer that goes on reading from a reader that keeps answering. */
  ghost predicate Willing(calls: seq<Call>) { forall k :: 0 <= k < |calls| ==> WillingCall(calls[k]) }

  ghost predicate WillingCall(call: Call) {
    call.size > 0 && call.answer.count > 0 && !call.answer.fails && call.live
  }

  /**
    Any sequence of reads delivers a prefix of one and the same corrupted content, whatever the buffer
    sizes and the answers of the wrapped reader, and the injected error marks exactly its first
    `failAfter` bytes.
   */
  method ReadWithFaults(content: Bytes, maxChunk: int, failAfter: int, corruptOffsets: seq<int>, calls: seq<Call>)
    returns (delivered: Bytes, err: Option<Fault>)
    ensures delivered <= Corrupted(content, set k | k in corruptOffsets && k >= 0)
    ensures failAfter >= 0 ==> |delivered| <= failAfter
    ensures err == Some(Injected) ==> |delivered| == failAfter
    ensures err == Some(EndOfInput) ==> |delivered| == |content|
    ensures Willing(calls) && |calls| > |content| ==>
              err == Some(if 0 <= failAfter <= |content| then Injected else EndOfInput)
  {
    var source := new Source(content);
    var reader := new FaultReader(source, maxChunk, failAfter, corruptOffsets);
    ghost var whole := Corrupted(content, reader.offsets);
    delivered, err := [], None;
    var i := 0;
    while i < |calls| && err.None?
      invariant i <= |calls| && reader.Valid()
      invariant |delivered| == reader.consumed <= |content| && delivered <= whole
      invariant err == Some(Injected) ==> reader.Exhausted()
      invariant err == Some(EndOfInput) ==> reader.consumed == |content| && !reader.Exhausted()
      invariant Willing(calls) ==> if err.None? then i <= |delivered| else err.value in {Injected, EndOfInput}
    {
      assert Willing(calls) ==> WillingCall(calls[i]);
      var chunk;
      chunk, err := reader.ReadInto(calls[i].size, calls[i].answer);
      Extend(whole, delivered, chunk);
      delivered := delivered + chunk;
      i := i + 1;
    }
  }

  // ---- bounded reads ----

  class BoundedReader {
    const source: Source
    ghost const limit: nat
    var remaining: nat

    ghost predicate Valid() reads this, source {
      source.Valid() && remaining == if source.position <= limit then limit - source.position else 0
    }

    constructor (source: Source, limit: nat)
      requires source.Valid() && source.position == 0
      ensures Valid() && this.source == source && this.limit == limit
    {
      this.source, this.limit, remaining := source, limit, limit;
    }

    /** Hands out bytes within the limit; at the limit, one probing byte tells a full object from one too large. */
    method Read(buffer: array<Byte>, answer: Answer, live: bool) returns (count: nat, err: Option<Fault>)
      requires Valid()
      modifies this`remaining, source`position, buffer
      ensures Valid() && count <= buffer.Length && count <= old(remaining) && remaining == old(remaining) - count
      ensures old(source.position) + count <= source.position
      ensures buffer[..count] == source.content[old(source.position)..old(source.position) + count]
      ensures err != Some(TooLarge) ==> source.position == old(source.position) + count
      ensures live && old(remaining) > 0 ==>
                count == Min(answer.count,
                             Min(Min(buffer.Length, old(remaining)), |source.content| - old(source.position)))
      ensures err == Some(TooLarge) <==>
                live && old(remaining) == 0 && answer.count > 0 && old(source.position) < |source.content|
      ensures err == Some(ContextDone) <==> !live
      ensures err == Some(EndOfInput) ==> source.position == |source.content|
      ensures err == Some(Broken) ==> answer.fails
      ensures live && buffer.Length > 0 && old(source.position) == |source.content| ==> err.Some?
      ensures err.Some? ==> err.value != Injected
    {
      if !live {
        return 0, Some(ContextDone);
      }
      if remaining == 0 {
        var probe := new Byte[1];
        var probed;
        probed, err := source.Read(probe, 1, answer);
        count := 0;
        if probed > 0 {
          err := Some(TooLarge);
        }
        return;
      }
      var size := if buffer.Length > remaining then remaining else buffer.Length;
      count, err := source.Read(buffer, size, answer);
      assert buffer[..count] == source.content[old(source.position)..source.position];
      remaining := remaining - count;
    }
  }

  /**
    Whatever the buffer sizes and answers, a bounded read delivers a prefix of the object within the
    limit. It ends cleanly only with the whole object, and reports one too large only after exactly
    the first `limit` bytes of a longer object.
   */
  method ReadBounded(content: Bytes, limit: nat, calls: seq<Call>) returns (delivered: Bytes, err: Option<Fault>)
    ensures delivered <= content && |delivered| <= limit
    ensures err == Some(EndOfInput) ==> delivered == content
    ensures err == Some(TooLarge) ==> |content| > limit && delivered == content[..limit]
    ensures Willing(calls) && |calls| > |content| ==>
              err == Some(if |content| <= limit then EndOfInput else TooLarge)
  {
    var source := new Source(content);
    var reader := new BoundedReader(source, limit);
    delivered, err := [], None;
    var i := 0;
    while i < |calls| && err.None?
      invariant i <= |calls| && reader.Valid()
      invariant |delivered| == limit - reader.remaining && delivered <= content
      invariant err != Some(TooLarge) ==> source.position == |delivered|
      invariant err == Some(TooLarge) ==> reader.remaining == 0 && |delivered| < |content|
      invariant err == Some(EndOfInput) ==> |delivered| == |content|
      invariant Willing(calls) ==> if err.None? then i <= |delivered| else err.value in {TooLarge, EndOfInput}
    {
      var buffer := new Byte[calls[i].size];
      assert Willing(calls) ==> WillingCall(calls[i]);
      var count;
      count, err := reader.Read(buffer, calls[i].answer, calls[i].live);
      Extend(content, delivered, buffer[..count]);
      delivered := delivered + buffer[..count];
      i := i + 1;
    }
  }
}
