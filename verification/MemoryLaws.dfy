/**
  Laws between the calls of the in-memory adapter (memory/memory.go), stated on answers only: what a later Open,
  OpenRange, Stat, GetVisibility or List answers after an operation, in terms of what was answered before it.
 */
module MemoryLaws {
  import opened Common
  import opened Paths
  import opened Listing
  import opened Memory

  // ---- what is answered about one path ----

  function OpenAt(store: Store, p: Path): Response { Answer(store, true, 0, Open(p)) }

  function StatAt(store: Store, p: Path): Response { Answer(store, true, 0, Stat(p)) }

  function VisibilityAt(store: Store, p: Path): Response { Answer(store, true, 0, GetVisibility(p)) }

  function RangeAt(store: Store, p: Path, offset: int, length: int): Response {
    Answer(store, true, 0, OpenRange(p, offset, length))
  }

  /** Something is stored at `p`, by the answer of Open. */
  predicate Exists(store: Store, p: Path) { OpenAt(store, p).Bytes? }

  /** Everything answered about `p` is the same in both stores. */
  ghost predicate SameAt(before: Store, after: Store, p: Path)
  {
    && OpenAt(after, p) == OpenAt(before, p) && StatAt(after, p) == StatAt(before, p)
    && VisibilityAt(after, p) == VisibilityAt(before, p)
    && forall offset, length :: RangeAt(after, p, offset, length) == RangeAt(before, p, offset, length)
  }

  ghost predicate SameElsewhere(before: Store, after: Store, p: Path)
  {
    forall q: Path :: q != p ==> SameAt(before, after, q)
  }

  /** Nothing is answered about `p` but that it is not there. */
  ghost predicate GoneAt(store: Store, p: Path)
  {
    OpenAt(store, p) == StatAt(store, p) == VisibilityAt(store, p) == Failure(NotFound)
  }

  /** The answers about a path are those about the object under its key. */
  lemma KeyDecides(before: Store, after: Store, p: Path)
    requires p.value in before <==> p.value in after
    requires p.value in before ==> before[p.value] == after[p.value]
    ensures SameAt(before, after, p)
  {}

  lemma OthersKept(before: Store, after: Store, p: Path)
    requires forall key :: key != p.value ==> (key in before <==> key in after)
    requires forall key :: key != p.value && key in before ==> before[key] == after[key]
    ensures SameElsewhere(before, after, p)
  {
    forall q: Path | q != p ensures SameAt(before, after, q) { KeyDecides(before, after, q); }
  }

  lemma ObjectAnswers(store: Store, p: Path)
    ensures Exists(store, p) <==> p.value in store
    ensures if p.value in store
            then && OpenAt(store, p) == Bytes(store[p.value].content)
                 && StatAt(store, p) == Described(Describe(p, store[p.value]))
                 && VisibilityAt(store, p) == VisibilityIs(store[p.value].visibility)
            else GoneAt(store, p)
  {}

  /** Open, Stat and GetVisibility answer about one object: its bytes, their number, and one visibility. */
  lemma AnswersFit(store: Store, p: Path)
    ensures if Exists(store, p)
            then && StatAt(store, p).Described? && StatAt(store, p).metadata.path == p
                 && StatAt(store, p).metadata.kind == FileKind
                 && StatAt(store, p).metadata.size == |OpenAt(store, p).content|
                 && VisibilityAt(store, p) == VisibilityIs(StatAt(store, p).metadata.visibility)
            else GoneAt(store, p)
  {}

  /** A range is that slice of what Open answers, cut at the end; refused unless it starts inside and is not empty. */
  lemma RangeIsSlice(store: Store, p: Path, offset: int, length: int)
    ensures RangeAt(store, p, offset, length) ==
            if offset < 0 || length <= 0 then Failure(InvalidRange)
            else match OpenAt(store, p) {
                   case Bytes(content) =>
                     if offset >= |content| then Failure(InvalidRange)
                     else if offset + length <= |content| then Bytes(content[offset..offset + length])
                     else Bytes(content[offset..])
                   case other => other
                 }
  {}

  /** A refused operation, a canceled one included, changes no answer. */
  lemma RefusedChangesNothing(store: Store, live: bool, now: Time, op: Op, p: Path)
    requires op.List? || Answer(store, live, now, op).Failure?
    ensures SameAt(store, Effect(store, live, now, op), p)
  {}

  lemma ReadsChangeNothing(store: Store, live: bool, now: Time, op: Op, p: Path)
    requires op.Open? || op.OpenRange? || op.Stat? || op.List? || op.GetVisibility?
    ensures SameAt(store, Effect(store, live, now, op), p)
  {}

  // ---- what each operation brings about ----

  /** What is written is what is opened, described as given, Private unless asked otherwise. */
  lemma WriteThenRead(store: Store, now: Time, p: Path, data: seq<Byte>, options: WriteOptions)
    ensures var op := Op.Write(p, Ok(data), options);
            var answer, after := Answer(store, true, now, op), Effect(store, true, now, op);
            if p.IsRoot() then answer == Failure(InvalidPath)
            else if options.visibility == Unknown then answer == Failure(InvalidArgument)
            else if options.ifNoneMatch && Exists(store, p) then answer == Failure(PreconditionFailed)
            else
              var visibility := if options.visibility == Requested(Public) then Public else Private;
              && answer == Described(
                   Metadata(p, FileKind, |data|, now, options.contentType, options.metadata, visibility))
              && OpenAt(after, p) == Bytes(data) && StatAt(after, p) == answer
              && VisibilityAt(after, p) == VisibilityIs(visibility) && SameElsewhere(store, after, p)
  {
    UnsetIsPrivate(options.visibility);
    ObjectAnswers(store, p);
    var after := Effect(store, true, now, Op.Write(p, Ok(data), options));
    ObjectAnswers(after, p);
    OthersKept(store, after, p);
  }

  lemma UnsetIsPrivate(v: VisibilityOption)
    ensures NormalizeVisibility(v) ==
            if v == Unknown then Err(InvalidArgument) else Ok(if v == Requested(Public) then Public else Private)
  {
    assert v.Requested? ==> v.visibility == Public || v.visibility == Private;
  }

  /** A source that fails makes Write answer that error. */
  lemma WriteOfBrokenSource(store: Store, live: bool, now: Time, p: Path, e: Error, options: WriteOptions)
    ensures Answer(store, live, now, Op.Write(p, Err(e), options)) ==
            Failure(if p.IsRoot() then InvalidPath else if options.visibility == Unknown then InvalidArgument else e)
  {}

  /** After Delete nothing is there, and everything else is as it was. */
  lemma DeleteThenRead(store: Store, now: Time, p: Path)
    ensures var answer, after := Answer(store, true, now, Delete(p)), Effect(store, true, now, Delete(p));
            if !Exists(store, p) then answer == Failure(NotFound)
            else answer == Done && GoneAt(after, p) && SameElsewhere(store, after, p)
  {
    var after := Effect(store, true, now, Delete(p));
    ObjectAnswers(store, p);
    ObjectAnswers(after, p);
    OthersKept(store, after, p);
  }

  /** `q` now answers what `p` answered before, but for its path and the time of the call. */
  ghost predicate TakesOver(before: Store, p: Path, after: Store, q: Path, now: Time)
  {
    && StatAt(before, p).Described? && OpenAt(after, q) == OpenAt(before, p)
    && StatAt(after, q) == Described(StatAt(before, p).metadata.(path := q, modified := now))
    && VisibilityAt(after, q) == VisibilityAt(before, p)
  }

  lemma CopyThenRead(store: Store, now: Time, p: Path, q: Path, overwrite: bool)
    ensures var op := Copy(p, q, overwrite);
            var answer, after := Answer(store, true, now, op), Effect(store, true, now, op);
            if !Exists(store, p) then answer == Failure(NotFound)
            else if Exists(store, q) && !overwrite then answer == Failure(AlreadyExists)
            else answer == Done && TakesOver(store, p, after, q, now) && SameElsewhere(store, after, q)
  {
    var after := Effect(store, true, now, Copy(p, q, overwrite));
    ObjectAnswers(store, p);
    ObjectAnswers(store, q);
    ObjectAnswers(after, q);
    OthersKept(store, after, q);
  }

  /** Move takes the object along and leaves nothing behind; a move onto itself changes nothing. */
  lemma MoveThenRead(store: Store, now: Time, p: Path, q: Path, overwrite: bool)
    ensures var op := Move(p, q, overwrite);
            var answer, after := Answer(store, true, now, op), Effect(store, true, now, op);
            if !Exists(store, p) then answer == Failure(NotFound)
            else if Exists(store, q) && !overwrite then answer == Failure(AlreadyExists)
            else
              && answer == Done
              && if p == q then forall r :: SameAt(store, after, r)
                 else && TakesOver(store, p, after, q, now) && GoneAt(after, p)
                      && forall r :: r != p && r != q ==> SameAt(store, after, r)
  {
    var after := Effect(store, true, now, Move(p, q, overwrite));
    ObjectAnswers(store, p);
    ObjectAnswers(store, q);
    ObjectAnswers(after, p);
    ObjectAnswers(after, q);
    forall r | (r != p && r != q) || p == q ensures SameAt(store, after, r) { KeyDecides(store, after, r); }
  }

  lemma SetMetadataThenRead(store: Store, now: Time, p: Path, metadata: map<string, string>)
    ensures var op := SetMetadata(p, metadata);
            var answer, after := Answer(store, true, now, op), Effect(store, true, now, op);
            if !Exists(store, p) then answer == Failure(NotFound)
            else
              && answer == Done && SameElsewhere(store, after, p)
              && OpenAt(after, p) == OpenAt(store, p) && VisibilityAt(after, p) == VisibilityAt(store, p)
              && StatAt(store, p).Described?
              && StatAt(after, p) == Described(StatAt(store, p).metadata.(metadata := metadata, modified := now))
  {
    var after := Effect(store, true, now, SetMetadata(p, metadata));
    ObjectAnswers(store, p);
    ObjectAnswers(after, p);
    OthersKept(store, after, p);
  }

  lemma SetVisibilityThenRead(store: Store, now: Time, p: Path, requested: VisibilityOption)
    ensures var op := SetVisibility(p, requested);
            var answer, after := Answer(store, true, now, op), Effect(store, true, now, op);
            if requested == Unknown then answer == Failure(InvalidArgument)
            else if !Exists(store, p) then answer == Failure(NotFound)
            else
              var visibility := if requested == Requested(Public) then Public else Private;
              && answer == Done && SameElsewhere(store, after, p)
              && OpenAt(after, p) == OpenAt(store, p) && VisibilityAt(after, p) == VisibilityIs(visibility)
              && StatAt(store, p).Described?
              && StatAt(after, p) == Described(StatAt(store, p).metadata.(visibility := visibility, modified := now))
  {
    UnsetIsPrivate(requested);
    var after := Effect(store, true, now, SetVisibility(p, requested));
    ObjectAnswers(store, p);
    ObjectAnswers(after, p);
    OthersKept(store, after, p);
  }

  /** With its context canceled an operation answers Canceled, unless its arguments are refused before that. */
  lemma CanceledAnswers(store: Store, now: Time, op: Op)
    requires !op.List?
    ensures Answer(store, false, now, op) ==
            match op {
              case OpenRange(_, offset, length) =>
                Failure(if offset < 0 || length <= 0 then InvalidRange else Canceled)
              case SetVisibility(_, v) => Failure(if v == Unknown then InvalidArgument else Canceled)
              case Write(p, source, options) =>
                Failure(if p.IsRoot() then InvalidPath else if options.visibility == Unknown then InvalidArgument
                        else if source.Err? then source.error else Canceled)
              case _ => Failure(Canceled)
            }
  {}

  // ---- listings agree with Stat ----

  /** Some stored path is strictly below `p`. */
  ghost predicate HasBelow(store: Store, p: Path)
  {
    exists q :: Exists(store, q) && ListPrefix(p) <= q.value && q.value != ""
  }

  /** An entry is a stored object with its size and time, or the parent of stored objects. */
  ghost predicate AgreesWithStat(store: Store, recursive: bool, e: Entry)
  {
    match e.kind
    case FileKind =>
      && StatAt(store, e.path).Described? && StatAt(store, e.path).metadata.size == e.size
      && StatAt(store, e.path).metadata.modified == e.modified
    case DirectoryKind => !recursive && e.size == 0 && e.modified == 0 && HasBelow(store, e.path)
  }

  lemma EntriesAgreeWithStat(store: Store, directory: Path, recursive: bool, limit: nat, entries: seq<Entry>, i: nat)
    requires IsListing(store, directory, recursive, limit, entries) && i < |entries|
    ensures AgreesWithStat(store, recursive, entries[i])
  {
    var full :| IsFullListing(store, directory, recursive, full) && entries == full[..EffectiveLimit(limit, |full|)];
    assert entries[i] == full[i];
    ReportsAgree(store, ListPrefix(directory), recursive, entries[i]);
  }

  lemma ReportsAgree(store: Store, prefix: string, recursive: bool, e: Entry)
    requires Reports(store, prefix, recursive, e)
    ensures AgreesWithStat(store, recursive, e)
  {
    var key :| ListsKey(store, prefix, recursive, e, key);
    ListedIs(store, prefix, recursive, key);
    if e.kind == FileKind { assert StatAt(store, e.path) == Described(Describe(e.path, store[key])); }
  }

  lemma ListedIs(store: Store, prefix: string, recursive: bool, key: string)
    requires key in store && prefix <= key
    ensures var e := Listed(prefix, recursive, key, store[key]);
            if e.kind == FileKind then e.path.value == key && e.size == |store[key].content|
                                       && e.modified == store[key].modified
            else !recursive && e.size == 0 && e.modified == 0 && HasBelow(store, e.path)
  {
    assert key == prefix + key[|prefix|..];
    NameLeads(prefix, recursive, key);
    ObjectAnswers(store, Path(key));
    var e := Listed(prefix, recursive, key, store[key]);
    if e.kind == DirectoryKind {
      assert e.path.value != key;
      assert Exists(store, Path(key)) && ListPrefix(e.path) <= key;
    }
  }

  /** The page is as long as asked for, as far as there are entries; zero asks for all of them. */
  lemma PageLength(store: Store, directory: Path, recursive: bool, limit: nat, page: seq<Entry>, full: seq<Entry>)
    requires IsListing(store, directory, recursive, limit, page) && IsListing(store, directory, recursive, 0, full)
    ensures PathsOf(page) <= PathsOf(full)
    ensures |page| == if limit == 0 || |full| < limit then |full| else limit
  {
    var a :| IsFullListing(store, directory, recursive, a) && page == a[..EffectiveLimit(limit, |a|)];
    var b :| IsFullListing(store, directory, recursive, b) && full == b[..EffectiveLimit(0, |b|)];
    FullListingPaths(store, directory, recursive, a, b);
    CutPaths(a, b, limit);
    assert b[..|b|] == b;
  }

  lemma CutPaths(a: seq<Entry>, b: seq<Entry>, limit: nat)
    requires PathsOf(a) == PathsOf(b)
    ensures var page := a[..EffectiveLimit(limit, |a|)];
            PathsOf(page) <= PathsOf(b) && |page| == if limit == 0 || |b| < limit then |b| else limit
  {
    assert |a| == |PathsOf(a)| && |b| == |PathsOf(b)|;
    var page := a[..EffectiveLimit(limit, |a|)];
    assert PathsOf(page) == PathsOf(a)[..|page|];
  }

  /** Every stored path below the directory is listed: itself, or in a shallow listing the child it is below. */
  lemma StoredIsListed(store: Store, directory: Path, recursive: bool, full: seq<Entry>, p: Path) returns (i: nat)
    requires IsListing(store, directory, recursive, 0, full) && Exists(store, p) && ListPrefix(directory) <= p.value
    ensures i < |full|
    ensures full[i].path == p || (!recursive && full[i].path.value + "/" <= p.value)
  {
    var b :| IsFullListing(store, directory, recursive, b) && full == b[..EffectiveLimit(0, |b|)];
    var name := ListedName(ListPrefix(directory), recursive, p.value);
    assert name in PathsOf(b);
    i :| 0 <= i < |b| && PathsOf(b)[i] == name;
    NameLeads(ListPrefix(directory), recursive, p.value);
  }

  lemma NameLeads(prefix: string, recursive: bool, key: string)
    requires prefix <= key
    ensures var name := ListedName(prefix, recursive, key);
            name == key || (!recursive && name + "/" <= key)
  {
    var rest := key[|prefix|..];
    assert key == prefix + rest;
    if !recursive && '/' in rest {
      var child := BeforeSlash(rest);
      assert rest == child + "/" + rest[|child| + 1..];
      assert key == prefix + child + "/" + rest[|child| + 1..];
    }
  }
}
