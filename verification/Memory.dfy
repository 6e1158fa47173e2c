/** The in-memory adapter (memory/memory.go). */
module Memory {
  import opened Common
  import opened Text
  import opened Paths
  import opened Listing

  datatype Visibility = Private | Public

  datatype VisibilityOption = Unset | Requested(visibility: Visibility) | Unknown

  datatype WriteOptions = WriteOptions(
    contentType: string, metadata: map<string, string>, visibility: VisibilityOption, ifNoneMatch: bool)

  datatype Object = Object(
    content: seq<Byte>, metadata: map<string, string>, contentType: string,
    visibility: Visibility, modified: Time)

  datatype Metadata = Metadata(
    path: Path, kind: Kind, size: nat, modified: Time,
    contentType: string, metadata: map<string, string>, visibility: Visibility)

  type Store = map<string, Object>

  /** `source` is what io.Copy made of the borrowed reader: all its bytes or an error. */
  datatype Op =
    | Open(path: Path)
    | OpenRange(path: Path, offset: int, length: int)
    | Write(path: Path, source: Outcome<seq<Byte>>, options: WriteOptions)
    | Delete(path: Path)
    | Stat(path: Path)
    | List(path: Path, recursive: bool, limit: int)
    | Copy(path: Path, destination: Path, overwrite: bool)
    | Move(path: Path, destination: Path, overwrite: bool)
    | SetMetadata(path: Path, metadata: map<string, string>)
    | GetVisibility(path: Path)
    | SetVisibility(path: Path, visibility: VisibilityOption)

  /** A listing is what draining its iterator yields, and whether Err then reports a failure. */
  datatype Response =
    | Bytes(content: seq<Byte>)
    | Described(metadata: Metadata)
    | Entries(entries: seq<Entry>, failed: bool)
    | VisibilityIs(visibility: Visibility)
    | Done
    | Failure(error: Error)
    | Panicked

  function NormalizeVisibility(v: VisibilityOption): Outcome<Visibility>
  {
    match v
    case Unset => Ok(Private)
    case Requested(x) => Ok(x)
    case Unknown => Err(InvalidArgument)
  }

  function Describe(path: Path, o: Object): Metadata
  {
    Metadata(path, FileKind, |o.content|, o.modified, o.contentType, o.metadata, o.visibility)
  }

  // ---- what each operation stores and answers ----

  /** The error an operation other than List reports, if any. */
  function Refusal(store: Store, live: bool, op: Op): Option<Error>
    requires !op.List?
  {
    match op
    case OpenRange(path, offset, length) =>
      if offset < 0 || length <= 0 then Some(InvalidRange)
      else if !live then Some(Canceled)
      else if path.value !in store then Some(NotFound)
      else if offset >= |store[path.value].content| then Some(InvalidRange)
      else None
    case Write(path, source, options) =>
      if path.IsRoot() then Some(InvalidPath)
      else if NormalizeVisibility(options.visibility).Err? then Some(InvalidArgument)
      else if source.Err? then Some(source.error)
      else if !live then Some(Canceled)
      else if options.ifNoneMatch && path.value in store then Some(PreconditionFailed)
      else None
    case Copy(source, destination, overwrite) =>
      if !live then Some(Canceled)
      else if source.value !in store then Some(NotFound)
      else if !overwrite && destination.value in store then Some(AlreadyExists)
      else None
    case Move(source, destination, overwrite) =>
      if !live then Some(Canceled)
      else if source.value !in store then Some(NotFound)
      else if !overwrite && destination.value in store then Some(AlreadyExists)
      else None
    case SetVisibility(path, v) =>
      if NormalizeVisibility(v).Err? then Some(InvalidArgument)
      else if !live then Some(Canceled)
      else if path.value !in store then Some(NotFound)
      else None
    case _ =>
      if !live then Some(Canceled) else if op.path.value !in store then Some(NotFound) else None
  }

  function Written(options: WriteOptions, content: seq<Byte>, now: Time): Object
    requires NormalizeVisibility(options.visibility).Ok?
  {
    Object(content, options.metadata, options.contentType, NormalizeVisibility(options.visibility).value, now)
  }

  function Effect(store: Store, live: bool, now: Time, op: Op): Store
  {
    if op.List? || Refusal(store, live, op).Some? then store
    else
      match op
      case Write(path, source, options) => store[path.value := Written(options, source.value, now)]
      case Delete(path) => store - {path.value}
      case Copy(source, destination, _) =>
        store[destination.value := store[source.value].(modified := now)]
      case Move(source, destination, _) =>
        if source == destination then store
        else store[destination.value := store[source.value].(modified := now)] - {source.value}
      case SetMetadata(path, metadata) =>
        store[path.value := store[path.value].(metadata := metadata, modified := now)]
      case SetVisibility(path, v) =>
        store[path.value := store[path.value].(visibility := NormalizeVisibility(v).value, modified := now)]
      case _ => store
  }

  function Answer(store: Store, live: bool, now: Time, op: Op): Response
    requires !op.List?
  {
    match Refusal(store, live, op)
    case Some(e) => Failure(e)
    case None =>
      match op
      case Open(path) => Bytes(store[path.value].content)
      case OpenRange(path, offset, length) =>
        var content := store[path.value].content;
        Bytes(content[offset..offset + Min(length, |content| - offset)])
      case Write(path, source, options) => Described(Describe(path, Written(options, source.value, now)))
      case Stat(path) => Described(Describe(path, store[path.value]))
      case GetVisibility(path) => VisibilityIs(store[path.value].visibility)
      case _ => Done
  }

  ghost predicate AnswersList(
    store: Store, live: bool, directory: Path, recursive: bool, limit: int, r: Response)
  {
    if !live then r == Failure(Canceled)
    else if limit < 0 then r == Failure(InvalidArgument)
    else if ListPanics(store, directory, recursive) then r == Panicked
    else r.Entries? && !r.failed && IsListing(store, directory, recursive, limit, r.entries)
  }

  /** The answers of an operation. Only listings may have several, one per map iteration order. */
  ghost predicate Answers(store: Store, live: bool, now: Time, op: Op, r: Response)
  {
    match op
    case List(directory, recursive, limit) => AnswersList(store, live, directory, recursive, limit, r)
    case _ => r == Answer(store, live, now, op)
  }

  // ---- listings ----

  function ListPrefix(directory: Path): string
  {
    if directory.IsRoot() then "" else directory.value + "/"
  }

  /** `strings.Cut(s, "/")`: the text before the first slash. */
  function BeforeSlash(s: string): (r: string)
    ensures r <= s && '/' !in r
    ensures '/' in s ==> |r| < |s| && s[|r|] == '/'
    ensures '/' !in s ==> r == s
  {
    if s == "" || s[0] == '/' then "" else [s[0]] + BeforeSlash(s[1..])
  }

  /** The name under which a stored key shows up in a listing. */
  function ListedName(prefix: string, recursive: bool, key: string): string
    requires prefix <= key
  {
    if recursive then key else prefix + BeforeSlash(key[|prefix|..])
  }

  predicate ListedAsDirectory(prefix: string, recursive: bool, key: string)
    requires prefix <= key
  {
    !recursive && '/' in key[|prefix|..]
  }

  function Listed(prefix: string, recursive: bool, key: string, o: Object): Entry
    requires prefix <= key
  {
    var path := Path(ListedName(prefix, recursive, key));
    if ListedAsDirectory(prefix, recursive, key) then Entry(path, DirectoryKind, 0, 0)
    else Entry(path, FileKind, |o.content|, o.modified)
  }

  /** MustParsePath panics on a listed name that does not parse. */
  ghost predicate ListPanics(store: Store, directory: Path, recursive: bool)
  {
    exists key :: key in store && ListPrefix(directory) <= key
                  && Parse(ListedName(ListPrefix(directory), recursive, key)).Err?
  }

  ghost predicate ListsKey(store: Store, prefix: string, recursive: bool, e: Entry, key: string)
  {
    key in store && prefix <= key && e == Listed(prefix, recursive, key, store[key])
  }

  ghost predicate Reports(store: Store, prefix: string, recursive: bool, e: Entry)
  {
    exists key :: ListsKey(store, prefix, recursive, e, key)
  }

  ghost predicate Covers(store: Store, prefix: string, recursive: bool, names: seq<string>)
  {
    forall key :: key in store && prefix <= key ==> ListedName(prefix, recursive, key) in names
  }

  /**
    All entries below a directory: strictly sorted, one per listed name, each
    reporting some stored key with that name.
   */
  ghost predicate IsFullListing(store: Store, directory: Path, recursive: bool, entries: seq<Entry>)
  {
    && StrictlySorted(PathsOf(entries))
    && (forall i :: 0 <= i < |entries| ==> Reports(store, ListPrefix(directory), recursive, entries[i]))
    && Covers(store, ListPrefix(directory), recursive, PathsOf(entries))
  }

  ghost predicate IsListing(store: Store, directory: Path, recursive: bool, limit: int, entries: seq<Entry>)
  {
    limit >= 0
    && exists full :: IsFullListing(store, directory, recursive, full)
                      && entries == full[..EffectiveLimit(limit, |full|)]
  }

  /** Two listings of one directory name the same paths in the same order. */
  lemma FullListingPaths(store: Store, directory: Path, recursive: bool, a: seq<Entry>, b: seq<Entry>)
    requires IsFullListing(store, directory, recursive, a) && IsFullListing(store, directory, recursive, b)
    ensures PathsOf(a) == PathsOf(b)
  {
    ListingContains(store, directory, recursive, a, b);
    ListingContains(store, directory, recursive, b, a);
    SortedUnique(PathsOf(a), PathsOf(b));
  }

  lemma ListingContains(store: Store, directory: Path, recursive: bool, a: seq<Entry>, b: seq<Entry>)
    requires IsFullListing(store, directory, recursive, a) && IsFullListing(store, directory, recursive, b)
    ensures forall x :: x in PathsOf(a) ==> x in PathsOf(b)
  {
    forall x | x in PathsOf(a)
      ensures x in PathsOf(b)
    {
      var i :| 0 <= i < |a| && PathsOf(a)[i] == x;
      assert Reports(store, ListPrefix(directory), recursive, a[i]);
      var key :| ListsKey(store, ListPrefix(directory), recursive, a[i], key);
      assert ListedName(ListPrefix(directory), recursive, key) in PathsOf(b);
    }
  }

  /** A stored key directly below the directory that also has stored keys below itself. */
  ghost predicate Collides(store: Store, directory: Path, key: string)
  {
    var prefix := ListPrefix(directory);
    && key in store && prefix <= key && '/' !in key[|prefix|..]
    && exists other :: other in store && key + "/" <= other
  }

  /** Which keys share a listed name in a non-recursive listing. */
  lemma SameListedName(prefix: string, key: string, other: string)
    requires prefix <= key && prefix <= other && '/' !in key[|prefix|..]
    ensures ListedName(prefix, false, key) == key
    ensures ListedName(prefix, false, other) == key <==> other == key || key + "/" <= other
  {
    var rest, tail := key[|prefix|..], other[|prefix|..];
    assert key == prefix + rest && other == prefix + tail;
    assert BeforeSlash(rest) == rest;
    if ListedName(prefix, false, other) == key {
      assert BeforeSlash(tail) == rest by {
        assert (prefix + BeforeSlash(tail))[|prefix|..] == BeforeSlash(tail);
      }
      if '/' in tail { assert other[..|key| + 1] == key + "/"; }
    }
    if key + "/" <= other {
      assert other[..|key|] == key && other[|key|] == '/';
      assert tail[..|rest|] == rest && tail[|rest|] == '/';
      BeforeSlashIs(rest, tail);
    }
  }

  lemma {:induction false} BeforeSlashIs(rest: string, tail: string)
    requires '/' !in rest && |rest| < |tail| && tail[..|rest|] == rest && tail[|rest|] == '/'
    ensures BeforeSlash(tail) == rest
  {
    if rest != "" {
      assert tail[0] == rest[0];
      assert tail[1..][..|rest| - 1] == rest[1..] by {
        assert forall i :: 0 <= i < |rest| - 1 ==> tail[1..][i] == rest[1..][i];
      }
      BeforeSlashIs(rest[1..], tail[1..]);
      assert [rest[0]] + rest[1..] == rest;
    }
  }

  // ---- iteration orders ----

  /** What the pass over the object map has collected after visiting `order`: a later key replaces an earlier one. */
  function Pass(store: Store, prefix: string, recursive: bool, order: seq<string>): map<string, Entry>
    requires forall key :: key in order ==> key in store
  {
    if order == [] then map[]
    else
      var before, key := Pass(store, prefix, recursive, order[..|order| - 1]), order[|order| - 1];
      if prefix <= key
      then before[ListedName(prefix, recursive, key) := Listed(prefix, recursive, key, store[key])]
      else before
  }

  /** Every key once. */
  ghost predicate IsOrder(store: Store, order: seq<string>)
  {
    && (forall key :: key in order <==> key in store)
    && (forall i, j :: 0 <= i < j < |order| ==> order[i] != order[j])
  }

  ghost predicate Holds(byPath: map<string, Entry>, entries: seq<Entry>)
  {
    && (forall i :: 0 <= i < |entries| ==>
          entries[i].path.value in byPath && byPath[entries[i].path.value] == entries[i])
    && (forall p :: p in byPath ==> p in PathsOf(entries))
  }

  /** The entries List sorts out of the map that this iteration order fills. */
  ghost predicate CollectedBy(
    store: Store, directory: Path, recursive: bool, order: seq<string>, entries: seq<Entry>)
  {
    && IsOrder(store, order) && StrictlySorted(PathsOf(entries))
    && Holds(Pass(store, ListPrefix(directory), recursive, order), entries)
  }

  ghost predicate CollectedBySome(store: Store, directory: Path, recursive: bool, entries: seq<Entry>)
  {
    exists order :: CollectedBy(store, directory, recursive, order, entries)
  }

  lemma OneMoreKey(store: Store, prefix: string, recursive: bool, order: seq<string>, key: string)
    requires key in store && forall k :: k in order ==> k in store
    ensures Pass(store, prefix, recursive, order + [key]) ==
            if prefix <= key
            then Pass(store, prefix, recursive, order)
                   [ListedName(prefix, recursive, key) := Listed(prefix, recursive, key, store[key])]
            else Pass(store, prefix, recursive, order)
  {
    assert (order + [key])[..|order|] == order;
  }

  lemma {:induction false} PassReports(store: Store, prefix: string, recursive: bool, order: seq<string>, p: string)
    requires (forall key :: key in order ==> key in store) && p in Pass(store, prefix, recursive, order)
    ensures var e := Pass(store, prefix, recursive, order)[p];
            e.path == Path(p) && Reports(store, prefix, recursive, e)
  {
    var last := |order| - 1;
    var key := order[last];
    if prefix <= key && p == ListedName(prefix, recursive, key) {
      assert ListsKey(store, prefix, recursive, Listed(prefix, recursive, key, store[key]), key);
    } else {
      PassReports(store, prefix, recursive, order[..last], p);
    }
  }

  lemma {:induction false} PassCovers(store: Store, prefix: string, recursive: bool, order: seq<string>, key: string)
    requires (forall k :: k in order ==> k in store) && key in order && prefix <= key
    ensures ListedName(prefix, recursive, key) in Pass(store, prefix, recursive, order)
  {
    var last := |order| - 1;
    if key != order[last] {
      assert key in order[..last];
      PassCovers(store, prefix, recursive, order[..last], key);
    }
  }

  /** Position `i` of an order is the last one that lists its name. */
  ghost predicate ListsLast(prefix: string, recursive: bool, order: seq<string>, i: nat)
  {
    && i < |order| && prefix <= order[i]
    && forall j :: i < j < |order| && prefix <= order[j] ==>
         ListedName(prefix, recursive, order[j]) != ListedName(prefix, recursive, order[i])
  }

  lemma {:induction false} LastWins(store: Store, prefix: string, recursive: bool, order: seq<string>, i: nat)
    requires (forall key :: key in order ==> key in store) && ListsLast(prefix, recursive, order, i)
    ensures var name, byPath := ListedName(prefix, recursive, order[i]), Pass(store, prefix, recursive, order);
            name in byPath && byPath[name] == Listed(prefix, recursive, order[i], store[order[i]])
  {
    var last := |order| - 1;
    if i < last {
      assert order[..last][i] == order[i];
      LastWins(store, prefix, recursive, order[..last], i);
    }
  }

  /** Every iteration order collects a full listing. */
  lemma OrderGivesListing(store: Store, directory: Path, recursive: bool, order: seq<string>, entries: seq<Entry>)
    requires CollectedBy(store, directory, recursive, order, entries)
    ensures IsFullListing(store, directory, recursive, entries)
  {
    var prefix := ListPrefix(directory);
    forall i | 0 <= i < |entries| ensures Reports(store, prefix, recursive, entries[i]) {
      PassReports(store, prefix, recursive, order, entries[i].path.value);
    }
    forall key | key in store && prefix <= key
      ensures ListedName(prefix, recursive, key) in PathsOf(entries)
    {
      PassCovers(store, prefix, recursive, order, key);
    }
  }

  lemma {:induction false} Enumerated(keys: set<string>) returns (order: seq<string>)
    ensures forall key :: key in order <==> key in keys
    ensures forall i, j :: 0 <= i < j < |order| ==> order[i] != order[j]
    decreases keys
  {
    if keys == {} {
      order := [];
    } else {
      var key :| key in keys;
      var rest := Enumerated(keys - {key});
      order := rest + [key];
    }
  }

  /** A key that an entry reports. */
  ghost function SourceOf(store: Store, prefix: string, recursive: bool, e: Entry): (key: string)
    requires Reports(store, prefix, recursive, e)
    ensures ListsKey(store, prefix, recursive, e, key)
  {
    var key :| ListsKey(store, prefix, recursive, e, key);
    key
  }

  ghost function Sources(store: Store, directory: Path, recursive: bool, entries: seq<Entry>): seq<string>
    requires IsFullListing(store, directory, recursive, entries)
  {
    seq(|entries|, i requires 0 <= i < |entries| => SourceOf(store, ListPrefix(directory), recursive, entries[i]))
  }

  /** Every full listing is what some order collects: the keys it reports come last. */
  lemma ListingHasOrder(store: Store, directory: Path, recursive: bool, entries: seq<Entry>)
    returns (order: seq<string>)
    requires IsFullListing(store, directory, recursive, entries)
    ensures CollectedBy(store, directory, recursive, order, entries)
  {
    var sources := Sources(store, directory, recursive, entries);
    var rest := Enumerated(store.Keys - set key | key in sources);
    DistinctSources(store, directory, recursive, entries);
    JoinedOrder(store, rest, sources);
    order := rest + sources;
    forall i | 0 <= i < |entries|
      ensures var byPath := Pass(store, ListPrefix(directory), recursive, order);
              entries[i].path.value in byPath && byPath[entries[i].path.value] == entries[i]
    {
      SourceWins(store, directory, recursive, entries, rest, i);
    }
    forall p | p in Pass(store, ListPrefix(directory), recursive, order) ensures p in PathsOf(entries) {
      PassIsCovered(store, directory, recursive, order, entries, p);
    }
  }

  lemma PassIsCovered(
    store: Store, directory: Path, recursive: bool, order: seq<string>, entries: seq<Entry>, p: string)
    requires IsOrder(store, order) && IsFullListing(store, directory, recursive, entries)
    requires p in Pass(store, ListPrefix(directory), recursive, order)
    ensures p in PathsOf(entries)
  {
    var prefix := ListPrefix(directory);
    PassReports(store, prefix, recursive, order, p);
    var e := Pass(store, prefix, recursive, order)[p];
    var key :| ListsKey(store, prefix, recursive, e, key);
    assert ListedName(prefix, recursive, key) == p;
  }

  lemma JoinedOrder(store: Store, rest: seq<string>, sources: seq<string>)
    requires forall key :: key in rest <==> key in store && key !in sources
    requires forall key :: key in sources ==> key in store
    requires forall i, j :: 0 <= i < j < |rest| ==> rest[i] != rest[j]
    requires forall i, j :: 0 <= i < j < |sources| ==> sources[i] != sources[j]
    ensures IsOrder(store, rest + sources)
  {
    var order := rest + sources;
    forall i, j | 0 <= i < j < |order| ensures order[i] != order[j] {
      if i < |rest| <= j {
        assert order[i] in rest && order[j] in sources;
      }
    }
  }

  lemma SourceWins(
    store: Store, directory: Path, recursive: bool, entries: seq<Entry>, rest: seq<string>, i: nat)
    requires IsFullListing(store, directory, recursive, entries) && i < |entries|
    requires forall key :: key in rest + Sources(store, directory, recursive, entries) ==> key in store
    ensures var order := rest + Sources(store, directory, recursive, entries);
            var byPath := Pass(store, ListPrefix(directory), recursive, order);
            entries[i].path.value in byPath && byPath[entries[i].path.value] == entries[i]
  {
    var prefix, sources := ListPrefix(directory), Sources(store, directory, recursive, entries);
    DistinctSources(store, directory, recursive, entries);
    assert ListsKey(store, prefix, recursive, entries[i], sources[i]);
    var order := rest + sources;
    assert ListsLast(prefix, recursive, order, |rest| + i) by {
      assert order[|rest| + i] == sources[i];
      forall j | |rest| + i < j < |order| ensures order[j] == sources[j - |rest|] {}
    }
    LastWins(store, prefix, recursive, order, |rest| + i);
  }

  lemma DistinctSources(store: Store, directory: Path, recursive: bool, entries: seq<Entry>)
    requires IsFullListing(store, directory, recursive, entries)
    ensures var prefix, sources := ListPrefix(directory), Sources(store, directory, recursive, entries);
            && (forall i :: 0 <= i < |entries| ==> ListsKey(store, prefix, recursive, entries[i], sources[i]))
            && (forall i, j :: 0 <= i < j < |entries| ==>
                  && sources[i] != sources[j]
                  && ListedName(prefix, recursive, sources[i]) != ListedName(prefix, recursive, sources[j]))
  {
    var prefix, sources := ListPrefix(directory), Sources(store, directory, recursive, entries);
    forall i, j | 0 <= i < j < |entries|
      ensures ListedName(prefix, recursive, sources[i]) != ListedName(prefix, recursive, sources[j])
    {
      assert Less(PathsOf(entries)[i], PathsOf(entries)[j]);
      LessTotal(PathsOf(entries)[i], PathsOf(entries)[j]);
    }
  }

  /** The full listings are exactly what the iteration orders of the object map collect. */
  lemma ListingsAreOrders(store: Store, directory: Path, recursive: bool, entries: seq<Entry>)
    ensures IsFullListing(store, directory, recursive, entries) <==>
            CollectedBySome(store, directory, recursive, entries)
  {
    if IsFullListing(store, directory, recursive, entries) {
      var order := ListingHasOrder(store, directory, recursive, entries);
    } else if CollectedBySome(store, directory, recursive, entries) {
      var order :| CollectedBy(store, directory, recursive, order, entries);
      OrderGivesListing(store, directory, recursive, order, entries);
    }
  }

  /** So the listings List may answer with are the cut listings of some order, and each of them can happen. */
  lemma AnswersAreOrders(store: Store, directory: Path, recursive: bool, limit: nat, entries: seq<Entry>)
    ensures IsListing(store, directory, recursive, limit, entries) <==>
            exists full :: CollectedBySome(store, directory, recursive, full)
                           && entries == full[..EffectiveLimit(limit, |full|)]
  {
    forall full
      ensures IsFullListing(store, directory, recursive, full) <==> CollectedBySome(store, directory, recursive, full)
    {
      ListingsAreOrders(store, directory, recursive, full);
    }
  }

  /** What one iteration order lists is what every order lists exactly when no listed key collides. */
  lemma ListingDeterminedIff(store: Store, directory: Path, recursive: bool, order: seq<string>, full: seq<Entry>)
    requires CollectedBy(store, directory, recursive, order, full)
    ensures (forall other, entries :: CollectedBy(store, directory, recursive, other, entries) ==> entries == full)
            <==> (recursive || forall key :: !Collides(store, directory, key))
  {
    if recursive || forall key :: !Collides(store, directory, key) {
      forall other, entries | CollectedBy(store, directory, recursive, other, entries)
        ensures entries == full
      {
        OrderGivesListing(store, directory, recursive, order, full);
        OrderGivesListing(store, directory, recursive, other, entries);
        SameListing(store, directory, recursive, full, entries);
      }
    } else {
      var key :| Collides(store, directory, key);
      var other, entries := AmbiguousEntry(store, directory, order, full, key);
    }
  }

  lemma SameListing(store: Store, directory: Path, recursive: bool, full: seq<Entry>, other: seq<Entry>)
    requires recursive || forall key :: !Collides(store, directory, key)
    requires IsFullListing(store, directory, recursive, full) && IsFullListing(store, directory, recursive, other)
    ensures other == full
  {
    FullListingPaths(store, directory, recursive, full, other);
    assert |other| == |full| by { assert |PathsOf(other)| == |PathsOf(full)|; }
    forall i | 0 <= i < |full|
      ensures other[i] == full[i]
    {
      assert PathsOf(other)[i] == PathsOf(full)[i];
      EntryDetermined(store, directory, recursive, full[i], other[i]);
    }
  }

  /**
    A store with two keys like "a" and "a/b" lists "a" as a directory or as a file, whichever key the pass visits
    last.
   */
  lemma CollisionExample(store: Store, key: string, below: string)
    requires store.Keys == {key, below} && '/' !in key && key + "/" <= below
    ensures Collides(store, ROOT, key) && IsOrder(store, [key, below]) && IsOrder(store, [below, key])
    ensures Pass(store, "", false, [key, below]) == map[key := Entry(Path(key), DirectoryKind, 0, 0)]
    ensures Pass(store, "", false, [below, key]) ==
            map[key := Entry(Path(key), FileKind, |store[key].content|, store[key].modified)]
  {
    assert key[|""|..] == key && below[|""|..] == below;
    assert below[|key|] == '/';
    SameListedName("", key, key);
    SameListedName("", key, below);
    PassOfTwo(store, key, below);
    PassOfTwo(store, below, key);
  }

  lemma PassOfTwo(store: Store, x: string, y: string)
    requires x in store && y in store && ListedName("", false, x) == ListedName("", false, y)
    ensures Pass(store, "", false, [x, y]) == map[ListedName("", false, y) := Listed("", false, y, store[y])]
  {
    OneMoreKey(store, "", false, [], x);
    OneMoreKey(store, "", false, [x], y);
    assert [] + [x] == [x] && [x] + [y] == [x, y];
  }

  lemma EntryDetermined(store: Store, directory: Path, recursive: bool, a: Entry, b: Entry)
    requires recursive || forall key :: !Collides(store, directory, key)
    requires Reports(store, ListPrefix(directory), recursive, a)
    requires Reports(store, ListPrefix(directory), recursive, b)
    requires a.path == b.path
    ensures a == b
  {
    var prefix := ListPrefix(directory);
    var x :| ListsKey(store, prefix, recursive, a, x);
    var y :| ListsKey(store, prefix, recursive, b, y);
    if !recursive {
      if '/' !in x[|prefix|..] {
        SameListedName(prefix, x, y);
        assert !Collides(store, directory, x);
      }
      if '/' !in y[|prefix|..] {
        SameListedName(prefix, y, x);
        assert !Collides(store, directory, y);
      }
    }
  }

  lemma ReplaceEntry(store: Store, directory: Path, full: seq<Entry>, i: nat, e: Entry, key: string)
    requires IsFullListing(store, directory, false, full) && i < |full| && e.path == full[i].path
    requires ListsKey(store, ListPrefix(directory), false, e, key)
    ensures IsFullListing(store, directory, false, full[i := e]) && PathsOf(full[i := e]) == PathsOf(full)
  {
    var other := full[i := e];
    assert PathsOf(other) == PathsOf(full);
    forall j | 0 <= j < |other|
      ensures Reports(store, ListPrefix(directory), false, other[j])
    {
      if j != i { assert other[j] == full[j]; }
    }
  }

  /** For a colliding key, another iteration order lists it the other way: as the directory, or as the file. */
  lemma AmbiguousEntry(store: Store, directory: Path, order: seq<string>, full: seq<Entry>, key: string)
    returns (other: seq<string>, entries: seq<Entry>)
    requires CollectedBy(store, directory, false, order, full) && Collides(store, directory, key)
    ensures CollectedBy(store, directory, false, other, entries) && PathsOf(entries) == PathsOf(full)
    ensures exists i :: 0 <= i < |full| && full[i].path.value == key && entries[i].kind != full[i].kind
  {
    var prefix := ListPrefix(directory);
    OrderGivesListing(store, directory, false, order, full);
    var below :| below in store && key + "/" <= below;
    SameListedName(prefix, key, key);
    SameListedName(prefix, key, below);
    assert below[|prefix|..][|key| - |prefix|] == '/';
    assert ListedName(prefix, false, key) in PathsOf(full);
    var i :| 0 <= i < |full| && PathsOf(full)[i] == key;
    var source := if full[i].kind.FileKind? then below else key;
    var e := Listed(prefix, false, source, store[source]);
    assert ListsKey(store, prefix, false, e, source);
    ReplaceEntry(store, directory, full, i, e, source);
    entries := full[i := e];
    assert entries[i].kind != full[i].kind;
    other := ListingHasOrder(store, directory, false, entries);
  }

  // ---- keys are paths ----

  /** Keys come from path values, so each is a normal path or Root. */
  ghost predicate ValidStore(store: Store)
  {
    forall key :: key in store ==> Valid(Path(key))
  }

  /** Every path an operation carries was obtained from Root or ParsePath. */
  ghost predicate ValidOp(op: Op)
  {
    Valid(op.path) && (op.Copy? || op.Move? ==> Valid(op.destination))
  }

  lemma EffectKeepsKeysValid(store: Store, live: bool, now: Time, op: Op)
    requires ValidStore(store) && ValidOp(op)
    ensures ValidStore(Effect(store, live, now, op))
  {}

  lemma BeforeSlashOfJoin(pieces: seq<string>)
    requires |pieces| >= 1 && Slashless(pieces)
    ensures BeforeSlash(Join(pieces)) == pieces[0]
    ensures '/' in Join(pieces) <==> |pieces| > 1
  {
    if |pieces| > 1 {
      assert Join(pieces)[|pieces[0]|] == '/';
      BeforeSlashIs(pieces[0], Join(pieces));
    }
  }

  lemma ListedBelow(d: seq<string>, k: seq<string>)
    requires |d| >= 1 && |k| >= 1 && Slashless(d) && Slashless(k)
    ensures Join(d) + "/" <= Join(k) <==> |d| < |k| && k[..|d|] == d
    ensures Join(d) + "/" <= Join(k) ==>
              && ListedName(Join(d) + "/", false, Join(k)) == Join(k[..|d| + 1])
              && (ListedAsDirectory(Join(d) + "/", false, Join(k)) <==> |k| > |d| + 1)
  {
    PrefixIsLeadingPieces(d, k);
    if |d| < |k| && k[..|d|] == d { ListedPiece(d, k); }
  }

  lemma ListedPiece(d: seq<string>, k: seq<string>)
    requires 1 <= |d| < |k| && Slashless(k) && k[..|d|] == d
    requires Join(d) + "/" <= Join(k) && Join(k)[|Join(d)| + 1..] == Join(k[|d|..])
    ensures ListedName(Join(d) + "/", false, Join(k)) == Join(k[..|d| + 1])
    ensures ListedAsDirectory(Join(d) + "/", false, Join(k)) <==> |k| > |d| + 1
  {
    var rest := k[|d|..];
    BeforeSlashOfJoin(rest);
    assert rest[0] == k[|d|];
    LeadingPlusOne(d, k);
    OneMorePiece(d, k[|d|]);
    if |k| == |d| + 1 { assert k[..|d| + 1] == k; }
  }

  lemma OneMorePiece(d: seq<string>, piece: string)
    requires d != []
    ensures Join(d + [piece]) == Join(d) + "/" + piece
  {
    JoinAppend(d, [piece]);
  }

  /** Listing, read on segments: which keys are below a directory, and as what they appear. */
  lemma ListedSegments(directory: Path, key: string)
    requires Valid(directory) && Normal(Path(key))
    ensures var d, k := Segments(directory), Segments(Path(key));
            && (ListPrefix(directory) <= key <==> |d| < |k| && k[..|d|] == d)
            && (ListPrefix(directory) <= key ==>
                  && ListedName(ListPrefix(directory), false, key) == Join(k[..|d| + 1])
                  && (ListedAsDirectory(ListPrefix(directory), false, key) <==> |k| > |d| + 1)
                  && key == Join(k))
  {
    var d, k := Segments(directory), Segments(Path(key));
    ValidSegments(directory);
    ValidSegments(Path(key));
    if d == [] {
      ListedAtRoot(k);
    } else {
      ListedBelow(d, k);
    }
  }

  lemma ListedAtRoot(k: seq<string>)
    requires |k| >= 1 && Slashless(k)
    ensures ListedName("", false, Join(k)) == Join(k[..1])
    ensures ListedAsDirectory("", false, Join(k)) <==> |k| > 1
    ensures k[..0] == []
  {
    BeforeSlashOfJoin(k);
    assert k[..1] == [k[0]] && Join(k)[0..] == Join(k);
  }

  /** Names listed for a normal key are normal. */
  lemma ListedNameParses(directory: Path, recursive: bool, key: string)
    requires Valid(directory) && Normal(Path(key)) && ListPrefix(directory) <= key
    ensures var name := ListedName(ListPrefix(directory), recursive, key);
            Normal(Path(name)) && Parse(name) == Ok(Path(name))
  {
    if !recursive { ListedNameIsNormal(directory, key); }
    ParseNormal(Path(ListedName(ListPrefix(directory), recursive, key)));
  }

  lemma ListedNameIsNormal(directory: Path, key: string)
    requires Valid(directory) && Normal(Path(key)) && ListPrefix(directory) <= key
    ensures Normal(Path(ListedName(ListPrefix(directory), false, key)))
  {
    ListedSegments(directory, key);
    LeadingIsNormal(Path(key), |Segments(directory)| + 1);
  }

  /** A listing panics exactly when it reaches an object stored at Root. */
  lemma ListPanicsIff(store: Store, directory: Path, recursive: bool)
    requires ValidStore(store) && Valid(directory)
    ensures ListPanics(store, directory, recursive) <==> directory.IsRoot() && "" in store
  {
    var prefix := ListPrefix(directory);
    forall key | key in store && key != "" && prefix <= key
      ensures Parse(ListedName(prefix, recursive, key)).Ok?
    {
      ListedNameParses(directory, recursive, key);
    }
    if directory.IsRoot() && "" in store {
      assert ListedName(prefix, recursive, "") == "" && Parse("").Err?;
    }
  }

  // ---- when Root holds an object ----

  datatype Request = Request(live: bool, now: Time, op: Op)

  function StoreAfter(store: Store, requests: seq<Request>, k: nat): Store
    requires k <= |requests|
  {
    if k == 0 then store
    else
      var q := requests[k - 1];
      Effect(StoreAfter(store, requests, k - 1), q.live, q.now, q.op)
  }

  /** A Copy or Move onto Root that succeeds. */
  predicate FillsRoot(store: Store, q: Request)
  {
    && (q.op.Copy? || (q.op.Move? && q.op.path != q.op.destination))
    && q.op.destination.IsRoot() && Refusal(store, q.live, q.op).None?
  }

  /** A Delete of Root, or a Move from it, that succeeds. */
  predicate EmptiesRoot(store: Store, q: Request)
  {
    && (q.op.Delete? || (q.op.Move? && q.op.path != q.op.destination))
    && q.op.path.IsRoot() && Refusal(store, q.live, q.op).None?
  }

  lemma RootStep(store: Store, q: Request)
    ensures "" in Effect(store, q.live, q.now, q.op) <==> FillsRoot(store, q) || ("" in store && !EmptiesRoot(store, q))
  {}

  predicate FillsAt(store: Store, requests: seq<Request>, j: nat)
    requires j < |requests|
  {
    FillsRoot(StoreAfter(store, requests, j), requests[j])
  }

  predicate EmptiesAt(store: Store, requests: seq<Request>, j: nat)
    requires j < |requests|
  {
    EmptiesRoot(StoreAfter(store, requests, j), requests[j])
  }

  /** Request `j` filled Root and none after it, up to `k`, emptied it. */
  ghost predicate FilledSince(store: Store, requests: seq<Request>, j: nat, k: nat)
    requires j < k <= |requests|
  {
    FillsAt(store, requests, j) && forall i :: j < i < k ==> !EmptiesAt(store, requests, i)
  }

  ghost predicate Filled(store: Store, requests: seq<Request>, k: nat)
    requires k <= |requests|
  {
    exists j :: 0 <= j < k && FilledSince(store, requests, j, k)
  }

  lemma FilledStep(store: Store, requests: seq<Request>, k: nat)
    requires k < |requests|
    ensures Filled(store, requests, k + 1) <==>
            FillsAt(store, requests, k) || (Filled(store, requests, k) && !EmptiesAt(store, requests, k))
  {
    if FillsAt(store, requests, k) { assert FilledSince(store, requests, k, k + 1); }
    if Filled(store, requests, k) && !EmptiesAt(store, requests, k) {
      var j :| 0 <= j < k && FilledSince(store, requests, j, k);
      assert FilledSince(store, requests, j, k + 1);
    }
    if Filled(store, requests, k + 1) {
      var j :| 0 <= j < k + 1 && FilledSince(store, requests, j, k + 1);
      if j < k { assert FilledSince(store, requests, j, k) && !EmptiesAt(store, requests, k); }
    }
  }

  /** Starting with nothing at Root, over any requests, an object is there exactly because a Copy or Move put it. */
  lemma {:induction false} RootOccupiedIff(store: Store, requests: seq<Request>, k: nat)
    requires k <= |requests| && "" !in store
    ensures "" in StoreAfter(store, requests, k) <==> Filled(store, requests, k)
  {
    if k > 0 {
      RootOccupiedIff(store, requests, k - 1);
      FilledStep(store, requests, k - 1);
      RootStep(StoreAfter(store, requests, k - 1), requests[k - 1]);
    }
  }

  lemma {:induction false} StoresStayValid(store: Store, requests: seq<Request>, k: nat)
    requires k <= |requests| && ValidStore(store) && forall i :: 0 <= i < k ==> ValidOp(requests[i].op)
    ensures ValidStore(StoreAfter(store, requests, k))
  {
    if k > 0 {
      StoresStayValid(store, requests, k - 1);
      var q := requests[k - 1];
      EffectKeepsKeysValid(StoreAfter(store, requests, k - 1), q.live, q.now, q.op);
    }
  }

  /** Over any requests, listing Root panics exactly while an object put at Root by a Copy or Move is there. */
  lemma RootListingPanicsIff(store: Store, requests: seq<Request>, k: nat, recursive: bool)
    requires k <= |requests| && ValidStore(store) && "" !in store
    requires forall i :: 0 <= i < k ==> ValidOp(requests[i].op)
    ensures ListPanics(StoreAfter(store, requests, k), ROOT, recursive) <==> Filled(store, requests, k)
  {
    StoresStayValid(store, requests, k);
    ListPanicsIff(StoreAfter(store, requests, k), ROOT, recursive);
    RootOccupiedIff(store, requests, k);
  }

  /** Two calls on an empty store bring it about, for every path and content. */
  lemma RootPanicHappens(path: Path, content: seq<Byte>, options: WriteOptions, recursive: bool, move: bool)
    requires Normal(path) && NormalizeVisibility(options.visibility).Ok?
    ensures var second := if move then Move(path, ROOT, false) else Copy(path, ROOT, false);
            var requests := [Request(true, 0, Write(path, Ok(content), options)), Request(true, 0, second)];
            Answers(StoreAfter(map[], requests, 2), true, 0, List(ROOT, recursive, 0), Panicked)
  {
    assert path.value != "" by { assert Split("") == [""]; }
    var second := if move then Move(path, ROOT, false) else Copy(path, ROOT, false);
    var requests := [Request(true, 0, Write(path, Ok(content), options)), Request(true, 0, second)];
    var empty: Store := map[];
    assert StoreAfter(empty, requests, 0) == empty;
    assert StoreAfter(empty, requests, 1) == empty[path.value := Written(options, content, 0)];
    assert FilledSince(empty, requests, 1, 2);
    RootListingPanicsIff(map[], requests, 2, recursive);
  }
}
