/**
  The in-memory adapter's object map with its byte slices on the heap, each
  operation proved against `Memory.Effect` and `Memory.Answers`. Operations
  update the map only: `modifies this` never lists a content slice, so readers
  that share one keep their snapshot.
 */
module MemoryAdapter {
  import opened Common
  import opened Text
  import opened Sorting
  import opened Paths
  import opened Listing
  import opened Memory

  datatype Stored = Stored(
    content: array<Byte>, metadata: map<string, string>, contentType: string,
    visibility: Visibility, modified: Time)

  ghost function Value(o: Stored): Object
    reads o.content
  {
    Object(o.content[..], o.metadata, o.contentType, o.visibility, o.modified)
  }

  method Clone(source: seq<Byte>) returns (copy: array<Byte>)
    ensures fresh(copy) && copy[..] == source
  {
    copy := new Byte[|source|](i requires 0 <= i < |source| => source[i]);
  }

  /** A cursor over part of a slice it may share with the store. */
  class RangeReader {
    const data: array<Byte>
    const end: nat
    var position: nat

    constructor (data: array<Byte>, start: nat, end: nat)
      requires start <= end <= data.Length
      ensures this.data == data && Valid() && Remaining() == data[start..end]
    {
      this.data, this.end, this.position := data, end, start;
    }

    ghost predicate Valid()
      reads this
    {
      position <= end <= data.Length
    }

    ghost function Remaining(): seq<Byte>
      requires Valid()
      reads this, data
    {
      data[position..end]
    }

    method Read(count: nat) returns (chunk: seq<Byte>)
      requires Valid()
      modifies this
      ensures Valid() && old(Remaining()) == chunk + Remaining()
      ensures |chunk| == Min(count, |old(Remaining())|)
    {
      var next := Min(position + count, end);
      chunk := data[position..next];
      position := next;
    }
  }

  class Adapter {
    var objects: map<string, Stored>

    constructor ()
      ensures objects == map[] && View() == map[]
    {
      objects := map[];
    }

    ghost function View(): Store
      reads this, set key | key in objects :: objects[key].content
    {
      map key | key in objects :: Value(objects[key])
    }

    method Open(live: bool, path: Path) returns (r: Outcome<RangeReader>)
      ensures r.Err? ==> Answers(View(), live, 0, Op.Open(path), Failure(r.error))
      ensures r.Ok? ==> fresh(r.value) && fresh(r.value.data) && r.value.Valid()
                        && Answers(View(), live, 0, Op.Open(path), Bytes(r.value.Remaining()))
    {
      if !live { return Err(Canceled); }
      if path.value !in objects { return Err(NotFound); }
      var copy := Clone(objects[path.value].content[..]);
      var reader := new RangeReader(copy, 0, copy.Length);
      assert reader.Remaining() == copy[..] == View()[path.value].content;
      r := Ok(reader);
    }

    /** The reader shares the stored slice. */
    method OpenRange(live: bool, path: Path, offset: int, length: int) returns (r: Outcome<RangeReader>)
      ensures r.Err? ==> Answers(View(), live, 0, Op.OpenRange(path, offset, length), Failure(r.error))
      ensures r.Ok? ==> fresh(r.value) && path.value in objects && r.value.data == objects[path.value].content
                        && r.value.Valid()
                        && Answers(View(), live, 0, Op.OpenRange(path, offset, length), Bytes(r.value.Remaining()))
    {
      if offset < 0 || length <= 0 { return Err(InvalidRange); }
      if !live { return Err(Canceled); }
      if path.value !in objects { return Err(NotFound); }
      var content := objects[path.value].content;
      if offset >= content.Length { return Err(InvalidRange); }
      var available := content.Length - offset;
      var end := offset + Min(length, available);
      var reader := new RangeReader(content, offset, end);
      assert content[..][offset..end] == content[offset..end];
      r := Ok(reader);
    }

    method Write(live: bool, now: Time, path: Path, source: Outcome<seq<Byte>>, options: WriteOptions)
      returns (r: Response)
      modifies this
      ensures View() == Effect(old(View()), live, now, Op.Write(path, source, options))
      ensures Answers(old(View()), live, now, Op.Write(path, source, options), r)
    {
      if path.IsRoot() { return Failure(InvalidPath); }
      var visibility := NormalizeVisibility(options.visibility);
      if visibility.Err? { return Failure(visibility.error); }
      if source.Err? { return Failure(source.error); }
      if !live { return Failure(Canceled); }
      var copy := Clone(source.value);
      var stored := Stored(copy, options.metadata, options.contentType, visibility.value, now);
      if options.ifNoneMatch && path.value in objects { return Failure(PreconditionFailed); }
      objects := objects[path.value := stored];
      assert Value(stored) == Written(options, source.value, now);
      r := Described(
        Metadata(path, FileKind, copy.Length, now, options.contentType, options.metadata, visibility.value));
    }

    method Delete(live: bool, path: Path) returns (r: Response)
      modifies this
      ensures View() == Effect(old(View()), live, 0, Op.Delete(path))
      ensures Answers(old(View()), live, 0, Op.Delete(path), r)
    {
      if !live { return Failure(Canceled); }
      if path.value !in objects { return Failure(NotFound); }
      objects := objects - {path.value};
      r := Done;
    }

    method Stat(live: bool, path: Path) returns (r: Response)
      ensures Answers(View(), live, 0, Op.Stat(path), r)
    {
      if !live { return Failure(Canceled); }
      if path.value !in objects { return Failure(NotFound); }
      var o := objects[path.value];
      r := Described(Metadata(path, FileKind, o.content.Length, o.modified, o.contentType, o.metadata, o.visibility));
    }

    method Copy(live: bool, now: Time, source: Path, destination: Path, overwrite: bool) returns (r: Response)
      modifies this
      ensures View() == Effect(old(View()), live, now, Op.Copy(source, destination, overwrite))
      ensures Answers(old(View()), live, now, Op.Copy(source, destination, overwrite), r)
    {
      if !live { return Failure(Canceled); }
      if source.value !in objects { return Failure(NotFound); }
      if !overwrite && destination.value in objects { return Failure(AlreadyExists); }
      var o := objects[source.value];
      var copy := Clone(o.content[..]);
      objects := objects[destination.value := o.(content := copy, modified := now)];
      assert Value(objects[destination.value]) == old(View())[source.value].(modified := now);
      r := Done;
    }

    /** The moved object keeps its slice. */
    method Move(live: bool, now: Time, source: Path, destination: Path, overwrite: bool) returns (r: Response)
      modifies this
      ensures View() == Effect(old(View()), live, now, Op.Move(source, destination, overwrite))
      ensures Answers(old(View()), live, now, Op.Move(source, destination, overwrite), r)
    {
      if !live { return Failure(Canceled); }
      if source.value !in objects { return Failure(NotFound); }
      if !overwrite && destination.value in objects { return Failure(AlreadyExists); }
      if source == destination { return Done; }
      var o := objects[source.value];
      objects := objects[destination.value := o.(modified := now)];
      objects := objects - {source.value};
      assert Value(objects[destination.value]) == old(View())[source.value].(modified := now);
      r := Done;
    }

    method SetMetadata(live: bool, now: Time, path: Path, metadata: map<string, string>) returns (r: Response)
      modifies this
      ensures View() == Effect(old(View()), live, now, Op.SetMetadata(path, metadata))
      ensures Answers(old(View()), live, now, Op.SetMetadata(path, metadata), r)
    {
      if !live { return Failure(Canceled); }
      if path.value !in objects { return Failure(NotFound); }
      objects := objects[path.value := objects[path.value].(metadata := metadata, modified := now)];
      assert Value(objects[path.value]) == old(View())[path.value].(metadata := metadata, modified := now);
      r := Done;
    }

    method SetVisibility(live: bool, now: Time, path: Path, visibility: VisibilityOption) returns (r: Response)
      modifies this
      ensures View() == Effect(old(View()), live, now, Op.SetVisibility(path, visibility))
      ensures Answers(old(View()), live, now, Op.SetVisibility(path, visibility), r)
    {
      var normalized := NormalizeVisibility(visibility);
      if normalized.Err? { return Failure(normalized.error); }
      if !live { return Failure(Canceled); }
      if path.value !in objects { return Failure(NotFound); }
      objects := objects[path.value := objects[path.value].(visibility := normalized.value, modified := now)];
      assert Value(objects[path.value])
          == old(View())[path.value].(visibility := normalized.value, modified := now);
      r := Done;
    }

    method List(live: bool, directory: Path, recursive: bool, limit: int) returns (r: Response)
      requires ValidStore(View()) && Valid(directory)
      ensures AnswersList(View(), live, directory, recursive, limit, r)
    {
      ghost var store := View();
      assert SizesOf(objects, store);
      r := ListObjects(objects, store, live, directory, recursive, limit);
      assert View() == store;
    }
  }

  /** The object map supplies keys, sizes and times; listing never looks at the bytes. */
  ghost predicate SizesOf(objects: map<string, Stored>, store: Store)
  {
    && objects.Keys == store.Keys
    && forall key :: key in objects ==>
         objects[key].content.Length == |store[key].content| && objects[key].modified == store[key].modified
  }

  /** The entry one key contributes; an error is MustParsePath panicking. */
  function EntryOf(prefix: string, recursive: bool, name: string, size: nat, modified: Time): Outcome<Entry>
    requires prefix <= name
  {
    var remainder := name[|prefix|..];
    if !recursive && '/' in remainder then
      match Parse(prefix + BeforeSlash(remainder))
      case Err(e) => Err(e)
      case Ok(path) => Ok(Entry(path, DirectoryKind, 0, 0))
    else
      match Parse(name)
      case Err(e) => Err(e)
      case Ok(path) => Ok(Entry(path, FileKind, size, modified))
  }

  lemma EntryOfListed(directory: Path, recursive: bool, key: string, o: Object)
    requires Valid(directory) && Valid(Path(key)) && ListPrefix(directory) <= key
    ensures var r := EntryOf(ListPrefix(directory), recursive, key, |o.content|, o.modified);
            if key == "" then r.Err? && directory.IsRoot()
            else r == Ok(Listed(ListPrefix(directory), recursive, key, o))
  {
    if key != "" { ListedNameParses(directory, recursive, key); }
    ListedNameIs(ListPrefix(directory), recursive, key);
  }

  /** The body of the pass over the object map: one key. */
  method CollectKey(
    objects: map<string, Stored>, ghost store: Store, directory: Path, recursive: bool,
    name: string, ghost order: seq<string>, byPath: map<string, Entry>)
    returns (updated: map<string, Entry>, panicked: bool)
    requires SizesOf(objects, store) && name in objects && Valid(directory) && Valid(Path(name))
    requires (forall key :: key in order ==> key in store)
    requires byPath == Pass(store, ListPrefix(directory), recursive, order)
    ensures panicked <==> directory.IsRoot() && name == ""
    ensures !panicked ==> updated == Pass(store, ListPrefix(directory), recursive, order + [name])
  {
    var prefix := ListPrefix(directory);
    OneMoreKey(store, prefix, recursive, order, name);
    if !(prefix <= name) { return byPath, false; }
    var stored := objects[name];
    EntryOfListed(directory, recursive, name, store[name]);
    var entry := EntryOf(prefix, recursive, name, stored.content.Length, stored.modified);
    if entry.Err? { return byPath, true; }
    updated, panicked := byPath[entry.value.path.value := entry.value], false;
  }

  /** One pass over the object map, in some iteration order. */
  method Collect(objects: map<string, Stored>, ghost store: Store, directory: Path, recursive: bool)
    returns (byPath: map<string, Entry>, panicked: bool, ghost order: seq<string>)
    requires SizesOf(objects, store) && ValidStore(store) && Valid(directory)
    ensures panicked <==> ListPanics(store, directory, recursive)
    ensures !panicked ==> IsOrder(store, order) && byPath == Pass(store, ListPrefix(directory), recursive, order)
  {
    byPath, panicked, order := map[], false, [];
    var unseen := objects.Keys;
    while unseen != {}
      invariant !panicked && Visited(store, unseen, order)
      invariant byPath == Pass(store, ListPrefix(directory), recursive, order)
      invariant directory.IsRoot() ==> "" !in order
      decreases unseen
    {
      var name :| name in unseen;
      VisitOneMore(store, unseen, order, name);
      unseen := unseen - {name};
      byPath, panicked := CollectKey(objects, store, directory, recursive, name, order, byPath);
      if panicked {
        ListPanicsIff(store, directory, recursive);
        return;
      }
      order := order + [name];
    }
    ListPanicsIff(store, directory, recursive);
  }

  /** The keys visited, each once, and those still unseen are the keys of the store. */
  ghost predicate Visited(store: Store, unseen: set<string>, order: seq<string>)
  {
    && (forall key :: key in store <==> key in unseen || key in order)
    && (forall key :: key in order ==> key !in unseen)
    && (forall i, j :: 0 <= i < j < |order| ==> order[i] != order[j])
  }

  lemma VisitOneMore(store: Store, unseen: set<string>, order: seq<string>, name: string)
    requires Visited(store, unseen, order) && name in unseen
    ensures Visited(store, unseen - {name}, order + [name])
  {}

  lemma ListedNameIs(prefix: string, recursive: bool, name: string)
    requires prefix <= name
    ensures ListedName(prefix, recursive, name) ==
            if ListedAsDirectory(prefix, recursive, name) then prefix + BeforeSlash(name[|prefix|..]) else name
  {
    assert name == prefix + name[|prefix|..];
  }

  /** Collects, sorts and truncates. */
  method ListObjects(
    objects: map<string, Stored>, ghost store: Store, live: bool, directory: Path, recursive: bool, limit: int)
    returns (r: Response)
    requires SizesOf(objects, store) && ValidStore(store) && Valid(directory)
    ensures AnswersList(store, live, directory, recursive, limit, r)
  {
    if !live { return Failure(Canceled); }
    if limit < 0 { return Failure(InvalidArgument); }
    ghost var order;
    var byPath, panicked;
    byPath, panicked, order := Collect(objects, store, directory, recursive);
    if panicked { return Panicked; }
    forall p | p in byPath ensures byPath[p].path == Path(p) {
      PassReports(store, ListPrefix(directory), recursive, order, p);
    }
    var entries := Materialize(byPath);
    var sorted := SortEntries(entries);
    SortedPage(store, directory, recursive, limit, order, byPath, entries);
    r := Entries(sorted[..EffectiveLimit(limit, |sorted|)], false);
  }

  /** The entries are the map's values, each once. */
  ghost predicate Enumerates(byPath: map<string, Entry>, entries: seq<Entry>)
  {
    && (forall e :: e in entries ==> e.path.value in byPath && byPath[e.path.value] == e)
    && (forall p :: p in byPath ==> byPath[p] in entries)
    && DistinctBy(PathText, entries)
  }

  /** The map's values in some order. */
  method Materialize(byPath: map<string, Entry>) returns (entries: seq<Entry>)
    requires forall p :: p in byPath ==> byPath[p].path == Path(p)
    ensures Enumerates(byPath, entries)
  {
    entries := [];
    var unseen := byPath.Keys;
    while unseen != {}
      invariant unseen <= byPath.Keys
      invariant forall e :: e in entries ==> e.path.value in byPath.Keys - unseen && byPath[e.path.value] == e
      invariant forall p :: p in byPath.Keys - unseen ==> byPath[p] in entries
      invariant DistinctBy(PathText, entries)
      decreases unseen
    {
      var p :| p in unseen;
      assert byPath[p] !in entries;
      unseen, entries := unseen - {p}, entries + [byPath[p]];
    }
  }

  lemma InPathsOf(entries: seq<Entry>, e: Entry)
    requires e in entries
    ensures e.path.value in PathsOf(entries)
  {
    var i :| 0 <= i < |entries| && entries[i] == e;
    assert PathsOf(entries)[i] == e.path.value;
  }

  /** Sorting the collected entries gives the listing of that iteration order. */
  lemma SortedListing(
    store: Store, directory: Path, recursive: bool, order: seq<string>, byPath: map<string, Entry>,
    entries: seq<Entry>)
    requires IsOrder(store, order) && byPath == Pass(store, ListPrefix(directory), recursive, order)
    requires Enumerates(byPath, entries)
    ensures CollectedBy(store, directory, recursive, order, SortEntries(entries))
  {
    var sorted := SortEntries(entries);
    SortEntriesSorts(entries);
    SortedDistinctIsStrict(entries);
    forall i | 0 <= i < |sorted|
      ensures sorted[i].path.value in byPath && byPath[sorted[i].path.value] == sorted[i]
    {
      assert sorted[i] in entries;
    }
    forall p | p in byPath ensures p in PathsOf(sorted) {
      PassReports(store, ListPrefix(directory), recursive, order, p);
      InPathsOf(sorted, byPath[p]);
    }
  }

  lemma SortedPage(
    store: Store, directory: Path, recursive: bool, limit: nat, order: seq<string>, byPath: map<string, Entry>,
    entries: seq<Entry>)
    requires IsOrder(store, order) && byPath == Pass(store, ListPrefix(directory), recursive, order)
    requires Enumerates(byPath, entries)
    ensures IsListing(store, directory, recursive, limit,
                      SortEntries(entries)[..EffectiveLimit(limit, |SortEntries(entries)|)])
  {
    SortedListing(store, directory, recursive, order, byPath, entries);
    OrderGivesListing(store, directory, recursive, order, SortEntries(entries));
  }

  // ---- snapshots ----

  /** What happens after a reader or an iterator was opened: operations on the adapter, and its own use. */
  datatype Action = Operate(live: bool, now: Time, op: Op) | Use(count: nat)

  function AfterAction(store: Store, action: Action): Store
  {
    match action
    case Operate(live, now, op) => Effect(store, live, now, op)
    case Use(_) => store
  }

  function AfterActions(store: Store, actions: seq<Action>): Store
  {
    if actions == [] then store
    else AfterAction(AfterActions(store, actions[..|actions| - 1]), actions[|actions| - 1])
  }

  lemma OneMoreAction(store: Store, actions: seq<Action>, i: nat)
    requires i < |actions|
    ensures AfterActions(store, actions[..i + 1]) == AfterAction(AfterActions(store, actions[..i]), actions[i])
  {
    assert actions[..i + 1][..i] == actions[..i];
  }

  method Perform(a: Adapter, live: bool, now: Time, op: Op)
    modifies a
    ensures a.View() == Effect(old(a.View()), live, now, op)
  {
    match op {
      case Write(path, source, options) => var _ := a.Write(live, now, path, source, options);
      case Delete(path) => var _ := a.Delete(live, path);
      case Copy(source, destination, overwrite) => var _ := a.Copy(live, now, source, destination, overwrite);
      case Move(source, destination, overwrite) => var _ := a.Move(live, now, source, destination, overwrite);
      case SetMetadata(path, metadata) => var _ := a.SetMetadata(live, now, path, metadata);
      case SetVisibility(path, visibility) => var _ := a.SetVisibility(live, now, path, visibility);
      case _ =>
    }
  }

  /** What a reader has handed out and what it still holds. */
  ghost predicate Delivers(reader: RangeReader, got: seq<Byte>, whole: seq<Byte>)
    reads reader, reader.data
  {
    reader.Valid() && got + reader.Remaining() == whole
  }

  ghost predicate Yields(listing: EntryIterator, got: seq<Entry>, whole: seq<Entry>)
    reads listing
  {
    got + listing.Remaining() == whole
  }

  method ReadMore(reader: RangeReader, count: nat, got: seq<Byte>, ghost whole: seq<Byte>) returns (more: seq<Byte>)
    requires Delivers(reader, got, whole)
    modifies reader
    ensures Delivers(reader, more, whole) && |more| == Min(|got| + count, |whole|)
  {
    var chunk := reader.Read(count);
    Regroup(got, chunk, reader.Remaining());
    more := got + chunk;
  }

  method NextOf(listing: EntryIterator, got: seq<Entry>, ghost whole: seq<Entry>)
    returns (more: seq<Entry>, ended: bool)
    requires Yields(listing, got, whole)
    modifies listing
    ensures Yields(listing, more, whole) && (ended <==> |got| == |whole|) && |more| == Min(|got| + 1, |whole|)
  {
    var advanced := listing.Next();
    ended := !advanced;
    more := if advanced then got + [listing.current] else got;
  }

  method ActOnRange(a: Adapter, reader: RangeReader, action: Action, got: seq<Byte>, ghost whole: seq<Byte>)
    returns (more: seq<Byte>)
    requires Delivers(reader, got, whole)
    modifies a, reader
    ensures Delivers(reader, more, whole) && a.View() == AfterAction(old(a.View()), action)
  {
    match action {
      case Operate(live, now, op) =>
        Perform(a, live, now, op);
        more := got;
      case Use(count) => more := ReadMore(reader, count, got, whole);
    }
  }

  method ActOnListing(a: Adapter, listing: EntryIterator, action: Action, got: seq<Entry>, ghost whole: seq<Entry>)
    returns (more: seq<Entry>)
    requires Yields(listing, got, whole)
    modifies a, listing
    ensures Yields(listing, more, whole) && a.View() == AfterAction(old(a.View()), action)
  {
    match action {
      case Operate(live, now, op) =>
        Perform(a, live, now, op);
        more := got;
      case Use(_) =>
        var ended;
        more, ended := NextOf(listing, got, whole);
    }
  }

  method UseRange(a: Adapter, reader: RangeReader, actions: seq<Action>) returns (got: seq<Byte>)
    requires reader.Valid()
    modifies a, reader
    ensures got == old(reader.Remaining()) && a.View() == AfterActions(old(a.View()), actions)
  {
    ghost var store, whole := a.View(), reader.Remaining();
    got := [];
    for i := 0 to |actions|
      invariant Delivers(reader, got, whole) && a.View() == AfterActions(store, actions[..i])
    {
      OneMoreAction(store, actions, i);
      got := ActOnRange(a, reader, actions[i], got, whole);
    }
    assert actions[..|actions|] == actions;
    got := ReadMore(reader, reader.end, got, whole);
  }

  method UseListing(a: Adapter, listing: EntryIterator, actions: seq<Action>) returns (got: seq<Entry>)
    modifies a, listing
    ensures got == old(listing.Remaining()) && a.View() == AfterActions(old(a.View()), actions)
  {
    ghost var store, whole := a.View(), listing.Remaining();
    got := [];
    for i := 0 to |actions|
      invariant Yields(listing, got, whole) && a.View() == AfterActions(store, actions[..i])
    {
      OneMoreAction(store, actions, i);
      got := ActOnListing(a, listing, actions[i], got, whole);
    }
    assert actions[..|actions|] == actions;
    var ended := false;
    while !ended
      invariant Yields(listing, got, whole) && (ended ==> |got| == |whole|)
      invariant a.View() == AfterActions(store, actions)
      decreases |whole| - |got|, !ended
    {
      got, ended := NextOf(listing, got, whole);
    }
  }

  /**
    A range reader, used in any interleaving with operations on the adapter and then to its end, hands out
    the bytes the range had when it was opened.
   */
  method RangeSurvives(a: Adapter, path: Path, offset: int, length: int, actions: seq<Action>) returns (r: Response)
    modifies a
    ensures r == Answer(old(a.View()), true, 0, OpenRange(path, offset, length))
    ensures r.Bytes? ==> a.View() == AfterActions(old(a.View()), actions)
  {
    ghost var store := a.View();
    var outcome := a.OpenRange(true, path, offset, length);
    assert a.View() == store;
    if outcome.Err? { return Failure(outcome.error); }
    assert Bytes(outcome.value.Remaining()) == Answer(store, true, 0, OpenRange(path, offset, length));
    var got := UseRange(a, outcome.value, actions);
    r := Bytes(got);
  }

  /** An iterator yields, in any interleaving and then to its end, the listing of the store it was opened on. */
  method ListingSurvives(
    a: Adapter, directory: Path, recursive: bool, limit: int, actions: seq<Action>)
    returns (r: Response, yielded: seq<Entry>)
    requires ValidStore(a.View()) && Valid(directory)
    modifies a
    ensures AnswersList(old(a.View()), true, directory, recursive, limit, r)
    ensures r.Entries? ==> yielded == r.entries && a.View() == AfterActions(old(a.View()), actions)
  {
    ghost var store := a.View();
    r := a.List(true, directory, recursive, limit);
    assert a.View() == store;
    yielded := [];
    if r.Entries? {
      yielded := UseNewListing(a, r.entries, actions);
    }
  }

  method UseNewListing(a: Adapter, entries: seq<Entry>, actions: seq<Action>) returns (yielded: seq<Entry>)
    modifies a
    ensures yielded == entries && a.View() == AfterActions(old(a.View()), actions)
  {
    ghost var store := a.View();
    var listing := new EntryIterator(entries);
    assert a.View() == store && listing.Remaining() == entries;
    yielded := UseListing(a, listing, actions);
  }
}
