/** The io/fs bridge (iofs.go) over the in-memory adapter. */
module IOFS {
  import opened Common
  import opened Text
  import opened Sorting
  import opened Paths
  import opened Listing
  import opened Memory
  import opened MemoryAdapter

  // ---- names ----

  /** `fs.ValidPath` on code points: "." or unrooted elements that are neither empty, "." nor "..". */
  predicate ValidName(name: string)
  {
    name == "." ||
    forall i :: 0 <= i < |Split(name)| ==> Split(name)[i] != "" && Split(name)[i] != "." && Split(name)[i] != ".."
  }

  function PathOfName(name: string): Outcome<Path>
  {
    if !ValidName(name) || '\\' in name then Err(InvalidArgument)
    else if name == "." then Ok(ROOT)
    else if Parse(name).Err? then Err(InvalidArgument)
    else Parse(name)
  }

  function NameOfPath(path: Path): string { if path.IsRoot() then "." else path.value }

  /** Accepted names are exactly the names of valid paths: io/fs names are never normalized. */
  lemma NamesArePaths(name: string, path: Path)
    ensures PathOfName(name) == Ok(path) <==> Valid(path) && name == NameOfPath(path)
  {
    if PathOfName(name) == Ok(path) && name != "." {
      assert Slashed(name) == name;
      KeptAll(Split(name));
      JoinSplit(name);
      ParseYieldsNormal(name);
    }
    if Valid(path) && !path.IsRoot() && name == NameOfPath(path) {
      ParseNormal(path);
      JoinSplit(name);
      JoinDrawsFrom(Split(name));
      assert Split(".") == ["."] by { SplitSlashless("."); }
    }
  }

  // ---- what Stat and ReadDir report ----

  /** Kind, size and time, as Stat and directory entries expose them. */
  datatype Info = Info(kind: Kind, size: nat, modified: Time)

  const DIRECTORY_INFO := Info(DirectoryKind, 0, 0)

  ghost predicate HasDescendant(store: Store, path: Path)
  {
    exists key :: key in store && path.value + "/" <= key
  }

  /** The specification of Stat: Root, an object, a synthesized directory, or nothing. */
  ghost function InfoOf(store: Store, path: Path): Outcome<Info>
  {
    if path.IsRoot() then Ok(DIRECTORY_INFO)
    else if path.value in store then Ok(Info(FileKind, |store[path.value].content|, store[path.value].modified))
    else if HasDescendant(store, path) then Ok(DIRECTORY_INFO)
    else Err(NotFound)
  }

  function EntryInfo(e: Entry): Info { Info(e.kind, e.size, e.modified) }

  /** Object keys are normal and no key lies below another. */
  ghost predicate CollisionFree(store: Store)
  {
    && (forall key :: key in store ==> Normal(Path(key)))
    && (forall key, other :: key in store && other in store ==> !(key + "/" <= other))
  }

  ghost predicate IsProperAncestor(path: Path, key: string)
  {
    var p, k := Segments(path), Segments(Path(key));
    |p| < |k| && k[..|p|] == p
  }

  lemma DescendantIsAncestry(store: Store, path: Path)
    requires Normal(path) && forall key :: key in store ==> Normal(Path(key))
    ensures HasDescendant(store, path) <==> exists key :: key in store && IsProperAncestor(path, key)
    ensures forall key :: key in store ==> (path.value + "/" <= key <==> IsProperAncestor(path, key))
  {
    forall key | key in store
      ensures path.value + "/" <= key <==> IsProperAncestor(path, key)
    {
      ValidSegments(path);
      ValidSegments(Path(key));
      PrefixIsLeadingPieces(Segments(path), Segments(Path(key)));
    }
  }

  /** The directories Stat reports are exactly Root and the proper ancestors of stored keys. */
  lemma DirectoriesAreAncestors(store: Store, path: Path)
    requires CollisionFree(store) && Valid(path)
    ensures (InfoOf(store, path).Ok? && InfoOf(store, path).value.kind == DirectoryKind)
            <==> path.IsRoot() || exists key :: key in store && IsProperAncestor(path, key)
    ensures (InfoOf(store, path).Ok? && InfoOf(store, path).value.kind == FileKind) <==> path.value in store
  {
    assert "" !in store by { assert Split("") == [""]; }
    if !path.IsRoot() {
      DescendantIsAncestry(store, path);
    }
  }

  /** A path one segment below a directory. */
  lemma ChildPath(directory: Path, path: Path, name: string)
    requires Valid(directory) && Normal(path) && Segments(path) == Segments(directory) + [name]
    ensures Dir(path) == directory && Base(path) == name && path.value == ListPrefix(directory) + name
  {
    var d := Segments(directory);
    DirBaseSegments(path);
    SameLast(Segments(Dir(path)), Base(path), d, name);
    SameSegments(Dir(path), directory);
    ValidSegments(path);
    ValidSegments(directory);
    if d == [] { assert [] + [name] == [name]; } else { OneMorePiece(d, name); }
  }

  /** A listed entry is a normal path one segment below the directory. */
  lemma ListedChildPath(directory: Path, key: string, path: Path)
    requires Valid(directory) && Normal(Path(key)) && ListPrefix(directory) <= key
    requires path == Path(ListedName(ListPrefix(directory), false, key))
    ensures Normal(path) && Dir(path) == directory && path.value == ListPrefix(directory) + Base(path)
    ensures var d, k := Segments(directory), Segments(Path(key));
            |d| < |k| && Segments(path) == k[..|d| + 1]
            && (ListedAsDirectory(ListPrefix(directory), false, key) <==> |k| > |d| + 1)
  {
    var d, k := Segments(directory), Segments(Path(key));
    ListedSegments(directory, key);
    LeadingIsNormal(Path(key), |d| + 1);
    TakeOneMore(k, |d|);
    ChildPath(directory, path, k[|d|]);
  }

  /** Its kind, size and time are what Stat reports for it. */
  lemma ListedChildInfo(store: Store, directory: Path, key: string)
    requires CollisionFree(store) && Valid(directory) && key in store && ListPrefix(directory) <= key
    ensures var e := Listed(ListPrefix(directory), false, key, store[key]); InfoOf(store, e.path) == Ok(EntryInfo(e))
  {
    var e := Listed(ListPrefix(directory), false, key, store[key]);
    var d, k := Segments(directory), Segments(Path(key));
    ListedChildPath(directory, key, e.path);
    DescendantIsAncestry(store, e.path);
    assert !e.path.IsRoot() by { assert Split("") == [""]; }
    if |k| > |d| + 1 {
      assert IsProperAncestor(e.path, key);
    } else {
      assert Segments(e.path) == k;
      ValidSegments(e.path);
      ValidSegments(Path(key));
    }
  }

  // ---- the tree is coherent ----

  /** Every directory entry re-opens by name as what the entry says it is. */
  lemma EntriesReopen(store: Store, directory: Path, entries: seq<Entry>, i: nat)
    requires CollisionFree(store) && Valid(directory)
    requires IsFullListing(store, directory, false, entries) && i < |entries|
    ensures var e := entries[i];
            && PathOfName(ListPrefix(directory) + Base(e.path)) == Ok(e.path)
            && InfoOf(store, e.path) == Ok(EntryInfo(e))
            && Normal(e.path) && Dir(e.path) == directory
            && e.path.value == ListPrefix(directory) + Base(e.path)
  {
    assert Reports(store, ListPrefix(directory), false, entries[i]);
    var key :| ListsKey(store, ListPrefix(directory), false, entries[i], key);
    ListedChildPath(directory, key, entries[i].path);
    ListedChildInfo(store, directory, key);
    assert !entries[i].path.IsRoot() by { assert Split("") == [""]; }
    NamesArePaths(entries[i].path.value, entries[i].path);
  }

  /** A key at or below a path is listed by the path's parent under the path itself. */
  lemma ParentListsLeading(path: Path, key: string)
    requires Normal(path) && Normal(Path(key))
    requires |Segments(path)| <= |Segments(Path(key))| && Segments(Path(key))[..|Segments(path)|] == Segments(path)
    ensures Valid(Dir(path)) && ListPrefix(Dir(path)) <= key
    ensures ListedName(ListPrefix(Dir(path)), false, key) == path.value
  {
    DirBaseSegments(path);
    var d, k := Segments(Dir(path)), Segments(Path(key));
    assert |Segments(path)| == |d| + 1;
    LeadingShorter(d, Base(path), k);
    ListedSegments(Dir(path), key);
    ValidSegments(path);
  }

  lemma ParentLists(store: Store, path: Path, key: string)
    requires CollisionFree(store) && Normal(path) && key in store && (key == path.value || path.value + "/" <= key)
    ensures Valid(Dir(path)) && ListPrefix(Dir(path)) <= key
    ensures ListedName(ListPrefix(Dir(path)), false, key) == path.value
  {
    DescendantIsAncestry(store, path);
    if key == path.value { assert Segments(path)[..|Segments(path)|] == Segments(path); }
    ParentListsLeading(path, key);
  }

  lemma KeyAtOrBelow(store: Store, path: Path) returns (key: string)
    requires !path.IsRoot() && InfoOf(store, path).Ok?
    ensures key in store && (key == path.value || path.value + "/" <= key)
  {
    key :| key in store && (key == path.value || path.value + "/" <= key);
  }

  lemma ListedAt(store: Store, directory: Path, entries: seq<Entry>, key: string) returns (i: nat)
    requires IsFullListing(store, directory, false, entries) && key in store && ListPrefix(directory) <= key
    ensures i < |entries| && entries[i].path.value == ListedName(ListPrefix(directory), false, key)
  {
    var names := PathsOf(entries);
    assert ListedName(ListPrefix(directory), false, key) in names;
    i :| 0 <= i < |names| && names[i] == ListedName(ListPrefix(directory), false, key);
  }

  lemma ParentIsDirectory(store: Store, path: Path, key: string)
    requires CollisionFree(store) && Valid(Dir(path)) && key in store && ListPrefix(Dir(path)) <= key
    ensures InfoOf(store, Dir(path)) == Ok(DIRECTORY_INFO)
  {
    if !Dir(path).IsRoot() {
      assert HasDescendant(store, Dir(path));
      assert Dir(path).value + "/" <= key;
    }
  }

  /** Every name Stat accepts appears in its parent's listing, and the parent is a directory. */
  lemma StatableIsListed(store: Store, path: Path, entries: seq<Entry>)
    requires CollisionFree(store) && Normal(path) && InfoOf(store, path).Ok?
    requires IsFullListing(store, Dir(path), false, entries)
    ensures exists i :: 0 <= i < |entries| && entries[i].path == path
                        && Ok(EntryInfo(entries[i])) == InfoOf(store, path)
    ensures InfoOf(store, Dir(path)) == Ok(DIRECTORY_INFO)
  {
    assert !path.IsRoot() by { assert Split("") == [""]; }
    var key := KeyAtOrBelow(store, path);
    ParentLists(store, path, key);
    ParentIsDirectory(store, path, key);
    var i := ListedAt(store, Dir(path), entries, key);
    assert entries[i].path == path;
    assert InfoOf(store, entries[i].path) == Ok(EntryInfo(entries[i])) by {
      EntriesReopen(store, Dir(path), entries, i);
    }
  }

  // ---- directory entries ----

  datatype DirEntry = DirEntry(name: string, info: Info)

  function DirEntriesOf(entries: seq<Entry>): (r: seq<DirEntry>)
    ensures |r| == |entries|
    ensures forall i :: 0 <= i < |entries| ==> r[i] == DirEntry(Base(entries[i].path), EntryInfo(entries[i]))
  {
    seq(|entries|, i requires 0 <= i < |entries| => DirEntry(Base(entries[i].path), EntryInfo(entries[i])))
  }

  function NameText(e: DirEntry): string { e.name }

  /** `sort.Slice` by name. */
  function SortByName(entries: seq<DirEntry>): seq<DirEntry> { SortBy(NameText, entries) }

  /** A valid store in which this directory can be listed: only a Root listing can meet an object at Root. */
  ghost predicate Listable(store: Store, directory: Path)
  {
    ValidStore(store) && Valid(directory) && (directory.IsRoot() ==> "" !in store)
  }

  lemma EntryIsChild(store: Store, directory: Path, e: Entry)
    requires Listable(store, directory) && Reports(store, ListPrefix(directory), false, e)
    ensures Normal(e.path) && e.path.value == ListPrefix(directory) + Base(e.path)
  {
    var key :| ListsKey(store, ListPrefix(directory), false, e, key);
    ListedChildPath(directory, key, e.path);
  }

  /** Sorting by name after listing by path changes nothing. */
  lemma NamesFollowPaths(store: Store, directory: Path, entries: seq<Entry>)
    requires Listable(store, directory) && IsFullListing(store, directory, false, entries)
    ensures AscendingBy(NameText, DirEntriesOf(entries)) && SortByName(DirEntriesOf(entries)) == DirEntriesOf(entries)
  {
    forall i, j | 0 <= i < j < |entries|
      ensures Less(Base(entries[i].path), Base(entries[j].path))
    {
      EntryIsChild(store, directory, entries[i]);
      EntryIsChild(store, directory, entries[j]);
      assert Less(PathsOf(entries)[i], PathsOf(entries)[j]);
      LessUnderPrefix(ListPrefix(directory), Base(entries[i].path), Base(entries[j].path));
    }
    var named := DirEntriesOf(entries);
    forall i, j | 0 <= i < j < |named| ensures Less(NameText(named[i]), NameText(named[j])) {
      assert Less(Base(entries[i].path), Base(entries[j].path));
    }
    AscendingStays(NameText, named);
  }

  /** Listing one entry decides whether a path is a synthesized directory. */
  lemma ProbeFindsDescendants(store: Store, path: Path, page: seq<Entry>)
    requires !path.IsRoot() && IsListing(store, path, false, 1, page)
    ensures page != [] <==> HasDescendant(store, path)
  {
    var full :| IsFullListing(store, path, false, full) && page == full[..EffectiveLimit(1, |full|)];
    if full != [] {
      assert Reports(store, ListPrefix(path), false, full[0]);
    }
    if HasDescendant(store, path) {
      var key :| key in store && path.value + "/" <= key;
      assert ListedName(ListPrefix(path), false, key) in PathsOf(full);
    }
  }

  // ---- the bridge ----

  /** The root is a directory, a synthesized directory has a listing, everything else is an object. */
  method Metadata(adapter: Adapter, path: Path) returns (r: Outcome<Info>)
    requires ValidStore(adapter.View()) && Valid(path)
    ensures r == InfoOf(adapter.View(), path)
  {
    if path.IsRoot() { return Ok(DIRECTORY_INFO); }
    ghost var store := adapter.View();
    var stat := adapter.Stat(true, path);
    if stat.Described? { return Ok(Info(stat.metadata.kind, stat.metadata.size, stat.metadata.modified)); }
    assert adapter.View() == store;
    var entries, panicked := ListDirectory(adapter, store, path, 1);
    ProbeFindsDescendants(store, path, entries);
    var listing := new EntryIterator(entries);
    var hasEntry := listing.Next();
    listing.Close();
    if hasEntry { return Ok(DIRECTORY_INFO); }
    r := Err(NotFound);
  }

  /** What ReadDir returns for a directory. */
  ghost predicate IsReadDir(store: Store, directory: Path, r: seq<DirEntry>)
  {
    exists entries :: IsFullListing(store, directory, false, entries) && r == DirEntriesOf(entries)
  }

  lemma UnlimitedListing(store: Store, directory: Path, entries: seq<Entry>)
    requires IsListing(store, directory, false, 0, entries)
    ensures IsFullListing(store, directory, false, entries)
  {
    var full :| IsFullListing(store, directory, false, full) && entries == full[..EffectiveLimit(0, |full|)];
    assert full[..|full|] == full;
  }

  lemma ReadDirOfListing(store: Store, directory: Path, entries: seq<Entry>)
    requires Listable(store, directory) && IsListing(store, directory, false, 0, entries)
    ensures IsReadDir(store, directory, SortByName(DirEntriesOf(entries)))
  {
    UnlimitedListing(store, directory, entries);
    NamesFollowPaths(store, directory, entries);
  }

  lemma OneMoreEntry(entries: seq<Entry>, k: nat)
    requires k < |entries|
    ensures DirEntriesOf(entries[..k + 1]) ==
            DirEntriesOf(entries[..k]) + [DirEntry(Base(entries[k].path), EntryInfo(entries[k]))]
  {
    TakeOneMore(entries, k);
  }

  /** Drains the listing, renames each entry to its base, and sorts by name. */
  method Rename(entries: seq<Entry>) returns (r: seq<DirEntry>)
    ensures r == SortByName(DirEntriesOf(entries))
  {
    var listing := new EntryIterator(entries);
    var collected: seq<DirEntry> := [];
    var more := listing.Next();
    while more
      invariant fresh(listing) && |collected| <= |entries| && collected == DirEntriesOf(entries[..|collected|])
      invariant more ==> |collected| < |entries| && listing.current == entries[|collected|]
                         && listing.Remaining() == entries[|collected| + 1..]
      invariant !more ==> |collected| == |entries|
      decreases |entries| - |collected|, more
    {
      var entry := listing.current;
      ghost var k := |collected|;
      OneMoreEntry(entries, k);
      collected := collected + [DirEntry(Base(entry.path), EntryInfo(entry))];
      more := listing.Next();
    }
    assert entries[..|entries|] == entries;
    listing.Close();
    r := SortByName(collected);
  }

  lemma ListAnswer(store: Store, path: Path, limit: nat, answer: Response)
    requires ValidStore(store) && Valid(path) && AnswersList(store, true, path, false, limit, answer)
    ensures answer.Panicked? <==> !Listable(store, path)
    ensures !answer.Panicked? ==> answer.Entries? && IsListing(store, path, false, limit, answer.entries)
  {
    ListPanicsIff(store, path, false);
  }

  /** Only listing Root can panic, and only with an object stored at Root. */
  method ListDirectory(adapter: Adapter, ghost store: Store, path: Path, limit: nat)
    returns (entries: seq<Entry>, panicked: bool)
    requires store == adapter.View() && ValidStore(store) && Valid(path)
    ensures store == adapter.View() && (panicked <==> !Listable(store, path))
    ensures !panicked ==> IsListing(store, path, false, limit, entries)
  {
    var answer := adapter.List(true, path, false, limit);
    assert adapter.View() == store;
    ListAnswer(store, path, limit, answer);
    panicked := answer.Panicked?;
    entries := if panicked then [] else answer.entries;
  }

  /** None is the panic of listing Root. */
  method DirectoryEntries(adapter: Adapter, ghost store: Store, path: Path) returns (r: Option<seq<DirEntry>>)
    requires store == adapter.View() && ValidStore(store) && Valid(path)
    ensures r.Some? <==> Listable(store, path)
    ensures r.Some? ==> IsReadDir(store, path, r.value)
  {
    var entries, panicked := ListDirectory(adapter, store, path, 0);
    if panicked { return None; }
    ReadDirOfListing(store, path, entries);
    var renamed := Rename(entries);
    r := Some(renamed);
  }

  method Stat(adapter: Adapter, name: string) returns (r: Outcome<Info>)
    requires ValidStore(adapter.View())
    ensures r == match PathOfName(name) case Err(e) => Err(e) case Ok(path) => InfoOf(adapter.View(), path)
  {
    var path := PathOfName(name);
    if path.Err? { return Err(path.error); }
    NamesArePaths(name, path.value);
    r := Metadata(adapter, path.value);
  }

  datatype ReadDirResult = Listing(entries: seq<DirEntry>) | ReadDirError(error: Error) | ReadDirPanicked

  /** The listing of a directory, the error of a name that is none, or the panic of listing Root. */
  ghost predicate IsReadDirResult(store: Store, name: string, r: ReadDirResult)
  {
    match PathOfName(name)
    case Err(e) => r == ReadDirError(e)
    case Ok(path) => IsReadDirAt(store, path, r)
  }

  ghost predicate IsReadDirAt(store: Store, path: Path, r: ReadDirResult)
  {
    match InfoOf(store, path)
    case Err(e) => r == ReadDirError(e)
    case Ok(info) =>
      if info.kind == FileKind then r == ReadDirError(Failed)
      else if Listable(store, path) then r.Listing? && IsReadDir(store, path, r.entries)
      else r == ReadDirPanicked
  }

  method ReadDir(adapter: Adapter, name: string) returns (r: ReadDirResult)
    requires ValidStore(adapter.View())
    ensures IsReadDirResult(adapter.View(), name, r)
  {
    var path := PathOfName(name);
    if path.Err? { return ReadDirError(path.error); }
    NamesArePaths(name, path.value);
    ghost var store := adapter.View();
    r := ReadDirAt(adapter, store, path.value);
    assert adapter.View() == store;
  }

  method ReadDirAt(adapter: Adapter, ghost store: Store, path: Path) returns (r: ReadDirResult)
    requires store == adapter.View() && ValidStore(store) && Valid(path)
    ensures IsReadDirAt(store, path, r)
  {
    var info := Metadata(adapter, path);
    assert adapter.View() == store;
    if info.Err? { return ReadDirError(info.error); }
    if info.value.kind != DirectoryKind { return ReadDirError(Failed); }
    var entries := DirectoryEntries(adapter, store, path);
    r := if entries.Some? then Listing(entries.value) else ReadDirPanicked;
  }

  // ---- an open directory ----

  /** Two's-complement 64-bit addition. */
  function Add64(a: int, b: int): int
  {
    var sum := a + b;
    if sum > MAX_INT64 then sum - 0x1_0000_0000_0000_0000
    else if sum < -MAX_INT64 - 1 then sum + 0x1_0000_0000_0000_0000
    else sum
  }

  datatype Page = Batch(entries: seq<DirEntry>) | EndOfDirectory | ClosedDirectory | PagePanicked

  class Directory {
    const entries: seq<DirEntry>
    var offset: int
    var closed: bool

    constructor (entries: seq<DirEntry>)
      requires |entries| <= MAX_INT64
      ensures this.entries == entries && Valid() && !closed && Unread() == entries
    {
      this.entries, this.offset, this.closed := entries, 0, false;
    }

    predicate Valid()
      reads this
    {
      0 <= offset <= |entries| <= MAX_INT64
    }

    function Unread(): seq<DirEntry>
      requires Valid()
      reads this
    {
      entries[offset..]
    }

    /** Pages partition what is unread; only a count that overflows the offset panics. */
    method ReadDir(count: int) returns (page: Page)
      requires Valid() && -MAX_INT64 - 1 <= count <= MAX_INT64
      modifies this
      ensures Valid() && closed == old(closed)
      ensures page == ClosedDirectory <==> closed
      ensures page == EndOfDirectory <==> !closed && count > 0 && old(Unread()) == []
      ensures page == PagePanicked <==> !closed && count > 0 && old(Unread()) != [] && old(offset) + count > MAX_INT64
      ensures page.Batch? ==>
                && old(Unread()) == page.entries + Unread()
                && |page.entries| == (if count <= 0 then |old(Unread())| else Min(count, |old(Unread())|))
      ensures !page.Batch? ==> Unread() == old(Unread())
    {
      if closed { return ClosedDirectory; }
      if count <= 0 {
        page := Batch(entries[offset..]);
        offset := |entries|;
        return;
      }
      if offset >= |entries| { return EndOfDirectory; }
      var end := Min(Add64(offset, count), |entries|);
      if end < offset { return PagePanicked; }
      page := Batch(entries[offset..end]);
      offset := end;
    }
  }

  function Flatten(pages: seq<seq<DirEntry>>): seq<DirEntry>
  {
    if pages == [] then [] else Flatten(pages[..|pages| - 1]) + pages[|pages| - 1]
  }

  /** Where a page of this size leaves the offset. */
  function Advance(offset: nat, length: nat, count: int): nat
  {
    if count <= 0 || offset + count > length then length else offset + count
  }

  function OffsetAfter(offset: nat, length: nat, counts: seq<int>): nat
  {
    if counts == [] then offset
    else Advance(OffsetAfter(offset, length, counts[..|counts| - 1]), length, counts[|counts| - 1])
  }

  /** Page `i` is asked for with entries left and a size that takes the offset out of the integer range. */
  ghost predicate OverflowsAt(offset: nat, length: nat, counts: seq<int>, i: nat)
    requires i < |counts|
  {
    var reached := OffsetAfter(offset, length, counts[..i]);
    reached < length && reached + counts[i] > MAX_INT64
  }

  /** Two entries, read one by one and then with the largest page size: the second page panics. */
  lemma OverflowExample()
    ensures OverflowsAt(0, 2, [1, MAX_INT64], 1) && !OverflowsAt(0, 2, [1, MAX_INT64], 0)
  {
    assert [1, MAX_INT64][..1] == [1] && [1][..0] == [] && [1, MAX_INT64][..0] == [];
    assert OffsetAfter(0, 2, [1]) == Advance(OffsetAfter(0, 2, []), 2, 1);
  }

  /**
    Reading with any page sizes and then to the end returns the whole listing once, in order, unless a page
    overflows the offset, which panics.
   */
  method ReadPages(d: Directory, counts: seq<int>) returns (pages: seq<seq<DirEntry>>, panicked: bool)
    requires d.Valid() && !d.closed
    requires forall i :: 0 <= i < |counts| ==> -MAX_INT64 - 1 <= counts[i] <= MAX_INT64
    modifies d
    ensures d.Valid() && Flatten(pages) + d.Unread() == old(d.Unread())
    ensures !panicked ==> Flatten(pages) == old(d.Unread())
    ensures panicked <==> exists i :: 0 <= i < |counts| && OverflowsAt(old(d.offset), |d.entries|, counts, i)
  {
    pages := [];
    for i := 0 to |counts|
      invariant d.Valid() && !d.closed && Flatten(pages) + d.Unread() == old(d.Unread())
      invariant d.offset == OffsetAfter(old(d.offset), |d.entries|, counts[..i])
      invariant forall j :: 0 <= j < i ==> !OverflowsAt(old(d.offset), |d.entries|, counts, j)
    {
      assert counts[..i + 1][..i] == counts[..i];
      ghost var unread := d.Unread();
      var page := d.ReadDir(counts[i]);
      if page.PagePanicked? {
        assert OverflowsAt(old(d.offset), |d.entries|, counts, i);
        return pages, true;
      }
      if page.Batch? {
        OneMorePage(pages, page.entries, d.Unread());
        pages := pages + [page.entries];
      }
    }
    assert counts[..|counts|] == counts;
    var rest := d.ReadDir(0);
    OneMorePage(pages, rest.entries, d.Unread());
    pages := pages + [rest.entries];
    panicked := false;
  }

  lemma OneMorePage(pages: seq<seq<DirEntry>>, page: seq<DirEntry>, unread: seq<DirEntry>)
    ensures Flatten(pages + [page]) + unread == Flatten(pages) + (page + unread)
  {
    assert (pages + [page])[..|pages|] == pages;
    Regroup(Flatten(pages), page, unread);
  }
}
