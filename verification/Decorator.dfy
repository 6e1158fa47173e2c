/** The prefix decorator (decorator/decorator.go) over the in-memory adapter. */
module Decorator {
  import opened Common
  import opened Text
  import opened Paths
  import opened Listing
  import opened Memory

  // ---- path translation ----

  /** The decorator's MustParsePath call; an error would be a panic. */
  function InternalOutcome(prefix: Path, path: Path): Outcome<Path>
  {
    if prefix.IsRoot() then Ok(path)
    else if path.IsRoot() then Ok(prefix)
    else Parse(prefix.value + "/" + path.value)
  }

  /** The call never panics, and appends segments. */
  lemma InternalAppends(prefix: Path, path: Path)
    requires Valid(prefix) && Valid(path)
    ensures InternalOutcome(prefix, path).Ok?
    ensures var r := InternalOutcome(prefix, path).value;
            Valid(r) && Segments(r) == Segments(prefix) + Segments(path)
            && (r.IsRoot() <==> prefix.IsRoot() && path.IsRoot())
            && (!prefix.IsRoot() && !path.IsRoot() ==> r.value == prefix.value + "/" + path.value)
  {
    if !prefix.IsRoot() && !path.IsRoot() { ParseConcat(prefix, path); }
  }

  function Internal(prefix: Path, path: Path): Path
    requires Valid(prefix) && Valid(path)
  {
    InternalAppends(prefix, path);
    InternalOutcome(prefix, path).value
  }

  function ExternalPath(prefix: Path, path: Path): Outcome<Path>
  {
    if prefix.IsRoot() then Ok(path)
    else if path == prefix then Ok(ROOT)
    else if prefix.value + "/" <= path.value then Parse(path.value[|prefix.value| + 1..])
    else Err(InvalidPath)
  }

  /** `p` leads `s`, and what follows does not begin with a drive letter. */
  ghost predicate Strippable(p: seq<string>, s: seq<string>)
  {
    |p| <= |s| && s[..|p|] == p && (|p| == |s| || p == [] || !HasVolume(s[|p|]))
  }

  /** Stripping drops leading segments, and fails exactly outside the prefix or before a drive letter. */
  lemma ExternalSegments(prefix: Path, path: Path)
    requires Valid(prefix) && Valid(path)
    ensures ExternalPath(prefix, path) ==
            if Strippable(Segments(prefix), Segments(path))
            then Ok(FromSegments(Segments(path)[|Segments(prefix)|..])) else Err(InvalidPath)
    ensures ExternalPath(prefix, path).Ok? ==>
              Valid(ExternalPath(prefix, path).value)
              && Segments(ExternalPath(prefix, path).value) == Segments(path)[|Segments(prefix)|..]
  {
    var p, s := Segments(prefix), Segments(path);
    ValidSegments(prefix);
    ValidSegments(path);
    if p != [] && s != [] {
      if |p| < |s| && s[..|p|] == p {
        ExternalBelow(prefix, path);
      } else {
        PrefixIsLeadingPieces(p, s);
        if |p| == |s| && s[..|p|] == p {
          assert s[..|p|] == s && s[|p|..] == [];
        }
      }
    }
  }

  lemma ExternalBelow(prefix: Path, path: Path)
    requires Normal(prefix) && Normal(path)
    requires |Segments(prefix)| < |Segments(path)| && Segments(path)[..|Segments(prefix)|] == Segments(prefix)
    ensures var rest := Segments(path)[|Segments(prefix)|..];
            if HasVolume(rest[0]) then ExternalPath(prefix, path) == Err(InvalidPath)
            else ExternalPath(prefix, path) == Ok(FromSegments(rest))
                 && Normal(FromSegments(rest)) && Segments(FromSegments(rest)) == rest
  {
    var p, s := Segments(prefix), Segments(path);
    ValidSegments(prefix);
    ValidSegments(path);
    PrefixIsLeadingPieces(p, s);
    TrailingParses(path, |p|);
  }

  /** A stored "a/C:/x" cannot be listed through the prefix "a". */
  lemma DriveBelowPrefixExample()
    ensures Valid(Path("a")) && Valid(Path("a/C:/x")) && ExternalPath(Path("a"), Path("a/C:/x")) == Err(InvalidPath)
  {
    DriveTailExample();
    OneSegment();
    ExternalBelow(Path("a"), Path("a/C:/x"));
  }

  lemma OneSegment()
    ensures Normal(Path("a")) && Segments(Path("a")) == ["a"]
  {
    assert !IsControl('a');
    assert CleanSegment("a") && NormalSegments(["a"]);
    FromSegmentsSegments(["a"]);
  }

  /** Stripping undoes prefixing on paths. */
  lemma ExternalInternal(prefix: Path, path: Path)
    requires Valid(prefix) && Valid(path)
    ensures ExternalPath(prefix, Internal(prefix, path)) == Ok(path)
  {
    if !prefix.IsRoot() && !path.IsRoot() {
      InternalAppends(prefix, path);
      ParseNormal(path);
      assert (prefix.value + "/" + path.value)[|prefix.value| + 1..] == path.value;
    }
  }

  // ---- operations and answers ----

  function Inward(prefix: Path, op: Op): Op
    requires Valid(prefix) && ValidOp(op)
  {
    var path := Internal(prefix, op.path);
    match op
    case Open(_) => Open(path)
    case OpenRange(_, offset, length) => OpenRange(path, offset, length)
    case Write(_, source, options) => Write(path, source, options)
    case Delete(_) => Delete(path)
    case Stat(_) => Stat(path)
    case List(_, recursive, limit) => List(path, recursive, limit)
    case Copy(_, destination, overwrite) => Copy(path, Internal(prefix, destination), overwrite)
    case Move(_, destination, overwrite) => Move(path, Internal(prefix, destination), overwrite)
    case SetMetadata(_, metadata) => SetMetadata(path, metadata)
    case GetVisibility(_) => GetVisibility(path)
    case SetVisibility(_, visibility) => SetVisibility(path, visibility)
  }

  /** Entries up to the first that cannot be stripped. */
  function ExternalEntries(prefix: Path, entries: seq<Entry>): seq<Entry>
  {
    if entries == [] || ExternalPath(prefix, entries[0].path).Err? then []
    else [entries[0].(path := ExternalPath(prefix, entries[0].path).value)] + ExternalEntries(prefix, entries[1..])
  }

  function Outward(prefix: Path, op: Op, r: Response): Response
  {
    match r
    case Described(m) => Described(m.(path := op.path))
    case Entries(entries, failed) =>
      var external := ExternalEntries(prefix, entries);
      Entries(external, failed || |external| < |entries|)
    case _ => r
  }

  function DecoratedEffect(prefix: Path, store: Store, live: bool, now: Time, op: Op): Store
    requires Valid(prefix) && ValidOp(op)
  {
    if op.Write? && op.path.IsRoot() then store
    else Effect(store, live, now, Inward(prefix, op))
  }

  function DecoratedAnswer(prefix: Path, store: Store, live: bool, now: Time, op: Op): Response
    requires Valid(prefix) && ValidOp(op) && !op.List?
  {
    if op.Write? && op.path.IsRoot() then Failure(InvalidPath)
    else Outward(prefix, op, Answer(store, live, now, Inward(prefix, op)))
  }

  ghost predicate DecoratedAnswers(prefix: Path, store: Store, live: bool, now: Time, op: Op, r: Response)
    requires Valid(prefix) && ValidOp(op)
  {
    if op.List? then
      exists inner :: AnswersList(store, live, Internal(prefix, op.path), op.recursive, op.limit, inner)
                      && r == Outward(prefix, op, inner)
    else r == DecoratedAnswer(prefix, store, live, now, op)
  }

  // ---- the simulation relation ----

  /** The backend key of a logical key. */
  function FullKey(prefix: Path, key: string): string
  {
    if prefix.IsRoot() then key
    else if key == "" then prefix.value
    else prefix.value + "/" + key
  }

  ghost predicate Outside(prefix: Path, key: string)
  {
    !prefix.IsRoot() && key != prefix.value && !(prefix.value + "/" <= key)
  }

  ghost predicate Agree(prefix: Path, backend: Store, logical: Store, key: string)
  {
    && (FullKey(prefix, key) in backend <==> key in logical)
    && (key in logical ==> logical[key] == backend[FullKey(prefix, key)])
  }

  ghost predicate SameOutside(prefix: Path, before: Store, after: Store)
  {
    forall key :: Outside(prefix, key) ==>
      (key in after <==> key in before) && (key in before ==> after[key] == before[key])
  }

  /** The stripped store holds exactly the backend objects at or below the prefix. */
  ghost predicate Stripped(prefix: Path, backend: Store, logical: Store)
  {
    forall key :: Agree(prefix, backend, logical, key)
  }

  /** `Stripped`, with backend keys and stripped keys all valid paths. */
  ghost predicate Related(prefix: Path, backend: Store, logical: Store)
  {
    Stripped(prefix, backend, logical) && ValidStore(backend) && ValidStore(logical)
  }

  lemma FullKeyInternal(prefix: Path, path: Path)
    requires Valid(prefix) && Valid(path)
    ensures Internal(prefix, path).value == FullKey(prefix, path.value)
  {
    InternalAppends(prefix, path);
  }

  lemma FullKeyInjective(prefix: Path, a: string, b: string)
    requires FullKey(prefix, a) == FullKey(prefix, b)
    ensures a == b
  {
    if !prefix.IsRoot() && a != "" && b != "" {
      var p := prefix.value + "/";
      assert (p + a)[|p|..] == a && (p + b)[|p|..] == b;
    }
  }

  lemma SameRefusal(prefix: Path, backend: Store, logical: Store, live: bool, op: Op)
    requires Valid(prefix) && ValidOp(op) && Stripped(prefix, backend, logical)
    requires !op.List? && !(op.Write? && op.path.IsRoot())
    ensures Refusal(backend, live, Inward(prefix, op)) == Refusal(logical, live, op)
  {
    FullKeyInternal(prefix, op.path);
    assert Agree(prefix, backend, logical, op.path.value);
    if op.Write? {
      InternalAppends(prefix, op.path);
    } else if op.Copy? || op.Move? {
      FullKeyInternal(prefix, op.destination);
      assert Agree(prefix, backend, logical, op.destination.value);
    }
  }

  /** Storing at and deleting from corresponding keys keeps the stores related. */
  lemma StrippedUpdate(prefix: Path, backend: Store, logical: Store, key: string, o: Object)
    requires Stripped(prefix, backend, logical)
    ensures Stripped(prefix, backend[FullKey(prefix, key) := o], logical[key := o])
    ensures Stripped(prefix, backend - {FullKey(prefix, key)}, logical - {key})
  {
    forall k {:trigger FullKey(prefix, k)}
      ensures Agree(prefix, backend[FullKey(prefix, key) := o], logical[key := o], k)
      ensures Agree(prefix, backend - {FullKey(prefix, key)}, logical - {key}, k)
    {
      assert Agree(prefix, backend, logical, k);
      if FullKey(prefix, k) == FullKey(prefix, key) { FullKeyInjective(prefix, k, key); }
    }
  }

  lemma EffectCommutes(prefix: Path, backend: Store, logical: Store, live: bool, now: Time, op: Op)
    requires Valid(prefix) && ValidOp(op) && Stripped(prefix, backend, logical)
    ensures Stripped(prefix, DecoratedEffect(prefix, backend, live, now, op), Effect(logical, live, now, op))
  {
    if !op.List? && !(op.Write? && op.path.IsRoot()) {
      SameRefusal(prefix, backend, logical, live, op);
      if Refusal(logical, live, op).None? {
        FullKeyInternal(prefix, op.path);
        var key := op.path.value;
        assert Agree(prefix, backend, logical, key);
        match op
        case Write(_, source, options) =>
          StrippedUpdate(prefix, backend, logical, key, Written(options, source.value, now));
        case Delete(_) => StrippedUpdate(prefix, backend, logical, key, logical[key]);
        case Copy(_, destination, _) =>
          FullKeyInternal(prefix, destination);
          StrippedUpdate(prefix, backend, logical, destination.value, logical[key].(modified := now));
        case Move(source, destination, _) =>
          FullKeyInternal(prefix, destination);
          var o := logical[key].(modified := now);
          StrippedUpdate(prefix, backend, logical, destination.value, o);
          var full := FullKey(prefix, destination.value);
          StrippedUpdate(prefix, backend[full := o], logical[destination.value := o], key, o);
          if Internal(prefix, source) == Internal(prefix, destination) {
            FullKeyInjective(prefix, source.value, destination.value);
          }
        case SetMetadata(_, metadata) =>
          StrippedUpdate(prefix, backend, logical, key, logical[key].(metadata := metadata, modified := now));
        case SetVisibility(_, v) =>
          var visibility := NormalizeVisibility(v).value;
          StrippedUpdate(prefix, backend, logical, key, logical[key].(visibility := visibility, modified := now));
        case _ =>
      }
    }
  }

  /** No operation touches a key outside the prefix. */
  lemma OutsideUntouched(prefix: Path, backend: Store, live: bool, now: Time, op: Op)
    requires Valid(prefix) && ValidOp(op)
    ensures SameOutside(prefix, backend, DecoratedEffect(prefix, backend, live, now, op))
  {
    if !(op.Write? && op.path.IsRoot()) {
      FullKeyInternal(prefix, op.path);
      if op.Copy? || op.Move? { FullKeyInternal(prefix, op.destination); }
    }
  }

  // ---- listings ----

  function Deepen(p: string, e: Entry): Entry { e.(path := Path(p + e.path.value)) }

  function DeepenAll(p: string, entries: seq<Entry>): (r: seq<Entry>)
    ensures |r| == |entries| && forall i :: 0 <= i < |entries| ==> r[i] == Deepen(p, entries[i])
  {
    seq(|entries|, i requires 0 <= i < |entries| => Deepen(p, entries[i]))
  }

  lemma ListPrefixInternal(prefix: Path, directory: Path)
    requires Normal(prefix) && Valid(directory)
    ensures ListPrefix(Internal(prefix, directory)) == prefix.value + "/" + ListPrefix(directory)
  {
    InternalAppends(prefix, directory);
    assert !prefix.IsRoot() by { assert Split("") == [""]; }
    if directory.IsRoot() {
      assert prefix.value + "/" + "" == prefix.value + "/";
    } else {
      assert prefix.value + "/" + directory.value + "/" == prefix.value + "/" + (directory.value + "/");
    }
  }

  /** Listing below a deeper prefix reports the same entries, deeper. */
  lemma ListedDeepens(p: string, prefix: string, recursive: bool, key: string, o: Object)
    requires prefix <= key
    ensures p + prefix <= p + key
    ensures Listed(p + prefix, recursive, p + key, o) == Deepen(p, Listed(prefix, recursive, key, o))
    ensures ListedName(p + prefix, recursive, p + key) == p + ListedName(prefix, recursive, key)
  {
    assert (p + key)[|p + prefix|..] == key[|prefix|..];
    var child := BeforeSlash(key[|prefix|..]);
    assert p + prefix + child == p + (prefix + child);
  }

  /** A backend key below the prefix is the prefix, a slash and a stored logical key. */
  lemma BelowKey(prefix: Path, backend: Store, logical: Store, key: string)
    requires Normal(prefix) && Related(prefix, backend, logical) && key in backend && prefix.value + "/" <= key
    ensures var k := key[|prefix.value| + 1..];
            k != "" && key == prefix.value + "/" + k && k in logical && logical[k] == backend[key]
  {
    var k := key[|prefix.value| + 1..];
    assert !prefix.IsRoot() by { assert Split("") == [""]; }
    assert Valid(Path(key));
    SlashIsNotLast(prefix.value, key);
    assert Agree(prefix, backend, logical, k);
  }

  lemma SlashIsNotLast(x: string, key: string)
    requires Valid(Path(key)) && x + "/" <= key
    ensures key == x + "/" + key[|x| + 1..] && key[|x| + 1..] != ""
  {
    RestAfterSlash(x, key);
    SplitAppend(x, key[|x| + 1..]);
    assert Split("") == [""];
    var pieces := Split(key);
    assert CleanSegment(pieces[|pieces| - 1]);
  }

  lemma DeepenReports(prefix: Path, backend: Store, logical: Store, directory: Path, recursive: bool, e: Entry)
    requires Normal(prefix) && Related(prefix, backend, logical) && Valid(directory)
    requires directory.IsRoot() ==> "" !in logical
    requires Reports(logical, ListPrefix(directory), recursive, e)
    ensures Reports(backend, prefix.value + "/" + ListPrefix(directory), recursive, Deepen(prefix.value + "/", e))
    ensures Normal(e.path)
  {
    var p, l := prefix.value + "/", ListPrefix(directory);
    var key :| ListsKey(logical, l, recursive, e, key);
    assert Agree(prefix, backend, logical, key);
    ListedDeepens(p, l, recursive, key, logical[key]);
    assert key != "";
    assert ListsKey(backend, p + l, recursive, Deepen(p, e), p + key);
    ListedNameParses(directory, recursive, key);
  }

  lemma LongerPrefix(p: string, l: string, key: string)
    requires p + l <= key
    ensures p <= key && key == p + key[|p|..] && l <= key[|p|..]
  {
    assert (p + l)[..|p|] == p && (p + l)[|p|..] == l;
    assert key[|p|..][..|l|] == key[|p|..|p| + |l|];
  }

  lemma DeepenedName(p: string, entries: seq<Entry>, name: string)
    requires name in PathsOf(entries)
    ensures p + name in PathsOf(DeepenAll(p, entries))
  {
    var i :| 0 <= i < |entries| && PathsOf(entries)[i] == name;
    assert PathsOf(DeepenAll(p, entries))[i] == p + name;
  }

  lemma DeepenCovers(
    prefix: Path, backend: Store, logical: Store, directory: Path, recursive: bool, entries: seq<Entry>)
    requires Normal(prefix) && Related(prefix, backend, logical)
    requires Covers(logical, ListPrefix(directory), recursive, PathsOf(entries))
    ensures Covers(backend, prefix.value + "/" + ListPrefix(directory), recursive,
                   PathsOf(DeepenAll(prefix.value + "/", entries)))
  {
    var p, l := prefix.value + "/", ListPrefix(directory);
    forall key | key in backend && p + l <= key
      ensures ListedName(p + l, recursive, key) in PathsOf(DeepenAll(p, entries))
    {
      var k := key[|p|..];
      LongerPrefix(p, l, key);
      BelowKey(prefix, backend, logical, key);
      ListedDeepens(p, l, recursive, k, logical[k]);
      DeepenedName(p, entries, ListedName(l, recursive, k));
    }
  }

  lemma DeepenSorted(p: string, entries: seq<Entry>)
    ensures StrictlySorted(PathsOf(DeepenAll(p, entries))) <==> StrictlySorted(PathsOf(entries))
  {
    var deep := PathsOf(DeepenAll(p, entries));
    forall i, j | 0 <= i < j < |entries|
      ensures Less(deep[i], deep[j]) == Less(PathsOf(entries)[i], PathsOf(entries)[j])
    {
      LessUnderPrefix(p, PathsOf(entries)[i], PathsOf(entries)[j]);
    }
  }

  /** A logical listing, deepened, is the backend's listing, and strips back to itself. */
  lemma ListingDeepens(
    prefix: Path, backend: Store, logical: Store, directory: Path, recursive: bool, entries: seq<Entry>)
    requires Normal(prefix) && Related(prefix, backend, logical) && Valid(directory)
    requires directory.IsRoot() ==> "" !in logical
    requires IsFullListing(logical, directory, recursive, entries)
    ensures IsFullListing(backend, Internal(prefix, directory), recursive, DeepenAll(prefix.value + "/", entries))
    ensures forall i :: 0 <= i < |entries| ==> Normal(entries[i].path)
  {
    var p := prefix.value + "/";
    ListPrefixInternal(prefix, directory);
    DeepenSorted(p, entries);
    DeepenCovers(prefix, backend, logical, directory, recursive, entries);
    forall i | 0 <= i < |entries|
      ensures Reports(backend, p + ListPrefix(directory), recursive, DeepenAll(p, entries)[i])
      ensures Normal(entries[i].path)
    {
      DeepenReports(prefix, backend, logical, directory, recursive, entries[i]);
    }
  }

  function Shallow(p: string, entries: seq<Entry>): (r: seq<Entry>)
    requires forall i :: 0 <= i < |entries| ==> p <= entries[i].path.value
    ensures DeepenAll(p, r) == entries
  {
    var r := seq(|entries|, i requires 0 <= i < |entries| =>
      entries[i].(path := Path(entries[i].path.value[|p|..])));
    assert DeepenAll(p, r) == entries by {
      forall i | 0 <= i < |entries|
        ensures Deepen(p, r[i]) == entries[i]
      {
        assert p + entries[i].path.value[|p|..] == entries[i].path.value;
      }
    }
    r
  }

  lemma ShallowReports(prefix: Path, backend: Store, logical: Store, directory: Path, recursive: bool, e: Entry)
    requires Normal(prefix) && Related(prefix, backend, logical)
    requires Reports(backend, prefix.value + "/" + ListPrefix(directory), recursive, e)
    ensures exists e' :: Reports(logical, ListPrefix(directory), recursive, e') && e == Deepen(prefix.value + "/", e')
  {
    var p, l := prefix.value + "/", ListPrefix(directory);
    var key :| ListsKey(backend, p + l, recursive, e, key);
    LongerPrefix(p, l, key);
    BelowKey(prefix, backend, logical, key);
    var k := key[|p|..];
    ListedDeepens(p, l, recursive, k, logical[k]);
    assert ListsKey(logical, l, recursive, Listed(l, recursive, k, logical[k]), k);
  }

  lemma ShallowCovers(
    prefix: Path, backend: Store, logical: Store, directory: Path, recursive: bool, entries: seq<Entry>)
    requires Normal(prefix) && Related(prefix, backend, logical)
    requires directory.IsRoot() ==> "" !in logical
    requires Covers(backend, prefix.value + "/" + ListPrefix(directory), recursive,
                    PathsOf(DeepenAll(prefix.value + "/", entries)))
    ensures Covers(logical, ListPrefix(directory), recursive, PathsOf(entries))
  {
    var p, l := prefix.value + "/", ListPrefix(directory);
    forall key | key in logical && l <= key
      ensures ListedName(l, recursive, key) in PathsOf(entries)
    {
      assert Agree(prefix, backend, logical, key);
      assert !prefix.IsRoot() by { assert Split("") == [""]; }
      ListedDeepens(p, l, recursive, key, logical[key]);
      var deep := PathsOf(DeepenAll(p, entries));
      assert ListedName(p + l, recursive, p + key) in deep;
      var i :| 0 <= i < |deep| && deep[i] == p + ListedName(l, recursive, key);
      assert (p + PathsOf(entries)[i])[|p|..] == PathsOf(entries)[i];
      assert (p + ListedName(l, recursive, key))[|p|..] == ListedName(l, recursive, key);
    }
  }

  /** Every backend listing below the prefix is a deepened logical listing. */
  lemma ListingShallows(
    prefix: Path, backend: Store, logical: Store, directory: Path, recursive: bool, entries: seq<Entry>)
    requires Normal(prefix) && Related(prefix, backend, logical) && Valid(directory)
    requires directory.IsRoot() ==> "" !in logical
    requires IsFullListing(backend, Internal(prefix, directory), recursive, entries)
    ensures exists full :: IsFullListing(logical, directory, recursive, full)
                           && entries == DeepenAll(prefix.value + "/", full)
  {
    var p, l := prefix.value + "/", ListPrefix(directory);
    ListPrefixInternal(prefix, directory);
    forall i | 0 <= i < |entries|
      ensures p <= entries[i].path.value
    {
      ShallowReports(prefix, backend, logical, directory, recursive, entries[i]);
    }
    var full := Shallow(p, entries);
    forall i | 0 <= i < |full|
      ensures Reports(logical, l, recursive, full[i])
    {
      ShallowReports(prefix, backend, logical, directory, recursive, entries[i]);
      var e :| Reports(logical, l, recursive, e) && entries[i] == Deepen(p, e);
      assert (p + e.path.value)[|p|..] == e.path.value && (p + full[i].path.value)[|p|..] == full[i].path.value;
      assert full[i] == e;
    }
    DeepenSorted(p, full);
    ShallowCovers(prefix, backend, logical, directory, recursive, full);
  }

  lemma DeepenTail(p: string, entries: seq<Entry>)
    requires entries != []
    ensures DeepenAll(p, entries)[1..] == DeepenAll(p, entries[1..]) && entries == [entries[0]] + entries[1..]
  {}

  lemma {:induction false} StripDeepened(prefix: Path, entries: seq<Entry>)
    requires Normal(prefix) && forall i :: 0 <= i < |entries| ==> Normal(entries[i].path)
    ensures ExternalEntries(prefix, DeepenAll(prefix.value + "/", entries)) == entries
  {
    if entries != [] {
      var p, e := prefix.value + "/", entries[0];
      assert e.path.value != "" && prefix.value != "" by { assert Split("") == [""]; }
      ParseNormal(e.path);
      assert (p + e.path.value)[|p|..] == e.path.value;
      StripDeepened(prefix, entries[1..]);
      DeepenTail(p, entries);
    }
  }

  lemma {:induction false} StripAtRoot(entries: seq<Entry>)
    ensures ExternalEntries(ROOT, entries) == entries
  {
    if entries != [] {
      StripAtRoot(entries[1..]);
      assert entries == [entries[0]] + entries[1..];
    }
  }

  // ---- bisimulation ----

  /** A logical page, deepened, is a backend page that strips back to it. */
  lemma PageDeepens(
    prefix: Path, backend: Store, logical: Store, directory: Path, recursive: bool, limit: nat, page: seq<Entry>)
    requires Normal(prefix) && Related(prefix, backend, logical) && Valid(directory)
    requires directory.IsRoot() ==> "" !in logical
    requires IsListing(logical, directory, recursive, limit, page)
    ensures IsListing(backend, Internal(prefix, directory), recursive, limit, DeepenAll(prefix.value + "/", page))
    ensures ExternalEntries(prefix, DeepenAll(prefix.value + "/", page)) == page
  {
    var p := prefix.value + "/";
    var full :| IsFullListing(logical, directory, recursive, full) && page == full[..EffectiveLimit(limit, |full|)];
    ListingDeepens(prefix, backend, logical, directory, recursive, full);
    FirstPage(backend, Internal(prefix, directory), recursive, limit, DeepenAll(p, full));
    DeepenPage(p, full, |page|);
    StripPage(prefix, backend, logical, directory, recursive, full, |page|);
  }

  lemma FirstPage(store: Store, directory: Path, recursive: bool, limit: nat, full: seq<Entry>)
    requires IsFullListing(store, directory, recursive, full)
    ensures IsListing(store, directory, recursive, limit, full[..EffectiveLimit(limit, |full|)])
  {}

  lemma DeepenPage(p: string, full: seq<Entry>, n: nat)
    requires n <= |full|
    ensures DeepenAll(p, full[..n]) == DeepenAll(p, full)[..n]
  {}

  lemma StripPage(
    prefix: Path, backend: Store, logical: Store, directory: Path, recursive: bool, full: seq<Entry>, n: nat)
    requires Normal(prefix) && Related(prefix, backend, logical) && Valid(directory)
    requires directory.IsRoot() ==> "" !in logical
    requires IsFullListing(logical, directory, recursive, full) && n <= |full|
    ensures ExternalEntries(prefix, DeepenAll(prefix.value + "/", full[..n])) == full[..n]
  {
    ListingDeepens(prefix, backend, logical, directory, recursive, full);
    StripDeepened(prefix, full[..n]);
  }

  /** A backend page strips, without failing, to a logical page. */
  lemma PageStrips(
    prefix: Path, backend: Store, logical: Store, directory: Path, recursive: bool, limit: nat, page: seq<Entry>)
    requires Normal(prefix) && Related(prefix, backend, logical) && Valid(directory)
    requires directory.IsRoot() ==> "" !in logical
    requires IsListing(backend, Internal(prefix, directory), recursive, limit, page)
    ensures IsListing(logical, directory, recursive, limit, ExternalEntries(prefix, page))
    ensures |ExternalEntries(prefix, page)| == |page|
  {
    var p := prefix.value + "/";
    var deep :| IsFullListing(backend, Internal(prefix, directory), recursive, deep)
                && page == deep[..EffectiveLimit(limit, |deep|)];
    ListingShallows(prefix, backend, logical, directory, recursive, deep);
    var full :| IsFullListing(logical, directory, recursive, full) && deep == DeepenAll(p, full);
    var n := EffectiveLimit(limit, |full|);
    DeepenPage(p, full, n);
    StripPage(prefix, backend, logical, directory, recursive, full, n);
  }

  /** An object stored at the prefix itself shows up as Root, which only a Root listing can tell apart. */
  ghost predicate ListsRootObject(prefix: Path, backend: Store, op: Op)
  {
    op.List? && op.path.IsRoot() && prefix.value in backend
  }

  lemma NeitherPanics(prefix: Path, backend: Store, logical: Store, op: Op)
    requires Normal(prefix) && Related(prefix, backend, logical) && ValidOp(op) && op.List?
    requires !ListsRootObject(prefix, backend, op)
    ensures op.path.IsRoot() ==> "" !in logical
    ensures !ListPanics(logical, op.path, op.recursive)
    ensures !ListPanics(backend, Internal(prefix, op.path), op.recursive)
  {
    assert !prefix.IsRoot() by { assert Split("") == [""]; }
    assert Agree(prefix, backend, logical, "");
    InternalAppends(prefix, op.path);
    ListPanicsIff(logical, op.path, op.recursive);
    ListPanicsIff(backend, Internal(prefix, op.path), op.recursive);
  }

  lemma ListAnswerStrips(prefix: Path, backend: Store, logical: Store, live: bool, op: Op, inner: Response)
    requires Normal(prefix) && Related(prefix, backend, logical) && ValidOp(op) && op.List?
    requires !ListsRootObject(prefix, backend, op)
    requires AnswersList(backend, live, Internal(prefix, op.path), op.recursive, op.limit, inner)
    ensures AnswersList(logical, live, op.path, op.recursive, op.limit, Outward(prefix, op, inner))
  {
    NeitherPanics(prefix, backend, logical, op);
    if inner.Entries? {
      PageStrips(prefix, backend, logical, op.path, op.recursive, op.limit, inner.entries);
    }
  }

  lemma ListAnswerDeepens(prefix: Path, backend: Store, logical: Store, live: bool, op: Op, r: Response)
    returns (inner: Response)
    requires Normal(prefix) && Related(prefix, backend, logical) && ValidOp(op) && op.List?
    requires !ListsRootObject(prefix, backend, op)
    requires AnswersList(logical, live, op.path, op.recursive, op.limit, r)
    ensures AnswersList(backend, live, Internal(prefix, op.path), op.recursive, op.limit, inner)
    ensures r == Outward(prefix, op, inner)
  {
    NeitherPanics(prefix, backend, logical, op);
    inner := r;
    if r.Entries? {
      PageDeepens(prefix, backend, logical, op.path, op.recursive, op.limit, r.entries);
      inner := Entries(DeepenAll(prefix.value + "/", r.entries), false);
      OutwardPage(prefix, op, inner.entries, r.entries);
    }
  }

  lemma OutwardPage(prefix: Path, op: Op, entries: seq<Entry>, page: seq<Entry>)
    requires ExternalEntries(prefix, entries) == page && |page| == |entries|
    ensures Outward(prefix, op, Entries(entries, false)) == Entries(page, false)
  {}

  lemma ListAnswersCommute(prefix: Path, backend: Store, logical: Store, live: bool, now: Time, op: Op, r: Response)
    requires Normal(prefix) && Related(prefix, backend, logical) && ValidOp(op) && op.List?
    requires !ListsRootObject(prefix, backend, op)
    ensures DecoratedAnswers(prefix, backend, live, now, op, r) <==> Answers(logical, live, now, op, r)
  {
    if Answers(logical, live, now, op, r) {
      var inner := ListAnswerDeepens(prefix, backend, logical, live, op, r);
    }
    if DecoratedAnswers(prefix, backend, live, now, op, r) {
      var inner :| AnswersList(backend, live, Internal(prefix, op.path), op.recursive, op.limit, inner)
                   && r == Outward(prefix, op, inner);
      ListAnswerStrips(prefix, backend, logical, live, op, inner);
    }
  }

  /** The deterministic operations answer alike. */
  lemma OtherAnswersCommute(prefix: Path, backend: Store, logical: Store, live: bool, now: Time, op: Op)
    requires Valid(prefix) && Stripped(prefix, backend, logical) && ValidOp(op) && !op.List?
    requires !(op.Write? && op.path.IsRoot())
    ensures Outward(prefix, op, Answer(backend, live, now, Inward(prefix, op))) == Answer(logical, live, now, op)
  {
    SameRefusal(prefix, backend, logical, live, op);
    FullKeyInternal(prefix, op.path);
    assert Agree(prefix, backend, logical, op.path.value);
  }

  /** Without a prefix the decorator is transparent. */
  lemma RootIsTransparent(backend: Store, logical: Store, live: bool, now: Time, op: Op, r: Response)
    requires Stripped(ROOT, backend, logical) && ValidOp(op) && op.List?
    ensures DecoratedAnswers(ROOT, backend, live, now, op, r) <==> Answers(logical, live, now, op, r)
  {
    forall key
      ensures (key in backend <==> key in logical) && (key in logical ==> logical[key] == backend[key])
    {
      assert Agree(ROOT, backend, logical, key);
    }
    assert backend == logical;
    if r.Entries? { StripAtRoot(r.entries); }
    if Answers(logical, live, now, op, r) {
      assert r == Outward(ROOT, op, r);
    }
    if DecoratedAnswers(ROOT, backend, live, now, op, r) {
      var inner :| AnswersList(backend, live, op.path, op.recursive, op.limit, inner) && r == Outward(ROOT, op, inner);
      if inner.Entries? { StripAtRoot(inner.entries); }
    }
  }

  /**
    Memory behind a prefix and memory on the stripped map take the same step:
    the same set of answers, related successors, and nothing outside the prefix moves.
   */
  lemma PrefixBisimulation(prefix: Path, backend: Store, logical: Store, live: bool, now: Time, op: Op)
    requires Valid(prefix) && Related(prefix, backend, logical) && ValidOp(op)
    requires !prefix.IsRoot() ==> !ListsRootObject(prefix, backend, op)
    ensures Related(prefix, DecoratedEffect(prefix, backend, live, now, op), Effect(logical, live, now, op))
    ensures forall r :: DecoratedAnswers(prefix, backend, live, now, op, r) <==> Answers(logical, live, now, op, r)
    ensures SameOutside(prefix, backend, DecoratedEffect(prefix, backend, live, now, op))
  {
    EffectCommutes(prefix, backend, logical, live, now, op);
    EffectKeepsKeysValid(logical, live, now, op);
    InwardIsValid(prefix, op);
    EffectKeepsKeysValid(backend, live, now, Inward(prefix, op));
    forall r
      ensures DecoratedAnswers(prefix, backend, live, now, op, r) <==> Answers(logical, live, now, op, r)
    {
      if !op.List? {
        if !(op.Write? && op.path.IsRoot()) { OtherAnswersCommute(prefix, backend, logical, live, now, op); }
      } else if prefix.IsRoot() {
        RootIsTransparent(backend, logical, live, now, op, r);
      } else {
        ListAnswersCommute(prefix, backend, logical, live, now, op, r);
      }
    }
    OutsideUntouched(prefix, backend, live, now, op);
  }

  lemma InwardIsValid(prefix: Path, op: Op)
    requires Valid(prefix) && ValidOp(op)
    ensures ValidOp(Inward(prefix, op))
  {
    InternalAppends(prefix, op.path);
    if op.Copy? || op.Move? { InternalAppends(prefix, op.destination); }
  }

  /** Where the relation ends: with an object at the prefix, only the undecorated Root listing panics. */
  lemma RootObjectDiverges(prefix: Path, backend: Store, logical: Store, now: Time, op: Op)
    requires Normal(prefix) && Related(prefix, backend, logical) && ValidOp(op)
    requires ListsRootObject(prefix, backend, op) && op.limit >= 0
    ensures Answers(logical, true, now, op, Panicked) && !DecoratedAnswers(prefix, backend, true, now, op, Panicked)
  {
    assert !prefix.IsRoot() by { assert Split("") == [""]; }
    assert Agree(prefix, backend, logical, "");
    ListPanicsIff(logical, op.path, op.recursive);
    ListPanicsIff(backend, prefix, op.recursive);
  }

  // ---- whole runs ----

  /** Requests with valid paths whose copies and moves do not target Root. */
  ghost predicate Proper(requests: seq<Request>)
  {
    forall i :: 0 <= i < |requests| ==>
      ValidOp(requests[i].op) && (requests[i].op.Copy? || requests[i].op.Move? ==> !requests[i].op.destination.IsRoot())
  }

  ghost function DecoratedAfter(prefix: Path, store: Store, requests: seq<Request>, k: nat): Store
    requires k <= |requests| && Valid(prefix) && Proper(requests)
  {
    if k == 0 then store
    else
      var q := requests[k - 1];
      DecoratedEffect(prefix, DecoratedAfter(prefix, store, requests, k - 1), q.live, q.now, q.op)
  }

  /** No object ever appears at Root. */
  lemma RootStaysFree(store: Store, requests: seq<Request>, k: nat)
    requires k <= |requests| && Proper(requests) && "" !in store
    ensures "" !in StoreAfter(store, requests, k)
  {
    RootOccupiedIff(store, requests, k);
    assert forall j :: 0 <= j < k ==> !FillsAt(store, requests, j);
  }

  ghost predicate SameAnswers(prefix: Path, backend: Store, logical: Store, q: Request)
    requires Valid(prefix) && ValidOp(q.op)
  {
    forall r :: DecoratedAnswers(prefix, backend, q.live, q.now, q.op, r) <==> Answers(logical, q.live, q.now, q.op, r)
  }

  lemma RunStep(prefix: Path, backend: Store, logical: Store, q: Request)
    requires Valid(prefix) && Related(prefix, backend, logical) && "" !in logical && ValidOp(q.op)
    ensures var after := DecoratedEffect(prefix, backend, q.live, q.now, q.op);
            Related(prefix, after, Effect(logical, q.live, q.now, q.op)) && SameOutside(prefix, backend, after)
    ensures SameAnswers(prefix, backend, logical, q)
  {
    assert Agree(prefix, backend, logical, "");
    PrefixBisimulation(prefix, backend, logical, q.live, q.now, q.op);
  }

  lemma {:induction false} RelatedRuns(prefix: Path, backend: Store, logical: Store, requests: seq<Request>, k: nat)
    requires k <= |requests| && Valid(prefix) && Proper(requests)
    requires Related(prefix, backend, logical) && "" !in logical
    ensures Related(prefix, DecoratedAfter(prefix, backend, requests, k), StoreAfter(logical, requests, k))
    ensures SameOutside(prefix, backend, DecoratedAfter(prefix, backend, requests, k))
  {
    if k > 0 {
      RelatedRuns(prefix, backend, logical, requests, k - 1);
      RootStaysFree(logical, requests, k - 1);
      var b, l := DecoratedAfter(prefix, backend, requests, k - 1), StoreAfter(logical, requests, k - 1);
      RelatedStep(prefix, backend, b, l, requests[k - 1]);
    }
  }

  lemma RelatedStep(prefix: Path, start: Store, backend: Store, logical: Store, q: Request)
    requires Valid(prefix) && Related(prefix, backend, logical) && "" !in logical && ValidOp(q.op)
    requires SameOutside(prefix, start, backend)
    ensures var after := DecoratedEffect(prefix, backend, q.live, q.now, q.op);
            Related(prefix, after, Effect(logical, q.live, q.now, q.op)) && SameOutside(prefix, start, after)
  {
    RunStep(prefix, backend, logical, q);
    SameOutsideTransitive(prefix, start, backend, DecoratedEffect(prefix, backend, q.live, q.now, q.op));
  }

  lemma SameOutsideTransitive(prefix: Path, a: Store, b: Store, c: Store)
    requires SameOutside(prefix, a, b) && SameOutside(prefix, b, c)
    ensures SameOutside(prefix, a, c)
  {}

  /**
    For every request sequence, at every point of it: the decorated and the
    stripped store are related, they give the same answers to the next request,
    and keys outside the prefix are as they were at the start.
   */
  lemma BisimilarRuns(prefix: Path, backend: Store, logical: Store, requests: seq<Request>, k: nat)
    requires k < |requests| && Valid(prefix) && Proper(requests)
    requires Related(prefix, backend, logical) && "" !in logical
    ensures var b, l := DecoratedAfter(prefix, backend, requests, k), StoreAfter(logical, requests, k);
            Related(prefix, b, l) && SameAnswers(prefix, b, l, requests[k]) && SameOutside(prefix, backend, b)
  {
    RelatedRuns(prefix, backend, logical, requests, k);
    RootStaysFree(logical, requests, k);
    RunStep(prefix, DecoratedAfter(prefix, backend, requests, k), StoreAfter(logical, requests, k), requests[k]);
  }

  // ---- nested prefixes ----

  lemma InternalNested(outer: Path, inner: Path, path: Path)
    requires Valid(outer) && Valid(inner) && Valid(path)
    ensures Valid(Internal(inner, path)) && Valid(Internal(outer, inner))
    ensures Internal(outer, Internal(inner, path)) == Internal(Internal(outer, inner), path)
  {
    InternalAppends(inner, path);
    InternalAppends(outer, inner);
    InternalAppends(outer, Internal(inner, path));
    InternalAppends(Internal(outer, inner), path);
    Regroup(Segments(outer), Segments(inner), Segments(path));
    SameSegments(Internal(outer, Internal(inner, path)), Internal(Internal(outer, inner), path));
  }

  lemma StrippableNested(q: seq<string>, p: seq<string>, s: seq<string>)
    requires p != [] ==> !HasVolume(p[0])
    ensures Strippable(q + p, s) <==> Strippable(q, s) && Strippable(p, s[|q|..])
  {
    if |q + p| <= |s| {
      assert s[..|q + p|] == s[..|q|] + s[|q|..][..|p|];
      assert s[..|q + p|] == q + p <==> s[..|q|] == q && s[|q|..][..|p|] == p;
      if p != [] && s[|q|..][..|p|] == p { assert s[|q|] == s[|q|..][..|p|][0]; }
    }
  }

  /** Stripping the outer prefix and then the inner one is stripping both at once. */
  lemma ExternalNested(outer: Path, inner: Path, path: Path)
    requires Valid(outer) && Valid(inner) && Valid(path)
    ensures ExternalPath(Internal(outer, inner), path) ==
            if ExternalPath(outer, path).Ok? then ExternalPath(inner, ExternalPath(outer, path).value)
            else Err(InvalidPath)
  {
    var both := Internal(outer, inner);
    var q, p, s := Segments(outer), Segments(inner), Segments(path);
    InternalAppends(outer, inner);
    ExternalSegments(outer, path);
    ExternalSegments(both, path);
    SegmentsFromSegments(inner);
    StrippableNested(q, p, s);
    if ExternalPath(outer, path).Ok? {
      ExternalSegments(inner, ExternalPath(outer, path).value);
      if Strippable(q + p, s) { assert s[|q|..][|p|..] == s[|q + p|..]; }
    }
  }

  lemma {:induction false} EntriesNested(outer: Path, inner: Path, entries: seq<Entry>)
    requires Valid(outer) && Valid(inner) && forall i :: 0 <= i < |entries| ==> Valid(entries[i].path)
    ensures ExternalEntries(inner, ExternalEntries(outer, entries)) == ExternalEntries(Internal(outer, inner), entries)
    ensures |ExternalEntries(inner, ExternalEntries(outer, entries))| <= |ExternalEntries(outer, entries)| <= |entries|
  {
    if entries != [] {
      ExternalNested(outer, inner, entries[0].path);
      EntriesNested(outer, inner, entries[1..]);
      if ExternalPath(outer, entries[0].path).Ok? {
        var e := entries[0].(path := ExternalPath(outer, entries[0].path).value);
        assert ExternalEntries(outer, entries)[1..] == ExternalEntries(outer, entries[1..]);
      }
    }
  }

  lemma InwardNested(outer: Path, inner: Path, op: Op)
    requires Valid(outer) && Valid(inner) && ValidOp(op)
    ensures ValidOp(Inward(inner, op)) && Valid(Internal(outer, inner))
    ensures Inward(outer, Inward(inner, op)) == Inward(Internal(outer, inner), op)
    ensures !op.path.IsRoot() ==> !Inward(inner, op).path.IsRoot()
  {
    assert !op.path.IsRoot() ==> !Internal(inner, op.path).IsRoot() by { InternalAppends(inner, op.path); }
    InternalNested(outer, inner, op.path);
    if op.Copy? || op.Move? { InternalNested(outer, inner, op.destination); }
  }

  lemma OutwardNested(outer: Path, inner: Path, op: Op, r: Response)
    requires Valid(outer) && Valid(inner) && ValidOp(op)
    requires r.Entries? ==> forall i :: 0 <= i < |r.entries| ==> Valid(r.entries[i].path)
    ensures Outward(inner, op, Outward(outer, Inward(inner, op), r)) == Outward(Internal(outer, inner), op, r)
  {
    if r.Entries? { EntriesNested(outer, inner, r.entries); }
  }

  /** A decorator with prefix `inner` whose backend is a decorator with prefix `outer` over a store. */
  function NestedEffect(outer: Path, inner: Path, store: Store, live: bool, now: Time, op: Op): Store
    requires Valid(outer) && Valid(inner) && ValidOp(op) && ValidOp(Inward(inner, op))
  {
    if op.Write? && op.path.IsRoot() then store
    else DecoratedEffect(outer, store, live, now, Inward(inner, op))
  }

  ghost predicate NestedAnswers(
    outer: Path, inner: Path, store: Store, live: bool, now: Time, op: Op, r: Response)
    requires Valid(outer) && Valid(inner) && ValidOp(op) && ValidOp(Inward(inner, op))
  {
    var below := Inward(inner, op);
    if op.List? then
      exists middle :: DecoratedAnswers(outer, store, live, now, below, middle) && r == Outward(inner, op, middle)
    else if op.Write? && op.path.IsRoot() then r == Failure(InvalidPath)
    else r == Outward(inner, op, DecoratedAnswer(outer, store, live, now, below))
  }

  lemma ReportedIsValid(store: Store, directory: Path, recursive: bool, e: Entry)
    requires ValidStore(store) && Valid(directory) && Reports(store, ListPrefix(directory), recursive, e)
    requires directory.IsRoot() ==> "" !in store
    ensures Valid(e.path)
  {
    var key :| ListsKey(store, ListPrefix(directory), recursive, e, key);
    ListedNameParses(directory, recursive, key);
  }

  lemma ListedPathsAreValid(store: Store, live: bool, directory: Path, recursive: bool, limit: int, r: Response)
    requires ValidStore(store) && Valid(directory) && AnswersList(store, live, directory, recursive, limit, r)
    ensures r.Entries? ==> forall i :: 0 <= i < |r.entries| ==> Valid(r.entries[i].path)
  {
    if r.Entries? {
      ListPanicsIff(store, directory, recursive);
      var full :| IsFullListing(store, directory, recursive, full)
                  && r.entries == full[..EffectiveLimit(limit, |full|)];
      forall i | 0 <= i < |r.entries| ensures Valid(r.entries[i].path) {
        ReportedIsValid(store, directory, recursive, full[i]);
      }
    }
  }

  lemma NestedListing(
    outer: Path, inner: Path, store: Store, live: bool, now: Time, op: Op, answer: Response)
    requires Valid(outer) && Valid(inner) && ValidOp(op) && ValidStore(store) && op.List?
    ensures ValidOp(Inward(inner, op)) && Valid(Internal(outer, inner))
    ensures Internal(outer, Inward(inner, op).path) == Internal(Internal(outer, inner), op.path)
    ensures AnswersList(store, live, Internal(Internal(outer, inner), op.path), op.recursive, op.limit, answer) ==>
              Outward(inner, op, Outward(outer, Inward(inner, op), answer)) ==
              Outward(Internal(outer, inner), op, answer)
  {
    InwardNested(outer, inner, op);
    InternalNested(outer, inner, op.path);
    var directory := Internal(Internal(outer, inner), op.path);
    InternalAppends(Internal(outer, inner), op.path);
    if AnswersList(store, live, directory, op.recursive, op.limit, answer) {
      ListedPathsAreValid(store, live, directory, op.recursive, op.limit, answer);
      OutwardNested(outer, inner, op, answer);
    }
  }

  lemma NestedListingsIn(outer: Path, inner: Path, store: Store, live: bool, now: Time, op: Op, r: Response)
    requires Valid(outer) && Valid(inner) && ValidOp(op) && ValidStore(store) && op.List?
    requires ValidOp(Inward(inner, op)) && Valid(Internal(outer, inner))
    requires NestedAnswers(outer, inner, store, live, now, op, r)
    ensures DecoratedAnswers(Internal(outer, inner), store, live, now, op, r)
  {
    var below := Inward(inner, op);
    var middle :| DecoratedAnswers(outer, store, live, now, below, middle) && r == Outward(inner, op, middle);
    var answer :| AnswersList(store, live, Internal(outer, below.path), below.recursive, below.limit, answer)
                  && middle == Outward(outer, below, answer);
    NestedListing(outer, inner, store, live, now, op, answer);
  }

  lemma NestedListingsOut(outer: Path, inner: Path, store: Store, live: bool, now: Time, op: Op, r: Response)
    requires Valid(outer) && Valid(inner) && ValidOp(op) && ValidStore(store) && op.List?
    requires ValidOp(Inward(inner, op)) && Valid(Internal(outer, inner))
    requires DecoratedAnswers(Internal(outer, inner), store, live, now, op, r)
    ensures NestedAnswers(outer, inner, store, live, now, op, r)
  {
    var both, below := Internal(outer, inner), Inward(inner, op);
    var answer :| AnswersList(store, live, Internal(both, op.path), op.recursive, op.limit, answer)
                  && r == Outward(both, op, answer);
    NestedListing(outer, inner, store, live, now, op, answer);
    assert DecoratedAnswers(outer, store, live, now, below, Outward(outer, below, answer));
  }

  /** The answers to a listing through both decorators are those through the joined prefix. */
  lemma NestedListings(outer: Path, inner: Path, store: Store, live: bool, now: Time, op: Op, r: Response)
    requires Valid(outer) && Valid(inner) && ValidOp(op) && ValidStore(store) && op.List?
    ensures ValidOp(Inward(inner, op)) && Valid(Internal(outer, inner))
    ensures NestedAnswers(outer, inner, store, live, now, op, r) <==>
            DecoratedAnswers(Internal(outer, inner), store, live, now, op, r)
  {
    InwardNested(outer, inner, op);
    if NestedAnswers(outer, inner, store, live, now, op, r) {
      NestedListingsIn(outer, inner, store, live, now, op, r);
    } else if DecoratedAnswers(Internal(outer, inner), store, live, now, op, r) {
      NestedListingsOut(outer, inner, store, live, now, op, r);
    }
  }

  lemma NoListing(store: Store, live: bool, now: Time, op: Op)
    requires !op.List?
    ensures !Answer(store, live, now, op).Entries?
  {}

  lemma NestedOthers(outer: Path, inner: Path, store: Store, live: bool, now: Time, op: Op)
    requires Valid(outer) && Valid(inner) && ValidOp(op) && !op.List? && !(op.Write? && op.path.IsRoot())
    ensures ValidOp(Inward(inner, op)) && Valid(Internal(outer, inner))
    ensures Outward(inner, op, DecoratedAnswer(outer, store, live, now, Inward(inner, op))) ==
            DecoratedAnswer(Internal(outer, inner), store, live, now, op)
  {
    InwardNested(outer, inner, op);
    var answered := Inward(outer, Inward(inner, op));
    NoListing(store, live, now, answered);
    OutwardNested(outer, inner, op, Answer(store, live, now, answered));
  }

  lemma NestedAnswer(outer: Path, inner: Path, store: Store, live: bool, now: Time, op: Op, r: Response)
    requires Valid(outer) && Valid(inner) && ValidOp(op) && !op.List?
    ensures ValidOp(Inward(inner, op)) && Valid(Internal(outer, inner))
    ensures NestedAnswers(outer, inner, store, live, now, op, r) <==>
            DecoratedAnswers(Internal(outer, inner), store, live, now, op, r)
  {
    if op.Write? && op.path.IsRoot() {
      InwardNested(outer, inner, op);
    } else {
      NestedOthers(outer, inner, store, live, now, op);
    }
  }

  lemma NestedEffects(outer: Path, inner: Path, store: Store, live: bool, now: Time, op: Op)
    requires Valid(outer) && Valid(inner) && ValidOp(op)
    ensures ValidOp(Inward(inner, op)) && Valid(Internal(outer, inner))
    ensures NestedEffect(outer, inner, store, live, now, op) ==
            DecoratedEffect(Internal(outer, inner), store, live, now, op)
  {
    InwardNested(outer, inner, op);
  }

  /**
    A decorator with prefix P over one with prefix Q over memory is the single decorator with prefix Q/P:
    every operation has the same effect and the same answers.
   */
  lemma NestedPrefixes(outer: Path, inner: Path, store: Store, live: bool, now: Time, op: Op, r: Response)
    requires Valid(outer) && Valid(inner) && ValidOp(op) && ValidStore(store)
    ensures ValidOp(Inward(inner, op)) && Valid(Internal(outer, inner))
    ensures NestedEffect(outer, inner, store, live, now, op) ==
            DecoratedEffect(Internal(outer, inner), store, live, now, op)
    ensures NestedAnswers(outer, inner, store, live, now, op, r) <==>
            DecoratedAnswers(Internal(outer, inner), store, live, now, op, r)
  {
    NestedEffects(outer, inner, store, live, now, op);
    if op.List? {
      NestedListings(outer, inner, store, live, now, op, r);
    } else {
      NestedAnswer(outer, inner, store, live, now, op, r);
    }
  }

  // ---- the listing iterator ----

  /** Strips the prefix entry by entry; the first entry that does not strip ends the iteration. */
  class PrefixIterator {
    const inner: EntryIterator
    const prefix: Path
    var current: Entry
    var failed: bool

    constructor (inner: EntryIterator, prefix: Path)
      ensures this.inner == inner && this.prefix == prefix && !failed
    {
      this.inner, this.prefix := inner, prefix;
      this.current, this.failed := Entry(ROOT, FileKind, 0, 0), false;
    }

    ghost function Remaining(): seq<Entry>
      reads this, inner
    {
      if failed then [] else ExternalEntries(prefix, inner.Remaining())
    }

    method Next() returns (more: bool)
      modifies this, inner
      ensures more <==> old(Remaining()) != []
      ensures more ==> old(Remaining()) == [current] + Remaining() && failed == old(failed)
      ensures more ==> |old(inner.Remaining())| > 0 && inner.Remaining() == old(inner.Remaining())[1..]
      ensures !more ==> current == old(current) && Remaining() == []
      ensures !more ==> (failed <==> old(failed) || old(inner.Remaining()) != [])
    {
      if failed { return false; }
      var advanced := inner.Next();
      if !advanced { return false; }
      var entry := inner.current;
      var path := ExternalPath(prefix, entry.path);
      if path.Err? {
        failed := true;
        return false;
      }
      current := entry.(path := path.value);
      more := true;
    }
  }
}
