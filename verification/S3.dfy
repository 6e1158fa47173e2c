/**
  The S3 adapter's listing loop, its key mapping and its byte ranges (s3/s3.go). The service is any
  sequence of responses: nothing is taken for granted about page sizes, order or keys.
 */
module S3 {
  import opened Common
  import opened Text
  import opened Paths
  import opened Listing

  // ---- keys ----

  /** `prefix` is the configured prefix, Root for none. */
  function Key(prefix: Path, p: Path): string {
    if prefix.IsRoot() then p.value else prefix.value + "/" + p.value
  }

  function TrimSlash(key: string): string {
    if key != "" && key[|key| - 1] == '/' then key[..|key| - 1] else key
  }

  /** What is left of a key after the configured prefix. */
  function Remainder(prefix: Path, key: string): Option<string> {
    if prefix.IsRoot() then Some(key)
    else if prefix.value + "/" <= key then Some(key[|prefix.value| + 1..])
    else None
  }

  function LogicalPath(prefix: Path, key: string, directory: bool): Option<Path> {
    match Remainder(prefix, if directory then TrimSlash(key) else key)
    case None => None
    case Some(rest) =>
      match Parse(rest)
      case Err(_) => None
      case Ok(p) => Some(p)
  }

  /** Every object path comes back from its key, and every directory from its common prefix; Root does not. */
  lemma KeyRoundTrip(prefix: Path, p: Path)
    requires Valid(prefix) && Valid(p)
    ensures LogicalPath(prefix, Key(prefix, p), false) == Some(p) <==> !p.IsRoot()
    ensures !p.IsRoot() ==> LogicalPath(prefix, Key(prefix, p) + "/", true) == Some(p)
  {
    KeyRemainder(prefix, p);
    if p.IsRoot() {
      assert Parse("").Err?;
    } else {
      ParseNormal(p);
      TrimsOneSlash(Key(prefix, p));
    }
  }

  lemma KeyRemainder(prefix: Path, p: Path)
    ensures Remainder(prefix, Key(prefix, p)) == Some(p.value)
  {
    if !prefix.IsRoot() { CutAfterSlash(prefix.value, p.value); }
  }

  lemma TrimsOneSlash(key: string)
    ensures TrimSlash(key + "/") == key
  {}

  /** No backslash, and no empty or "." piece. */
  predicate Tidy(rest: string) {
    '\\' !in rest && "" !in Split(rest) && "." !in Split(rest)
  }

  /** A parsed path is the text it came from exactly when that text was tidy. */
  lemma ParseKeepsText(rest: string)
    requires Parse(rest).Ok?
    ensures Parse(rest).value.value == rest <==> Tidy(rest)
  {
    var p := Parse(rest).value;
    ParseYieldsNormal(rest);
    if p.value == rest {
      JoinSplit(rest);
      JoinDrawsFrom(Split(rest));
    }
    if Tidy(rest) {
      assert Slashed(rest) == rest;
      KeptAll(Split(rest));
      JoinSplit(rest);
    }
  }

  /**
    A key that names a logical path is that path's own key exactly when what follows the prefix is
    tidy: listing `tenant//a` under the prefix `tenant` shows `a`, which is stored under `tenant/a`.
   */
  lemma KeyOfLogicalPath(prefix: Path, key: string)
    requires Valid(prefix) && LogicalPath(prefix, key, false).Some?
    ensures Key(prefix, LogicalPath(prefix, key, false).value) == key <==> Tidy(Remainder(prefix, key).value)
  {
    var rest := Remainder(prefix, key).value;
    ParseKeepsText(rest);
    if !prefix.IsRoot() {
      var front := prefix.value + "/";
      assert key == front + rest;
      SameAfter(front, Parse(rest).value.value, rest);
    }
  }

  lemma SameAfter(front: string, a: string, b: string)
    ensures front + a == front + b <==> a == b
  {
    assert (front + a)[|front|..] == a && (front + b)[|front|..] == b;
  }

  lemma DoubledSlashExample()
    ensures LogicalPath(Path("tenant"), "tenant//a", false) == Some(Path("a"))
    ensures Key(Path("tenant"), Path("a")) == "tenant/a"
  {
    var key := "tenant//a";
    assert key[7..] == "/a";
    assert Slashed("/a") == "/a";
    SplitJoin(["", "a"]);
    assert Join(["", "a"]) == "/a" by { assert ["", "a"][1..] == ["a"]; }
    assert Kept(["", "a"]) == ["a"] by { assert ["", "a"][1..] == ["a"]; }
    assert !HasControl("/a");
  }

  // ---- pages ----

  /** A row of a response: an object, or a common prefix of a listing that is not recursive. */
  datatype Row = Object(key: string, size: nat, modified: Time) | CommonPrefix(key: string)

  /** One response. */
  datatype Page = Page(contents: seq<Row>, prefixes: seq<Row>, truncated: bool, next: Option<string>) {
    /** A truncated page that carries a continuation token. */
    predicate More() { truncated && next.Some? }
  }

  /** One request; without a delimiter the listing is recursive. */
  datatype Query = Query(prefix: string, delimited: bool, token: Option<string>, maxKeys: int)

  /** The key prefix a listing of `directory` asks for: the whole bucket, or everything below a slash. */
  function QueryPrefix(prefix: Path, directory: Path): string {
    var start := if directory.IsRoot() then prefix.value else Key(prefix, directory);
    if start == "" then "" else start + "/"
  }

  /** The segments of a key's path, prefix included. */
  lemma KeySegments(prefix: Path, p: Path)
    requires Valid(prefix) && Normal(p)
    ensures Normal(Path(Key(prefix, p))) && Segments(Path(Key(prefix, p))) == Segments(prefix) + Segments(p)
  {
    assert !p.IsRoot() by { assert Split("") == [""]; }
    if !prefix.IsRoot() { ParseConcat(prefix, p); }
  }

  /** A listing of `directory` asks for exactly the keys of the paths strictly below it. */
  lemma QueryCoversDirectory(prefix: Path, directory: Path, p: Path)
    requires Valid(prefix) && Valid(directory) && Normal(p)
    ensures QueryPrefix(prefix, directory) <= Key(prefix, p) <==> Segments(directory) < Segments(p)
  {
    KeySegments(prefix, p);
    var x, d, k := Segments(prefix), Segments(directory), Segments(p);
    var start := if directory.IsRoot() then prefix else Path(Key(prefix, directory));
    assert Valid(start) && Segments(start) == x + d by {
      if directory.IsRoot() { assert x + [] == x; } else { KeySegments(prefix, directory); }
    }
    ValidSegments(start);
    ValidSegments(Path(Key(prefix, p)));
    ValidSegments(p);
    LeadingBelow(x, d, k);
    if !start.IsRoot() { PrefixIsLeadingPieces(x + d, x + k); }
  }

  lemma LeadingBelow(x: seq<string>, d: seq<string>, k: seq<string>)
    ensures |x + d| < |x + k| && (x + k)[..|x + d|] == x + d <==> d < k
  {
    if |d| < |k| {
      assert (x + k)[..|x + d|] == x + k[..|d|];
      assert (x + k[..|d|])[|x|..] == k[..|d|] && (x + d)[|x|..] == d;
    }
  }

  /** What a row is listed as; nothing for a key outside the prefix or with no valid path. */
  function EntryOf(prefix: Path, row: Row): Option<Entry> {
    match LogicalPath(prefix, row.key, row.CommonPrefix?)
    case None => None
    case Some(p) =>
      if row.Object? then Some(Entry(p, FileKind, row.size, row.modified)) else Some(Entry(p, DirectoryKind, 0, 0))
  }

  function FromRows(prefix: Path, rows: seq<Row>): seq<Entry> {
    if rows == [] then []
    else
      var entry := EntryOf(prefix, rows[|rows| - 1]);
      FromRows(prefix, rows[..|rows| - 1]) + if entry.Some? then [entry.value] else []
  }

  function EntriesOf(prefix: Path, response: Outcome<Page>): seq<Entry> {
    match response
    case Ok(page) => FromRows(prefix, page.contents) + FromRows(prefix, page.prefixes)
    case Err(_) => []
  }

  /** The entries each response shows. */
  function Taken(prefix: Path, responses: seq<Outcome<Page>>): (taken: seq<seq<Entry>>)
    ensures |taken| == |responses|
  {
    if responses == [] then []
    else Taken(prefix, responses[..|responses| - 1]) + [EntriesOf(prefix, responses[|responses| - 1])]
  }

  lemma {:induction false} TakenAt(prefix: Path, responses: seq<Outcome<Page>>, k: nat)
    requires k < |responses|
    ensures Taken(prefix, responses)[k] == EntriesOf(prefix, responses[k])
  {
    if k < |responses| - 1 { TakenAt(prefix, responses[..|responses| - 1], k); }
  }

  /** Everything the first `n` responses show, in the order of the responses. */
  function Shown(taken: seq<seq<Entry>>, n: nat): seq<Entry>
    requires n <= |taken|
  {
    if n == 0 then [] else Shown(taken, n - 1) + taken[n - 1]
  }

  function PageSize(limit: nat, collected: nat): int { if limit - collected < 1000 then limit - collected else 1000 }

  lemma {:induction false} RowsGrow(prefix: Path, rows: seq<Row>, i: nat)
    requires i <= |rows|
    ensures FromRows(prefix, rows[..i]) <= FromRows(prefix, rows)
  {
    if i < |rows| {
      var last := |rows| - 1;
      RowsGrow(prefix, rows[..last], i);
      assert rows[..last][..i] == rows[..i];
    } else {
      assert rows[..i] == rows;
    }
  }

  lemma {:induction false} NoExtraRows(prefix: Path, rows: seq<Row>)
    ensures |FromRows(prefix, rows)| <= |rows|
  {
    if rows != [] { NoExtraRows(prefix, rows[..|rows| - 1]); }
  }

  lemma FullAt(before: seq<Entry>, taken: seq<Entry>, all: seq<Entry>, limit: nat)
    requires taken <= all && |before + taken| == limit
    ensures before + taken == AtMost(before + all, limit)
  {}

  lemma NextRow(prefix: Path, rows: seq<Row>, i: nat, before: seq<Entry>)
    requires i < |rows|
    ensures before + FromRows(prefix, rows[..i + 1]) ==
            match EntryOf(prefix, rows[i]) {
              case Some(entry) => before + FromRows(prefix, rows[..i]) + [entry]
              case None => before + FromRows(prefix, rows[..i])
            }
  {
    assert rows[..i + 1][..i] == rows[..i];
    var entry := EntryOf(prefix, rows[i]);
    if entry.Some? { Regroup(before, FromRows(prefix, rows[..i]), [entry.value]); }
  }

  lemma FullAfter(prefix: Path, rows: seq<Row>, i: nat, before: seq<Entry>, limit: nat)
    requires i <= |rows| && |before + FromRows(prefix, rows[..i])| == limit
    ensures before + FromRows(prefix, rows[..i]) == AtMost(before + FromRows(prefix, rows), limit)
  {
    RowsGrow(prefix, rows, i);
    FullAt(before, FromRows(prefix, rows[..i]), FromRows(prefix, rows), limit);
  }

  /** Rows become entries until the limit is reached. */
  method TakeRows(prefix: Path, rows: seq<Row>, limit: nat, before: seq<Entry>) returns (entries: seq<Entry>)
    requires |before| < limit
    ensures entries == AtMost(before + FromRows(prefix, rows), limit)
  {
    entries := before;
    var i := 0;
    while i < |rows|
      invariant i <= |rows| && |entries| < limit
      invariant entries == before + FromRows(prefix, rows[..i])
    {
      NextRow(prefix, rows, i, before);
      var entry := EntryOf(prefix, rows[i]);
      if entry.Some? {
        entries := entries + [entry.value];
      }
      i := i + 1;
      if |entries| >= limit {
        FullAfter(prefix, rows, i, before, limit);
        return;
      }
    }
    assert rows[..i] == rows;
  }

  /** The objects of a page, then its common prefixes. */
  method TakePage(prefix: Path, page: Page, limit: nat, before: seq<Entry>) returns (entries: seq<Entry>)
    requires |before| < limit
    ensures entries ==
            AtMost(before + (FromRows(prefix, page.contents) + FromRows(prefix, page.prefixes)), limit)
  {
    entries := TakeRows(prefix, page.contents, limit, before);
    assert before + (FromRows(prefix, page.contents) + FromRows(prefix, page.prefixes)) ==
           before + FromRows(prefix, page.contents) + FromRows(prefix, page.prefixes);
    if |entries| >= limit {
      return;
    }
    entries := TakeRows(prefix, page.prefixes, limit, entries);
  }

  /** Response `k` calls for another request: it has more, and the limit is not reached. */
  ghost predicate GoesOn(taken: seq<seq<Entry>>, responses: seq<Outcome<Page>>, limit: nat, k: nat)
    requires |taken| == |responses|
  {
    k < |responses| && responses[k].Ok? && responses[k].value.More() && |Shown(taken, k + 1)| < limit
  }

  function FirstQuery(prefix: Path, directory: Path, recursive: bool, limit: nat): Query {
    Query(QueryPrefix(prefix, directory), !recursive, None, PageSize(limit, 0))
  }

  /**
    Request `k` asks for what is still missing, between 1 and 1000 keys, where the first request asked, and
    goes on where the response before it ended.
   */
  ghost predicate AsksFor(
    taken: seq<seq<Entry>>, first: Query, responses: seq<Outcome<Page>>, limit: nat, k: nat, query: Query)
    requires |taken| == |responses|
  {
    && k <= |responses| && query.prefix == first.prefix && query.delimited == first.delimited
    && (k == 0 ==> query.token == None)
    && (k > 0 ==> responses[k - 1].Ok? && query.token == responses[k - 1].value.next)
    && 1 <= query.maxKeys <= 1000
    && var missing := limit - |Shown(taken, k)|;
       query.maxKeys == missing || (query.maxKeys == 1000 && missing > 1000)
  }

  /** Response `last` ends the listing: no more pages or the limit reached, its error, or no answer at all. */
  ghost predicate EndsWith(
    taken: seq<seq<Entry>>, responses: seq<Outcome<Page>>, limit: nat, last: nat, r: Outcome<seq<Entry>>)
    requires |taken| == |responses|
  {
    match r
    case Ok(entries) =>
      && last < |responses| && responses[last].Ok?
      && (!responses[last].value.More() || |Shown(taken, last + 1)| >= limit)
      && entries == SortEntries(AtMost(Shown(taken, last + 1), limit))
    case Err(e) => if last < |responses| then responses[last] == Err(e) else e == Canceled
  }

  /** All requests ask as they should, and all but the last were followed by a response that called for another. */
  ghost predicate AllAsk(
    taken: seq<seq<Entry>>, first: Query, responses: seq<Outcome<Page>>, limit: nat, requests: seq<Query>)
    requires |taken| == |responses|
  {
    && (forall k :: 0 <= k < |requests| ==> AsksFor(taken, first, responses, limit, k, requests[k]))
    && (forall k :: 0 <= k < |requests| - 1 ==> GoesOn(taken, responses, limit, k))
  }

  lemma AskAgain(
    taken: seq<seq<Entry>>, first: Query, responses: seq<Outcome<Page>>, limit: nat, requests: seq<Query>,
    next: Query)
    requires |taken| == |responses| && 0 < |requests| && AllAsk(taken, first, responses, limit, requests)
    requires var last := |requests| - 1;
             && GoesOn(taken, responses, limit, last)
             && next == requests[last].(token := responses[last].value.next,
                                        maxKeys := PageSize(limit, |Shown(taken, last + 1)|))
    ensures AllAsk(taken, first, responses, limit, requests + [next])
  {
    var last := |requests| - 1;
    assert AsksFor(taken, first, responses, limit, last, requests[last]);
    assert AsksFor(taken, first, responses, limit, last + 1, next);
  }

  /** What the next response adds, cut at the limit. */
  method TakeResponse(
    prefix: Path, ghost taken: seq<seq<Entry>>, responses: seq<Outcome<Page>>, limit: nat, k: nat,
    before: seq<Entry>)
    returns (entries: seq<Entry>)
    requires taken == Taken(prefix, responses) && k < |responses| && responses[k].Ok?
    requires before == Shown(taken, k) && |before| < limit
    ensures entries == AtMost(Shown(taken, k + 1), limit)
  {
    entries := TakePage(prefix, responses[k].value, limit, before);
    TakenAt(prefix, responses, k);
  }

  /**
    The listing loop. Requests go on while pages have more and the limit is not reached. The result is the
    first `limit` entries shown, by path. A service that stops answering leaves the call to its context.
   */
  method ListFrom(
    prefix: Path, first: Query, responses: seq<Outcome<Page>>, limit: nat, ghost taken: seq<seq<Entry>>)
    returns (r: Outcome<seq<Entry>>, requests: seq<Query>)
    requires limit > 0 && first.token == None && first.maxKeys == PageSize(limit, 0)
    requires taken == Taken(prefix, responses)
    ensures 0 < |requests| <= |responses| + 1 && AllAsk(taken, first, responses, limit, requests)
    ensures EndsWith(taken, responses, limit, |requests| - 1, r)
  {
    var entries: seq<Entry> := [];
    var call := 0;
    var input := first;
    requests := [input];
    while true
      invariant call <= |responses| && |requests| == call + 1 && input == requests[call]
      invariant entries == Shown(taken, call) && |entries| < limit
      invariant AllAsk(taken, first, responses, limit, requests)
      decreases |responses| - call
    {
      if call == |responses| {
        return Err(Canceled), requests;
      }
      if responses[call].Err? {
        return Err(responses[call].error), requests;
      }
      var page := responses[call].value;
      entries := TakeResponse(prefix, taken, responses, limit, call, entries);
      if |entries| >= limit || !page.More() {
        return Ok(SortEntries(entries)), requests;
      }
      input := input.(token := page.next, maxKeys := PageSize(limit, |entries|));
      AskAgain(taken, first, responses, limit, requests, input);
      call := call + 1;
      requests := requests + [input];
    }
  }

  /** A listing asks below its directory, with a delimiter unless it is recursive. */
  method List(prefix: Path, directory: Path, recursive: bool, responses: seq<Outcome<Page>>, limit: nat)
    returns (r: Outcome<seq<Entry>>, requests: seq<Query>)
    requires limit > 0
    ensures 0 < |requests| <= |responses| + 1
    ensures var first := FirstQuery(prefix, directory, recursive, limit);
            AllAsk(Taken(prefix, responses), first, responses, limit, requests)
    ensures EndsWith(Taken(prefix, responses), responses, limit, |requests| - 1, r)
  {
    var first := FirstQuery(prefix, directory, recursive, limit);
    r, requests := ListFrom(prefix, first, responses, limit, Taken(prefix, responses));
  }

  /** A page no larger than was asked for. */
  ghost predicate Obedient(prefix: Path, responses: seq<Outcome<Page>>, limit: nat, k: nat)
    requires k < |responses|
  {
    var asked := PageSize(limit, |Shown(Taken(prefix, responses), k)|);
    responses[k].Ok? ==> |responses[k].value.contents| + |responses[k].value.prefixes| <= asked
  }

  /** If the service keeps to the size it was asked for, nothing it sent is cut off. */
  lemma {:induction false} NothingIsDropped(prefix: Path, responses: seq<Outcome<Page>>, limit: nat, n: nat)
    requires n <= |responses| && forall k :: 0 <= k < n ==> Obedient(prefix, responses, limit, k)
    ensures var shown := Shown(Taken(prefix, responses), n);
            |shown| <= limit && AtMost(shown, limit) == shown
  {
    if n > 0 {
      NothingIsDropped(prefix, responses, limit, n - 1);
      assert Obedient(prefix, responses, limit, n - 1);
      TakenAt(prefix, responses, n - 1);
      NoExtraEntries(prefix, responses[n - 1]);
    }
  }

  lemma NoExtraEntries(prefix: Path, response: Outcome<Page>)
    ensures |EntriesOf(prefix, response)| <=
            if response.Ok? then |response.value.contents| + |response.value.prefixes| else 0
  {
    if response.Ok? {
      NoExtraRows(prefix, response.value.contents);
      NoExtraRows(prefix, response.value.prefixes);
    }
  }

  // ---- what an entry says about its row ----

  /** A file with its object's size and time, or a directory for a common prefix, at the path of the key. */
  ghost predicate RowShows(prefix: Path, row: Row, e: Entry) {
    && LogicalPath(prefix, row.key, row.CommonPrefix?) == Some(e.path)
    && match row {
         case Object(_, size, modified) => e.kind == FileKind && e.size == size && e.modified == modified
         case CommonPrefix(_) => e.kind == DirectoryKind && e.size == 0 && e.modified == 0
       }
  }

  /** Rows are shown one after the other: one with a logical path as its entry, any other not at all. */
  lemma {:induction false} RowsInOrder(prefix: Path, a: seq<Row>, b: seq<Row>, row: Row)
    ensures FromRows(prefix, a + b) == FromRows(prefix, a) + FromRows(prefix, b)
    ensures match FromRows(prefix, [row]) {
              case shown =>
                if LogicalPath(prefix, row.key, row.CommonPrefix?).None? then shown == []
                else |shown| == 1 && RowShows(prefix, row, shown[0])
            }
    decreases |b|
  {
    assert [row][..0] == [];
    if b == [] {
      assert a + b == a;
    } else {
      var last := |b| - 1;
      RowsInOrder(prefix, a, b[..last], row);
      assert (a + b)[..|a + b| - 1] == a + b[..last] && (a + b)[|a + b| - 1] == b[last];
    }
  }

  ghost predicate ShownBy(prefix: Path, rows: seq<Row>, e: Entry) {
    exists j :: 0 <= j < |rows| && RowShows(prefix, rows[j], e)
  }

  lemma {:induction false} RowOfEntry(prefix: Path, rows: seq<Row>, i: nat)
    requires i < |FromRows(prefix, rows)|
    ensures ShownBy(prefix, rows, FromRows(prefix, rows)[i])
  {
    var last := |rows| - 1;
    var before, e := FromRows(prefix, rows[..last]), FromRows(prefix, rows)[i];
    if i < |before| {
      RowOfEntry(prefix, rows[..last], i);
      var j :| 0 <= j < last && RowShows(prefix, rows[..last][j], e);
      assert RowShows(prefix, rows[j], e);
    } else {
      assert RowShows(prefix, rows[last], e);
    }
  }

  /** A response of the listing has a row for this entry. */
  ghost predicate Answered(prefix: Path, responses: seq<Outcome<Page>>, k: nat, e: Entry) {
    && k < |responses| && responses[k].Ok?
    && (ShownBy(prefix, responses[k].value.contents, e) || ShownBy(prefix, responses[k].value.prefixes, e))
  }

  lemma {:induction false} ShownIsAnswered(prefix: Path, responses: seq<Outcome<Page>>, n: nat, i: nat)
    returns (k: nat)
    requires n <= |responses| && i < |Shown(Taken(prefix, responses), n)|
    ensures k < n && Answered(prefix, responses, k, Shown(Taken(prefix, responses), n)[i])
    decreases n
  {
    var before := Shown(Taken(prefix, responses), n - 1);
    if i < |before| {
      k := ShownIsAnswered(prefix, responses, n - 1, i);
    } else {
      k := n - 1;
      TakenAt(prefix, responses, k);
      ResponseEntry(prefix, responses, k, i - |before|);
    }
  }

  lemma ResponseEntry(prefix: Path, responses: seq<Outcome<Page>>, k: nat, i: nat)
    requires k < |responses| && i < |EntriesOf(prefix, responses[k])|
    ensures Answered(prefix, responses, k, EntriesOf(prefix, responses[k])[i])
  {
    PageEntry(prefix, responses[k].value.contents, responses[k].value.prefixes, i);
  }

  lemma PageEntry(prefix: Path, contents: seq<Row>, prefixes: seq<Row>, i: nat)
    requires i < |FromRows(prefix, contents) + FromRows(prefix, prefixes)|
    ensures var e := (FromRows(prefix, contents) + FromRows(prefix, prefixes))[i];
            ShownBy(prefix, contents, e) || ShownBy(prefix, prefixes, e)
  {
    var n := |FromRows(prefix, contents)|;
    if i < n { RowOfEntry(prefix, contents, i); } else { RowOfEntry(prefix, prefixes, i - n); }
  }

  /** Every entry of a listing's result is what some row of some response says. */
  lemma EntriesAreRows(
    prefix: Path, responses: seq<Outcome<Page>>, limit: nat, last: nat, entries: seq<Entry>, i: nat)
    returns (k: nat)
    requires EndsWith(Taken(prefix, responses), responses, limit, last, Ok(entries)) && i < |entries|
    ensures k <= last && Answered(prefix, responses, k, entries[i])
  {
    var j := SortedFrom(Shown(Taken(prefix, responses), last + 1), limit, entries, i);
    k := ShownIsAnswered(prefix, responses, last + 1, j);
  }

  lemma SortedFrom(shown: seq<Entry>, limit: nat, entries: seq<Entry>, i: nat) returns (j: nat)
    requires entries == SortEntries(AtMost(shown, limit)) && i < |entries|
    ensures j < |shown| && shown[j] == entries[i]
  {
    SortEntriesSorts(AtMost(shown, limit));
    assert entries[i] in AtMost(shown, limit);
    j :| 0 <= j < |AtMost(shown, limit)| && AtMost(shown, limit)[j] == entries[i];
  }

  // ---- byte ranges ----

  predicate Int64(x: int) { -MAX_INT64 - 1 <= x <= MAX_INT64 }

  /** The value a 64-bit register holds. */
  function Wrap(x: int): (r: int)
    ensures Int64(r) && (Int64(x) ==> r == x)
  {
    (x + MAX_INT64 + 1) % 0x1_0000_0000_0000_0000 - MAX_INT64 - 1
  }

  function InclusiveRangeEnd(offset: int, length: int): Option<int> {
    if offset < 0 || length <= 0 then None
    else if Wrap(length - 1) > Wrap(MAX_INT64 - offset) then None
    else Some(Wrap(Wrap(offset + length) - 1))
  }

  predicate ValidByteRange(offset: int, length: int) {
    if offset < 0 || length <= 0 then false else Wrap(length - 1) <= Wrap(MAX_INT64 - offset)
  }

  /**
    The end is the last position of the range, as section 14.1.2 of RFC 9110 counts positions, and a
    range is accepted, by both adapters, exactly when it is not empty and all its positions fit.
   */
  lemma RangeEndIsExact(offset: int, length: int)
    requires Int64(offset) && Int64(length)
    ensures InclusiveRangeEnd(offset, length).Some? <==> ValidByteRange(offset, length)
    ensures ValidByteRange(offset, length) <==> offset >= 0 && length > 0 && Int64(offset + length - 1)
    ensures ValidByteRange(offset, length) ==> InclusiveRangeEnd(offset, length) == Some(offset + length - 1)
  {
    if ValidByteRange(offset, length) && !Int64(offset + length) {
      assert offset + length == MAX_INT64 + 1;
    }
  }

  /** The largest range has an end although its intermediate sum leaves the 64-bit range. */
  lemma SumMayWrap()
    ensures Wrap(1 + MAX_INT64) < 0 && InclusiveRangeEnd(1, MAX_INT64) == Some(MAX_INT64)
  {}
}
