/**
  Recursive listing of a remote tree (ftp/ftp.go and sftp/sftp.go, `list`). The server is a finite
  tree: it answers a listing of a directory with that directory's children in any order, or with an
  error. The walk keeps a queue of directories still to list; the specification is the tree cut into
  levels, each level ordered by the one above and by name.
 */
module RemoteListing {
  import opened Common
  import opened Text
  import opened Sorting
  import opened Paths
  import opened Listing

  /** A remote entry. `failure` is the error of listing it, `children` what a listing returns. */
  datatype Node = Node(name: string, link: bool, directory: bool, size: nat, modified: Time,
                       failure: Option<Error>, children: seq<Node>)

  /** A directory to list, under its logical path. */
  datatype Place = Place(path: Path, node: Node)

  /** One step of the walk: a child found in `parent` and its path there, or a listing that failed. */
  datatype Item = Child(parent: Path, node: Node, joined: Outcome<Path>) | Broken(error: Error)

  // ---- sorting children by name ----

  function NameOf(n: Node): string { n.name }

  function SortByName(nodes: seq<Node>): seq<Node> { SortBy(NameOf, nodes) }

  lemma {:induction false} InsertKeepsSize(n: Node, nodes: seq<Node>)
    ensures SizeOf(InsertBy(NameOf, n, nodes)) == NodeSize(n) + SizeOf(nodes)
  {
    if nodes == [] || !Less(NameOf(nodes[0]), NameOf(n)) {
      assert ([n] + nodes)[1..] == nodes;
    } else {
      InsertKeepsSize(n, nodes[1..]);
      var tail := InsertBy(NameOf, n, nodes[1..]);
      assert ([nodes[0]] + tail)[1..] == tail;
    }
  }

  lemma {:induction false} SortKeepsSize(nodes: seq<Node>)
    ensures SizeOf(SortByName(nodes)) == SizeOf(nodes)
  {
    if nodes != [] {
      SortKeepsSize(nodes[1..]);
      InsertKeepsSize(nodes[0], SortByName(nodes[1..]));
    }
  }

  /** Children are visited by name, each once. */
  lemma SortByNameSorts(nodes: seq<Node>)
    ensures SortedBy(NameOf, SortByName(nodes)) && multiset(SortByName(nodes)) == multiset(nodes)
  {
    SortBySorts(NameOf, nodes);
  }

  // ---- sizes, for termination ----

  function NodeSize(n: Node): nat { 2 + SizeOf(n.children) }

  function SizeOf(nodes: seq<Node>): nat {
    if nodes == [] then 0 else NodeSize(nodes[0]) + SizeOf(nodes[1..])
  }

  function ItemsSize(items: seq<Item>): nat {
    if items == [] then 0
    else (match items[0] case Child(_, n, _) => NodeSize(n) case Broken(_) => 1) + ItemsSize(items[1..])
  }

  function PlacesSize(places: seq<Place>): nat {
    if places == [] then 0 else NodeSize(places[0].node) + PlacesSize(places[1..])
  }

  // ---- the walk as items ----

  lemma Dequeue<T>(rest: seq<T>, b: seq<T>, c: seq<T>)
    requires rest != []
    ensures (rest + b)[1..] + c == rest[1..] + (b + c)
  {}

  function ChildOf(parent: Path, node: Node): Item {
    Child(parent, node, JoinPath(parent, node.name))
  }

  function AsItems(parent: Path, nodes: seq<Node>): (items: seq<Item>)
    ensures |items| == |nodes|
    ensures forall i :: 0 <= i < |nodes| ==> items[i] == ChildOf(parent, nodes[i])
  {
    if nodes == [] then [] else [ChildOf(parent, nodes[0])] + AsItems(parent, nodes[1..])
  }

  /** What listing a directory yields. */
  function Kids(place: Place): seq<Item> {
    if place.node.failure.Some? then [Broken(place.node.failure.value)]
    else AsItems(place.path, SortByName(place.node.children))
  }

  /** Where an item is; the root stands in for an item that has no valid path. */
  function PathOf(item: Item): Path
    requires item.Child?
  {
    if item.joined.Ok? then item.joined.value else ROOT
  }

  /** The directories among the items. */
  function Directories(items: seq<Item>): seq<Place> {
    if items == [] then []
    else if items[0].Child? && items[0].node.directory then
      [Place(PathOf(items[0]), items[0].node)] + Directories(items[1..])
    else Directories(items[1..])
  }

  /** The level below: the listings of these directories, one after the other. */
  function Below(places: seq<Place>): seq<Item> {
    if places == [] then [] else Kids(places[0]) + Below(places[1..])
  }

  lemma {:induction false} AsItemsSize(parent: Path, nodes: seq<Node>)
    ensures ItemsSize(AsItems(parent, nodes)) == SizeOf(nodes)
  {
    if nodes != [] {
      AsItemsSize(parent, nodes[1..]);
      assert AsItems(parent, nodes)[1..] == AsItems(parent, nodes[1..]);
    }
  }

  lemma KidsShrink(place: Place)
    ensures ItemsSize(Kids(place)) < NodeSize(place.node)
  {
    SortKeepsSize(place.node.children);
    AsItemsSize(place.path, SortByName(place.node.children));
  }

  lemma {:induction false} DirectoriesShrink(items: seq<Item>)
    ensures PlacesSize(Directories(items)) <= ItemsSize(items)
  {
    if items != [] {
      DirectoriesShrink(items[1..]);
      if items[0].Child? && items[0].node.directory {
        assert Directories(items)[1..] == Directories(items[1..]);
      }
    }
  }

  lemma {:induction false} BelowShrinks(places: seq<Place>)
    ensures ItemsSize(Below(places)) + |places| <= PlacesSize(places)
  {
    if places != [] {
      KidsShrink(places[0]);
      BelowShrinks(places[1..]);
      ItemsSizeAppend(Kids(places[0]), Below(places[1..]));
    }
  }

  lemma {:induction false} ItemsSizeAppend(a: seq<Item>, b: seq<Item>)
    ensures ItemsSize(a + b) == ItemsSize(a) + ItemsSize(b)
  {
    if a == [] {
      assert a + b == b;
    } else {
      assert (a + b)[1..] == a[1..] + b;
      ItemsSizeAppend(a[1..], b);
    }
  }

  /** All items from these on, level by level. */
  function LevelOrder(items: seq<Item>): seq<Item>
    decreases ItemsSize(items)
  {
    var deeper := Directories(items);
    DirectoriesShrink(items);
    BelowShrinks(deeper);
    if deeper == [] then items else items + LevelOrder(Below(deeper))
  }

  /** What is listed for `directory`, in the order in which a cut-off listing keeps it. */
  function Order(directory: Place, recursive: bool): seq<Item> {
    if recursive then LevelOrder(Kids(directory)) else Kids(directory)
  }

  // ---- the queue walks in level order ----

  lemma {:induction false} DirectoriesAppend(a: seq<Item>, b: seq<Item>)
    ensures Directories(a + b) == Directories(a) + Directories(b)
  {
    if a == [] {
      assert a + b == b;
    } else {
      assert (a + b)[0] == a[0] && (a + b)[1..] == a[1..] + b;
      DirectoriesAppend(a[1..], b);
    }
  }

  lemma {:induction false} PlacesSizeAppend(a: seq<Place>, b: seq<Place>)
    ensures PlacesSize(a + b) == PlacesSize(a) + PlacesSize(b)
  {
    if a == [] {
      assert a + b == b;
    } else {
      assert (a + b)[0] == a[0] && (a + b)[1..] == a[1..] + b;
      PlacesSizeAppend(a[1..], b);
    }
  }

  function Enqueued(recursive: bool, items: seq<Item>): seq<Place> {
    if recursive then Directories(items) else []
  }

  lemma EnqueueShrinks(queue: seq<Place>, recursive: bool)
    requires queue != []
    ensures PlacesSize(queue[1..] + Enqueued(recursive, Kids(queue[0]))) < PlacesSize(queue)
  {
    var kids := Kids(queue[0]);
    PlacesSizeAppend(queue[1..], Enqueued(recursive, kids));
    DirectoriesShrink(kids);
    KidsShrink(queue[0]);
  }

  /** Everything a queue of directories still leads to, first in first out. */
  function QueueOrder(queue: seq<Place>, recursive: bool): seq<Item>
    decreases PlacesSize(queue)
  {
    if queue == [] then []
    else
      var kids := Kids(queue[0]);
      EnqueueShrinks(queue, recursive);
      kids + QueueOrder(queue[1..] + Enqueued(recursive, kids), recursive)
  }

  /** A queue part-way through a level: `rest` still to list, `done` already found below it. */
  lemma {:induction false} QueueIsLevelOrder(rest: seq<Place>, done: seq<Item>)
    ensures done + QueueOrder(rest + Directories(done), true) == LevelOrder(done + Below(rest))
    decreases PlacesSize(rest) + PlacesSize(Directories(done)), |Directories(done)|
  {
    if rest != [] {
      var kids := Kids(rest[0]);
      QueueStep(rest, done);
      Regroup(done, kids, QueueOrder(rest[1..] + Directories(done + kids), true));
      DirectoriesAppend(done, kids);
      PlacesSizeAppend(Directories(done), Directories(kids));
      DirectoriesShrink(kids);
      KidsShrink(rest[0]);
      QueueIsLevelOrder(rest[1..], done + kids);
      Regroup(done, kids, Below(rest[1..]));
    } else {
      assert rest + Directories(done) == Directories(done) && done + Below(rest) == done;
      if Directories(done) != [] {
        QueueIsLevelOrder(Directories(done), []);
        assert Directories(done) + Directories([]) == Directories(done);
        assert [] + Below(Directories(done)) == Below(Directories(done));
      }
    }
  }

  lemma QueueStep(rest: seq<Place>, done: seq<Item>)
    requires rest != []
    ensures QueueOrder(rest + Directories(done), true) ==
            Kids(rest[0]) + QueueOrder(rest[1..] + Directories(done + Kids(rest[0])), true)
  {
    var queue := rest + Directories(done);
    var kids := Kids(rest[0]);
    DirectoriesAppend(done, kids);
    assert queue[0] == rest[0];
    var next := queue[1..] + Enqueued(true, kids);
    assert QueueOrder(queue, true) == kids + QueueOrder(next, true);
    Dequeue(rest, Directories(done), Directories(kids));
  }

  lemma QueueStartsLevelOrder(directory: Place, recursive: bool)
    ensures QueueOrder([directory], recursive) == Order(directory, recursive)
  {
    var kids := Kids(directory);
    assert [directory][1..] + Enqueued(recursive, kids) == Enqueued(recursive, kids);
    assert kids + [] == kids;
    if recursive {
      QueueIsLevelOrder([], kids);
      assert [] + Directories(kids) == Directories(kids) && kids + Below([]) == kids;
    }
  }

  // ---- the listing ----

  predicate Bad(item: Item) {
    item.Broken? || item.node.link || item.joined.Err?
  }

  function ErrorOf(item: Item): Error
    requires Bad(item)
  {
    if item.Broken? then item.error
    else if item.node.link then Unsupported
    else item.joined.error
  }

  function EntryOf(item: Item): Entry
    requires item.Child?
  {
    Entry(PathOf(item), if item.node.directory then DirectoryKind else FileKind, item.node.size, item.node.modified)
  }

  function Entries(items: seq<Item>): (entries: seq<Entry>)
    requires forall i :: 0 <= i < |items| ==> items[i].Child?
    ensures |entries| == |items|
  {
    seq(|items|, i requires 0 <= i < |items| => EntryOf(items[i]))
  }

  ghost predicate AllGood(items: seq<Item>) { forall i :: 0 <= i < |items| ==> !Bad(items[i]) }

  /** The first bad item, whose error ends the listing. */
  ghost predicate FailsAt(items: seq<Item>, k: nat) {
    k < |items| && Bad(items[k]) && AllGood(items[..k])
  }

  /**
    The listing: the first `limit` items in level order as entries sorted by path, or the error of the
    first bad one among them. Nothing after the first `limit` items is looked at.
   */
  ghost predicate IsListing(directory: Place, recursive: bool, limit: nat, r: Outcome<seq<Entry>>) {
    var order := Order(directory, recursive);
    match r
    case Ok(entries) =>
      AllGood(AtMost(order, limit)) && entries == SortEntries(Entries(AtMost(order, limit)))
    case Err(e) => exists k: nat :: k < limit && FailsAt(order, k) && e == ErrorOf(order[k])
  }

  /** `r` is settled by the items walked so far. */
  ghost predicate Settles(walked: seq<Item>, limit: nat, r: Outcome<seq<Entry>>) {
    match r
    case Ok(entries) =>
      limit <= |walked| && AllGood(walked[..limit]) && entries == SortEntries(Entries(walked[..limit]))
    case Err(e) => exists k: nat :: k < limit && FailsAt(walked, k) && e == ErrorOf(walked[k])
  }

  lemma SettledIsListing(walked: seq<Item>, directory: Place, recursive: bool, limit: nat, r: Outcome<seq<Entry>>)
    requires walked <= Order(directory, recursive) && Settles(walked, limit, r)
    ensures IsListing(directory, recursive, limit, r)
  {
    var order := Order(directory, recursive);
    match r
    case Ok(_) => assert order[..limit] == walked[..limit];
    case Err(e) =>
      var k: nat :| k < limit && FailsAt(walked, k) && e == ErrorOf(walked[k]);
      assert order[..k] == walked[..k];
      assert FailsAt(order, k);
  }

  /** One child: its entry and, if the walk is to descend into it, its place in the queue; or its error. */
  method VisitChild(parent: Path, child: Node, recursive: bool) returns (entry: Outcome<Entry>, place: Option<Place>)
    ensures var item := ChildOf(parent, child);
            if Bad(item) then entry == Err(ErrorOf(item)) && place == None
            else && entry == Ok(EntryOf(item))
                 && place == if recursive && child.directory then Some(Place(PathOf(item), child)) else None
  {
    place := None;
    if child.link {
      return Err(Unsupported), None;
    }
    var joined := JoinPath(parent, child.name);
    if joined.Err? {
      return Err(joined.error), None;
    }
    if child.directory && recursive {
      place := Some(Place(joined.value, child));
    }
    var kind := if child.directory then DirectoryKind else FileKind;
    entry := Ok(Entry(joined.value, kind, child.size, child.modified));
  }

  /** One directory of the walk: its children in order, until one is bad or the limit is reached. */
  method Visit(current: Place, recursive: bool, limit: nat, entries0: seq<Entry>, queue0: seq<Place>,
               ghost visited: seq<Item>)
    returns (settled: Option<Outcome<seq<Entry>>>, entries: seq<Entry>, queue: seq<Place>)
    requires |visited| < limit && AllGood(visited) && entries0 == Entries(visited)
    ensures match settled {
              case Some(r) => Settles(visited + Kids(current), limit, r)
              case None =>
                && |visited + Kids(current)| < limit && AllGood(visited + Kids(current))
                && entries == Entries(visited + Kids(current))
                && queue == queue0 + Enqueued(recursive, Kids(current))
            }
  {
    entries, queue := entries0, queue0;
    ghost var kids := Kids(current);
    if current.node.failure.Some? {
      assert FailsAt(visited + kids, |visited|) by { assert (visited + kids)[..|visited|] == visited; }
      return Some(Err(current.node.failure.value)), entries, queue;
    }
    var children := SortByName(current.node.children);
    StartWalk(visited, kids, limit, recursive, queue0);
    var i := 0;
    while i < |children|
      invariant i <= |children| == |kids|
      invariant Walked(visited, kids, i, limit, recursive, queue0, entries, queue)
    {
      assert kids[i] == ChildOf(current.path, children[i]);
      var entry, place := VisitChild(current.path, children[i], recursive);
      if entry.Err? {
        FailingItem(visited, kids, i, limit);
        return Some(Err(entry.error)), entries, queue;
      }
      WalkOn(visited, kids, i, limit, recursive, queue0, entries, queue);
      if place.Some? {
        queue := queue + [place.value];
      }
      entries := entries + [entry.value];
      i := i + 1;
      if |entries| >= limit {
        LastItem(visited, kids, i, limit);
        return Some(Ok(SortEntries(entries))), entries, queue;
      }
    }
    assert kids[..i] == kids;
    settled := None;
  }

  /** The first `i` children are walked, all of them good, and the limit is not reached. */
  ghost predicate Walked(
    visited: seq<Item>, kids: seq<Item>, i: nat, limit: nat, recursive: bool, queue0: seq<Place>,
    entries: seq<Entry>, queue: seq<Place>)
  {
    && i <= |kids| && |visited| + i < limit && AllGood(visited + kids[..i])
    && entries == Entries(visited + kids[..i]) && queue == queue0 + Enqueued(recursive, kids[..i])
  }

  lemma StartWalk(visited: seq<Item>, kids: seq<Item>, limit: nat, recursive: bool, queue0: seq<Place>)
    requires |visited| < limit && AllGood(visited)
    ensures Walked(visited, kids, 0, limit, recursive, queue0, Entries(visited), queue0)
  {
    assert visited + kids[..0] == visited && queue0 + [] == queue0;
  }

  lemma WalkOn(
    visited: seq<Item>, kids: seq<Item>, i: nat, limit: nat, recursive: bool, queue0: seq<Place>,
    entries: seq<Entry>, queue: seq<Place>)
    requires Walked(visited, kids, i, limit, recursive, queue0, entries, queue) && i < |kids| && !Bad(kids[i])
    ensures var entries' := entries + [EntryOf(kids[i])];
            && AllGood(visited + kids[..i + 1]) && entries' == Entries(visited + kids[..i + 1])
            && queue0 + Enqueued(recursive, kids[..i + 1]) ==
               if recursive && kids[i].node.directory then queue + [Place(PathOf(kids[i]), kids[i].node)] else queue
  {
    NextItem(visited, kids, i, visited + kids[..i]);
    NextQueue(queue0, recursive, kids, i);
  }

  lemma NextItem(visited: seq<Item>, kids: seq<Item>, i: nat, walked: seq<Item>)
    requires i < |kids| && walked == visited + kids[..i]
    ensures walked + [kids[i]] == visited + kids[..i + 1]
    ensures AllGood(walked) && !Bad(kids[i]) ==>
              && AllGood(walked + [kids[i]])
              && Entries(walked + [kids[i]]) == Entries(walked) + [EntryOf(kids[i])]
  {
    TakeOneMore(kids, i);
  }

  lemma FailingItem(visited: seq<Item>, kids: seq<Item>, i: nat, limit: nat)
    requires i < |kids| && |visited| + i < limit && AllGood(visited + kids[..i]) && Bad(kids[i])
    ensures Settles(visited + kids, limit, Err(ErrorOf(kids[i])))
  {
    assert (visited + kids)[..|visited| + i] == visited + kids[..i];
    assert FailsAt(visited + kids, |visited| + i);
  }

  lemma LastItem(visited: seq<Item>, kids: seq<Item>, i: nat, limit: nat)
    requires i <= |kids| && |visited| + i == limit && AllGood(visited + kids[..i])
    ensures Settles(visited + kids, limit, Ok(SortEntries(Entries(visited + kids[..i]))))
  {
    assert (visited + kids)[..limit] == visited + kids[..i];
  }

  lemma NextQueue(queue: seq<Place>, recursive: bool, kids: seq<Item>, i: nat)
    requires i < |kids|
    ensures queue + Enqueued(recursive, kids[..i + 1]) ==
            if recursive && kids[i].Child? && kids[i].node.directory
            then queue + Enqueued(recursive, kids[..i]) + [Place(PathOf(kids[i]), kids[i].node)]
            else queue + Enqueued(recursive, kids[..i])
  {
    TakeOneMore(kids, i);
    DirectoriesAppend(kids[..i], [kids[i]]);
    Regroup(queue, Directories(kids[..i]), Directories([kids[i]]));
  }

  method List(directory: Place, recursive: bool, limit: nat) returns (r: Outcome<seq<Entry>>)
    requires limit > 0
    ensures IsListing(directory, recursive, limit, r)
  {
    ghost var order := Order(directory, recursive);
    QueueStartsLevelOrder(directory, recursive);
    var queue, entries := [directory], [];
    ghost var visited: seq<Item> := [];
    while queue != []
      invariant |visited| < limit && AllGood(visited) && entries == Entries(visited)
      invariant order == visited + QueueOrder(queue, recursive)
      decreases PlacesSize(queue)
    {
      var current := queue[0];
      ghost var kids := Kids(current);
      EnqueueShrinks(queue, recursive);
      Regroup(visited, kids, QueueOrder(queue[1..] + Enqueued(recursive, kids), recursive));
      assert order == visited + kids + QueueOrder(queue[1..] + Enqueued(recursive, kids), recursive);
      var settled;
      settled, entries, queue := Visit(current, recursive, limit, entries, queue[1..], visited);
      visited := visited + kids;
      if settled.Some? {
        SettledIsListing(visited, directory, recursive, limit, settled.value);
        return settled.value;
      }
    }
    assert AtMost(order, limit) == visited;
    r := Ok(SortEntries(entries));
  }

  /**
    A listing that reconnects once. `Failed` is a lost connection; the second session may see another
    tree. The result is one session's listing from start to end, never a mixture.
   */
  method ListReconnecting(path: Path, first: Node, second: Outcome<Node>, recursive: bool, limit: nat)
    returns (r: Outcome<seq<Entry>>)
    requires limit > 0
    ensures r.Ok? ==>
              || IsListing(Place(path, first), recursive, limit, r)
              || (second.Ok? && IsListing(Place(path, second.value), recursive, limit, r)
                  && IsListing(Place(path, first), recursive, limit, Err(Failed)))
    ensures r.Err? && !IsListing(Place(path, first), recursive, limit, r) ==>
              IsListing(Place(path, first), recursive, limit, Err(Failed)) &&
              match second {
                case Ok(node) => IsListing(Place(path, node), recursive, limit, r)
                case Err(e) => r == Err(e)
              }
  {
    r := List(Place(path, first), recursive, limit);
    if r != Err(Failed) {
      return;
    }
    if second.Err? {
      return Err(second.error);
    }
    r := List(Place(path, second.value), recursive, limit);
  }

  // ---- what a listing contains ----

  ghost predicate DistinctNames(nodes: seq<Node>) {
    forall i, j :: 0 <= i < j < |nodes| ==> nodes[i].name != nodes[j].name
  }

  /** A name that is no path at all, or a path of just that one segment. */
  ghost predicate SingleSegment(name: string) {
    Parse(name).Ok? ==> Segments(Parse(name).value) == [name]
  }

  /** As servers list: sibling names differ, and none spans several segments. */
  ghost predicate WellNamed(node: Node) {
    && DistinctNames(node.children)
    && forall i :: 0 <= i < |node.children| ==> SingleSegment(node.children[i].name) && WellNamed(node.children[i])
  }

  lemma SortKeepsDistinct(nodes: seq<Node>)
    requires DistinctNames(nodes)
    ensures DistinctNames(SortByName(nodes))
  {
    SortByNameSorts(nodes);
    DistinctAfter(NameOf, nodes, SortByName(nodes));
    var sorted := SortByName(nodes);
    forall i, j | 0 <= i < j < |sorted| ensures sorted[i].name != sorted[j].name {
      assert NameOf(sorted[i]) != NameOf(sorted[j]);
    }
  }

  function Trail(item: Item): seq<string>
    requires item.Child?
  {
    Segments(PathOf(item))
  }

  /** An item found `depth` levels down, in a directory at a valid path beneath `base`. */
  ghost predicate ItemOk(item: Item, base: seq<string>, depth: nat) {
    item.Child? ==>
      && item.joined == JoinPath(item.parent, item.node.name)
      && Valid(item.parent) && base <= Segments(item.parent) && |Segments(item.parent)| == depth
      && SingleSegment(item.node.name) && WellNamed(item.node)
  }

  ghost predicate SameItem(a: Item, b: Item) {
    a.Child? && b.Child? && a.parent == b.parent && a.node.name == b.node.name
  }

  ghost predicate LevelOk(items: seq<Item>, base: seq<string>, depth: nat) {
    && (forall i :: 0 <= i < |items| ==> ItemOk(items[i], base, depth))
    && forall i, j :: 0 <= i < j < |items| ==> !SameItem(items[i], items[j])
  }

  ghost predicate PlaceOk(place: Place, base: seq<string>, depth: nat) {
    Valid(place.path) && base <= Segments(place.path) && |Segments(place.path)| == depth && WellNamed(place.node)
  }

  ghost predicate PlacesOk(places: seq<Place>, base: seq<string>, depth: nat) {
    && (forall i :: 0 <= i < |places| ==> PlaceOk(places[i], base, depth))
    && forall i, j :: 0 <= i < j < |places| ==> places[i].path != places[j].path
  }

  /** A good item's path is its directory's path and its name. */
  lemma GoodTrail(item: Item, base: seq<string>, depth: nat)
    requires ItemOk(item, base, depth) && !Bad(item)
    ensures Valid(PathOf(item)) && Trail(item) == Segments(item.parent) + [item.node.name]
  {
    JoinConcatenates(item.parent, item.node.name);
  }

  lemma KidsLevel(place: Place, base: seq<string>, depth: nat)
    requires PlaceOk(place, base, depth)
    ensures LevelOk(Kids(place), base, depth)
    ensures forall i :: 0 <= i < |Kids(place)| && Kids(place)[i].Child? ==> Kids(place)[i].parent == place.path
  {
    var kids := Kids(place);
    var sorted := SortByName(place.node.children);
    SortKeepsDistinct(place.node.children);
    SortByNameSorts(place.node.children);
    forall i | 0 <= i < |kids| ensures ItemOk(kids[i], base, depth) {
      assert kids[i].Child? ==> sorted[i] in multiset(sorted);
      assert kids[i].Child? ==> sorted[i] in place.node.children;
    }
  }

  lemma {:induction false} BelowLevel(places: seq<Place>, base: seq<string>, depth: nat)
    requires PlacesOk(places, base, depth)
    ensures LevelOk(Below(places), base, depth)
    ensures forall i :: 0 <= i < |Below(places)| ==> ListedIn(Below(places)[i], places)
  {
    if places != [] {
      var rest := places[1..];
      KidsLevel(places[0], base, depth);
      assert PlacesOk(rest, base, depth);
      BelowLevel(rest, base, depth);
      forall i | 0 <= i < |Below(rest)| ensures ListedIn(Below(rest)[i], places) && !IsIn(Below(rest)[i], places[0]) {
        if Below(rest)[i].Child? {
          assert ListedIn(Below(rest)[i], rest);
          var j :| 0 <= j < |rest| && IsIn(Below(rest)[i], rest[j]);
          assert IsIn(Below(rest)[i], places[j + 1]);
        }
      }
      forall i | 0 <= i < |Kids(places[0])| ensures ListedIn(Kids(places[0])[i], places) {
        assert Kids(places[0])[i].Child? ==> IsIn(Kids(places[0])[i], places[0]);
      }
      LevelAppend(Kids(places[0]), Below(rest), places[0], base, depth);
    }
  }

  ghost predicate IsIn(item: Item, place: Place) { item.Child? && item.parent == place.path }

  ghost predicate ListedIn(item: Item, places: seq<Place>) {
    item.Child? ==> exists j :: 0 <= j < |places| && IsIn(item, places[j])
  }

  lemma LevelAppend(a: seq<Item>, b: seq<Item>, place: Place, base: seq<string>, depth: nat)
    requires LevelOk(a, base, depth) && LevelOk(b, base, depth)
    requires forall i :: 0 <= i < |a| && a[i].Child? ==> a[i].parent == place.path
    requires forall i :: 0 <= i < |b| ==> !IsIn(b[i], place)
    ensures LevelOk(a + b, base, depth)
  {
    var all := a + b;
    forall i, j | 0 <= i < j < |all| ensures !SameItem(all[i], all[j]) {
      assert i < |a| <= j ==> !IsIn(b[j - |a|], place);
    }
  }

  ghost predicate IsPlaceOf(place: Place, item: Item) {
    item.Child? && item.node.directory && place == Place(PathOf(item), item.node)
  }

  ghost predicate HasPlace(items: seq<Item>, place: Place) {
    exists i :: 0 <= i < |items| && IsPlaceOf(place, items[i])
  }

  /** The directories are exactly the places of the directory items. */
  lemma {:induction false} DirectoryOrigin(items: seq<Item>, place: Place)
    ensures place in Directories(items) <==> HasPlace(items, place)
  {
    if items != [] {
      var rest := items[1..];
      DirectoryOrigin(rest, place);
      if HasPlace(rest, place) {
        var i :| 0 <= i < |rest| && IsPlaceOf(place, rest[i]);
        assert IsPlaceOf(place, items[i + 1]);
      }
      if HasPlace(items, place) {
        var i :| 0 <= i < |items| && IsPlaceOf(place, items[i]);
        assert i > 0 ==> IsPlaceOf(place, rest[i - 1]);
      }
    }
  }

  lemma PlacesCons(first: Place, places: seq<Place>, base: seq<string>, depth: nat)
    requires PlaceOk(first, base, depth) && PlacesOk(places, base, depth)
    requires forall j :: 0 <= j < |places| ==> places[j].path != first.path
    ensures PlacesOk([first] + places, base, depth)
  {}

  lemma {:induction false} DirectoriesPlaces(items: seq<Item>, base: seq<string>, depth: nat)
    requires LevelOk(items, base, depth) && AllGood(items)
    ensures PlacesOk(Directories(items), base, depth + 1)
  {
    if items != [] {
      var rest := items[1..];
      assert LevelOk(rest, base, depth) && AllGood(rest);
      DirectoriesPlaces(rest, base, depth);
      var first := items[0];
      GoodTrail(first, base, depth);
      if first.node.directory {
        var places := Directories(rest);
        forall j | 0 <= j < |places| ensures places[j].path != PathOf(first) {
          FreshPlace(items, base, depth, places[j]);
        }
        PlacesCons(Place(PathOf(first), first.node), places, base, depth + 1);
      }
    }
  }

  lemma FreshPlace(items: seq<Item>, base: seq<string>, depth: nat, place: Place)
    requires items != [] && LevelOk(items, base, depth) && AllGood(items) && place in Directories(items[1..])
    ensures place.path != PathOf(items[0])
  {
    var rest := items[1..];
    DirectoryOrigin(rest, place);
    var i :| 0 <= i < |rest| && IsPlaceOf(place, rest[i]);
    assert rest[i] == items[i + 1] && !SameItem(items[0], items[i + 1]);
    DifferentTrails(items[0], items[i + 1], base, depth);
  }

  lemma DifferentTrails(a: Item, b: Item, base: seq<string>, depth: nat)
    requires ItemOk(a, base, depth) && ItemOk(b, base, depth) && !Bad(a) && !Bad(b) && !SameItem(a, b)
    ensures Trail(a) != Trail(b) && PathOf(a) != PathOf(b)
    ensures base < Trail(a) && |Trail(a)| == depth + 1
  {
    GoodTrail(a, base, depth);
    GoodTrail(b, base, depth);
    if Trail(a) == Trail(b) {
      assert Segments(a.parent) == Trail(a)[..depth] == Segments(b.parent);
      assert a.node.name == Trail(a)[depth] == b.node.name;
      SegmentsFromSegments(a.parent);
      SegmentsFromSegments(b.parent);
    }
  }

  ghost predicate Deeper(item: Item, base: seq<string>, depth: nat) {
    item.Child? && base < Trail(item) && depth < |Trail(item)|
  }

  ghost predicate Follows(a: Item, b: Item) {
    a.Child? && b.Child? && Trail(a) != Trail(b) && |Trail(a)| <= |Trail(b)|
  }

  /** All beneath `base` and deeper than `depth`, no path twice, and no item before a shallower one. */
  ghost predicate Orderly(items: seq<Item>, base: seq<string>, depth: nat) {
    && (forall i {:trigger Deeper(items[i], base, depth)} :: 0 <= i < |items| ==> Deeper(items[i], base, depth))
    && forall i, j {:trigger Follows(items[i], items[j])} :: 0 <= i < j < |items| ==> Follows(items[i], items[j])
  }

  lemma LevelIsOrderly(items: seq<Item>, base: seq<string>, depth: nat)
    requires LevelOk(items, base, depth) && AllGood(items)
    ensures Orderly(items, base, depth)
    ensures forall i :: 0 <= i < |items| ==> items[i].Child? && |Trail(items[i])| == depth + 1
  {
    forall i | 0 <= i < |items|
      ensures Deeper(items[i], base, depth) && |Trail(items[i])| == depth + 1
    {
      GoodTrail(items[i], base, depth);
    }
    forall i, j | 0 <= i < j < |items| ensures Follows(items[i], items[j]) {
      DifferentTrails(items[i], items[j], base, depth);
      DifferentTrails(items[j], items[i], base, depth);
    }
  }

  lemma OrderlyAppend(level: seq<Item>, deeper: seq<Item>, base: seq<string>, depth: nat)
    requires LevelOk(level, base, depth) && AllGood(level) && Orderly(deeper, base, depth + 1)
    ensures Orderly(level + deeper, base, depth)
  {
    LevelIsOrderly(level, base, depth);
    var all := level + deeper;
    forall i | 0 <= i < |all| ensures Deeper(all[i], base, depth) {
      if i < |level| {
        assert Deeper(level[i], base, depth);
      } else {
        assert Deeper(deeper[i - |level|], base, depth + 1);
      }
    }
    forall i, j | 0 <= i < j < |all| ensures Follows(all[i], all[j]) {
      if j < |level| {
        assert Follows(level[i], level[j]);
      } else {
        assert Deeper(deeper[j - |level|], base, depth + 1);
        if i >= |level| { assert Follows(deeper[i - |level|], deeper[j - |level|]); }
      }
    }
  }

  lemma GoodParts(a: seq<Item>, b: seq<Item>)
    requires AllGood(a + b)
    ensures AllGood(a) && AllGood(b)
  {
    forall i | 0 <= i < |a| ensures !Bad(a[i]) { assert a[i] == (a + b)[i]; }
    forall i | 0 <= i < |b| ensures !Bad(b[i]) { assert b[i] == (a + b)[|a| + i]; }
  }

  /** A cut below the first level is the first level and a cut of the levels below. */
  lemma PrefixBelow(items: seq<Item>, kept: seq<Item>)
    requires |items| < |kept| && kept <= LevelOrder(items)
    ensures ItemsSize(Below(Directories(items))) < ItemsSize(items)
    ensures kept[|items|..] <= LevelOrder(Below(Directories(items)))
    ensures kept == items + kept[|items|..]
  {
    DirectoriesShrink(items);
    BelowShrinks(Directories(items));
    var below := LevelOrder(Below(Directories(items)));
    assert LevelOrder(items) == items + below;
    SplitPrefix(items, below, kept);
  }

  lemma SplitPrefix<T>(a: seq<T>, b: seq<T>, kept: seq<T>)
    requires |a| < |kept| && kept <= a + b
    ensures kept[|a|..] <= b && kept == a + kept[|a|..]
  {}

  lemma {:induction false} LevelOrderIsOrderly(items: seq<Item>, base: seq<string>, depth: nat, kept: seq<Item>)
    requires LevelOk(items, base, depth)
    requires kept <= LevelOrder(items) && AllGood(kept)
    ensures Orderly(kept, base, depth)
    decreases ItemsSize(items)
  {
    if |kept| <= |items| {
      assert forall i :: 0 <= i < |kept| ==> kept[i] == items[i];
      assert LevelOk(kept, base, depth);
      LevelIsOrderly(kept, base, depth);
    } else {
      var places, deeper := Directories(items), kept[|items|..];
      PrefixBelow(items, kept);
      GoodParts(items, deeper);
      DirectoriesPlaces(items, base, depth);
      BelowLevel(places, base, depth + 1);
      LevelOrderIsOrderly(Below(places), base, depth + 1, deeper);
      OrderlyAppend(items, deeper, base, depth);
    }
  }

  lemma KeptIsOrderly(directory: Place, recursive: bool, limit: nat)
    requires Valid(directory.path) && WellNamed(directory.node)
    requires AllGood(AtMost(Order(directory, recursive), limit))
    ensures Orderly(AtMost(Order(directory, recursive), limit),
                    Segments(directory.path), |Segments(directory.path)|)
  {
    var base, order := Segments(directory.path), Order(directory, recursive);
    var n := if limit <= |order| then limit else |order|;
    assert AtMost(order, limit) == order[..n];
    KidsLevel(directory, base, |base|);
    if recursive {
      LevelOrderIsOrderly(Kids(directory), base, |base|, order[..n]);
    } else {
      assert LevelOk(order[..n], base, |base|);
      LevelIsOrderly(order[..n], base, |base|);
    }
  }

  /** Listed entries are strictly sorted by path, and all of them lie beneath the listed directory. */
  lemma ListingIsSorted(directory: Place, recursive: bool, limit: nat, entries: seq<Entry>)
    requires Valid(directory.path) && WellNamed(directory.node)
    requires IsListing(directory, recursive, limit, Ok(entries))
    ensures StrictlySorted(PathsOf(entries)) && |entries| <= limit
    ensures forall i :: 0 <= i < |entries| ==> Segments(directory.path) < Segments(entries[i].path)
  {
    var kept := AtMost(Order(directory, recursive), limit);
    KeptIsOrderly(directory, recursive, limit);
    SortEntriesSorts(Entries(kept));
    var base := Segments(directory.path);
    forall i | 0 <= i < |entries| ensures base < Segments(entries[i].path) {
      assert entries[i] in Entries(kept);
      var k :| 0 <= k < |kept| && Entries(kept)[k] == entries[i];
      assert Deeper(kept[k], base, |base|);
    }
    forall i, j | 0 <= i < j < |kept| ensures PathText(Entries(kept)[i]) != PathText(Entries(kept)[j]) {
      assert Follows(kept[i], kept[j]);
    }
    SortedDistinctIsStrict(Entries(kept));
  }

  // ---- completeness ----

  /** The tree below `node` has a node at this relative path, reached through directories. */
  ghost predicate Has(node: Node, names: seq<string>)
    decreases |names|, 1
  {
    names != [] && exists i :: 0 <= i < |node.children| && Leads(node.children[i], names)
  }

  ghost predicate Leads(child: Node, names: seq<string>)
    requires names != []
    decreases |names|, 0
  {
    child.name == names[0] && (|names| == 1 || (child.directory && Has(child, names[1..])))
  }

  ghost predicate PlaceReaches(place: Place, trail: seq<string>) {
    Segments(place.path) < trail && Has(place.node, trail[|Segments(place.path)|..])
  }

  /** The item is at `trail`, or is a directory with something at `trail` below it. */
  ghost predicate Reaches(item: Item, trail: seq<string>) {
    item.Child? &&
    (trail == Trail(item) || (item.node.directory && PlaceReaches(Place(PathOf(item), item.node), trail)))
  }

  ghost predicate AnyReaches(items: seq<Item>, trail: seq<string>) {
    exists i :: 0 <= i < |items| && Reaches(items[i], trail)
  }

  ghost predicate AnyPlaceReaches(places: seq<Place>, trail: seq<string>) {
    exists i :: 0 <= i < |places| && PlaceReaches(places[i], trail)
  }

  ghost predicate IsAt(item: Item, trail: seq<string>) { item.Child? && Trail(item) == trail }

  ghost predicate Occurs(items: seq<Item>, trail: seq<string>) {
    exists i :: 0 <= i < |items| && IsAt(items[i], trail)
  }

  /** A child reaches what its directory reaches through it. */
  lemma ChildReaches(item: Item, base: seq<string>, depth: nat, trail: seq<string>)
    requires ItemOk(item, base, depth) && !Bad(item)
    ensures Reaches(item, trail) <==>
            Segments(item.parent) < trail && Leads(item.node, trail[|Segments(item.parent)|..])
  {
    GoodTrail(item, base, depth);
    StepBelow(Segments(item.parent), item.node.name, trail);
  }

  lemma StepBelow(above: seq<string>, name: string, trail: seq<string>)
    ensures above + [name] <= trail <==> above < trail && trail[|above|] == name
    ensures above + [name] == trail <==> above < trail && trail[|above|] == name && |trail[|above|..]| == 1
    ensures above < trail ==> trail[|above| + 1..] == trail[|above|..][1..]
  {
    if above < trail {
      assert trail[..|above|] == above;
      if trail[|above|] == name { LeadingPlusOne(above, trail); }
    }
  }

  /** A listing that does not fail yields each child once. */
  lemma KidsAreChildren(place: Place)
    requires place.node.failure.None?
    ensures forall i :: 0 <= i < |Kids(place)| ==>
              Kids(place)[i].Child? && Kids(place)[i].parent == place.path && Kids(place)[i].node in place.node.children
    ensures forall n :: n in place.node.children ==> ChildOf(place.path, n) in Kids(place)
  {
    var sorted := SortByName(place.node.children);
    SortByNameSorts(place.node.children);
    forall i | 0 <= i < |Kids(place)| ensures Kids(place)[i].node in place.node.children {
      assert sorted[i] in multiset(sorted);
    }
    forall n | n in place.node.children ensures ChildOf(place.path, n) in Kids(place) {
      assert n in multiset(sorted);
      var i :| 0 <= i < |sorted| && sorted[i] == n;
      assert Kids(place)[i] == ChildOf(place.path, n);
    }
  }

  lemma ListsChild(place: Place, k: nat) returns (i: nat)
    requires place.node.failure.None? && k < |place.node.children|
    ensures i < |Kids(place)| && Kids(place)[i] == ChildOf(place.path, place.node.children[k])
  {
    KidsAreChildren(place);
    assert place.node.children[k] in place.node.children;
    i :| i < |Kids(place)| && Kids(place)[i] == ChildOf(place.path, place.node.children[k]);
  }

  lemma KidsReach(place: Place, base: seq<string>, depth: nat, trail: seq<string>)
    requires PlaceOk(place, base, depth) && AllGood(Kids(place))
    ensures AnyReaches(Kids(place), trail) <==> PlaceReaches(place, trail)
  {
    var kids, above := Kids(place), Segments(place.path);
    assert place.node.failure.Some? ==> Bad(kids[0]);
    if i :| 0 <= i < |kids| && Reaches(kids[i], trail) { KidReaches(place, base, depth, trail, i); }
    if PlaceReaches(place, trail) {
      var k :| 0 <= k < |place.node.children| && Leads(place.node.children[k], trail[|above|..]);
      var i := ListsChild(place, k);
      assert ItemOk(kids[i], base, depth) by { KidsLevel(place, base, depth); }
      ChildReaches(kids[i], base, depth, trail);
      assert Reaches(kids[i], trail);
    }
  }

  lemma KidReaches(place: Place, base: seq<string>, depth: nat, trail: seq<string>, i: nat)
    requires PlaceOk(place, base, depth) && AllGood(Kids(place)) && place.node.failure.None?
    requires i < |Kids(place)| && Reaches(Kids(place)[i], trail)
    ensures PlaceReaches(place, trail)
  {
    var kid := Kids(place)[i];
    assert ItemOk(kid, base, depth) by { KidsLevel(place, base, depth); }
    KidsAreChildren(place);
    ChildReaches(kid, base, depth, trail);
    var k :| 0 <= k < |place.node.children| && place.node.children[k] == kid.node;
    assert Leads(place.node.children[k], trail[|Segments(place.path)|..]);
  }

  lemma AnyReachesAppend(a: seq<Item>, b: seq<Item>, trail: seq<string>)
    ensures AnyReaches(a + b, trail) <==> AnyReaches(a, trail) || AnyReaches(b, trail)
    ensures Occurs(a + b, trail) <==> Occurs(a, trail) || Occurs(b, trail)
  {
    var all := a + b;
    if i :| 0 <= i < |a| && Reaches(a[i], trail) { assert Reaches(all[i], trail); }
    if i :| 0 <= i < |b| && Reaches(b[i], trail) { assert Reaches(all[|a| + i], trail); }
    if i :| 0 <= i < |a| && IsAt(a[i], trail) { assert IsAt(all[i], trail); }
    if i :| 0 <= i < |b| && IsAt(b[i], trail) { assert IsAt(all[|a| + i], trail); }
    if i :| 0 <= i < |all| && Reaches(all[i], trail) {
      assert i < |a| ==> Reaches(a[i], trail);
      assert i >= |a| ==> Reaches(b[i - |a|], trail);
    }
    if i :| 0 <= i < |all| && IsAt(all[i], trail) {
      assert i < |a| ==> IsAt(a[i], trail);
      assert i >= |a| ==> IsAt(b[i - |a|], trail);
    }
  }

  lemma {:induction false} BelowReaches(places: seq<Place>, base: seq<string>, depth: nat, trail: seq<string>)
    requires PlacesOk(places, base, depth) && AllGood(Below(places))
    ensures AnyReaches(Below(places), trail) <==> AnyPlaceReaches(places, trail)
  {
    if places != [] {
      var rest := places[1..];
      GoodParts(Kids(places[0]), Below(rest));
      KidsReach(places[0], base, depth, trail);
      BelowReaches(rest, base, depth, trail);
      AnyReachesAppend(Kids(places[0]), Below(rest), trail);
      if i :| 0 <= i < |rest| && PlaceReaches(rest[i], trail) { assert PlaceReaches(places[i + 1], trail); }
      if i :| 0 <= i < |places| && PlaceReaches(places[i], trail) {
        assert i > 0 ==> PlaceReaches(rest[i - 1], trail);
      }
    }
  }

  lemma DirectoriesReach(items: seq<Item>, trail: seq<string>)
    ensures AnyReaches(items, trail) <==> Occurs(items, trail) || AnyPlaceReaches(Directories(items), trail)
  {
    var places := Directories(items);
    if i :| 0 <= i < |items| && Reaches(items[i], trail) {
      if IsAt(items[i], trail) {
        assert Occurs(items, trail);
      } else {
        var place := Place(PathOf(items[i]), items[i].node);
        DirectoryOrigin(items, place);
        assert IsPlaceOf(place, items[i]);
        var k :| 0 <= k < |places| && places[k] == place;
        assert PlaceReaches(places[k], trail);
      }
    }
    if k :| 0 <= k < |places| && PlaceReaches(places[k], trail) {
      DirectoryOrigin(items, places[k]);
      var i :| 0 <= i < |items| && IsPlaceOf(places[k], items[i]);
      assert Reaches(items[i], trail);
    }
    if i :| 0 <= i < |items| && IsAt(items[i], trail) { assert Reaches(items[i], trail); }
  }

  lemma {:induction false} LevelOrderReaches(items: seq<Item>, base: seq<string>, depth: nat, trail: seq<string>)
    requires LevelOk(items, base, depth) && AllGood(LevelOrder(items))
    ensures Occurs(LevelOrder(items), trail) <==> AnyReaches(items, trail)
    decreases ItemsSize(items)
  {
    DirectoriesReach(items, trail);
    var places := Directories(items);
    if places != [] {
      DirectoriesShrink(items);
      BelowShrinks(places);
      var below := Below(places);
      LevelOrderUnfolds(items);
      GoodParts(items, LevelOrder(below));
      LevelOrderStarts(below);
      DirectoriesPlaces(items, base, depth);
      BelowLevel(places, base, depth + 1);
      LevelOrderReaches(below, base, depth + 1, trail);
      BelowReaches(places, base, depth + 1, trail);
      AnyReachesAppend(items, LevelOrder(below), trail);
    }
  }

  lemma LevelOrderUnfolds(items: seq<Item>)
    requires Directories(items) != []
    ensures LevelOrder(items) == items + LevelOrder(Below(Directories(items)))
  {}

  lemma LevelOrderStarts(items: seq<Item>)
    requires AllGood(LevelOrder(items))
    ensures AllGood(items)
  {
    if Directories(items) != [] {
      LevelOrderUnfolds(items);
      GoodParts(items, LevelOrder(Below(Directories(items))));
    }
  }

  /**
    A listing shorter than its limit is complete: it has an entry at exactly the paths where the tree
    has a node, at any depth for a recursive listing and one level down otherwise.
   */
  lemma ListingIsComplete(directory: Place, recursive: bool, limit: nat, entries: seq<Entry>, names: seq<string>)
    requires Valid(directory.path) && WellNamed(directory.node)
    requires IsListing(directory, recursive, limit, Ok(entries)) && |entries| < limit
    ensures (exists i :: 0 <= i < |entries| && Segments(entries[i].path) == Segments(directory.path) + names) <==>
            Has(directory.node, names) && (recursive || |names| == 1)
  {
    var base, order := Segments(directory.path), Order(directory, recursive);
    var trail := base + names;
    SortEntriesSorts(Entries(AtMost(order, limit)));
    assert AtMost(order, limit) == order;
    EntriesAt(order, entries, trail);
    KidsLevel(directory, base, |base|);
    assert trail[|base|..] == names;
    if recursive {
      LevelOrderStarts(Kids(directory));
      KidsReach(directory, base, |base|, trail);
      LevelOrderReaches(Kids(directory), base, |base|, trail);
    } else {
      KidsReach(directory, base, |base|, trail);
      LevelIsOrderly(order, base, |base|);
      OneLevel(order, base, trail);
    }
  }

  lemma EntriesAt(items: seq<Item>, entries: seq<Entry>, trail: seq<string>)
    requires AllGood(items) && multiset(entries) == multiset(Entries(items))
    ensures Occurs(items, trail) <==> exists i :: 0 <= i < |entries| && Segments(entries[i].path) == trail
  {
    if i :| 0 <= i < |entries| && Segments(entries[i].path) == trail {
      assert entries[i] in multiset(Entries(items));
      var k :| 0 <= k < |items| && Entries(items)[k] == entries[i];
      assert IsAt(items[k], trail);
    }
    if k :| 0 <= k < |items| && IsAt(items[k], trail) {
      assert Entries(items)[k] in multiset(entries);
      var i :| 0 <= i < |entries| && entries[i] == Entries(items)[k];
    }
  }

  lemma OneLevel(items: seq<Item>, base: seq<string>, trail: seq<string>)
    requires forall i :: 0 <= i < |items| ==> items[i].Child? && |Trail(items[i])| == |base| + 1
    ensures Occurs(items, trail) <==> AnyReaches(items, trail) && |trail| == |base| + 1
  {
    if i :| 0 <= i < |items| && IsAt(items[i], trail) { assert Reaches(items[i], trail); }
    if |trail| == |base| + 1 {
      if i :| 0 <= i < |items| && Reaches(items[i], trail) { assert IsAt(items[i], trail); }
    }
  }

  // ---- what an entry says about its node ----

  /** `found` is the node of the tree below `node` at this relative path, reached through directories. */
  ghost predicate Found(node: Node, names: seq<string>, found: Node)
    decreases |names|, 1
  {
    names != [] && exists i :: 0 <= i < |node.children| && LeadsTo(node.children[i], names, found)
  }

  ghost predicate LeadsTo(child: Node, names: seq<string>, found: Node)
    requires names != []
    decreases |names|, 0
  {
    && child.name == names[0]
    && if |names| == 1 then child == found else child.directory && Found(child, names[1..], found)
  }

  lemma {:induction false} FoundBelow(node: Node, names: seq<string>, found: Node, child: Node)
    requires Found(node, names, found) && found.directory && child in found.children
    ensures Found(node, names + [child.name], child)
    decreases |names|
  {
    var i :| 0 <= i < |node.children| && LeadsTo(node.children[i], names, found);
    var longer := names + [child.name];
    assert longer[1..] == names[1..] + [child.name];
    if |names| == 1 {
      FoundChild(found, child);
      assert names[1..] + [child.name] == [child.name];
    } else {
      FoundBelow(node.children[i], names[1..], found, child);
    }
    assert LeadsTo(node.children[i], longer, child);
  }

  lemma FoundChild(node: Node, child: Node)
    requires child in node.children
    ensures Found(node, [child.name], child)
  {
    var i :| 0 <= i < |node.children| && node.children[i] == child;
    assert LeadsTo(node.children[i], [child.name], child);
  }

  /** The directory itself, or one found below it, under its path. */
  ghost predicate IsPlace(directory: Place, place: Place, names: seq<string>) {
    && Valid(place.path) && WellNamed(place.node) && Segments(place.path) == Segments(directory.path) + names
    && if names == [] then place.node == directory.node
       else place.node.directory && Found(directory.node, names, place.node)
  }

  ghost predicate IsItem(directory: Place, item: Item, names: seq<string>) {
    && item.Child? && Valid(PathOf(item)) && WellNamed(item.node)
    && Trail(item) == Segments(directory.path) + names && Found(directory.node, names, item.node)
  }

  ghost predicate BelongsTo(directory: Place, item: Item) { exists names :: IsItem(directory, item, names) }

  ghost predicate LiesIn(directory: Place, place: Place) { exists names :: IsPlace(directory, place, names) }

  /** A bad item is a link, a name that is no path, or the failed listing of a directory of the tree. */
  ghost predicate HasCause(directory: Place, item: Item) {
    match item
    case Child(_, node, joined) => node.link || (Parse(node.name).Err? && joined == Err(InvalidPath))
    case Broken(e) => exists place, names :: IsPlace(directory, place, names) && place.node.failure == Some(e)
  }

  /** Items that are good belong to nodes of the tree, and the others have their cause in it. */
  ghost predicate Rooted(directory: Place, items: seq<Item>) {
    forall i :: 0 <= i < |items| ==>
      if Bad(items[i]) then HasCause(directory, items[i]) else BelongsTo(directory, items[i])
  }

  ghost predicate RootedPlaces(directory: Place, places: seq<Place>) {
    forall i :: 0 <= i < |places| ==> LiesIn(directory, places[i])
  }

  lemma KidsRooted(directory: Place, place: Place, names: seq<string>)
    requires IsPlace(directory, place, names)
    ensures Rooted(directory, Kids(place))
  {
    var kids, above := Kids(place), Segments(place.path);
    KidsLevel(place, above, |above|);
    if place.node.failure.None? { KidsAreChildren(place); }
    forall i | 0 <= i < |kids| && Bad(kids[i]) ensures HasCause(directory, kids[i]) {
      if kids[i].Child? {
        JoinConcatenates(place.path, kids[i].node.name);
        AcceptedTexts(kids[i].node.name, ROOT);
      }
    }
    forall i | 0 <= i < |kids| && !Bad(kids[i]) ensures BelongsTo(directory, kids[i]) {
      var child := kids[i].node;
      GoodTrail(kids[i], above, |above|);
      Regroup(Segments(directory.path), names, [child.name]);
      if names == [] {
        FoundChild(directory.node, child);
        assert names + [child.name] == [child.name];
      } else {
        FoundBelow(directory.node, names, place.node, child);
      }
      assert IsItem(directory, kids[i], names + [child.name]);
    }
  }

  lemma {:induction false} DirectoriesRooted(directory: Place, items: seq<Item>)
    requires Rooted(directory, items) && AllGood(items)
    ensures RootedPlaces(directory, Directories(items))
  {
    if items != [] {
      var first, rest := items[0], items[1..];
      assert Rooted(directory, rest) && AllGood(rest);
      DirectoriesRooted(directory, rest);
      assert BelongsTo(directory, first);
      var names :| IsItem(directory, first, names);
      var place := Place(PathOf(first), first.node);
      if first.node.directory {
        assert IsPlace(directory, place, names);
        assert Directories(items) == [place] + Directories(rest) && LiesIn(directory, place);
      }
    }
  }

  lemma {:induction false} BelowRooted(directory: Place, places: seq<Place>)
    requires RootedPlaces(directory, places)
    ensures Rooted(directory, Below(places))
  {
    if places != [] {
      assert LiesIn(directory, places[0]);
      var names :| IsPlace(directory, places[0], names);
      KidsRooted(directory, places[0], names);
      assert RootedPlaces(directory, places[1..]) by {
        forall i | 0 <= i < |places[1..]| ensures LiesIn(directory, places[1..][i]) {
          assert places[1..][i] == places[i + 1];
        }
      }
      BelowRooted(directory, places[1..]);
      JoinRooted(directory, Kids(places[0]), Below(places[1..]));
    }
  }

  lemma JoinRooted(directory: Place, a: seq<Item>, b: seq<Item>)
    requires Rooted(directory, a) && Rooted(directory, b)
    ensures Rooted(directory, a + b)
  {}

  lemma {:induction false} OrderRooted(directory: Place, items: seq<Item>, kept: seq<Item>)
    requires Rooted(directory, items) && kept <= LevelOrder(items) && (kept != [] ==> AllGood(kept[..|kept| - 1]))
    ensures Rooted(directory, kept)
    decreases ItemsSize(items)
  {
    if |kept| <= |items| {
      assert forall i :: 0 <= i < |kept| ==> kept[i] == items[i];
    } else {
      var deeper := Directories(items);
      PrefixBelow(items, kept);
      var rest := kept[|items|..];
      assert kept[..|kept| - 1] == items + rest[..|rest| - 1];
      GoodParts(items, rest[..|rest| - 1]);
      DirectoriesRooted(directory, items);
      BelowRooted(directory, deeper);
      DirectoriesShrink(items);
      BelowShrinks(deeper);
      OrderRooted(directory, Below(deeper), rest);
      JoinRooted(directory, items, rest);
    }
  }

  /** No link: a directory for a remote directory and a file for anything else, with the size and time given. */
  ghost predicate Describes(e: Entry, node: Node) {
    && !node.link && (e.kind == DirectoryKind <==> node.directory) && (e.kind == FileKind <==> !node.directory)
    && e.size == node.size && e.modified == node.modified
  }

  /** Every entry of a listing, cut off or not, describes the node that the tree has at its path. */
  lemma EntriesDescribeNodes(directory: Place, recursive: bool, limit: nat, entries: seq<Entry>, i: nat)
    returns (names: seq<string>, node: Node)
    requires Valid(directory.path) && WellNamed(directory.node)
    requires IsListing(directory, recursive, limit, Ok(entries)) && i < |entries|
    ensures Segments(entries[i].path) == Segments(directory.path) + names && Found(directory.node, names, node)
    ensures Describes(entries[i], node) && (recursive || |names| == 1)
  {
    var order := Order(directory, recursive);
    var kept := AtMost(order, limit);
    OrderHasCauses(directory, recursive, kept);
    SortEntriesSorts(Entries(kept));
    assert entries[i] in Entries(kept);
    var k :| 0 <= k < |kept| && Entries(kept)[k] == entries[i];
    assert kept[k] == order[k] && !Bad(kept[k]) && BelongsTo(directory, kept[k]);
    names :| IsItem(directory, kept[k], names);
    node := kept[k].node;
    if !recursive { OneLevelDown(directory, k, names); }
  }

  lemma OrderHasCauses(directory: Place, recursive: bool, kept: seq<Item>)
    requires Valid(directory.path) && WellNamed(directory.node)
    requires kept <= Order(directory, recursive) && (kept != [] ==> AllGood(kept[..|kept| - 1]))
    ensures Rooted(directory, kept)
  {
    assert Segments(directory.path) + [] == Segments(directory.path);
    assert IsPlace(directory, directory, []);
    KidsRooted(directory, directory, []);
    if recursive {
      OrderRooted(directory, Kids(directory), kept);
    } else {
      assert forall i :: 0 <= i < |kept| ==> kept[i] == Kids(directory)[i];
    }
  }

  /** The error of a failed listing: of a link, of a name that is no path, or of listing a directory of the tree. */
  lemma ErrorsHaveCauses(directory: Place, recursive: bool, limit: nat, e: Error) returns (k: nat)
    requires Valid(directory.path) && WellNamed(directory.node) && IsListing(directory, recursive, limit, Err(e))
    ensures k < limit && FailsAt(Order(directory, recursive), k)
    ensures IsErrorOf(directory, Order(directory, recursive)[k], e)
  {
    var order := Order(directory, recursive);
    k :| k < limit && FailsAt(order, k) && e == ErrorOf(order[k]);
    var kept := UpToFailure(order, k);
    OrderHasCauses(directory, recursive, kept);
    CauseGivesError(directory, kept[k]);
  }

  lemma UpToFailure(items: seq<Item>, k: nat) returns (kept: seq<Item>)
    requires FailsAt(items, k)
    ensures |kept| == k + 1 && kept <= items && kept[k] == items[k] && AllGood(kept[..|kept| - 1])
  {
    kept := items[..k + 1];
    assert kept[..k] == items[..k];
  }

  ghost predicate IsErrorOf(directory: Place, item: Item, e: Error) {
    && HasCause(directory, item)
    && match item {
         case Child(_, node, _) => e == if node.link then Unsupported else InvalidPath
         case Broken(error) => e == error
       }
  }

  lemma CauseGivesError(directory: Place, item: Item)
    requires Bad(item) && HasCause(directory, item)
    ensures IsErrorOf(directory, item, ErrorOf(item))
  {}

  lemma OneLevelDown(directory: Place, k: nat, names: seq<string>)
    requires Valid(directory.path) && WellNamed(directory.node)
    requires k < |Kids(directory)| && !Bad(Kids(directory)[k]) && IsItem(directory, Kids(directory)[k], names)
    ensures |names| == 1
  {
    var above := Segments(directory.path);
    KidsLevel(directory, above, |above|);
    GoodTrail(Kids(directory)[k], above, |above|);
    assert |Trail(Kids(directory)[k])| == |above| + 1 == |above + names|;
  }
}
