/** Directory entries, their ordering, and the materialized iterator every adapter returns. */
module Listing {
  import opened Text
  import opened Sorting
  import opened Paths

  type Time = int

  datatype Kind = FileKind | DirectoryKind

  datatype Entry = Entry(path: Path, kind: Kind, size: nat, modified: Time)

  function PathsOf(entries: seq<Entry>): (names: seq<string>)
    ensures |names| == |entries|
    ensures forall i :: 0 <= i < |entries| ==> names[i] == entries[i].path.value
  {
    seq(|entries|, i requires 0 <= i < |entries| => entries[i].path.value)
  }

  function PathText(e: Entry): string { e.path.value }

  /** `slices.SortFunc` by path. */
  function SortEntries(entries: seq<Entry>): seq<Entry> { SortBy(PathText, entries) }

  /** Sorting permutes and orders. */
  lemma SortEntriesSorts(entries: seq<Entry>)
    ensures SortedBy(PathText, SortEntries(entries))
    ensures multiset(SortEntries(entries)) == multiset(entries)
    ensures |SortEntries(entries)| == |entries|
    ensures forall e :: e in SortEntries(entries) <==> e in entries
  {
    SortBySorts(PathText, entries);
    SameMembers(SortEntries(entries), entries);
  }

  /** Sorted entries whose paths are all different are strictly sorted. */
  lemma SortedDistinctIsStrict(entries: seq<Entry>)
    requires DistinctBy(PathText, entries)
    ensures StrictlySorted(PathsOf(SortEntries(entries)))
  {
    var sorted := SortEntries(entries);
    SortEntriesSorts(entries);
    DistinctAfter(PathText, entries, sorted);
    SortedDistinctAscends(PathText, sorted);
    forall i, j | 0 <= i < j < |sorted| ensures Less(PathsOf(sorted)[i], PathsOf(sorted)[j]) {
      assert Less(PathText(sorted[i]), PathText(sorted[j]));
    }
  }

  /** Zero means no requested limit. */
  function EffectiveLimit(requested: int, available: nat): nat
    requires requested >= 0
  {
    if requested == 0 || requested > available then available else requested
  }

  /** The iterator over a materialized listing. */
  class EntryIterator {
    var entries: seq<Entry>
    var current: Entry
    var hasCurrent: bool
    var closed: bool

    constructor (entries: seq<Entry>)
      ensures this.entries == entries && !closed && !hasCurrent
    {
      this.entries := entries;
      this.current := Entry(ROOT, FileKind, 0, 0);
      this.hasCurrent := false;
      this.closed := false;
    }

    /** What draining the iterator from here would yield. */
    function Remaining(): seq<Entry>
      reads this
    {
      if closed then [] else entries
    }

    method Next() returns (more: bool)
      modifies this
      ensures more == (old(Remaining()) != [])
      ensures more ==> hasCurrent && current == old(Remaining())[0] && Remaining() == old(Remaining())[1..]
      ensures !more ==> Remaining() == [] && current == old(current) && hasCurrent == old(hasCurrent)
      ensures closed == old(closed)
    {
      if closed || |entries| == 0 { return false; }
      current, entries, hasCurrent := entries[0], entries[1..], true;
      more := true;
    }

    method Close()
      modifies this
      ensures closed && Remaining() == [] && current == old(current) && hasCurrent == old(hasCurrent)
    {
      closed := true;
    }
  }
}
