/** Logical paths (path.go). */
module Paths {
  import opened Common
  import opened Text

  /** The empty value is Root. */
  datatype Path = Path(value: string) {
    predicate IsRoot() { value == "" }
  }

  const ROOT := Path("")

  /** The Unicode category Cc. */
  predicate IsControl(c: char) { c < ' ' || '\U{7F}' <= c <= '\U{9F}' }

  predicate HasControl(s: string) { exists i :: 0 <= i < |s| && IsControl(s[i]) }

  predicate HasVolume(s: string)
  {
    |s| >= 2 && s[1] == ':' && ('A' <= s[0] <= 'Z' || 'a' <= s[0] <= 'z')
  }

  function Slashed(s: string): (r: string)
    ensures |r| == |s|
    ensures forall i :: 0 <= i < |s| ==> r[i] == if s[i] == '\\' then '/' else s[i]
  {
    seq(|s|, i requires 0 <= i < |s| => if s[i] == '\\' then '/' else s[i])
  }

  /** The pieces that survive normalization: neither empty nor ".". */
  function Kept(pieces: seq<string>): seq<string>
  {
    if pieces == [] then []
    else if pieces[0] == "" || pieces[0] == "." then Kept(pieces[1..])
    else [pieces[0]] + Kept(pieces[1..])
  }

  function Parse(value: string): Outcome<Path>
  {
    if value == "" || "\\\\" <= value || HasVolume(value) || HasControl(value) then Err(InvalidPath)
    else
      var pieces := Split(Slashed(value));
      var kept := Kept(pieces);
      if ".." in pieces || kept == [] || HasVolume(Join(kept)) then Err(InvalidPath)
      else Ok(Path(Join(kept)))
  }

  method ParsePath(value: string) returns (r: Outcome<Path>)
    ensures r == Parse(value)
  {
    if value == "" { return Err(InvalidPath); }
    if "\\\\" <= value || HasVolume(value) { return Err(InvalidPath); }
    for i := 0 to |value|
      invariant forall j :: 0 <= j < i ==> !IsControl(value[j])
    {
      if IsControl(value[i]) { return Err(InvalidPath); }
    }
    var pieces := Split(Slashed(value));
    var normalized: seq<string> := [];
    for i := 0 to |pieces|
      invariant ".." !in pieces[..i]
      invariant Kept(pieces) == normalized + Kept(pieces[i..])
    {
      var piece := pieces[i];
      if piece == ".." { return Err(InvalidPath); }
      if piece != "" && piece != "." {
        normalized := normalized + [piece];
      }
      assert pieces[i..][1..] == pieces[i + 1..];
      assert pieces[..i + 1] == pieces[..i] + [piece];
    }
    assert pieces[..|pieces|] == pieces && pieces[|pieces|..] == [];
    assert normalized + [] == normalized;
    if |normalized| == 0 { return Err(InvalidPath); }
    if HasVolume(Join(normalized)) { return Err(InvalidPath); }
    r := Ok(Path(Join(normalized)));
  }

  // ---- the normal form ----

  ghost predicate CleanSegment(s: string)
  {
    s != "" && s != "." && s != ".." && '/' !in s && '\\' !in s && !HasControl(s)
  }

  ghost predicate CleanSegments(segments: seq<string>)
  {
    forall i :: 0 <= i < |segments| ==> CleanSegment(segments[i])
  }

  /** Clean segments, at least one, and no drive letter in front. */
  ghost predicate NormalSegments(segments: seq<string>)
  {
    segments != [] && CleanSegments(segments) && !HasVolume(segments[0])
  }

  ghost predicate Normal(p: Path) { NormalSegments(Split(p.value)) }

  /** What callers can hold: Root or a parsed path. */
  ghost predicate Valid(p: Path) { p.IsRoot() || Normal(p) }

  /** Root has no segments. */
  function Segments(p: Path): seq<string>
  {
    if p.IsRoot() then [] else Split(p.value)
  }

  function FromSegments(segments: seq<string>): Path { Path(Join(segments)) }

  /** The drive test only looks at the first segment. */
  lemma VolumeOfJoin(segments: seq<string>)
    requires segments != [] && segments[0] != "" && '/' !in segments[0]
    ensures HasVolume(Join(segments)) == HasVolume(segments[0])
  {}

  /** Paths and segment lists are in bijection. */
  lemma FromSegmentsSegments(segments: seq<string>)
    requires segments == [] || NormalSegments(segments)
    ensures Valid(FromSegments(segments)) && Segments(FromSegments(segments)) == segments
  {
    if segments != [] {
      SplitJoin(segments);
      assert Split("") == [""] && segments[0] != "";
    }
  }

  lemma SegmentsFromSegments(p: Path)
    requires Valid(p)
    ensures FromSegments(Segments(p)) == p
    ensures Segments(p) == [] || NormalSegments(Segments(p))
  {
    JoinSplit(p.value);
  }

  lemma ValidSegments(p: Path)
    requires Valid(p)
    ensures Slashless(Segments(p)) && Join(Segments(p)) == p.value
    ensures Segments(p) == [] <==> p.IsRoot()
  {
    JoinSplit(p.value);
  }

  lemma {:induction false} KeptClean(pieces: seq<string>)
    requires ".." !in pieces
    requires forall i :: 0 <= i < |pieces| ==> '/' !in pieces[i] && '\\' !in pieces[i] && !HasControl(pieces[i])
    ensures CleanSegments(Kept(pieces))
  {
    if pieces != [] { KeptClean(pieces[1..]); }
  }

  lemma {:induction false} KeptAll(pieces: seq<string>)
    requires "" !in pieces && "." !in pieces
    ensures Kept(pieces) == pieces
  {
    if pieces != [] { KeptAll(pieces[1..]); }
  }

  lemma {:induction false} KeptOfClean(segments: seq<string>)
    requires CleanSegments(segments)
    ensures Kept(segments) == segments && ".." !in segments
  {
    if segments != [] {
      assert CleanSegment(segments[0]);
      KeptOfClean(segments[1..]);
      assert segments == [segments[0]] + segments[1..];
    }
  }

  /** Every character of a piece is a character of the whole. */
  lemma {:induction false} PiecesDrawFrom(s: string, i: nat)
    requires i < |Split(s)|
    ensures forall k :: 0 <= k < |Split(s)[i]| ==> Split(s)[i][k] in s
  {
    if s != "" {
      var rest := Split(s[1..]);
      if s[0] == '/' {
        if i > 0 { PiecesDrawFrom(s[1..], i - 1); }
      } else {
        PiecesDrawFrom(s[1..], i);
      }
    }
  }

  lemma SlashedPieces(value: string)
    requires !HasControl(value)
    ensures forall i :: 0 <= i < |Split(Slashed(value))| ==>
              var piece := Split(Slashed(value))[i]; '/' !in piece && '\\' !in piece && !HasControl(piece)
  {
    var s := Slashed(value);
    JoinSplit(s);
    forall i | 0 <= i < |Split(s)|
      ensures '\\' !in Split(s)[i] && !HasControl(Split(s)[i])
    {
      PiecesDrawFrom(s, i);
    }
  }

  /** Parsing yields normal forms only, and keeps exactly the significant pieces. */
  lemma ParseYieldsNormal(value: string)
    requires Parse(value).Ok?
    ensures Normal(Parse(value).value)
    ensures Segments(Parse(value).value) == Kept(Split(Slashed(value)))
  {
    var kept := Kept(Split(Slashed(value)));
    SlashedPieces(value);
    KeptClean(Split(Slashed(value)));
    VolumeOfJoin(kept);
    FromSegmentsSegments(kept);
  }

  lemma {:induction false} JoinDrawsFrom(segments: seq<string>)
    requires CleanSegments(segments)
    ensures !HasControl(Join(segments)) && '\\' !in Join(segments)
  {
    if |segments| > 1 {
      JoinDrawsFrom(segments[1..]);
      var tail := Join(segments[1..]);
      forall k | 0 <= k < |Join(segments)|
        ensures !IsControl(Join(segments)[k]) && Join(segments)[k] != '\\'
      {
        if k < |segments[0]| {
          assert Join(segments)[k] == segments[0][k];
        } else if k > |segments[0]| {
          assert Join(segments)[k] == tail[k - |segments[0]| - 1];
        }
      }
    }
  }

  /** A normal form parses to itself, so parsing is idempotent and onto. */
  lemma ParseNormal(p: Path)
    requires Normal(p)
    ensures Parse(p.value) == Ok(p)
  {
    var segments := Split(p.value);
    JoinSplit(p.value);
    JoinDrawsFrom(segments);
    assert Slashed(p.value) == p.value;
    KeptOfClean(segments);
    VolumeOfJoin(segments);
    assert Split("") == [""] && segments[0] != "";
  }

  // ---- which texts are accepted ----

  /** `pieces` are `segments` with empty pieces and single dots inserted anywhere. */
  ghost predicate Spells(pieces: seq<string>, segments: seq<string>)
  {
    if pieces == [] then segments == []
    else
      || ((pieces[0] == "" || pieces[0] == ".") && Spells(pieces[1..], segments))
      || (segments != [] && pieces[0] == segments[0] && Spells(pieces[1..], segments[1..]))
  }

  lemma {:induction false} SpellsKept(pieces: seq<string>)
    ensures Spells(pieces, Kept(pieces))
  {
    if pieces != [] { SpellsKept(pieces[1..]); }
  }

  /** Clean segments can be read off the pieces in one way only, and no other piece is among them. */
  lemma {:induction false} KeptIsSpelled(pieces: seq<string>, segments: seq<string>)
    requires CleanSegments(segments) && Spells(pieces, segments)
    ensures Kept(pieces) == segments
    ensures forall i :: 0 <= i < |pieces| ==> pieces[i] == "" || pieces[i] == "." || pieces[i] in segments
  {
    if pieces != [] {
      if (pieces[0] == "" || pieces[0] == ".") && Spells(pieces[1..], segments) {
        KeptIsSpelled(pieces[1..], segments);
        assert segments != [] ==> CleanSegment(segments[0]);
      } else {
        KeptIsSpelled(pieces[1..], segments[1..]);
        assert CleanSegment(segments[0]) && segments == [segments[0]] + segments[1..];
      }
    }
  }

  /** A text has no control character if none of its pieces has one. */
  lemma {:induction false} ControlIsInPieces(s: string)
    requires forall i :: 0 <= i < |Split(s)| ==> !HasControl(Split(s)[i])
    ensures !HasControl(s)
  {
    JoinSplit(s);
    NoControlJoined(Split(s));
  }

  lemma {:induction false} NoControlJoined(pieces: seq<string>)
    requires forall i :: 0 <= i < |pieces| ==> !HasControl(pieces[i])
    ensures !HasControl(Join(pieces))
  {
    if |pieces| > 1 {
      NoControlJoined(pieces[1..]);
      var tail := Join(pieces[1..]);
      forall k | 0 <= k < |Join(pieces)| ensures !IsControl(Join(pieces)[k]) {
        if k < |pieces[0]| {
          assert Join(pieces)[k] == pieces[0][k];
        } else if k > |pieces[0]| {
          assert Join(pieces)[k] == tail[k - |pieces[0]| - 1];
        }
      }
    }
  }

  lemma SlashedControl(value: string)
    ensures HasControl(Slashed(value)) <==> HasControl(value)
  {
    var s := Slashed(value);
    forall i | 0 <= i < |value| ensures IsControl(s[i]) <==> IsControl(value[i]) {}
  }

  /**
    The accepted texts: with backslashes as slashes, the pieces of the text are the segments of a normal path with
    empty pieces and dots inserted anywhere, and the text starts neither with two backslashes nor with a drive
    letter. Such a text parses to that path, and every other text is refused.
   */
  lemma AcceptedTexts(text: string, p: Path)
    ensures Parse(text) == Ok(p) <==>
              && Normal(p) && Spells(Split(Slashed(text)), Segments(p))
              && !("\\\\" <= text) && !HasVolume(text)
    ensures Parse(text).Err? ==> Parse(text) == Err(InvalidPath)
  {
    var pieces := Split(Slashed(text));
    if Parse(text) == Ok(p) {
      ParseYieldsNormal(text);
      SpellsKept(pieces);
    } else if Normal(p) && Spells(pieces, Segments(p)) && !("\\\\" <= text) && !HasVolume(text) {
      SpelledIsAccepted(text, p);
    }
  }

  lemma SpelledIsAccepted(text: string, p: Path)
    requires Normal(p) && Spells(Split(Slashed(text)), Segments(p)) && !("\\\\" <= text) && !HasVolume(text)
    ensures Parse(text) == Ok(p)
  {
    var pieces, segments := Split(Slashed(text)), Segments(p);
    assert p.value != "" by { assert Split("") == [""]; }
    SegmentsFromSegments(p);
    KeptIsSpelled(pieces, segments);
    forall i | 0 <= i < |pieces| ensures !HasControl(pieces[i]) && pieces[i] != ".." {
      if pieces[i] in segments { assert CleanSegment(pieces[i]); }
    }
    ControlIsInPieces(Slashed(text));
    SlashedControl(text);
    VolumeOfJoin(segments);
  }

  // ---- relationship operations ----

  function JoinPath(p: Path, relative: string): Outcome<Path>
  {
    match Parse(relative)
    case Err(e) => Err(e)
    case Ok(joined) => if p.IsRoot() then Ok(joined) else Parse(p.value + "/" + joined.value)
  }

  /** Parsing p/q for normal q never fails and concatenates the segments. */
  lemma ParseConcat(p: Path, q: Path)
    requires Normal(p) && Normal(q)
    ensures Parse(p.value + "/" + q.value) == Ok(FromSegments(Segments(p) + Segments(q)))
    ensures Normal(FromSegments(Segments(p) + Segments(q)))
    ensures Segments(FromSegments(Segments(p) + Segments(q))) == Segments(p) + Segments(q)
    ensures FromSegments(Segments(p) + Segments(q)).value == p.value + "/" + q.value
  {
    SegmentsFromSegments(p);
    SegmentsFromSegments(q);
    JoinAppend(Segments(p), Segments(q));
    FromSegmentsSegments(Segments(p) + Segments(q));
    ParseNormal(FromSegments(Segments(p) + Segments(q)));
  }

  /** Join succeeds exactly when its argument parses, and then concatenates segments. */
  lemma JoinConcatenates(p: Path, relative: string)
    requires Valid(p)
    ensures JoinPath(p, relative).Ok? <==> Parse(relative).Ok?
    ensures Parse(relative).Ok? ==>
              var r := JoinPath(p, relative).value;
              Normal(r) && Segments(r) == Segments(p) + Segments(Parse(relative).value)
  {
    if Parse(relative).Ok? {
      ParseYieldsNormal(relative);
      if !p.IsRoot() { ParseConcat(p, Parse(relative).value); }
    }
  }

  lemma JoinAssociative(p: Path, a: string, b: string)
    requires Valid(p) && Parse(a).Ok? && Parse(b).Ok?
    ensures var ab := JoinPath(Parse(a).value, b);
            var pa := JoinPath(p, a);
            ab.Ok? && pa.Ok? && JoinPath(p, ab.value.value) == JoinPath(pa.value, b)
  {
    ParseYieldsNormal(a);
    JoinConcatenates(Parse(a).value, b);
    var ab := JoinPath(Parse(a).value, b).value;
    ParseNormal(ab);
    JoinConcatenates(p, a);
    var pa := JoinPath(p, a).value;
    JoinConcatenates(p, ab.value);
    JoinConcatenates(pa, b);
    var x, y, z := Segments(p), Segments(Parse(a).value), Segments(Parse(b).value);
    Regroup(x, y, z);
    SameSegments(JoinPath(p, ab.value).value, JoinPath(pa, b).value);
  }

  lemma SameSegments(p: Path, q: Path)
    requires Valid(p) && Valid(q) && Segments(p) == Segments(q)
    ensures p == q
  {
    SegmentsFromSegments(p);
    SegmentsFromSegments(q);
  }

  /** Leading segments of a normal path form a normal path. */
  lemma LeadingIsNormal(p: Path, k: nat)
    requires Normal(p) && 1 <= k <= |Segments(p)|
    ensures Normal(FromSegments(Segments(p)[..k])) && Segments(FromSegments(Segments(p)[..k])) == Segments(p)[..k]
    ensures Parse(Join(Segments(p)[..k])) == Ok(FromSegments(Segments(p)[..k]))
  {
    SegmentsFromSegments(p);
    FromSegmentsSegments(Segments(p)[..k]);
    ParseNormal(FromSegments(Segments(p)[..k]));
  }

  /** Trailing segments do so exactly when they do not begin with a drive letter. */
  lemma TrailingParses(p: Path, k: nat)
    requires Normal(p) && k < |Segments(p)|
    ensures Parse(Join(Segments(p)[k..])).Ok? <==> !HasVolume(Segments(p)[k])
    ensures !HasVolume(Segments(p)[k]) ==>
              && Parse(Join(Segments(p)[k..])) == Ok(FromSegments(Segments(p)[k..]))
              && Normal(FromSegments(Segments(p)[k..]))
              && Segments(FromSegments(Segments(p)[k..])) == Segments(p)[k..]
  {
    SegmentsFromSegments(p);
    var tail := Segments(p)[k..];
    VolumeOfJoin(tail);
    if !HasVolume(tail[0]) {
      FromSegmentsSegments(tail);
      ParseNormal(FromSegments(tail));
    }
  }

  /** The index of the last slash, or -1. */
  function LastSlash(s: string): (i: int)
    ensures -1 <= i < |s|
    ensures i >= 0 ==> s[i] == '/'
    ensures forall j :: i < j < |s| ==> s[j] != '/'
  {
    if s == "" then -1
    else if s[|s| - 1] == '/' then |s| - 1
    else LastSlash(s[..|s| - 1])
  }

  /** `path.Base` and `path.Dir` on values without trailing or doubled slashes. */
  function Base(p: Path): string
  {
    if p.IsRoot() then "." else p.value[LastSlash(p.value) + 1..]
  }

  function Dir(p: Path): Path
  {
    var i := LastSlash(p.value);
    if i < 0 then ROOT else Path(p.value[..i])
  }

  lemma CutAtSlash(v: string, i: nat)
    requires i < |v| && v[i] == '/'
    ensures v == v[..i] + "/" + v[i + 1..]
  {}

  lemma NormalLeading(segments: seq<string>, last: string)
    requires segments != [] && NormalSegments(segments + [last])
    ensures NormalSegments(segments) && CleanSegment(last)
  {
    var all := segments + [last];
    assert all[|segments|] == last;
    forall i | 0 <= i < |segments| ensures CleanSegment(segments[i]) { assert CleanSegment(all[i]); }
  }

  /** Dir drops the last segment and Base is that segment. */
  lemma DirBaseSegments(p: Path)
    requires Normal(p)
    ensures Valid(Dir(p)) && Segments(Dir(p)) + [Base(p)] == Segments(p)
    ensures CleanSegment(Base(p))
  {
    var v, i := p.value, LastSlash(p.value);
    SegmentsFromSegments(p);
    assert Split("") == [""];
    SplitSlashless(Base(p));
    if i >= 0 {
      CutAtSlash(v, i);
      SplitAppend(v[..i], Base(p));
      NormalLeading(Split(v[..i]), Base(p));
    } else {
      assert v[0..] == v;
    }
  }

  /** Rejoining Dir and Base restores the path exactly when Base has no drive form. */
  lemma DirJoinBase(p: Path)
    requires Normal(p)
    ensures JoinPath(Dir(p), Base(p)) == Ok(p) <==> !HasVolume(Base(p))
    ensures HasVolume(Base(p)) ==> JoinPath(Dir(p), Base(p)) == Err(InvalidPath)
  {
    DirBaseSegments(p);
    if !HasVolume(Base(p)) {
      SplitSlashless(Base(p));
      ParseNormal(Path(Base(p)));
      JoinConcatenates(Dir(p), Base(p));
      SegmentsFromSegments(JoinPath(Dir(p), Base(p)).value);
      SegmentsFromSegments(p);
    }
  }

  lemma DriveInside()
    ensures NormalSegments(["a", "C:", "x"]) && Join(["a", "C:", "x"]) == "a/C:/x"
  {
    var segments := ["a", "C:", "x"];
    assert forall i :: 0 <= i < 3 ==> CleanSegment(segments[i]) by {
      assert !IsControl('a') && !IsControl('C') && !IsControl(':') && !IsControl('x');
      assert CleanSegment("a") && CleanSegment("C:") && CleanSegment("x");
    }
    assert segments[1..] == ["C:", "x"] && segments[1..][1..] == ["x"];
  }

  /** "a/C:/x" is normal, its tail "C:/x" does not parse. */
  lemma DriveTailExample()
    ensures Normal(Path("a/C:/x")) && Parse("a/C:/x") == Ok(Path("a/C:/x"))
    ensures Segments(Path("a/C:/x"))[1..] == ["C:", "x"] && Parse(Join(["C:", "x"])) == Err(InvalidPath)
  {
    var p, segments := Path("a/C:/x"), ["a", "C:", "x"];
    DriveInside();
    FromSegmentsSegments(segments);
    ParseNormal(p);
    assert Segments(p) == segments;
    TrailingParses(p, 1);
    assert segments[1..] == ["C:", "x"];
  }

  /** "a/C:" is normal, and joining its Dir and its Base fails. */
  lemma DriveBaseExample()
    ensures Normal(Path("a/C:")) && JoinPath(Dir(Path("a/C:")), Base(Path("a/C:"))) == Err(InvalidPath)
  {
    var p, segments := Path("a/C:"), ["a", "C:"];
    DriveInside();
    FromSegmentsSegments(segments);
    assert Segments(p) == segments;
    DirBaseSegments(p);
    DirJoinBase(p);
  }
}
