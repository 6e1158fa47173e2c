/**
  Go strings as sequences of code points: splitting and joining on '/', and the
  lexicographic order of `strings.Compare`.
 */
module Text {

  /** `strings.Split(s, "/")`: always at least one piece. */
  function Split(s: string): (pieces: seq<string>)
    ensures |pieces| >= 1
  {
    if s == "" then [""]
    else
      var rest := Split(s[1..]);
      if s[0] == '/' then [""] + rest else [[s[0]] + rest[0]] + rest[1..]
  }

  /** `strings.Join(pieces, "/")`. */
  function Join(pieces: seq<string>): string
  {
    if |pieces| == 0 then ""
    else if |pieces| == 1 then pieces[0]
    else pieces[0] + "/" + Join(pieces[1..])
  }

  /** The first `n` elements, or all of them. */
  function AtMost<T>(s: seq<T>, n: nat): seq<T> { if n <= |s| then s[..n] else s }

  lemma Regroup<T>(a: seq<T>, b: seq<T>, c: seq<T>)
    ensures a + b + c == a + (b + c)
  {}

  lemma TakeOneMore<T>(s: seq<T>, n: nat)
    requires n < |s|
    ensures s[..n + 1] == s[..n] + [s[n]]
  {}

  ghost predicate Slashless(pieces: seq<string>)
  {
    forall i :: 0 <= i < |pieces| ==> '/' !in pieces[i]
  }

  /** Splitting distributes over a slash, wherever the slash comes from. */
  lemma {:induction false} SplitAppend(x: string, t: string)
    ensures Split(x + "/" + t) == Split(x) + Split(t)
  {
    if x == "" {
      assert x + "/" + t == ['/'] + t;
    } else {
      SplitAppend(x[1..], t);
      assert (x + "/" + t)[1..] == x[1..] + "/" + t;
      GrowFirst(x[0], Split(x[1..]), Split(t));
      Regroup([""], Split(x[1..]), Split(t));
    }
  }

  lemma GrowFirst(c: char, a: seq<string>, b: seq<string>)
    requires a != []
    ensures [[c] + (a + b)[0]] + (a + b)[1..] == [[c] + a[0]] + a[1..] + b
  {}

  lemma {:induction false} SplitSlashless(s: string)
    requires '/' !in s
    ensures Split(s) == [s]
  {
    if s != "" {
      SplitSlashless(s[1..]);
      assert [s[0]] + s[1..] == s;
    }
  }

  /** Join undoes Split, and no piece keeps a slash. */
  lemma {:induction false} JoinSplit(s: string)
    ensures Join(Split(s)) == s
    ensures Slashless(Split(s))
  {
    if s != "" {
      JoinSplit(s[1..]);
      var rest := Split(s[1..]);
      if s[0] == '/' {
        assert ([""] + rest)[1..] == rest;
        assert "" + "/" + s[1..] == s;
      } else {
        var pieces := [[s[0]] + rest[0]] + rest[1..];
        assert pieces[1..] == rest[1..];
        assert [s[0]] + s[1..] == s;
      }
    }
  }

  /** Split undoes Join on pieces that hold no slash. */
  lemma {:induction false} SplitJoin(pieces: seq<string>)
    requires |pieces| >= 1 && Slashless(pieces)
    ensures Split(Join(pieces)) == pieces
  {
    SplitSlashless(pieces[0]);
    if |pieces| > 1 {
      SplitJoin(pieces[1..]);
      SplitAppend(pieces[0], Join(pieces[1..]));
      assert [pieces[0]] + pieces[1..] == pieces;
    }
  }

  lemma {:induction false} JoinAppend(a: seq<string>, b: seq<string>)
    requires |a| >= 1 && |b| >= 1
    ensures Join(a + b) == Join(a) + "/" + Join(b)
  {
    if |a| == 1 {
      assert (a + b)[1..] == b;
    } else {
      JoinAppend(a[1..], b);
      assert (a + b)[1..] == a[1..] + b;
    }
  }

  lemma CutAfterSlash(x: string, t: string)
    ensures x + "/" <= x + "/" + t && (x + "/" + t)[|x| + 1..] == t
  {}

  lemma RestAfterSlash(x: string, y: string)
    requires x + "/" <= y
    ensures y == x + "/" + y[|x| + 1..]
  {}

  lemma SameLast<T>(a: seq<T>, x: T, b: seq<T>, y: T)
    requires a + [x] == b + [y]
    ensures a == b && x == y
  {
    assert |a| + 1 == |b| + 1;
    assert (a + [x])[..|a|] == a && (b + [y])[..|b|] == b;
    assert (a + [x])[|a|] == x && (b + [y])[|b|] == y;
  }

  lemma LeadingPlusOne<T>(a: seq<T>, b: seq<T>)
    requires |a| < |b| && b[..|a|] == a
    ensures b[..|a| + 1] == a + [b[|a|]]
  {}

  lemma LeadingShorter<T>(a: seq<T>, x: T, b: seq<T>)
    requires |a| < |b| && b[..|a| + 1] == a + [x]
    ensures b[..|a|] == a && b[|a|] == x
  {
    assert b[..|a| + 1][..|a|] == b[..|a|] && b[..|a| + 1][|a|] == b[|a|];
  }

  lemma LeadingAndRest<T>(a: seq<T>, b: seq<T>)
    requires |a| <= |b| && b[..|a|] == a
    ensures b == a + b[|a|..]
  {}

  lemma TextPrefixLeads(a: seq<string>, b: seq<string>)
    requires |a| >= 1 && |b| >= 1 && Slashless(a) && Slashless(b) && Join(a) + "/" <= Join(b)
    ensures |a| < |b| && b[..|a|] == a
  {
    var t := Join(b)[|Join(a)| + 1..];
    RestAfterSlash(Join(a), Join(b));
    SplitAppend(Join(a), t);
    assert b == a + Split(t) by {
      SplitJoin(a);
      SplitJoin(b);
    }
  }

  lemma LeadingIsTextPrefix(a: seq<string>, b: seq<string>)
    requires 1 <= |a| < |b| && b[..|a|] == a
    ensures Join(a) + "/" <= Join(b) && Join(b)[|Join(a)| + 1..] == Join(b[|a|..])
  {
    LeadingAndRest(a, b);
    JoinAppend(a, b[|a|..]);
    CutAfterSlash(Join(a), Join(b[|a|..]));
  }

  /** A textual prefix ending in a slash is exactly a proper leading run of pieces. */
  lemma PrefixIsLeadingPieces(a: seq<string>, b: seq<string>)
    requires |a| >= 1 && |b| >= 1 && Slashless(a) && Slashless(b)
    ensures Join(a) + "/" <= Join(b) <==> |a| < |b| && b[..|a|] == a
    ensures |a| < |b| && b[..|a|] == a ==> Join(b)[|Join(a)| + 1..] == Join(b[|a|..])
  {
    if |a| < |b| && b[..|a|] == a {
      LeadingIsTextPrefix(a, b);
    } else if Join(a) + "/" <= Join(b) {
      TextPrefixLeads(a, b);
    }
  }

  /** `strings.Compare(a, b) < 0`. */
  predicate Less(a: string, b: string)
  {
    b != "" && (a == "" || a[0] < b[0] || (a[0] == b[0] && Less(a[1..], b[1..])))
  }

  lemma {:induction false} LessTotal(a: string, b: string)
    ensures Less(a, b) || a == b || Less(b, a)
    ensures !(Less(a, b) && Less(b, a))
    ensures !Less(a, a)
  {
    if a != "" { LessTotal(a[1..], a[1..]); }
    if a != "" && b != "" {
      LessTotal(a[1..], b[1..]);
      assert a == [a[0]] + a[1..] && b == [b[0]] + b[1..];
    }
  }

  lemma {:induction false} LessTransitive(a: string, b: string, c: string)
    requires Less(a, b) && Less(b, c)
    ensures Less(a, c)
  {
    if a != "" && a[0] == b[0] && b[0] == c[0] {
      LessTransitive(a[1..], b[1..], c[1..]);
    }
  }

  lemma LessNotBelow(a: string, b: string, c: string)
    requires !Less(b, a) && (b == c || !Less(c, b))
    ensures !Less(c, a)
  {
    LessTotal(a, b);
    LessTotal(b, c);
    if Less(c, a) {
      if Less(a, b) { LessTransitive(c, a, b); }
    }
  }

  lemma {:induction false} LessUnderPrefix(p: string, a: string, b: string)
    ensures Less(p + a, p + b) == Less(a, b)
  {
    if p == "" {
      assert p + a == a && p + b == b;
    } else {
      LessUnderPrefix(p[1..], a, b);
      assert (p + a)[1..] == p[1..] + a && (p + b)[1..] == p[1..] + b;
    }
  }

  ghost predicate StrictlySorted(names: seq<string>)
  {
    forall i, j :: 0 <= i < j < |names| ==> Less(names[i], names[j])
  }

  /** A set of strings has only one strictly sorted enumeration. */
  lemma {:induction false} SortedUnique(a: seq<string>, b: seq<string>)
    requires StrictlySorted(a) && StrictlySorted(b)
    requires forall x :: x in a <==> x in b
    ensures a == b
  {
    assert a != [] ==> a[0] in b;
    assert b != [] ==> b[0] in a;
    if a != [] && b != [] {
      LessTotal(a[0], b[0]);
      assert a[0] == b[0];
      forall x
        ensures x in a[1..] <==> x in b[1..]
      {
        LessTotal(a[0], a[0]);
        assert x in a <==> x in b;
      }
      SortedUnique(a[1..], b[1..]);
      assert a == [a[0]] + a[1..] && b == [b[0]] + b[1..];
    }
  }
}
