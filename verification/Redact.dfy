/**
  Error sanitizing (internal/redact/redact.go) after its URL pass: header values are cut from each
  match to the end of the line, then explicit secrets are replaced. A pattern gives the characters
  accepted at each position, so that one notion of occurrence serves both the case-folding header
  search and the exact secret search.
 */
module Redact {
  import opened Common
  import opened Text

  type Pattern = seq<set<char>>

  predicate MatchAt(s: string, i: nat, p: Pattern) {
    i + |p| <= |s| && forall j :: 0 <= j < |p| ==> s[i + j] in p[j]
  }

  predicate Occurs(s: string, p: Pattern) {
    exists i :: 0 <= i <= |s| && MatchAt(s, i, p)
  }

  /** The leftmost match. */
  function FirstMatch(s: string, p: Pattern): (r: Option<nat>)
    ensures r.Some? ==> MatchAt(s, r.value, p) && forall k :: 0 <= k < r.value ==> !MatchAt(s, k, p)
    ensures r.None? ==> !Occurs(s, p)
  {
    FirstMatchFrom(s, p, 0)
  }

  function FirstMatchFrom(s: string, p: Pattern, i: nat): (r: Option<nat>)
    requires i <= |s| && forall k :: 0 <= k < i ==> !MatchAt(s, k, p)
    ensures r.Some? ==> MatchAt(s, r.value, p) && forall k :: 0 <= k < r.value ==> !MatchAt(s, k, p)
    ensures r.None? ==> forall k :: 0 <= k <= |s| ==> !MatchAt(s, k, p)
    decreases |s| - i
  {
    if MatchAt(s, i, p) then Some(i) else if i == |s| then None else FirstMatchFrom(s, p, i + 1)
  }

  /** The simple case folding of the regular expressions: two further letters fold to s and k. */
  function Fold(c: char): set<char> {
    if 'a' <= c <= 'z' then
      {c, (c as int - 32) as char} +
      (if c == 's' then {'\U{017F}'} else if c == 'k' then {'\U{212A}'} else {})
    else {c}
  }

  function Folded(header: string): Pattern { seq(|header|, i requires 0 <= i < |header| => Fold(header[i])) }

  function Exactly(secret: string): Pattern { seq(|secret|, i requires 0 <= i < |secret| => {secret[i]}) }

  const HEADERS: seq<string> :=
    ["authorization:", "proxy-authorization:", "x-amz-security-token:", "x-amz-credential:", "x-amz-signature:"]

  const HEADER_WORDS := "REDACTED HEADER"
  const SECRET_WORD := "REDACTED"

  function Bracketed(words: string): string { ['['] + words + [']'] }

  // ---- occurrences around a character no pattern accepts ----

  ghost predicate Avoids(p: Pattern, c: char) { forall j :: 0 <= j < |p| ==> c !in p[j] }

  ghost predicate BracketFree(p: Pattern) { p != [] && Avoids(p, '[') && Avoids(p, ']') }

  lemma MatchAvoids(s: string, i: nat, p: Pattern, c: char)
    requires MatchAt(s, i, p) && Avoids(p, c)
    ensures forall k :: i <= k < i + |p| ==> s[k] != c
  {
    forall k | i <= k < i + |p| ensures s[k] != c { assert s[i + (k - i)] in p[k - i]; }
  }

  /** A pattern that never accepts `c` matches on one side of it or on the other. */
  lemma OccursAround(a: string, c: char, b: string, p: Pattern)
    requires p != [] && Avoids(p, c)
    ensures Occurs(a + [c] + b, p) <==> Occurs(a, p) || Occurs(b, p)
  {
    var s := a + [c] + b;
    if i :| 0 <= i <= |s| && MatchAt(s, i, p) {
      assert s[|a|] == c;
      MatchAvoids(s, i, p, c);
      assert i + |p| <= |a| || |a| < i;
      assert i < |a| ==> MatchAt(a, i, p);
      assert i > |a| ==> MatchAt(b, i - |a| - 1, p);
    }
    if i :| 0 <= i <= |a| && MatchAt(a, i, p) { assert MatchAt(s, i, p); }
    if i :| 0 <= i <= |b| && MatchAt(b, i, p) { assert MatchAt(s, |a| + 1 + i, p); }
  }

  lemma OccursAroundMark(a: string, words: string, b: string, p: Pattern)
    requires BracketFree(p)
    ensures Occurs(a + Bracketed(words) + b, p) <==> Occurs(a, p) || Occurs(words, p) || Occurs(b, p)
  {
    assert a + Bracketed(words) + b == a + ['['] + (words + [']'] + b);
    OccursAround(a, '[', words + [']'] + b, p);
    OccursAround(words, ']', b, p);
  }

  lemma OccursInPart(s: string, from: nat, to: nat, p: Pattern)
    requires from <= to <= |s|
    ensures Occurs(s[from..to], p) ==> Occurs(s, p)
  {
    if k :| 0 <= k <= to - from && MatchAt(s[from..to], k, p) { assert MatchAt(s, from + k, p); }
  }

  lemma MatchShifts(front: string, below: string, k: nat, p: Pattern)
    ensures MatchAt(below, k, p) <==> MatchAt(front + below, |front| + k, p)
  {
    var s := front + below;
    if k + |p| <= |below| {
      forall j | 0 <= j < |p| ensures s[|front| + k + j] in p[j] <==> below[k + j] in p[j] {}
    }
  }

  // ---- headers, line by line ----

  /** As every header's pattern: it avoids brackets and line ends, and ends in a colon. */
  ghost predicate HeaderPattern(p: Pattern) {
    BracketFree(p) && Avoids(p, '\n') && p[|p| - 1] == {':'}
  }

  function LineEnd(s: string): (e: nat)
    ensures e <= |s| && '\n' !in s[..e] && (e < |s| ==> s[e] == '\n')
  {
    if s == "" || s[0] == '\n' then 0
    else
      assert s[..LineEnd(s[1..]) + 1] == [s[0]] + s[1..][..LineEnd(s[1..])];
      1 + LineEnd(s[1..])
  }

  function RedactLine(line: string, p: Pattern): string {
    match FirstMatch(line, p)
    case None => line
    case Some(i) => line[..i] + Bracketed(HEADER_WORDS)
  }

  /** Each line on its own: from its first match on, it becomes the mark. */
  function RedactLines(s: string, p: Pattern): string
    decreases |s|
  {
    var e := LineEnd(s);
    RedactLine(s[..e], p) + if e < |s| then ['\n'] + RedactLines(s[e + 1..], p) else ""
  }

  function MatchingLines(s: string, p: Pattern): nat
    decreases |s|
  {
    var e := LineEnd(s);
    (if Occurs(s[..e], p) then 1 else 0) + if e < |s| then MatchingLines(s[e + 1..], p) else 0
  }

  lemma HeaderNeedsColon(words: string, p: Pattern)
    requires HeaderPattern(p)
    ensures Occurs(words, p) ==> ':' in words
  {
    if i :| 0 <= i <= |words| && MatchAt(words, i, p) {
      assert words[i + (|p| - 1)] in p[|p| - 1];
    }
  }

  /** Before the first match there is no match. */
  lemma NothingBeforeFirst(s: string, p: Pattern, i: nat)
    requires FirstMatch(s, p) == Some(i) && p != []
    ensures i < |s| && !Occurs(s[..i], p)
  {
    forall k | 0 <= k <= i ensures MatchAt(s[..i], k, p) ==> MatchAt(s, k, p) && k < i {}
  }

  lemma LineIsFree(line: string, p: Pattern, q: Pattern)
    requires HeaderPattern(p) && HeaderPattern(q) && (q == p || !Occurs(line, q))
    ensures !Occurs(RedactLine(line, p), q)
  {
    match FirstMatch(line, p)
    case None =>
    case Some(i) =>
      NothingBeforeFirst(line, p, i);
      OccursInPart(line, 0, i, q);
      HeaderNeedsColon(HEADER_WORDS, q);
      OccursAroundMark(line[..i], HEADER_WORDS, "", q);
      assert RedactLine(line, p) == line[..i] + Bracketed(HEADER_WORDS) + "";
  }

  /** The pass removes its own header and brings back no other. */
  lemma {:induction false} LinesAreFree(s: string, p: Pattern, q: Pattern)
    requires HeaderPattern(p) && HeaderPattern(q) && (q == p || !Occurs(s, q))
    ensures !Occurs(RedactLines(s, p), q)
    decreases |s|
  {
    var e := LineEnd(s);
    if e < |s| {
      var rest := s[e + 1..];
      assert s == s[..e] + ['\n'] + rest;
      OccursAround(s[..e], '\n', rest, q);
      LineIsFree(s[..e], p, q);
      LinesAreFree(rest, p, q);
      OccursAround(RedactLine(s[..e], p), '\n', RedactLines(rest, p), q);
      assert RedactLines(s, p) == RedactLine(s[..e], p) + ['\n'] + RedactLines(rest, p);
    } else {
      assert s[..e] == s;
      LineIsFree(s, p, q);
      assert RedactLines(s, p) == RedactLine(s, p);
    }
  }

  /** A text without the header is left as it is. */
  lemma {:induction false} FreeTextStays(s: string, p: Pattern)
    requires p != [] && Avoids(p, '\n') && !Occurs(s, p)
    ensures RedactLines(s, p) == s
    decreases |s|
  {
    var e := LineEnd(s);
    var line := s[..e];
    if e < |s| {
      var rest := s[e + 1..];
      assert s == line + ['\n'] + rest;
      OccursAround(line, '\n', rest, p);
      FreeTextStays(rest, p);
      FreeBelowLine(line, rest, p);
    } else {
      assert line == s;
      FreeLastLine(s, p);
    }
  }

  lemma FreeBelowLine(line: string, rest: string, p: Pattern)
    requires '\n' !in line && !Occurs(line, p) && RedactLines(rest, p) == rest
    ensures RedactLines(line + ['\n'] + rest, p) == line + ['\n'] + rest
  {
    FreeLineStays(line, p);
    LineThenText(line, rest, p);
  }

  lemma FreeLastLine(line: string, p: Pattern)
    requires '\n' !in line && !Occurs(line, p)
    ensures RedactLines(line, p) == line
  {
    FreeLineStays(line, p);
    LineByLine(line, "", p);
    assert line + "" == line;
  }

  /** What one turn of the loop makes of a message whose first match is at `i`. */
  function CutHeader(s: string, i: nat): string
    requires i <= |s|
  {
    s[..i] + Bracketed(HEADER_WORDS) + s[i + LineEnd(s[i..])..]
  }

  /** A match starts and ends in one line. */
  lemma MatchStaysInLine(s: string, p: Pattern, i: nat)
    requires p != [] && Avoids(p, '\n') && MatchAt(s, i, p) && i <= LineEnd(s)
    ensures i + |p| <= LineEnd(s)
  {
    MatchAvoids(s, i, p, '\n');
  }

  lemma {:induction false} LineEndIs(line: string, rest: string)
    requires '\n' !in line && (rest == "" || rest[0] == '\n')
    ensures LineEnd(line + rest) == |line|
  {
    if line == "" {
      assert line + rest == rest;
    } else {
      assert (line + rest)[1..] == line[1..] + rest && (line + rest)[0] == line[0];
      LineEndIs(line[1..], rest);
    }
  }

  function TailLines(rest: string, p: Pattern): string {
    if rest == "" then "" else ['\n'] + RedactLines(rest[1..], p)
  }

  function TailMatches(rest: string, p: Pattern): nat {
    if rest == "" then 0 else MatchingLines(rest[1..], p)
  }

  /** The first line and the rest are redacted apart. */
  lemma LineByLine(line: string, rest: string, p: Pattern)
    requires '\n' !in line && (rest == "" || rest[0] == '\n')
    ensures RedactLines(line + rest, p) == RedactLine(line, p) + TailLines(rest, p)
    ensures MatchingLines(line + rest, p) == (if Occurs(line, p) then 1 else 0) + TailMatches(rest, p)
  {
    LineEndIs(line, rest);
    var s := line + rest;
    assert s[..|line|] == line;
    assert rest != "" ==> s[|line| + 1..] == rest[1..];
  }

  lemma FirstMatchIs(s: string, p: Pattern, i: nat)
    requires i <= |s| && MatchAt(s, i, p) && forall k :: 0 <= k < i ==> !MatchAt(s, k, p)
    ensures FirstMatch(s, p) == Some(i)
  {
    assert Occurs(s, p);
  }

  lemma StaysOneLine(line: string, p: Pattern)
    requires '\n' !in line
    ensures '\n' !in RedactLine(line, p)
  {
    assert '\n' !in Bracketed(HEADER_WORDS);
  }

  /** The same line by line, with fewer matching lines. */
  ghost predicate Progress(s: string, cut: string, p: Pattern) {
    RedactLines(cut, p) == RedactLines(s, p) && MatchingLines(cut, p) < MatchingLines(s, p)
  }

  /** A turn that finds its match in the first line redacts that line. */
  lemma CutFirstLine(line: string, rest: string, p: Pattern, i: nat)
    requires HeaderPattern(p) && '\n' !in line && (rest == "" || rest[0] == '\n')
    requires FirstMatch(line + rest, p) == Some(i) && i < |line|
    ensures CutHeader(line + rest, i) == RedactLine(line, p) + rest
    ensures Progress(line + rest, CutHeader(line + rest, i), p)
  {
    FirstInLine(line, rest, p, i);
    var cut := RedactLine(line, p);
    CutAtLineEnd(line, rest, i);
    LineIsFree(line, p, p);
    FreeLineStays(cut, p);
    StaysOneLine(line, p);
    LineByLine(line, rest, p);
    LineByLine(cut, rest, p);
  }

  lemma FirstInLine(line: string, rest: string, p: Pattern, i: nat)
    requires HeaderPattern(p) && '\n' !in line && (rest == "" || rest[0] == '\n')
    requires FirstMatch(line + rest, p) == Some(i) && i < |line|
    ensures FirstMatch(line, p) == Some(i) && Occurs(line, p)
  {
    var s := line + rest;
    LineEndIs(line, rest);
    MatchStaysInLine(s, p, i);
    assert MatchAt(line, i, p);
    forall k | 0 <= k < i ensures MatchAt(line, k, p) ==> MatchAt(s, k, p) {}
    FirstMatchIs(line, p, i);
  }

  lemma CutAtLineEnd(line: string, rest: string, i: nat)
    requires '\n' !in line && (rest == "" || rest[0] == '\n') && i < |line|
    ensures CutHeader(line + rest, i) == line[..i] + Bracketed(HEADER_WORDS) + rest
  {
    var s := line + rest;
    assert s[i..] == line[i..] + rest;
    LineEndIs(line[i..], rest);
    assert s[|line|..] == rest && s[..i] == line[..i];
  }

  lemma FreeLineStays(line: string, p: Pattern)
    requires !Occurs(line, p)
    ensures RedactLine(line, p) == line
  {}

  /** Every turn keeps the line-by-line meaning and leaves one matching line less. */
  lemma {:induction false} CutKeepsMeaning(s: string, p: Pattern, i: nat)
    requires HeaderPattern(p) && FirstMatch(s, p) == Some(i)
    ensures Progress(s, CutHeader(s, i), p)
    decreases |s|
  {
    var e := LineEnd(s);
    if i < e {
      CutOnLine(s, p, i);
    } else {
      MatchBelowLine(s, p, i);
      var line, below, j := s[..e], s[e + 1..], i - e - 1;
      FirstMatchBelow(s, line + ['\n'], below, p, i, j);
      CutBelow(s, line + ['\n'], below, i, j);
      CutKeepsMeaning(below, p, j);
      BelowLineProgress(line, below, CutHeader(below, j), s, CutHeader(s, i), p);
    }
  }

  lemma BelowLineProgress(line: string, below: string, cut: string, s: string, s': string, p: Pattern)
    requires '\n' !in line && Progress(below, cut, p) && s == line + ['\n'] + below && s' == line + ['\n'] + cut
    ensures Progress(s, s', p)
  {
    SameBelowLine(line, below, cut, p);
  }

  lemma CutOnLine(s: string, p: Pattern, i: nat)
    requires HeaderPattern(p) && FirstMatch(s, p) == Some(i) && i < LineEnd(s)
    ensures Progress(s, CutHeader(s, i), p)
  {
    var e := LineEnd(s);
    assert s == s[..e] + s[e..];
    CutFirstLine(s[..e], s[e..], p, i);
  }

  lemma MatchBelowLine(s: string, p: Pattern, i: nat)
    requires p != [] && Avoids(p, '\n') && MatchAt(s, i, p) && LineEnd(s) <= i
    ensures LineEnd(s) < i && s == s[..LineEnd(s)] + ['\n'] + s[LineEnd(s) + 1..]
  {
    MatchAvoids(s, i, p, '\n');
  }

  lemma SameBelowLine(line: string, below: string, cut: string, p: Pattern)
    requires '\n' !in line
    requires Progress(below, cut, p)
    ensures Progress(line + ['\n'] + below, line + ['\n'] + cut, p)
  {
    LineThenText(line, below, p);
    LineThenText(line, cut, p);
  }

  lemma LineThenText(line: string, below: string, p: Pattern)
    requires '\n' !in line
    ensures RedactLines(line + ['\n'] + below, p) == RedactLine(line, p) + ['\n'] + RedactLines(below, p)
    ensures MatchingLines(line + ['\n'] + below, p) == (if Occurs(line, p) then 1 else 0) + MatchingLines(below, p)
  {
    var rest := ['\n'] + below;
    Regroup(line, ['\n'], below);
    assert rest[1..] == below;
    LineByLine(line, rest, p);
    Regroup(RedactLine(line, p), ['\n'], RedactLines(below, p));
  }

  lemma FirstMatchBelow(s: string, front: string, below: string, p: Pattern, i: nat, j: nat)
    requires s == front + below && i == |front| + j && j <= |below| && FirstMatch(s, p) == Some(i)
    ensures FirstMatch(below, p) == Some(j)
  {
    forall k | 0 <= k <= j ensures MatchAt(below, k, p) <==> MatchAt(s, |front| + k, p) {
      MatchShifts(front, below, k, p);
    }
    FirstMatchIs(below, p, j);
  }

  lemma CutBelow(s: string, front: string, below: string, i: nat, j: nat)
    requires s == front + below && i == |front| + j && j <= |below|
    ensures CutHeader(s, i) == front + CutHeader(below, j)
  {
    assert s[i..] == below[j..];
    var end := LineEnd(below[j..]);
    var mark, tail := Bracketed(HEADER_WORDS), below[j + end..];
    assert s[i + end..] == tail;
    assert s[..i] == front + below[..j];
    Regroup(front, below[..j], mark);
    Regroup(front, below[..j] + mark, tail);
  }

  method RedactHeaders(original: string, header: string) returns (message: string)
    requires HeaderPattern(Folded(header))
    ensures message == RedactLines(original, Folded(header))
  {
    message := original;
    var found := FirstMatch(message, Folded(header));
    while found.Some?
      invariant found == FirstMatch(message, Folded(header))
      invariant RedactLines(message, Folded(header)) == RedactLines(original, Folded(header))
      decreases MatchingLines(message, Folded(header))
    {
      CutKeepsMeaning(message, Folded(header), found.value);
      message := CutHeader(message, found.value);
      found := FirstMatch(message, Folded(header));
    }
    FreeTextStays(message, Folded(header));
  }

  // ---- secrets ----

  /** strings.ReplaceAll(s, secret, "[REDACTED]"). */
  function ReplaceAll(s: string, secret: string): string
    requires secret != ""
    decreases |s|
  {
    match FirstMatch(s, Exactly(secret))
    case None => s
    case Some(i) => s[..i] + Bracketed(SECRET_WORD) + ReplaceAll(s[i + |secret|..], secret)
  }

  /** Replacing brings in nothing but the mark: every occurrence left was there, or is in the mark. */
  lemma {:induction false} ReplaceBringsOnlyMarks(s: string, secret: string, q: Pattern)
    requires secret != "" && BracketFree(q) && Occurs(ReplaceAll(s, secret), q)
    ensures Occurs(s, q) || Occurs(SECRET_WORD, q)
    decreases |s|
  {
    match FirstMatch(s, Exactly(secret))
    case None =>
    case Some(i) =>
      var rest := s[i + |secret|..];
      OccursAroundMark(s[..i], SECRET_WORD, ReplaceAll(rest, secret), q);
      OccursInPart(s, 0, i, q);
      OccursInPart(s, i + |secret|, |s|, q);
      assert rest == s[i + |secret|..|s|];
      if Occurs(ReplaceAll(rest, secret), q) { ReplaceBringsOnlyMarks(rest, secret, q); }
  }

  /** A secret without brackets survives its own replacement exactly when it occurred and is part of REDACTED. */
  lemma {:induction false} SecretSurvivesIff(s: string, secret: string)
    requires secret != "" && BracketFree(Exactly(secret))
    ensures Occurs(ReplaceAll(s, secret), Exactly(secret)) <==>
            Occurs(s, Exactly(secret)) && Occurs(SECRET_WORD, Exactly(secret))
    decreases |s|
  {
    var q := Exactly(secret);
    match FirstMatch(s, q)
    case None =>
    case Some(i) =>
      var rest := s[i + |secret|..];
      NothingBeforeFirst(s, q, i);
      OccursAroundMark(s[..i], SECRET_WORD, ReplaceAll(rest, secret), q);
      SecretSurvivesIff(rest, secret);
  }

  // ---- what a replacement keeps ----

  predicate TextAt(s: string, i: nat, text: string) { i + |text| <= |s| && s[i..i + |text|] == text }

  /** The parts one after the other, with `mark` between them. */
  function Glue(parts: seq<string>, mark: string): string
    requires parts != []
  {
    if |parts| == 1 then parts[0] else parts[0] + mark + Glue(parts[1..], mark)
  }

  /** `parts` are what is left of `s` when the leftmost `secret` in it is cut out, again and again. */
  ghost predicate LeftmostCuts(s: string, secret: string, parts: seq<string>)
    decreases |parts|
  {
    && parts != []
    && (forall i :: 0 <= i < |parts[0]| ==> !TextAt(s, i, secret))
    && if |parts| == 1 then parts[0] == s && !TextAt(s, |s|, secret)
       else && parts[0] <= s && TextAt(s, |parts[0]|, secret)
            && LeftmostCuts(s[|parts[0]| + |secret|..], secret, parts[1..])
  }

  lemma ExactlyIsText(s: string, i: nat, text: string)
    ensures MatchAt(s, i, Exactly(text)) <==> TextAt(s, i, text)
  {
    if i + |text| <= |s| {
      if MatchAt(s, i, Exactly(text)) {
        forall j | 0 <= j < |text| ensures s[i..i + |text|][j] == text[j] { assert s[i + j] in Exactly(text)[j]; }
      }
      if TextAt(s, i, text) {
        forall j | 0 <= j < |text| ensures s[i + j] in Exactly(text)[j] { assert s[i..i + |text|][j] == text[j]; }
      }
    }
  }

  lemma FirstIsLeftmost(s: string, secret: string, i: nat)
    requires TextAt(s, i, secret) && forall k :: 0 <= k < i ==> !TextAt(s, k, secret)
    ensures FirstMatch(s, Exactly(secret)) == Some(i)
  {
    ExactlyIsText(s, i, secret);
    forall k | 0 <= k < i ensures !MatchAt(s, k, Exactly(secret)) { ExactlyIsText(s, k, secret); }
    FirstMatchIs(s, Exactly(secret), i);
  }

  lemma AbsentText(s: string, secret: string)
    requires secret != ""
    ensures FirstMatch(s, Exactly(secret)) == None <==> forall i :: 0 <= i < |s| ==> !TextAt(s, i, secret)
  {
    var first := FirstMatch(s, Exactly(secret));
    if first.Some? {
      ExactlyIsText(s, first.value, secret);
    } else {
      forall i | 0 <= i < |s| ensures !TextAt(s, i, secret) { ExactlyIsText(s, i, secret); }
    }
  }

  /** The parts glued by the secret are the message, and glued by the mark they are the result. */
  lemma ReplaceGlues(s: string, secret: string, parts: seq<string>)
    requires secret != "" && LeftmostCuts(s, secret, parts)
    ensures Glue(parts, secret) == s && ReplaceAll(s, secret) == Glue(parts, "[REDACTED]")
  {
    MarkTexts();
    GlueParts(s, secret, parts, Bracketed(SECRET_WORD));
  }

  lemma MarkTexts()
    ensures Bracketed(SECRET_WORD) == "[REDACTED]" && Bracketed(HEADER_WORDS) == "[REDACTED HEADER]"
  {}

  lemma {:induction false} GlueParts(s: string, secret: string, parts: seq<string>, mark: string)
    requires secret != "" && mark == Bracketed(SECRET_WORD) && LeftmostCuts(s, secret, parts)
    ensures Glue(parts, secret) == s && ReplaceAll(s, secret) == Glue(parts, mark)
    decreases |parts|
  {
    if |parts| == 1 {
      AbsentText(s, secret);
    } else {
      var i := |parts[0]|;
      var rest := s[i + |secret|..];
      ReplaceFirst(s, secret, parts[0], rest, mark);
      GlueParts(rest, secret, parts[1..], mark);
    }
  }

  lemma ReplaceFirst(s: string, secret: string, front: string, rest: string, mark: string)
    requires secret != "" && mark == Bracketed(SECRET_WORD)
    requires front <= s && TextAt(s, |front|, secret) && rest == s[|front| + |secret|..]
    requires forall i :: 0 <= i < |front| ==> !TextAt(s, i, secret)
    ensures s == front + secret + rest && ReplaceAll(s, secret) == front + mark + ReplaceAll(rest, secret)
  {
    FirstIsLeftmost(s, secret, |front|);
    CutAt(s, |front|, |front| + |secret|);
  }

  lemma CutAt(s: string, i: nat, j: nat)
    requires i <= j <= |s|
    ensures s == s[..i] + s[i..j] + s[j..]
  {}

  /** Every message has such parts. */
  lemma {:induction false} PartsExist(s: string, secret: string) returns (parts: seq<string>)
    requires secret != ""
    ensures LeftmostCuts(s, secret, parts)
    decreases |s|
  {
    AbsentText(s, secret);
    match FirstMatch(s, Exactly(secret))
    case None => parts := [s];
    case Some(i) =>
      ExactlyIsText(s, i, secret);
      forall k | 0 <= k < i ensures !TextAt(s, k, secret) { ExactlyIsText(s, k, secret); }
      var rest := PartsExist(s[i + |secret|..], secret);
      parts := [s[..i]] + rest;
      assert parts[1..] == rest;
  }

  /** A message without the secret is left as it is. */
  lemma AbsentSecretStays(s: string, secret: string)
    requires secret != "" && forall i :: 0 <= i < |s| ==> !TextAt(s, i, secret)
    ensures ReplaceAll(s, secret) == s
  {
    AbsentText(s, secret);
  }

  /** Position `i` begins the first match. */
  ghost predicate FirstAt(s: string, p: Pattern, i: nat) {
    i < |s| && MatchAt(s, i, p) && forall k :: 0 <= k < i ==> !MatchAt(s, k, p)
  }

  /**
    What a header pass makes of one line and the text below it: the line up to its first match and then the mark,
    or the line itself if it has none, and the text below on its own.
   */
  lemma HeaderPassOnLine(line: string, below: string, p: Pattern, i: nat)
    requires '\n' !in line && p != []
    ensures RedactLines(line + ['\n'] + below, p) == RedactLines(line, p) + ['\n'] + RedactLines(below, p)
    ensures FirstAt(line, p, i) ==> RedactLines(line, p) == line[..i] + "[REDACTED HEADER]"
    ensures !Occurs(line, p) ==> RedactLines(line, p) == line
  {
    LineThenText(line, below, p);
    LastLine(line, p);
    MarkTexts();
    if FirstAt(line, p, i) { FirstMatchIs(line, p, i); }
    if !Occurs(line, p) { FreeLineStays(line, p); }
  }

  lemma LastLine(line: string, p: Pattern)
    requires '\n' !in line
    ensures RedactLines(line, p) == RedactLine(line, p)
  {
    LineByLine(line, "", p);
    assert line + "" == line;
  }

  // ---- the whole message ----

  function AfterHeaders(message: string, headers: seq<string>): string {
    if headers == [] then message
    else RedactLines(AfterHeaders(message, headers[..|headers| - 1]), Folded(headers[|headers| - 1]))
  }

  function AfterSecrets(message: string, secrets: seq<string>): string {
    if secrets == [] then message
    else
      var before := AfterSecrets(message, secrets[..|secrets| - 1]);
      var secret := secrets[|secrets| - 1];
      if secret == "" then before else ReplaceAll(before, secret)
  }

  lemma FoldAvoids(c: char)
    requires 'a' <= c <= 'z' || c == '-' || c == ':'
    ensures '[' !in Fold(c) && ']' !in Fold(c) && '\n' !in Fold(c)
    ensures Fold(':') == {':'}
  {}

  predicate HeaderText(header: string) {
    && header != "" && header[|header| - 1] == ':'
    && forall i :: 0 <= i < |header| ==> 'a' <= header[i] <= 'z' || header[i] == '-' || header[i] == ':'
  }

  lemma HeaderTextPattern(header: string)
    requires HeaderText(header)
    ensures HeaderPattern(Folded(header))
  {
    var p := Folded(header);
    forall j | 0 <= j < |p| ensures '[' !in p[j] && ']' !in p[j] && '\n' !in p[j] { FoldAvoids(header[j]); }
    FoldAvoids(':');
  }

  ghost predicate AllHeaders(headers: seq<string>) {
    forall k :: 0 <= k < |headers| ==> HeaderPattern(Folded(headers[k]))
  }

  lemma ListedHeaders()
    ensures AllHeaders(HEADERS)
  {
    assert HeaderText("authorization:") && HeaderText("proxy-authorization:") && HeaderText("x-amz-security-token:");
    assert HeaderText("x-amz-credential:") && HeaderText("x-amz-signature:");
    forall k | 0 <= k < |HEADERS| ensures HeaderPattern(Folded(HEADERS[k])) { HeaderTextPattern(HEADERS[k]); }
  }

  /** The lower-case form of an ASCII letter. */
  function Lower(c: char): char { if 'A' <= c <= 'Z' then (c as int + 32) as char else c }

  /** A header is found in any mixture of cases. */
  lemma AnyCaseMatches(s: string, i: nat, header: string)
    requires HeaderText(header) && i + |header| <= |s|
    requires forall j :: 0 <= j < |header| ==> Lower(s[i + j]) == header[j]
    ensures MatchAt(s, i, Folded(header))
  {
    forall j | 0 <= j < |header| ensures s[i + j] in Folded(header)[j] { FoldsLower(s[i + j], header[j]); }
  }

  lemma FoldsLower(c: char, d: char)
    requires Lower(c) == d
    ensures c in Fold(d)
  {}

  /** Once its pass is done, a header stays out through the later passes. */
  lemma {:induction false} HeadersAreGone(message: string, headers: seq<string>, k: nat)
    requires AllHeaders(headers) && k < |headers|
    ensures !Occurs(AfterHeaders(message, headers), Folded(headers[k]))
  {
    var last := |headers| - 1;
    if k < last { HeadersAreGone(message, headers[..last], k); }
    LinesAreFree(AfterHeaders(message, headers[..last]), Folded(headers[last]), Folded(headers[k]));
  }

  /** What is absent, and no part of REDACTED, stays absent through any replacements. */
  lemma {:induction false} AbsentStays(message: string, secrets: seq<string>, n: nat, q: Pattern)
    requires n <= |secrets| && BracketFree(q) && !Occurs(SECRET_WORD, q)
    requires !Occurs(AfterSecrets(message, secrets[..n]), q)
    ensures !Occurs(AfterSecrets(message, secrets), q)
    decreases |secrets|
  {
    if n == |secrets| {
      assert secrets[..n] == secrets;
    } else {
      var last := |secrets| - 1;
      assert secrets[..last][..n] == secrets[..n];
      AbsentStays(message, secrets[..last], n, q);
      var before := AfterSecrets(message, secrets[..last]);
      if secrets[last] != "" && Occurs(ReplaceAll(before, secrets[last]), q) {
        ReplaceBringsOnlyMarks(before, secrets[last], q);
      }
    }
  }

  lemma SecretIsGone(message: string, secrets: seq<string>, k: nat)
    requires k < |secrets| && secrets[k] != "" && BracketFree(Exactly(secrets[k]))
    requires !Occurs(SECRET_WORD, Exactly(secrets[k]))
    ensures !Occurs(AfterSecrets(message, secrets), Exactly(secrets[k]))
  {
    assert secrets[..k + 1][..k] == secrets[..k];
    SecretSurvivesIff(AfterSecrets(message, secrets[..k]), secrets[k]);
    AbsentStays(message, secrets, k + 1, Exactly(secrets[k]));
  }

  ghost predicate HeadersAbsent(message: string, headers: seq<string>) {
    forall k :: 0 <= k < |headers| ==> !Occurs(message, Folded(headers[k]))
  }

  /** Nothing promised for the empty secret, one with a bracket, and a part of REDACTED. */
  ghost predicate Removable(secret: string) {
    secret != "" && BracketFree(Exactly(secret)) && !Occurs(SECRET_WORD, Exactly(secret))
  }

  method HeaderPasses(original: string, headers: seq<string>) returns (message: string)
    requires AllHeaders(headers)
    ensures message == AfterHeaders(original, headers) && HeadersAbsent(message, headers)
  {
    message := original;
    var i := 0;
    while i < |headers|
      invariant i <= |headers| && message == AfterHeaders(original, headers[..i])
    {
      message := RedactHeaders(message, headers[i]);
      assert headers[..i + 1][..i] == headers[..i];
      i := i + 1;
    }
    assert headers[..i] == headers;
    forall k | 0 <= k < |headers| ensures !Occurs(message, Folded(headers[k])) {
      HeadersAreGone(original, headers, k);
    }
  }

  method SecretPasses(original: string, secrets: seq<string>) returns (message: string)
    ensures message == AfterSecrets(original, secrets)
    ensures forall k :: 0 <= k < |secrets| && Removable(secrets[k]) ==> !Occurs(message, Exactly(secrets[k]))
  {
    message := original;
    var i := 0;
    while i < |secrets|
      invariant i <= |secrets| && message == AfterSecrets(original, secrets[..i])
    {
      if secrets[i] != "" {
        message := ReplaceAll(message, secrets[i]);
      }
      assert secrets[..i + 1][..i] == secrets[..i];
      i := i + 1;
    }
    assert secrets[..i] == secrets;
    forall k | 0 <= k < |secrets| && Removable(secrets[k]) ensures !Occurs(message, Exactly(secrets[k])) {
      SecretIsGone(original, secrets, k);
    }
  }

  lemma HeadersStayGone(message: string, headers: seq<string>, secrets: seq<string>)
    requires AllHeaders(headers) && HeadersAbsent(message, headers)
    ensures HeadersAbsent(AfterSecrets(message, secrets), headers)
  {
    forall k | 0 <= k < |headers| ensures !Occurs(AfterSecrets(message, secrets), Folded(headers[k])) {
      var q := Folded(headers[k]);
      HeaderNeedsColon(SECRET_WORD, q);
      AbsentStays(message, secrets, 0, q);
    }
  }

  /** The sanitized message, from the text left by the URL pass. */
  method Sanitize(original: string, secrets: seq<string>) returns (message: string)
    ensures message == AfterSecrets(AfterHeaders(original, HEADERS), secrets)
    ensures HeadersAbsent(message, HEADERS)
    ensures forall k :: 0 <= k < |secrets| && Removable(secrets[k]) ==> !Occurs(message, Exactly(secrets[k]))
  {
    ListedHeaders();
    var clean := HeaderPasses(original, HEADERS);
    message := SecretPasses(clean, secrets);
    HeadersStayGone(clean, HEADERS, secrets);
  }
}
