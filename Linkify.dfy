/** How the news page renders an article's text: one block per line, and in
    each line every match of `https?://` followed by non-whitespace becomes a
    link. The line is cut with a capturing split on that pattern, so the
    pieces alternate text, URL, text, ..., URL, text; a piece is rendered as a
    link when it contains a match.

    The pattern is matched by a scanner written out here. Strings are
    sequences of code points; every whitespace character the pattern's `\s`
    stands for is a single code point. */
module Linkify {

  // ---------------------------------------------------------------------------
  // Lines
  // ---------------------------------------------------------------------------

  /** The position of the first newline at or after `from`, or `|s|`. */
  function NextNewline(s: string, from: nat): (i: nat)
    requires from <= |s|
    ensures from <= i <= |s|
    ensures i < |s| ==> s[i] == '\n'
    ensures forall k :: from <= k < i ==> s[k] != '\n'
    decreases |s| - from
  {
    if from == |s| || s[from] == '\n' then from else NextNewline(s, from + 1)
  }

  /** `content.split('\n')`. */
  function Lines(s: string): (lines: seq<string>)
    ensures |lines| >= 1
    ensures forall l :: l in lines ==> '\n' !in l
    decreases |s|
  {
    var i := NextNewline(s, 0);
    if i == |s| then [s]
    else [s[..i]] + Lines(s[i + 1..])
  }

  /** The lines joined back with newlines. */
  function JoinLines(lines: seq<string>): string
    requires |lines| >= 1
  {
    if |lines| == 1 then lines[0] else lines[0] + "\n" + JoinLines(lines[1..])
  }

  function NewlineCount(s: string): nat
  {
    if s == [] then 0 else (if s[0] == '\n' then 1 else 0) + NewlineCount(s[1..])
  }

  lemma {:induction false} NewlineCountAppend(a: string, b: string)
    ensures NewlineCount(a + b) == NewlineCount(a) + NewlineCount(b)
  {
    if a == [] {
      assert a + b == b;
    } else {
      assert (a + b)[1..] == a[1..] + b;
      NewlineCountAppend(a[1..], b);
    }
  }

  lemma {:induction false} NoNewlineCountsZero(s: string)
    requires '\n' !in s
    ensures NewlineCount(s) == 0
  {
    if s != [] {
      assert s == [s[0]] + s[1..];
      NoNewlineCountsZero(s[1..]);
    }
  }

  /** Rejoining the lines with newlines gives back the text. */
  lemma {:induction false} LinesJoin(s: string)
    ensures JoinLines(Lines(s)) == s
    decreases |s|
  {
    var i := NextNewline(s, 0);
    if i == |s| {
      assert s[..i] == s;
    } else {
      var rest := Lines(s[i + 1..]);
      LinesJoin(s[i + 1..]);
      assert Lines(s) == [s[..i]] + rest;
      assert ([s[..i]] + rest)[1..] == rest;
      assert s == s[..i] + "\n" + s[i + 1..];
    }
  }

  /** A text whose first newline is at `i` has one newline more than the text
      after it. */
  lemma FirstNewlineCount(s: string, i: nat)
    requires i < |s| && s[i] == '\n' && '\n' !in s[..i]
    ensures NewlineCount(s) == 1 + NewlineCount(s[i + 1..])
  {
    NoNewlineCountsZero(s[..i]);
    assert s == s[..i] + ("\n" + s[i + 1..]);
    NewlineCountAppend(s[..i], "\n" + s[i + 1..]);
    NewlineCountAppend("\n", s[i + 1..]);
    assert NewlineCount("\n") == 1 by { assert "\n"[1..] == ""; }
  }

  /** There is one line more than there are newlines. */
  lemma {:induction false} LinesCount(s: string)
    ensures |Lines(s)| == NewlineCount(s) + 1
    decreases |s|
  {
    var i := NextNewline(s, 0);
    assert '\n' !in s[..i];
    if i == |s| {
      assert s[..i] == s;
      NoNewlineCountsZero(s);
    } else {
      LinesCount(s[i + 1..]);
      FirstNewlineCount(s, i);
    }
  }

  // ---------------------------------------------------------------------------
  // The URL pattern /https?:\/\/[^\s]+/
  // ---------------------------------------------------------------------------

  /** The characters of JavaScript's `\s`: the ECMAScript white space and line
      terminator code points. */
  predicate IsSpace(c: char)
  {
    || c == '\t' || c == '\n' || c == '\U{000B}' || c == '\U{000C}' || c == '\r'
    || c == ' ' || c == '\U{00A0}' || c == '\U{1680}'
    || ('\U{2000}' <= c <= '\U{200A}')
    || c == '\U{2028}' || c == '\U{2029}' || c == '\U{202F}' || c == '\U{205F}'
    || c == '\U{3000}' || c == '\U{FEFF}'
  }

  predicate HasPrefixAt(s: string, i: nat, p: string)
  {
    i + |p| <= |s| && s[i..i + |p|] == p
  }

  /** A match of the pattern starts at position `i`: a scheme and at least one
      non-whitespace character after it. */
  predicate UrlAt(s: string, i: nat)
  {
    || (HasPrefixAt(s, i, "https://") && i + 8 < |s| && !IsSpace(s[i + 8]))
    || (HasPrefixAt(s, i, "http://") && i + 7 < |s| && !IsSpace(s[i + 7]))
  }

  /** `part.match(urlRegex) !== null`. */
  predicate ContainsUrl(s: string)
  {
    exists i: nat :: i < |s| && UrlAt(s, i)
  }

  /** A match starts with the letter h, so never at whitespace. */
  lemma UrlAtHead(s: string, i: nat)
    ensures UrlAt(s, i) ==> i < |s| && s[i] == 'h' && !IsSpace(s[i])
  {
    if HasPrefixAt(s, i, "https://") {
      assert s[i..i + 8][0] == s[i];
    }
    if HasPrefixAt(s, i, "http://") {
      assert s[i..i + 7][0] == s[i];
    }
  }

  /** A match inside a stretch of the line is a match in the line itself. */
  lemma UrlAtInSlice(s: string, lo: nat, hi: nat, j: nat)
    requires lo <= hi <= |s| && UrlAt(s[lo..hi], j)
    ensures UrlAt(s, lo + j)
  {
    var t := s[lo..hi];
    var n := if HasPrefixAt(t, j, "https://") && j + 8 < |t| && !IsSpace(t[j + 8]) then 8 else 7;
    assert j + n < |t|;
    var a, b := t[j..j + n], s[lo + j..lo + j + n];
    forall k | 0 <= k < n ensures a[k] == b[k] {
      assert a[k] == t[j + k];
    }
    assert a == b;
  }

  /** The end of the run of non-whitespace characters that starts at `i`: how
      far the greedy `[^\s]+` reaches. */
  function RunEnd(s: string, i: nat): (e: nat)
    requires i <= |s|
    ensures i <= e <= |s|
    ensures forall k :: i <= k < e ==> !IsSpace(s[k])
    ensures e == |s| || IsSpace(s[e])
    decreases |s| - i
  {
    if i == |s| || IsSpace(s[i]) then i else RunEnd(s, i + 1)
  }

  /** The leftmost match at or after `from`, or `|s|` when there is none. */
  function NextUrl(s: string, from: nat): (i: nat)
    requires from <= |s|
    ensures from <= i <= |s|
    ensures i < |s| ==> UrlAt(s, i)
    ensures forall k: nat :: from <= k < i ==> !UrlAt(s, k)
    decreases |s| - from
  {
    if from == |s| || UrlAt(s, from) then from else NextUrl(s, from + 1)
  }

  /** A match is never empty: its run of non-whitespace starts with `h`. */
  function MatchEnd(s: string, i: nat): (e: nat)
    requires i < |s| && UrlAt(s, i)
    ensures i < e <= |s|
  {
    UrlAtHead(s, i);
    RunEnd(s, i)
  }

  /** `s.slice(from).split(/(https?:\/\/[^\s]+)/)`: the text before the
      leftmost match, the match, and the split of the rest. */
  function SplitFrom(s: string, from: nat): (parts: seq<string>)
    requires from <= |s|
    ensures |parts| % 2 == 1
    decreases |s| - from
  {
    var i := NextUrl(s, from);
    if i == |s| then [s[from..]]
    else
      var e := MatchEnd(s, i);
      var rest := SplitFrom(s, e);
      assert |[s[from..i], s[i..e]] + rest| == |rest| + 2;
      [s[from..i], s[i..e]] + rest
  }

  /** `line.split(urlRegex)`. */
  function SplitLine(line: string): (parts: seq<string>)
    ensures |parts| % 2 == 1
    ensures |parts| == 1 <==> !ContainsUrl(line)
  {
    ContainsUrlIffScan(line);
    SplitFrom(line, 0)
  }

  /** `part.match(urlRegex)` finds a match exactly when the leftmost scan
      that `split` makes finds one. */
  lemma ContainsUrlIffScan(s: string)
    ensures ContainsUrl(s) <==> NextUrl(s, 0) < |s|
  {
    if ContainsUrl(s) {
      var i: nat :| i < |s| && UrlAt(s, i);
      assert NextUrl(s, 0) <= i;
    }
  }

  function Concat(parts: seq<string>): string
  {
    if parts == [] then "" else parts[0] + Concat(parts[1..])
  }

  lemma {:induction false} ConcatAppend(a: seq<string>, b: seq<string>)
    ensures Concat(a + b) == Concat(a) + Concat(b)
  {
    if a == [] {
      assert a + b == b;
    } else {
      assert (a + b)[1..] == a[1..] + b;
      ConcatAppend(a[1..], b);
    }
  }

  lemma SliceSplit(s: string, from: nat, i: nat, e: nat)
    requires from <= i <= e <= |s|
    ensures s[from..] == s[from..i] + s[i..e] + s[e..]
  {
  }

  lemma ConcatPair(x: string, y: string, rest: seq<string>)
    ensures Concat([x, y] + rest) == x + y + Concat(rest)
  {
    assert ([x, y] + rest)[1..] == [y] + rest;
    assert ([y] + rest)[1..] == rest;
  }

  /** The capturing split keeps the matches, so the pieces concatenate back to
      the line. */
  lemma {:induction false} SplitFromRoundTrip(s: string, from: nat)
    requires from <= |s|
    ensures Concat(SplitFrom(s, from)) == s[from..]
    decreases |s| - from
  {
    var i := NextUrl(s, from);
    if i == |s| {
      assert SplitFrom(s, from) == [s[from..]];
      assert Concat([s[from..]]) == s[from..] + Concat([]);
    } else {
      UrlAtHead(s, i);
      var e := RunEnd(s, i);
      var rest := SplitFrom(s, e);
      assert SplitFrom(s, from) == [s[from..i], s[i..e]] + rest;
      SplitFromRoundTrip(s, e);
      ConcatPair(s[from..i], s[i..e], rest);
      SliceSplit(s, from, i, e);
    }
  }

  lemma SplitLineRoundTrip(line: string)
    ensures Concat(SplitLine(line)) == line
  {
    SplitFromRoundTrip(line, 0);
  }

  /** The pieces of a split alternate: every even piece holds no match, and
      every odd piece is a whole match — it begins with the scheme and a
      non-whitespace character, holds no whitespace, and runs to the next
      whitespace or the end of the line, so the piece after it is either
      the empty last piece or starts with whitespace. */
  predicate WellSplit(parts: seq<string>)
  {
    |parts| % 2 == 1 && TextPiecesClean(parts) && UrlPiecesMaximal(parts)
  }

  /** No even piece holds a match. */
  predicate TextPiecesClean(parts: seq<string>)
  {
    forall k :: 0 <= k < |parts| && k % 2 == 0 ==> !ContainsUrl(parts[k])
  }

  /** Every odd piece that has a successor (in an odd-length split, every
      odd piece) is a whole, maximal match. */
  predicate UrlPiecesMaximal(parts: seq<string>)
  {
    forall k :: 0 <= k < |parts| - 1 && k % 2 == 1 ==>
      && UrlAt(parts[k], 0)
      && (forall c :: c in parts[k] ==> !IsSpace(c))
      && ((k + 2 == |parts| && parts[k + 1] == "")
          || (parts[k + 1] != "" && IsSpace(parts[k + 1][0])))
  }

  lemma NoMatchBefore(s: string, from: nat, i: nat)
    requires from <= i <= |s|
    requires forall k: nat :: from <= k < i ==> !UrlAt(s, k)
    ensures !ContainsUrl(s[from..i])
  {
    if ContainsUrl(s[from..i]) {
      var j: nat :| j < |s[from..i]| && UrlAt(s[from..i], j);
      UrlAtInSlice(s, from, i, j);
      assert false;
    }
  }

  lemma UrlPieceIsMatch(s: string, i: nat)
    requires UrlAt(s, i)
    ensures UrlAt(s[i..RunEnd(s, i)], 0)
  {
    UrlAtHead(s, i);
    var e := RunEnd(s, i);
    var t := s[i..e];
    if HasPrefixAt(s, i, "https://") && i + 8 < |s| && !IsSpace(s[i + 8]) {
      assert !IsSpace(s[i + 1]) && !IsSpace(s[i + 2]) && !IsSpace(s[i + 3]) && !IsSpace(s[i + 4]);
      assert i + 8 < e;
      assert t[0..8] == s[i..i + 8];
    } else {
      assert !IsSpace(s[i + 1]) && !IsSpace(s[i + 2]) && !IsSpace(s[i + 3]);
      assert i + 7 < e;
      assert t[0..7] == s[i..i + 7];
    }
  }

  /** A match-free text and a maximal match in front of a well-formed split
      give a well-formed split. */
  lemma WellSplitCons(x: string, y: string, rest: seq<string>)
    requires WellSplit(rest)
    requires !ContainsUrl(x) && UrlAt(y, 0) && (forall c :: c in y ==> !IsSpace(c))
    requires rest == [""] || (rest[0] != "" && IsSpace(rest[0][0]))
    ensures WellSplit([x, y] + rest)
  {
    TextPiecesCons(x, y, rest);
    UrlPiecesCons(x, y, rest);
  }

  lemma TextPiecesCons(x: string, y: string, rest: seq<string>)
    requires TextPiecesClean(rest) && !ContainsUrl(x)
    ensures TextPiecesClean([x, y] + rest)
  {
    var parts := [x, y] + rest;
    forall k | 0 <= k < |parts| && k % 2 == 0 ensures !ContainsUrl(parts[k]) {
      if k >= 2 { assert parts[k] == rest[k - 2]; }
    }
  }

  lemma UrlPiecesCons(x: string, y: string, rest: seq<string>)
    requires UrlPiecesMaximal(rest) && |rest| % 2 == 1
    requires UrlAt(y, 0) && (forall c :: c in y ==> !IsSpace(c))
    requires rest == [""] || (rest[0] != "" && IsSpace(rest[0][0]))
    ensures UrlPiecesMaximal([x, y] + rest)
  {
    var parts := [x, y] + rest;
    forall k | 0 <= k < |parts| - 1 && k % 2 == 1
      ensures && UrlAt(parts[k], 0)
              && (forall c :: c in parts[k] ==> !IsSpace(c))
              && ((k + 2 == |parts| && parts[k + 1] == "")
                  || (parts[k + 1] != "" && IsSpace(parts[k + 1][0])))
    {
      if k >= 2 { assert parts[k] == rest[k - 2] && parts[k + 1] == rest[k - 1]; }
    }
  }

  lemma {:induction false} SplitFromWellSplit(s: string, from: nat)
    requires from <= |s|
    requires from == 0 || from == |s| || IsSpace(s[from])
    ensures WellSplit(SplitFrom(s, from))
    ensures SplitFrom(s, from)[0] == "" ==> from == |s| || NextUrl(s, from) == from
    decreases |s| - from
  {
    var i := NextUrl(s, from);
    NoMatchBefore(s, from, i);
    if i == |s| {
      assert s[from..i] == s[from..];
    } else {
      UrlAtHead(s, i);
      var e := RunEnd(s, i);
      UrlPieceIsMatch(s, i);
      SplitFromWellSplit(s, e);
      var rest := SplitFrom(s, e);
      assert forall c :: c in s[i..e] ==> !IsSpace(c);
      if e == |s| {
        assert rest == [""];
      } else {
        assert IsSpace(s[e]);
        UrlAtHead(s, e);
        assert rest[0] != "" && rest[0][0] == s[e];
      }
      WellSplitCons(s[from..i], s[i..e], rest);
    }
  }

  lemma SplitLineWellSplit(line: string)
    ensures WellSplit(SplitLine(line))
  {
    SplitFromWellSplit(line, 0);
  }

  // ---------------------------------------------------------------------------
  // Rendering
  // ---------------------------------------------------------------------------

  /** A rendered piece: plain text, or an anchor whose target and text are the
      piece. */
  datatype Segment = Text(text: string) | Link(href: string)

  function SegmentText(seg: Segment): string
  {
    match seg
    case Text(t) => t
    case Link(h) => h
  }

  /** One line's pieces, each rendered as a link when it contains a match. */
  function RenderLine(line: string): (segs: seq<Segment>)
    ensures |segs| == |SplitLine(line)|
    ensures forall k :: 0 <= k < |segs| ==> SegmentText(segs[k]) == SplitLine(line)[k]
  {
    var parts := SplitLine(line);
    seq(|parts|, k requires 0 <= k < |parts| =>
      if ContainsUrl(parts[k]) then Link(parts[k]) else Text(parts[k]))
  }

  function ConcatSegments(segs: seq<Segment>): string
  {
    if segs == [] then "" else SegmentText(segs[0]) + ConcatSegments(segs[1..])
  }

  lemma {:induction false} ConcatSegmentsIsConcat(segs: seq<Segment>, parts: seq<string>)
    requires |segs| == |parts|
    requires forall k :: 0 <= k < |segs| ==> SegmentText(segs[k]) == parts[k]
    ensures ConcatSegments(segs) == Concat(parts)
  {
    if segs != [] {
      ConcatSegmentsIsConcat(segs[1..], parts[1..]);
    }
  }

  /** A piece of a line is rendered as a link exactly when it is one of the
      matches (the odd pieces). */
  lemma RenderLineLinks(line: string)
    ensures forall k :: 0 <= k < |RenderLine(line)| ==>
              (RenderLine(line)[k].Link? <==> k % 2 == 1)
  {
    var parts := SplitLine(line);
    var segs := RenderLine(line);
    SplitLineWellSplit(line);
    forall k | 0 <= k < |segs| && k % 2 == 1 ensures segs[k].Link? {
      assert k < |parts| - 1;
      assert 0 < |parts[k]| && UrlAt(parts[k], 0);
    }
  }

  /** The rendered line reads as the original line. */
  lemma RenderLineText(line: string)
    ensures ConcatSegments(RenderLine(line)) == line
  {
    ConcatSegmentsIsConcat(RenderLine(line), SplitLine(line));
    SplitLineRoundTrip(line);
  }

  /** The whole article text: one rendered block per line. */
  function RenderContent(content: string): (blocks: seq<seq<Segment>>)
    ensures |blocks| == |Lines(content)|
  {
    var lines := Lines(content);
    seq(|lines|, k requires 0 <= k < |lines| => RenderLine(lines[k]))
  }

  /** There is one block per newline-separated line: the newline count plus
      one. */
  lemma RenderContentBlocks(content: string)
    ensures |RenderContent(content)| == NewlineCount(content) + 1
  {
    LinesCount(content);
  }
}
