/** The regular-expression passes of transformations/punctuation.go: FixPunctuationGroups
    rewrites runs of dots and interrobangs, FixGeneralPunctuation and CleanFinalSpacing move
    whitespace around punctuation, FixSpacing squeezes whitespace runs, and FixPunctuation
    chains them. */
module PunctuationPasses {

  import opened Wrappers
  import opened Text
  import opened Rewrite
  import opened QuoteFix
  import Spacing

  /** The text with its whitespace taken out: what the spacing passes must leave alone. */
  function Visible(s: string): string
    decreases |s|
  {
    if |s| == 0 then [] else Visible(s[..|s| - 1]) + (if IsSpace(s[|s| - 1]) then [] else [s[|s| - 1]])
  }

  lemma {:induction false} VisibleConcat(a: string, b: string)
    ensures Visible(a + b) == Visible(a) + Visible(b)
    decreases |b|
  {
    if |b| == 0 {
      assert a + b == a;
    } else {
      VisibleConcat(a, b[..|b| - 1]);
      assert (a + b)[..|a + b| - 1] == a + b[..|b| - 1];
    }
  }

  /** Whitespace is invisible. */
  lemma {:induction false} VisibleSpaces(s: string)
    requires forall k :: 0 <= k < |s| ==> IsSpace(s[k])
    ensures Visible(s) == []
    decreases |s|
  {
    if |s| > 0 {
      VisibleSpaces(s[..|s| - 1]);
    }
  }

  /** A char on its own. */
  lemma VisibleChar(c: char)
    ensures Visible([c]) == if IsSpace(c) then [] else [c]
  {
    assert [c][..0] == [];
  }

  /** A replacement whose every match has the visible text of what it replaces keeps the
      visible text. */
  lemma {:induction false} ReplaceVisible(s: string, i: nat, m: Matcher)
    requires i <= |s|
    requires forall j :: i <= j < |s| && HitAt(m, s, j) ==> Visible(m(s, j).value.rep) == Visible(s[j..m(s, j).value.end])
    ensures Visible(ReplaceFrom(s, i, m)) == Visible(s[i..])
    decreases |s| - i
  {
    if i < |s| {
      if HitAt(m, s, i) {
        var e := m(s, i).value.end;
        ReplaceVisible(s, e, m);
        VisibleConcat(m(s, i).value.rep, ReplaceFrom(s, e, m));
        assert s[i..] == s[i..e] + s[e..];
        VisibleConcat(s[i..e], s[e..]);
      } else {
        ReplaceVisible(s, i + 1, m);
        VisibleConcat([s[i]], ReplaceFrom(s, i + 1, m));
        assert s[i..] == [s[i]] + s[i + 1..];
        VisibleConcat([s[i]], s[i + 1..]);
      }
    }
  }

  /** Whitespace on both sides of a text is invisible. */
  lemma VisibleBetweenSpaces(lead: string, kept: string, trail: string)
    requires forall k :: 0 <= k < |lead| ==> IsSpace(lead[k])
    requires forall k :: 0 <= k < |trail| ==> IsSpace(trail[k])
    ensures Visible(lead + kept + trail) == Visible(kept)
  {
    VisibleConcat(lead + kept, trail);
    VisibleConcat(lead, kept);
    VisibleSpaces(lead);
    VisibleSpaces(trail);
    assert [] + Visible(kept) + [] == Visible(kept);
  }

  /** strings.TrimSpace cuts whitespace only. */
  lemma TrimVisible(s: string)
    ensures Visible(TrimSpace(s)) == Visible(s)
  {
    var a, b := TrimStart(s), TrimEnd(s);
    var lead, kept, trail := s[..a], s[a..b], s[b..];
    TrimCutsSpaces(s);
    assert forall k :: 0 <= k < |lead| ==> IsSpace(lead[k]) by {
      forall k | 0 <= k < |lead| ensures IsSpace(lead[k]) {
        assert lead[k] == s[k];
      }
    }
    assert forall k :: 0 <= k < |trail| ==> IsSpace(trail[k]) by {
      forall k | 0 <= k < |trail| ensures IsSpace(trail[k]) {
        assert trail[k] == s[b + k];
      }
    }
    assert s == lead + kept + trail;
    VisibleBetweenSpaces(lead, kept, trail);
  }

  /** Trimming keeps a property of every pair of neighbouring chars. */
  lemma TrimNoDouble(s: string)
    requires Spacing.NoDoubleSpace(s)
    ensures Spacing.NoDoubleSpace(TrimSpace(s))
  {
    var a := TrimStart(s);
    var r := TrimSpace(s);
    forall k | 0 <= k < |r| - 1 ensures !(IsRegexSpace(r[k]) && IsRegexSpace(r[k + 1])) {
      assert r[k] == s[a + k] && r[k + 1] == s[a + k + 1];
    }
  }

  // ---------------------------------------------------------------- FixPunctuationGroups

  /** (\.\s*){2,}\.? from offset i: how many dots follow one another, each with the
      whitespace after it, and where that run ends. The \.? never adds a dot, since the
      run only stops where no dot follows. */
  function DotRun(s: string, i: nat): (r: (nat, nat))
    requires i <= |s|
    ensures i <= r.1 <= |s| && r.0 <= r.1 - i
    decreases |s| - i
  {
    if i < |s| && s[i] == '.' then
      var next := DotRun(s, RunEnd(s, i + 1, ReSpace));
      (next.0 + 1, next.1)
    else (0, i)
  }

  function DotsAt(s: string, i: nat): Option<Hit>
  {
    if i <= |s| && DotRun(s, i).0 >= 2 then Some(Hit(DotRun(s, i).1, "...")) else None
  }

  const Dots: Matcher := DotsAt

  /** A dot or a whitespace char: what a run of dots is made of. */
  predicate DotOrSpace(c: char)
  {
    c == '.' || IsRegexSpace(c)
  }

  /** The run read from a dot is the longest stretch of dots and whitespace there, and its
      count is the number of dots in it. */
  lemma {:induction false} DotRunIs(s: string, i: nat)
    requires i <= |s|
    ensures DotRun(s, i).0 == 0 <==> i == |s| || s[i] != '.'
    ensures DotRun(s, i).0 > 0 ==>
      var e := DotRun(s, i).1;
      (forall k :: i <= k < e ==> DotOrSpace(s[k]))
      && (e == |s| || !DotOrSpace(s[e]))
      && Count(s[i..e], '.') == DotRun(s, i).0
    decreases |s| - i
  {
    if i < |s| && s[i] == '.' {
      var a := RunEnd(s, i + 1, ReSpace);
      var e := DotRun(s, i).1;
      DotRunIs(s, a);
      RunEndAll(s, i + 1, ReSpace);
      CountSplit(s, i, a, e, '.');
      assert Count(s[i..a], '.') == 1 by {
        assert s[i..a] == [s[i]] + s[i + 1..a];
        CountConcat([s[i]], s[i + 1..a], '.');
        CountOne(s[i], '.');
        CountZero(s[i + 1..a], '.');
      }
      if DotRun(s, a).0 == 0 {
        assert e == a;
      }
    }
  }

  /** Two dots or more, with whitespace after any of them, become one ellipsis. */
  lemma DotsMeaning(s: string, i: nat)
    requires i < |s|
    ensures HitAt(Dots, s, i) <==> s[i] == '.' && DotRun(s, i).0 >= 2
    ensures HitAt(Dots, s, i) ==>
      var e := Dots(s, i).value.end;
      Dots(s, i).value.rep == "..."
      && (forall k :: i <= k < e ==> DotOrSpace(s[k]))
      && (e == |s| || !DotOrSpace(s[e]))
      && Count(s[i..e], '.') >= 2
  {
    DotRunIs(s, i);
  }

  /** a, any whitespace, then b: the shape of !\s*\? and \?\s*!, replaced by a and b alone. */
  function PairAt(a: char, b: char, s: string, i: nat): Option<Hit>
  {
    if i < |s| && s[i] == a && RunEnd(s, i + 1, ReSpace) < |s| && s[RunEnd(s, i + 1, ReSpace)] == b
    then Some(Hit(RunEnd(s, i + 1, ReSpace) + 1, [a, b]))
    else None
  }

  function Pair(a: char, b: char): Matcher
  {
    (s: string, i: nat) => PairAt(a, b, s, i)
  }

  /** A match of the pair is a, whitespace, b. */
  lemma PairMatch(a: char, b: char, s: string, i: nat)
    requires HitAt(Pair(a, b), s, i)
    ensures var e := Pair(a, b)(s, i).value.end;
            Pair(a, b)(s, i).value.rep == [a, b]
            && exists ws :: AllRegexSpace(ws) && s[i..e] == [a] + ws + [b]
  {
    var j := RunEnd(s, i + 1, ReSpace);
    RunEndAll(s, i + 1, ReSpace);
    var ws := s[i + 1..j];
    assert s[i..j + 1] == [a] + ws + [b];
  }

  /** a, whitespace and b are matched as the pair, whatever follows. */
  lemma PairFound(a: char, b: char, ws: string, rest: string)
    requires AllRegexSpace(ws) && !IsRegexSpace(b)
    ensures Pair(a, b)([a] + ws + [b] + rest, 0) == Some(Hit(|ws| + 2, [a, b]))
  {
    var s := [a] + ws + [b] + rest;
    assert forall k :: 0 <= k < |ws| ==> s[k + 1] == ws[k];
    RunEndUnique(s, 1, ReSpace, |ws| + 1);
  }

  /** FixPunctuationGroups */
  function FixPunctuationGroups(text: string): string
  {
    var dotted := ReplaceAll(text, Dots);
    var bangs := ReplaceAll(dotted, Pair('!', '?'));
    ReplaceAll(bangs, Pair('?', '!'))
  }

  // ---------------------------------------------------------------- FixGeneralPunctuation

  const SentenceMarks: set<char> := {',', '.', '!', '?', ':', ';'}
  const Stops: set<char> := {'.', '!', '?'}
  const CleanMarks: set<char> := {',', '.', '!', '?'}
  const Closers: set<char> := {'’', '"', '”'}

  /** \s+([marks]) replaced by the mark: a run of whitespace right before a mark goes. */
  function SpacesBeforeAt(marks: set<char>, s: string, i: nat): Option<Hit>
  {
    if i < |s| && IsRegexSpace(s[i]) && RunEnd(s, i, ReSpace) < |s| && s[RunEnd(s, i, ReSpace)] in marks
    then Some(Hit(RunEnd(s, i, ReSpace) + 1, [s[RunEnd(s, i, ReSpace)]]))
    else None
  }

  function SpacesBefore(marks: set<char>): Matcher
  {
    (s: string, i: nat) => SpacesBeforeAt(marks, s, i)
  }

  /** (\.\.\.)(\S) replaced by "$1 $2": a space after an ellipsis that a non-space follows. */
  function EllipsisGapAt(s: string, i: nat): Option<Hit>
  {
    if OccursAt(s, i, "...") && i + 3 < |s| && !IsRegexSpace(s[i + 3])
    then Some(Hit(i + 4, "... " + [s[i + 3]]))
    else None
  }

  const EllipsisGap: Matcher := EllipsisGapAt

  /** ([.!?])(\S) through the callback: a space goes between the stop and the next char unless
      that char is a stop too, in which case the match is kept as it is. */
  function StopGapAt(s: string, i: nat): Option<Hit>
  {
    if i + 1 < |s| && s[i] in Stops && !IsRegexSpace(s[i + 1])
    then Some(Hit(i + 2, if s[i + 1] in Stops then s[i..i + 2] else [s[i], ' ', s[i + 1]]))
    else None
  }

  const StopGap: Matcher := StopGapAt

  /** ([.!?])\s+$ replaced by "$1": whitespace after a final stop goes. */
  function TrailingAt(s: string, i: nat): Option<Hit>
  {
    if i + 1 < |s| && s[i] in Stops && RunEnd(s, i + 1, ReSpace) == |s|
    then Some(Hit(|s|, [s[i]]))
    else None
  }

  const Trailing: Matcher := TrailingAt

  /** FixGeneralPunctuation */
  function FixGeneralPunctuation(text: string): string
  {
    var tight := ReplaceAll(text, SpacesBefore(SentenceMarks));
    var dotted := ReplaceAll(tight, EllipsisGap);
    var spaced := ReplaceAll(dotted, StopGap);
    var ended := ReplaceAll(spaced, Trailing);
    TrimSpace(ended)
  }

  // ---------------------------------------------------------------- FixSpacing

  /** \s{2,} replaced by one space. */
  function DoubleSpaceAt(s: string, i: nat): Option<Hit>
  {
    if i < |s| && IsRegexSpace(s[i]) && RunEnd(s, i, ReSpace) >= i + 2 then Some(Hit(RunEnd(s, i, ReSpace), " ")) else None
  }

  const DoubleSpace: Matcher := DoubleSpaceAt

  /** FixSpacing */
  function FixSpacing(text: string): string
  {
    TrimSpace(ReplaceAll(text, DoubleSpace))
  }

  // ---------------------------------------------------------------- CleanFinalSpacing

  /** ([,.!?])\s+([closers]) replaced by "$1$2": no whitespace between a mark and a closing
      quote. */
  function MarkQuoteAt(s: string, i: nat): Option<Hit>
  {
    if i + 1 < |s| && s[i] in CleanMarks && RunEnd(s, i + 1, ReSpace) > i + 1
       && RunEnd(s, i + 1, ReSpace) < |s| && s[RunEnd(s, i + 1, ReSpace)] in Closers
    then Some(Hit(RunEnd(s, i + 1, ReSpace) + 1, [s[i], s[RunEnd(s, i + 1, ReSpace)]]))
    else None
  }

  const MarkQuote: Matcher := MarkQuoteAt

  /** ([,.!?])([^closers\s]) replaced by "$1 $2": a space after a mark before anything but
      whitespace or a closing quote, another mark included. */
  function MarkThenAt(s: string, i: nat): Option<Hit>
  {
    if i + 1 < |s| && s[i] in CleanMarks && s[i + 1] !in Closers && !IsRegexSpace(s[i + 1])
    then Some(Hit(i + 2, [s[i], ' ', s[i + 1]]))
    else None
  }

  const MarkThen: Matcher := MarkThenAt

  /** CleanFinalSpacing */
  function CleanFinalSpacing(text: string): string
  {
    var tight := ReplaceAll(text, SpacesBefore(CleanMarks));
    var closed := ReplaceAll(tight, SpacesBefore(Closers));
    var joined := ReplaceAll(closed, MarkQuote);
    var spaced := ReplaceAll(joined, MarkThen);
    TrimSpace(spaced)
  }

  /** FixPunctuation */
  function FixPunctuation(text: string): string
  {
    FixSpacing(FixGeneralPunctuation(FixPunctuationGroups(FixQuotes2(text))))
  }

  // ---------------------------------------------------------------- what the passes keep

  /** Whitespace put in or taken out between two texts does not show. */
  lemma VisibleGap(a: string, ws: string, b: string)
    requires forall k :: 0 <= k < |ws| ==> IsSpace(ws[k])
    ensures Visible(a + ws + b) == Visible(a + b)
  {
    VisibleConcat(a + ws, b);
    VisibleTrailing(a, ws);
    VisibleConcat(a, b);
  }

  /** Whitespace after a text does not show. */
  lemma VisibleTrailing(a: string, ws: string)
    requires forall k :: 0 <= k < |ws| ==> IsSpace(ws[k])
    ensures Visible(a + ws) == Visible(a)
  {
    VisibleConcat(a, ws);
    VisibleSpaces(ws);
    assert Visible(a) + [] == Visible(a);
  }

  /** Dropping the whitespace before a mark keeps the visible text. */
  lemma SpacesBeforeVisible(marks: set<char>, s: string)
    requires forall c :: c in marks ==> !IsSpace(c)
    ensures forall j :: 0 <= j < |s| && HitAt(SpacesBefore(marks), s, j) ==>
      Visible(SpacesBefore(marks)(s, j).value.rep) == Visible(s[j..SpacesBefore(marks)(s, j).value.end])
  {
    forall j | 0 <= j < |s| && HitAt(SpacesBefore(marks), s, j)
      ensures Visible(SpacesBefore(marks)(s, j).value.rep) == Visible(s[j..SpacesBefore(marks)(s, j).value.end])
    {
      var e := RunEnd(s, j, ReSpace);
      RunEndAll(s, j, ReSpace);
      assert forall k :: 0 <= k < |s[j..e]| ==> IsSpace(s[j..e][k]);
      assert s[j..e + 1] == [] + s[j..e] + [s[e]];
      VisibleGap([], s[j..e], [s[e]]);
      assert [] + [s[e]] == [s[e]];
    }
  }

  /** The space after an ellipsis does not show. */
  lemma EllipsisGapVisible(s: string)
    ensures forall j :: 0 <= j < |s| && HitAt(EllipsisGap, s, j) ==>
      Visible(EllipsisGap(s, j).value.rep) == Visible(s[j..EllipsisGap(s, j).value.end])
  {
    forall j | 0 <= j < |s| && HitAt(EllipsisGap, s, j)
      ensures Visible(EllipsisGap(s, j).value.rep) == Visible(s[j..EllipsisGap(s, j).value.end])
    {
      assert s[j..j + 4] == "..." + [s[j + 3]];
      assert "... " + [s[j + 3]] == "..." + " " + [s[j + 3]];
      VisibleGap("...", " ", [s[j + 3]]);
    }
  }

  /** The space after a stop does not show. */
  lemma StopGapVisible(s: string)
    ensures forall j :: 0 <= j < |s| && HitAt(StopGap, s, j) ==>
      Visible(StopGap(s, j).value.rep) == Visible(s[j..StopGap(s, j).value.end])
  {
    forall j | 0 <= j < |s| && HitAt(StopGap, s, j) && s[j + 1] !in Stops
      ensures Visible(StopGap(s, j).value.rep) == Visible(s[j..StopGap(s, j).value.end])
    {
      assert s[j..j + 2] == [s[j]] + [s[j + 1]];
      assert [s[j], ' ', s[j + 1]] == [s[j]] + " " + [s[j + 1]];
      VisibleGap([s[j]], " ", [s[j + 1]]);
    }
  }

  /** The whitespace after a final stop does not show. */
  lemma TrailingVisible(s: string)
    ensures forall j :: 0 <= j < |s| && HitAt(Trailing, s, j) ==>
      Visible(Trailing(s, j).value.rep) == Visible(s[j..Trailing(s, j).value.end])
  {
    forall j | 0 <= j < |s| && HitAt(Trailing, s, j)
      ensures Visible(Trailing(s, j).value.rep) == Visible(s[j..Trailing(s, j).value.end])
    {
      RunEndAll(s, j + 1, ReSpace);
      var ws := s[j + 1..];
      assert forall k :: 0 <= k < |ws| ==> IsSpace(ws[k]);
      assert s[j..|s|] == [s[j]] + ws + [];
      VisibleGap([s[j]], ws, []);
      assert [s[j]] + [] == [s[j]];
    }
  }

  /** A run of whitespace made one space does not show. */
  lemma DoubleSpaceVisible(s: string)
    ensures forall j :: 0 <= j < |s| && HitAt(DoubleSpace, s, j) ==>
      Visible(DoubleSpace(s, j).value.rep) == Visible(s[j..DoubleSpace(s, j).value.end])
  {
    forall j | 0 <= j < |s| && HitAt(DoubleSpace, s, j)
      ensures Visible(DoubleSpace(s, j).value.rep) == Visible(s[j..DoubleSpace(s, j).value.end])
    {
      RunEndAll(s, j, ReSpace);
      var ws := s[j..RunEnd(s, j, ReSpace)];
      assert forall k :: 0 <= k < |ws| ==> IsSpace(ws[k]);
      VisibleSpaces(ws);
      VisibleSpaces(" ");
    }
  }

  /** The whitespace between a mark and a closing quote does not show. */
  lemma MarkQuoteVisible(s: string)
    ensures forall j :: 0 <= j < |s| && HitAt(MarkQuote, s, j) ==>
      Visible(MarkQuote(s, j).value.rep) == Visible(s[j..MarkQuote(s, j).value.end])
  {
    forall j | 0 <= j < |s| && HitAt(MarkQuote, s, j)
      ensures Visible(MarkQuote(s, j).value.rep) == Visible(s[j..MarkQuote(s, j).value.end])
    {
      var e := RunEnd(s, j + 1, ReSpace);
      RunEndAll(s, j + 1, ReSpace);
      var ws := s[j + 1..e];
      assert forall k :: 0 <= k < |ws| ==> IsSpace(ws[k]);
      assert s[j..e + 1] == [s[j]] + ws + [s[e]];
      VisibleGap([s[j]], ws, [s[e]]);
      assert [s[j]] + [s[e]] == [s[j], s[e]];
    }
  }

  /** The space after a mark does not show. */
  lemma MarkThenVisible(s: string)
    ensures forall j :: 0 <= j < |s| && HitAt(MarkThen, s, j) ==>
      Visible(MarkThen(s, j).value.rep) == Visible(s[j..MarkThen(s, j).value.end])
  {
    forall j | 0 <= j < |s| && HitAt(MarkThen, s, j)
      ensures Visible(MarkThen(s, j).value.rep) == Visible(s[j..MarkThen(s, j).value.end])
    {
      assert s[j..j + 2] == [s[j]] + [s[j + 1]];
      assert [s[j], ' ', s[j + 1]] == [s[j]] + " " + [s[j + 1]];
      VisibleGap([s[j]], " ", [s[j + 1]]);
    }
  }

  /** One replacement pass whose matches all keep the visible text. */
  lemma PassVisible(s: string, m: Matcher)
    requires forall j :: 0 <= j < |s| && HitAt(m, s, j) ==> Visible(m(s, j).value.rep) == Visible(s[j..m(s, j).value.end])
    ensures Visible(ReplaceAll(s, m)) == Visible(s)
  {
    ReplaceVisible(s, 0, m);
  }

  // ---------------------------------------------------------------- what the passes leave out

  /** No whitespace char, as \s matches it, stands right before a char of marks. */
  predicate NoSpaceBefore(t: string, marks: set<char>)
  {
    forall k :: 0 <= k < |t| - 1 ==> !(IsRegexSpace(t[k]) && t[k + 1] in marks)
  }

  /** r, the text from offset j on with the whitespace before marks taken out: no whitespace
      before a mark, and it starts with a mark only where the run of whitespace at j ends in
      one. */
  predicate TightFrom(marks: set<char>, s: string, j: nat, r: string)
    requires j <= |s|
  {
    NoSpaceBefore(r, marks)
    && (|r| > 0 && r[0] in marks ==> RunEnd(s, j, ReSpace) < |s| && s[RunEnd(s, j, ReSpace)] in marks)
  }

  lemma {:induction false} TightFromAll(marks: set<char>, s: string, j: nat)
    requires forall c :: c in marks ==> !IsRegexSpace(c)
    requires j <= |s|
    ensures TightFrom(marks, s, j, ReplaceFrom(s, j, SpacesBefore(marks)))
    decreases |s| - j
  {
    var m := SpacesBefore(marks);
    if j < |s| {
      if HitAt(m, s, j) {
        var e := m(s, j).value.end;
        TightFromAll(marks, s, e);
        var b := ReplaceFrom(s, e, m);
        var r := [s[e - 1]] + b;
        assert forall k :: 0 <= k < |b| ==> r[k + 1] == b[k];
      } else {
        TightFromAll(marks, s, j + 1);
        var b := ReplaceFrom(s, j + 1, m);
        var r := [s[j]] + b;
        assert forall k :: 0 <= k < |b| ==> r[k + 1] == b[k];
        if IsRegexSpace(s[j]) {
          assert RunEnd(s, j, ReSpace) == RunEnd(s, j + 1, ReSpace);
        }
      }
    }
  }

  /** \s+([marks]) replaced by the mark leaves no whitespace before a mark, and shows the
      same text. */
  lemma SpacesBeforeTight(marks: set<char>, s: string)
    requires forall c :: c in marks ==> !IsSpace(c)
    ensures NoSpaceBefore(ReplaceAll(s, SpacesBefore(marks)), marks)
    ensures Visible(ReplaceAll(s, SpacesBefore(marks))) == Visible(s)
  {
    TightFromAll(marks, s, 0);
    SpacesBeforeVisible(marks, s);
    PassVisible(s, SpacesBefore(marks));
  }

  /** r, the text from offset j on with each run of two or more whitespace chars made one
      space: no two whitespace chars in a row, and it starts with one only where s does. */
  predicate SingleFrom(s: string, j: nat, r: string)
    requires j <= |s|
  {
    Spacing.NoDoubleSpace(r)
    && (|r| > 0 && IsRegexSpace(r[0]) ==> j < |s| && IsRegexSpace(s[j]))
  }

  lemma {:induction false} SingleFromAll(s: string, j: nat)
    requires j <= |s|
    ensures SingleFrom(s, j, ReplaceFrom(s, j, DoubleSpace))
    decreases |s| - j
  {
    if j < |s| {
      if HitAt(DoubleSpace, s, j) {
        var e := DoubleSpace(s, j).value.end;
        SingleFromAll(s, e);
        var b := ReplaceFrom(s, e, DoubleSpace);
        var r := " " + b;
        assert forall k :: 0 <= k < |b| ==> r[k + 1] == b[k];
      } else {
        SingleFromAll(s, j + 1);
        var b := ReplaceFrom(s, j + 1, DoubleSpace);
        var r := [s[j]] + b;
        assert forall k :: 0 <= k < |b| ==> r[k + 1] == b[k];
      }
    }
  }

  /** strings.TrimSpace of a trimmed text is the text. */
  lemma TrimTrimmed(s: string)
    requires s == [] || (!IsSpace(s[0]) && !IsSpace(s[|s| - 1]))
    ensures TrimSpace(s) == s
  {
    if s != [] {
      assert TrimStart(s) == 0;
      assert RunStart(s, |s|, Space) == |s|;
    }
  }

  /** FixSpacing leaves no two whitespace chars in a row and no whitespace at either end, and
      shows the same text; a second run changes nothing. */
  lemma FixSpacingShape(text: string)
    ensures Spacing.NoDoubleSpace(FixSpacing(text))
    ensures FixSpacing(text) == [] || (!IsSpace(FixSpacing(text)[0]) && !IsSpace(FixSpacing(text)[|FixSpacing(text)| - 1]))
    ensures Visible(FixSpacing(text)) == Visible(text)
  {
    SingleFromAll(text, 0);
    TrimNoDouble(ReplaceAll(text, DoubleSpace));
    DoubleSpaceVisible(text);
    PassVisible(text, DoubleSpace);
    TrimVisible(ReplaceAll(text, DoubleSpace));
  }

  /** FixSpacing is idempotent. */
  lemma FixSpacingIdempotent(text: string)
    ensures FixSpacing(FixSpacing(text)) == FixSpacing(text)
  {
    var t := FixSpacing(text);
    FixSpacingShape(text);
    assert !HasHitFrom(DoubleSpace, t, 0) by {
      forall k | 0 <= k < |t| ensures !HitAt(DoubleSpace, t, k) {
        RunEndAll(t, k, ReSpace);
        if k + 1 < |t| {
          assert !(IsRegexSpace(t[k]) && IsRegexSpace(t[k + 1]));
        }
      }
    }
    NoHitIdentity(t, 0, DoubleSpace);
    TrimTrimmed(t);
  }

  /** FixGeneralPunctuation only moves whitespace: it shows the same text, and its first
      step leaves no whitespace before a sentence mark. */
  lemma FixGeneralPunctuationShape(text: string)
    ensures Visible(FixGeneralPunctuation(text)) == Visible(text)
    ensures NoSpaceBefore(ReplaceAll(text, SpacesBefore(SentenceMarks)), SentenceMarks)
  {
    var tight := ReplaceAll(text, SpacesBefore(SentenceMarks));
    var dotted := ReplaceAll(tight, EllipsisGap);
    var spaced := ReplaceAll(dotted, StopGap);
    var ended := ReplaceAll(spaced, Trailing);
    SpacesBeforeTight(SentenceMarks, text);
    EllipsisGapVisible(tight);
    PassVisible(tight, EllipsisGap);
    StopGapVisible(dotted);
    PassVisible(dotted, StopGap);
    TrailingVisible(spaced);
    PassVisible(spaced, Trailing);
    TrimVisible(ended);
  }

  /** CleanFinalSpacing only moves whitespace: it shows the same text, and its first step
      leaves no whitespace before a comma, dot, exclamation or question mark. */
  lemma CleanFinalSpacingShape(text: string)
    ensures Visible(CleanFinalSpacing(text)) == Visible(text)
    ensures NoSpaceBefore(ReplaceAll(text, SpacesBefore(CleanMarks)), CleanMarks)
  {
    var tight := ReplaceAll(text, SpacesBefore(CleanMarks));
    var closed := ReplaceAll(tight, SpacesBefore(Closers));
    var joined := ReplaceAll(closed, MarkQuote);
    var spaced := ReplaceAll(joined, MarkThen);
    SpacesBeforeTight(CleanMarks, text);
    SpacesBeforeTight(Closers, tight);
    MarkQuoteVisible(closed);
    PassVisible(closed, MarkQuote);
    MarkThenVisible(joined);
    PassVisible(joined, MarkThen);
    TrimVisible(spaced);
  }

  /** FixPunctuation: after the quote and group rewrites only whitespace moves, and the
      result has no whitespace at either end and no two whitespace chars in a row. */
  lemma FixPunctuationShape(text: string)
    ensures var grouped := FixPunctuationGroups(FixQuotes2(text));
      Visible(FixPunctuation(text)) == Visible(grouped)
    ensures Spacing.NoDoubleSpace(FixPunctuation(text))
    ensures FixPunctuation(text) == [] || (!IsSpace(FixPunctuation(text)[0]) && !IsSpace(FixPunctuation(text)[|FixPunctuation(text)| - 1]))
  {
    var grouped := FixPunctuationGroups(FixQuotes2(text));
    FixGeneralPunctuationShape(grouped);
    FixSpacingShape(FixGeneralPunctuation(grouped));
  }

  /** A pair match a, whitespace, b holds as many of any visible char as its replacement a, b. */
  lemma PairKeeps(a: char, b: char, s: string, c: char)
    requires !IsRegexSpace(c)
    ensures forall j :: 0 <= j < |s| && HitAt(Pair(a, b), s, j) ==>
      Count(Pair(a, b)(s, j).value.rep, c) == Count(s[j..Pair(a, b)(s, j).value.end], c)
  {
    forall j | 0 <= j < |s| && HitAt(Pair(a, b), s, j)
      ensures Count(Pair(a, b)(s, j).value.rep, c) == Count(s[j..Pair(a, b)(s, j).value.end], c)
    {
      var e := RunEnd(s, j + 1, ReSpace);
      RunEndAll(s, j + 1, ReSpace);
      var ws := s[j + 1..e];
      assert c !in ws;
      CountZero(ws, c);
      assert s[j..e + 1] == [a] + ws + [b];
      CountSum([a], [b], [a] + ws, [b], c);
      CountConcat([a], ws, c);
      assert [a, b] == [a] + [b];
    }
  }

  /** A run of dots holds no char but dots and whitespace, and neither does "...". */
  lemma DotsKeep(s: string, c: char)
    requires c != '.' && !IsRegexSpace(c)
    ensures forall j :: 0 <= j < |s| && HitAt(Dots, s, j) ==>
      Count(Dots(s, j).value.rep, c) == Count(s[j..Dots(s, j).value.end], c)
  {
    forall j | 0 <= j < |s| && HitAt(Dots, s, j)
      ensures Count(Dots(s, j).value.rep, c) == Count(s[j..Dots(s, j).value.end], c)
    {
      DotsMeaning(s, j);
      var e := Dots(s, j).value.end;
      assert c !in s[j..e];
      CountZero(s[j..e], c);
      CountZero("...", c);
    }
  }

  /** FixPunctuationGroups changes only dots and whitespace: every other char occurs as often
      in its result. */
  lemma FixPunctuationGroupsKeeps(text: string, c: char)
    requires c != '.' && !IsRegexSpace(c)
    ensures Count(FixPunctuationGroups(text), c) == Count(text, c)
  {
    var dotted := ReplaceAll(text, Dots);
    var bangs := ReplaceAll(dotted, Pair('!', '?'));
    DotsKeep(text, c);
    CountKept(text, 0, Dots, c);
    PairKeeps('!', '?', dotted, c);
    CountKept(dotted, 0, Pair('!', '?'), c);
    PairKeeps('?', '!', bangs, c);
    CountKept(bangs, 0, Pair('?', '!'), c);
  }
}
