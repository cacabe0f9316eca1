/** formatPunctuation and handleConsecutivePunctuation of processor/transformations.go: on
    each line, the whitespace before a run of sentence punctuation is dropped, the whitespace
    after it becomes one space when a word char follows and nothing otherwise, runs of three or
    more dots become "...", punctuation, whitespace and punctuation are joined, and leading
    spaces are cut. */
module Punctuation {

  import opened Wrappers
  import opened Text
  import opened Rewrite
  import opened Quotes
  import opened Spacing

  /** The regular expression \s*([.,!?:;]+)(\s*)(\w?) at offset i with the callback of
      formatPunctuation: the punctuation run, then one space and the word char when one
      follows the whitespace. */
  function PunctSpacingAt(s: string, i: nat): (r: Option<Hit>)
  {
    if i <= |s| then
      var s1 := RunEnd(s, i, ReSpace);
      var p := RunEnd(s, s1, Punct);
      var s2 := RunEnd(s, p, ReSpace);
      if p == s1 then None
      else if s2 < |s| && IsWord(s[s2]) then Some(Hit(s2 + 1, s[s1..p] + " " + [s[s2]]))
      else Some(Hit(s2, s[s1..p]))
    else None
  }

  function PunctSpacing(): Matcher
  {
    (s: string, i: nat) => PunctSpacingAt(s, i)
  }

  /** The regular expression \s*\.{3,} replaced by "...". */
  function EllipsisAt(s: string, i: nat): (r: Option<Hit>)
  {
    if i <= |s| then
      var s1 := RunEnd(s, i, ReSpace);
      var d := RunEnd(s, s1, Only('.'));
      if d - s1 >= 3 then Some(Hit(d, "...")) else None
    else None
  }

  function Ellipsis(): Matcher
  {
    (s: string, i: nat) => EllipsisAt(s, i)
  }

  /** The regular expression ([.,!?:;])\s+([.,!?:;]) replaced by "$1$2". */
  function PunctGapAt(s: string, i: nat): (r: Option<Hit>)
  {
    if i < |s| && IsPunct(s[i]) then
      var e := RunEnd(s, i + 1, ReSpace);
      if e > i + 1 && e < |s| && IsPunct(s[e]) then Some(Hit(e + 1, [s[i], s[e]])) else None
    else None
  }

  function PunctGap(): Matcher
  {
    (s: string, i: nat) => PunctGapAt(s, i)
  }

  lemma PunctGapShrinks(s: string)
    ensures forall j :: 0 <= j < |s| && HitAt(PunctGap(), s, j) ==> |PunctGap()(s, j).value.rep| < PunctGap()(s, j).value.end - j
  {
  }

  /** The loop of handleConsecutivePunctuation: the pass repeated until nothing changes. */
  function PunctJoined(text: string): string
    decreases |text|
  {
    PunctGapShrinks(text);
    ShrinkingFixpoint(text, PunctGap());
    var next := ReplaceAll(text, PunctGap());
    if next == text then text else PunctJoined(next)
  }

  /** handleConsecutivePunctuation */
  method HandleConsecutivePunctuation(text: string) returns (r: string)
    ensures r == PunctJoined(text)
  {
    r := text;
    while true
      invariant PunctJoined(r) == PunctJoined(text)
      decreases |r|
    {
      var next := ReplaceAll(r, PunctGap());
      if next == r {
        break;
      }
      PunctGapShrinks(r);
      ShrinkingFixpoint(r, PunctGap());
      r := next;
    }
  }

  /** handleConsecutivePunctuation leaves no punctuation, whitespace and punctuation. */
  lemma {:induction false} PunctJoinedStable(text: string)
    ensures !HasHitFrom(PunctGap(), PunctJoined(text), 0)
    decreases |text|
  {
    PunctGapShrinks(text);
    ShrinkingFixpoint(text, PunctGap());
    var next := ReplaceAll(text, PunctGap());
    if next != text {
      PunctJoinedStable(next);
    }
  }

  /** One pass of handleConsecutivePunctuation keeps every char that is not whitespace. */
  lemma PunctGapKeeps(text: string, c: char)
    requires !IsRegexSpace(c)
    ensures Count(ReplaceAll(text, PunctGap()), c) == Count(text, c)
  {
    forall j | 0 <= j < |text| && HitAt(PunctGap(), text, j)
      ensures Count(PunctGap()(text, j).value.rep, c) == Count(text[j..PunctGap()(text, j).value.end], c)
    {
      var e := RunEnd(text, j + 1, ReSpace);
      RunEndAll(text, j + 1, ReSpace);
      assert c !in text[j + 1..e];
      CountZero(text[j + 1..e], c);
      assert text[j..e + 1] == [text[j]] + text[j + 1..e] + [text[e]];
      CountConcat([text[j]] + text[j + 1..e], [text[e]], c);
      CountConcat([text[j]], text[j + 1..e], c);
      CountConcat([text[j]], [text[e]], c);
      assert [text[j], text[e]] == [text[j]] + [text[e]];
    }
    CountKept(text, 0, PunctGap(), c);
  }

  /** handleConsecutivePunctuation keeps every char that is not whitespace. */
  lemma {:induction false} PunctJoinedKeeps(text: string, c: char)
    requires !IsRegexSpace(c)
    ensures Count(PunctJoined(text), c) == Count(text, c)
    decreases |text|
  {
    PunctGapShrinks(text);
    ShrinkingFixpoint(text, PunctGap());
    var next := ReplaceAll(text, PunctGap());
    if next != text {
      PunctGapKeeps(text, c);
      PunctJoinedKeeps(next, c);
    }
  }

  /** No whitespace char stands right before a punctuation char. */
  predicate NoSpaceBeforePunct(t: string)
  {
    forall k :: 0 <= k < |t| - 1 ==> !(IsRegexSpace(t[k]) && IsPunct(t[k + 1]))
  }

  /** A pattern that starts with \s* matches at a whitespace char exactly when it matches
      just after it. */
  lemma SpaceStep(s: string, j: nat)
    requires j < |s| && IsRegexSpace(s[j])
    ensures RunEnd(s, j, ReSpace) == RunEnd(s, j + 1, ReSpace)
    ensures PunctSpacingAt(s, j).Some? <==> PunctSpacingAt(s, j + 1).Some?
    ensures EllipsisAt(s, j).Some? <==> EllipsisAt(s, j + 1).Some?
  {
  }

  /** r, the output of the punctuation pass from offset j on, has no whitespace before
      punctuation, and starts with punctuation only where a match starts. */
  predicate SpacedFrom(s: string, j: nat, r: string)
  {
    NoSpaceBeforePunct(r) && (|r| > 0 && IsPunct(r[0]) ==> j < |s| && HitAt(PunctSpacing(), s, j))
  }

  lemma SpacedHit(s: string, j: nat, b: string)
    requires j < |s| && HitAt(PunctSpacing(), s, j)
    requires NoSpaceBeforePunct(b)
    ensures SpacedFrom(s, j, PunctSpacing()(s, j).value.rep + b)
  {
    var s1 := RunEnd(s, j, ReSpace);
    var p := RunEnd(s, s1, Punct);
    var s2 := RunEnd(s, p, ReSpace);
    RunEndAll(s, s1, Punct);
    var rep := PunctSpacing()(s, j).value.rep;
    var t := rep + b;
    assert forall k :: 0 <= k < p - s1 ==> IsPunct(rep[k]);
    assert !IsRegexSpace(rep[|rep| - 1]);
    forall k | 0 <= k < |t| - 1
      ensures !(IsRegexSpace(t[k]) && IsPunct(t[k + 1]))
    {
      if k + 1 < |rep| {
        assert t[k] == rep[k] && t[k + 1] == rep[k + 1];
      } else if k + 1 == |rep| {
        assert t[k] == rep[|rep| - 1];
      } else {
        assert t[k] == b[k - |rep|] && t[k + 1] == b[k + 1 - |rep|];
      }
    }
  }

  lemma SpacedCopy(s: string, j: nat, b: string)
    requires j < |s| && !HitAt(PunctSpacing(), s, j)
    requires SpacedFrom(s, j + 1, b)
    ensures SpacedFrom(s, j, [s[j]] + b)
  {
    var t := [s[j]] + b;
    assert forall k :: 0 <= k < |b| ==> t[k + 1] == b[k];
    if IsPunct(s[j]) {
      assert RunEnd(s, j, ReSpace) == j;
      assert RunEnd(s, j, Punct) > j;
      assert false;
    }
    if IsRegexSpace(s[j]) {
      SpaceStep(s, j);
    }
  }

  lemma {:induction false} SpacedFromAll(s: string, j: nat)
    requires j <= |s|
    ensures SpacedFrom(s, j, ReplaceFrom(s, j, PunctSpacing()))
    decreases |s| - j
  {
    var m := PunctSpacing();
    if j < |s| {
      if HitAt(m, s, j) {
        SpacedFromAll(s, m(s, j).value.end);
        SpacedHit(s, j, ReplaceFrom(s, m(s, j).value.end, m));
      } else {
        SpacedFromAll(s, j + 1);
        SpacedCopy(s, j, ReplaceFrom(s, j + 1, m));
      }
    }
  }

  /** The punctuation pass leaves no whitespace before punctuation. */
  lemma PunctSpacingClean(line: string)
    ensures NoSpaceBeforePunct(ReplaceAll(line, PunctSpacing()))
  {
    SpacedFromAll(line, 0);
  }

  /** r, the output of the ellipsis pass from offset j on, has no whitespace before
      punctuation, and starts with punctuation only where s does or a match starts. */
  predicate DottedFrom(s: string, j: nat, r: string)
  {
    NoSpaceBeforePunct(r) && (|r| > 0 && IsPunct(r[0]) ==> j < |s| && (IsPunct(s[j]) || HitAt(Ellipsis(), s, j)))
  }

  lemma DottedHit(s: string, j: nat, b: string)
    requires j < |s| && HitAt(Ellipsis(), s, j)
    requires NoSpaceBeforePunct(b)
    ensures DottedFrom(s, j, "..." + b)
  {
    var t := "..." + b;
    forall k | 0 <= k < |t| - 1
      ensures !(IsRegexSpace(t[k]) && IsPunct(t[k + 1]))
    {
      if k >= 3 {
        assert t[k] == b[k - 3] && t[k + 1] == b[k - 2];
      }
    }
  }

  lemma DottedCopy(s: string, j: nat, b: string)
    requires NoSpaceBeforePunct(s)
    requires j < |s| && !HitAt(Ellipsis(), s, j)
    requires DottedFrom(s, j + 1, b)
    ensures DottedFrom(s, j, [s[j]] + b)
  {
    var t := [s[j]] + b;
    assert forall k :: 0 <= k < |b| ==> t[k + 1] == b[k];
    if IsRegexSpace(s[j]) {
      SpaceStep(s, j);
    }
  }

  lemma {:induction false} DottedFromAll(s: string, j: nat)
    requires j <= |s| && NoSpaceBeforePunct(s)
    ensures DottedFrom(s, j, ReplaceFrom(s, j, Ellipsis()))
    decreases |s| - j
  {
    var m := Ellipsis();
    if j < |s| {
      if HitAt(m, s, j) {
        DottedFromAll(s, m(s, j).value.end);
        DottedHit(s, j, ReplaceFrom(s, m(s, j).value.end, m));
      } else {
        DottedFromAll(s, j + 1);
        DottedCopy(s, j, ReplaceFrom(s, j + 1, m));
      }
    }
  }

  /** The ellipsis pass brings in no whitespace before punctuation. */
  lemma EllipsisClean(line: string)
    requires NoSpaceBeforePunct(line)
    ensures NoSpaceBeforePunct(ReplaceAll(line, Ellipsis()))
  {
    DottedFromAll(line, 0);
  }

  lemma NoGapAt(line: string, j: nat)
    requires NoSpaceBeforePunct(line)
    ensures !HitAt(PunctGap(), line, j)
  {
    if j < |line| && IsPunct(line[j]) {
      var e := RunEnd(line, j + 1, ReSpace);
      if e > j + 1 && e < |line| {
        RunEndAll(line, j + 1, ReSpace);
        assert IsRegexSpace(line[e - 1]);
        assert !IsPunct(line[e]);
      }
    }
  }

  /** With no whitespace before punctuation, handleConsecutivePunctuation finds nothing to join. */
  lemma ConsecutivePunctuationIdle(line: string)
    requires NoSpaceBeforePunct(line)
    ensures PunctJoined(line) == line
  {
    forall j | 0 <= j < |line|
      ensures !HitAt(PunctGap(), line, j)
    {
      NoGapAt(line, j);
    }
    PunctGapShrinks(line);
    ShrinkingFixpoint(line, PunctGap());
  }

  /** A line after the spacing and ellipsis passes of formatPunctuation. */
  function Dotted(line: string): string
  {
    ReplaceAll(ReplaceAll(SpacesNormalized(line), PunctSpacing()), Ellipsis())
  }

  /** What formatPunctuation makes of one line. */
  function PunctLine(line: string): string
  {
    TrimLeftChar(PunctJoined(Dotted(line)), ' ')
  }

  /** formatPunctuation */
  function PunctuationFormatted(text: string): string
  {
    MapLines(text, PunctLine)
  }

  /** The body of the line loop of formatPunctuation. */
  method FormatPunctuationLine(line: string) returns (r: string)
    ensures r == PunctLine(line)
  {
    r := NormalizeSpaces(line);
    r := ReplaceAll(r, PunctSpacing());
    r := ReplaceAll(r, Ellipsis());
    r := HandleConsecutivePunctuation(r);
    r := TrimLeftChar(r, ' ');
  }

  method FormatPunctuation(text: string) returns (r: string)
    ensures r == PunctuationFormatted(text)
  {
    var lines := Lines(text);
    ghost var orig := lines;
    for i := 0 to |lines|
      invariant |lines| == |orig|
      invariant forall k :: 0 <= k < i ==> lines[k] == PunctLine(orig[k])
      invariant forall k :: i <= k < |lines| ==> lines[k] == orig[k]
    {
      var line := FormatPunctuationLine(lines[i]);
      lines := lines[i := line];
    }
    assert lines == ApplyAll(PunctLine, orig);
    r := Join(lines, "\n");
  }

  /** After the spacing and ellipsis passes no whitespace comes before punctuation, so the
      joining pass that follows finds nothing to do. */
  lemma DottedClean(line: string)
    ensures NoSpaceBeforePunct(Dotted(line))
    ensures PunctJoined(Dotted(line)) == Dotted(line)
  {
    var spaced := ReplaceAll(SpacesNormalized(line), PunctSpacing());
    PunctSpacingClean(SpacesNormalized(line));
    EllipsisClean(spaced);
    ConsecutivePunctuationIdle(Dotted(line));
  }

  /** Dropping leading spaces keeps a line free of whitespace before punctuation. */
  lemma TrimLeftClean(t: string)
    requires NoSpaceBeforePunct(t)
    ensures NoSpaceBeforePunct(TrimLeftChar(t, ' '))
  {
    var r := TrimLeftChar(t, ' ');
    forall k | 0 <= k < |r| - 1
      ensures !(IsRegexSpace(r[k]) && IsPunct(r[k + 1]))
    {
      assert r[k] == t[|t| - |r| + k] && r[k + 1] == t[|t| - |r| + k + 1];
    }
  }

  /** A line as formatPunctuation leaves it: no whitespace before punctuation, no leading space. */
  predicate CleanLine(l: string)
  {
    NoSpaceBeforePunct(l) && !HasPrefix(l, " ")
  }

  lemma PunctLineClean(line: string)
    ensures CleanLine(PunctLine(line))
  {
    DottedClean(line);
    TrimLeftClean(Dotted(line));
    NoLeadingSpace(PunctJoined(Dotted(line)));
  }

  lemma NoLeadingSpace(t: string)
    ensures !HasPrefix(TrimLeftChar(t, ' '), " ")
  {
    var r := TrimLeftChar(t, ' ');
    if |r| >= 1 {
      assert r[..1][0] == r[0] != " "[0];
    }
  }

  /** The spacing and ellipsis passes bring in no newline. */
  lemma DottedNoNewline(line: string)
    requires '\n' !in line
    ensures '\n' !in Dotted(line)
  {
    FormatQuotesLines(line);
    CountZero(line, '\n');
    CountZero(QuotesFormatted(line), '\n');
    FormatParenthesesNoNewline(QuotesFormatted(line));
    NormalizedLines(line);
    CountZero(FormatParentheses(QuotesFormatted(line)), '\n');
    CountZero(SpacesNormalized(line), '\n');
    var spaced := ReplaceAll(SpacesNormalized(line), PunctSpacing());
    forall j | 0 <= j < |SpacesNormalized(line)| && HitAt(PunctSpacing(), SpacesNormalized(line), j)
      ensures '\n' !in PunctSpacing()(SpacesNormalized(line), j).value.rep
    {
    }
    CharStaysAbsent(SpacesNormalized(line), 0, PunctSpacing(), '\n');
    CharStaysAbsent(spaced, 0, Ellipsis(), '\n');
  }

  /** No pass of formatPunctuation brings in a newline. */
  lemma PunctLineNoNewline(line: string)
    requires '\n' !in line
    ensures '\n' !in PunctLine(line)
  {
    DottedNoNewline(line);
    DottedClean(line);
  }

  lemma PunctLinesNoNewline()
    ensures forall l: string :: '\n' !in l ==> '\n' !in PunctLine(l)
  {
    forall l: string | '\n' !in l
      ensures '\n' !in PunctLine(l)
    {
      PunctLineNoNewline(l);
    }
  }

  /** formatPunctuation works line by line: line k of the output is line k of the input
      formatted, and the newlines are kept. */
  lemma FormatPunctuationLines(text: string)
    ensures Lines(PunctuationFormatted(text)) == ApplyAll(PunctLine, Lines(text))
    ensures Count(PunctuationFormatted(text), '\n') == Count(text, '\n')
  {
    PunctLinesNoNewline();
    MapLinesLines(text, PunctLine);
  }

  /** Every line formatPunctuation puts out has no whitespace before punctuation and no
      leading space. */
  lemma FormatPunctuationClean(text: string)
    ensures forall l :: l in Lines(PunctuationFormatted(text)) ==> CleanLine(l)
  {
    FormatPunctuationLines(text);
    var ls := Lines(text);
    forall l | l in Lines(PunctuationFormatted(text))
      ensures CleanLine(l)
    {
      var k :| 0 <= k < |ls| && l == ApplyAll(PunctLine, ls)[k];
      PunctLineClean(ls[k]);
    }
  }
}
