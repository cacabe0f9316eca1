/** The spacing passes of processor/transformations.go: formatParentheses tidies the inside of
    each innermost pair of parentheses, and normalizeSpaces closes the gap between two words
    to one space, line by line, until nothing changes. */
module Spacing {

  import opened Wrappers
  import opened Text
  import opened Rewrite
  import opened Quotes

  /** The regular expression \s+ replaced by one space. */
  function WhiteRunAt(s: string, i: nat): (r: Option<Hit>)
  {
    if i < |s| && IsRegexSpace(s[i]) then Some(Hit(RunEnd(s, i, ReSpace), " ")) else None
  }

  function WhiteRun(): Matcher
  {
    (s: string, i: nat) => WhiteRunAt(s, i)
  }

  /** regexp.MustCompile(`\s+`).ReplaceAllString(t, " ") */
  function Squeeze(t: string): string
  {
    ReplaceAll(t, WhiteRun())
  }

  /** No two whitespace chars in a row. */
  predicate NoDoubleSpace(t: string)
  {
    forall k :: 0 <= k < |t| - 1 ==> !(IsRegexSpace(t[k]) && IsRegexSpace(t[k + 1]))
  }

  /** r, the squeezed text of s from offset j on: no two spaces in a row, and its first and
      last chars are those of s unless they are whitespace. */
  predicate SqueezedFrom(s: string, j: nat, r: string)
    requires j <= |s|
  {
    NoDoubleSpace(r)
    && (|r| == 0 <==> j == |s|)
    && (j < |s| && !IsRegexSpace(s[j]) ==> r[0] == s[j])
    && (|r| > 0 && IsRegexSpace(r[0]) ==> IsRegexSpace(s[j]))
    && (j < |s| && !IsRegexSpace(s[|s| - 1]) ==> r[|r| - 1] == s[|s| - 1])
  }

  lemma SqueezeHit(s: string, j: nat, b: string)
    requires j < |s| && IsRegexSpace(s[j])
    requires SqueezedFrom(s, RunEnd(s, j, ReSpace), b)
    ensures SqueezedFrom(s, j, " " + b)
  {
    var e := RunEnd(s, j, ReSpace);
    RunEndAll(s, j, ReSpace);
    var r := " " + b;
    assert forall k :: 0 <= k < |b| ==> r[k + 1] == b[k];
    if e == |s| {
      assert IsRegexSpace(s[|s| - 1]);
    }
  }

  lemma SqueezeCopy(s: string, j: nat, b: string)
    requires j < |s| && !IsRegexSpace(s[j])
    requires SqueezedFrom(s, j + 1, b)
    ensures SqueezedFrom(s, j, [s[j]] + b)
  {
    var r := [s[j]] + b;
    assert forall k :: 0 <= k < |b| ==> r[k + 1] == b[k];
  }

  lemma {:induction false} SqueezeFrom(s: string, j: nat)
    requires j <= |s|
    ensures SqueezedFrom(s, j, ReplaceFrom(s, j, WhiteRun()))
    decreases |s| - j
  {
    if j < |s| {
      if IsRegexSpace(s[j]) {
        var e := RunEnd(s, j, ReSpace);
        SqueezeFrom(s, e);
        SqueezeHit(s, j, ReplaceFrom(s, e, WhiteRun()));
      } else {
        SqueezeFrom(s, j + 1);
        SqueezeCopy(s, j, ReplaceFrom(s, j + 1, WhiteRun()));
      }
    }
  }

  /** Squeezing leaves no two whitespace chars in a row and keeps first and last chars that
      are not whitespace. */
  lemma SqueezeTidy(t: string)
    ensures NoDoubleSpace(Squeeze(t))
    ensures |Squeeze(t)| > 0 && !IsRegexSpace(t[0]) ==> Squeeze(t)[0] == t[0]
    ensures |Squeeze(t)| > 0 && !IsRegexSpace(t[|t| - 1]) ==> Squeeze(t)[|Squeeze(t)| - 1] == t[|t| - 1]
  {
    SqueezeFrom(t, 0);
  }

  /** The inside of a pair of parentheses as formatParentheses rewrites it: trimmed, with
      each run of whitespace made one space. */
  function Tidy(inner: string): string
  {
    Squeeze(TrimSpace(inner))
  }

  /** The regular expression \(\s*([^()]*?)\s*\) at offset i: an opening parenthesis whose
      next parenthesis closes it; ReplaceAllStringFunc puts back the tidied inside. */
  function ParenGroupAt(s: string, i: nat): (r: Option<Hit>)
    ensures r.Some? ==> i < |s| && s[i] == '(' && RunEnd(s, i + 1, NonParen) < |s|
    ensures r.Some? ==> r.value.end == RunEnd(s, i + 1, NonParen) + 1 && s[r.value.end - 1] == ')'
    ensures r.Some? ==> r.value.rep == "(" + Tidy(s[i + 1..r.value.end - 1]) + ")"
  {
    if i < |s| && s[i] == '(' then
      var k := RunEnd(s, i + 1, NonParen);
      if k < |s| && s[k] == ')' then Some(Hit(k + 1, "(" + Tidy(s[i + 1..k]) + ")")) else None
    else None
  }

  function ParenGroup(): Matcher
  {
    (s: string, i: nat) => ParenGroupAt(s, i)
  }

  /** formatParentheses */
  function FormatParentheses(text: string): string
  {
    ReplaceAll(text, ParenGroup())
  }

  /** Each rewritten pair holds no parenthesis, starts and ends with no space and has no two
      whitespace chars in a row. */
  lemma TidyPair(s: string, i: nat)
    requires HitAt(ParenGroup(), s, i)
    ensures var w := Tidy(s[i + 1..ParenGroup()(s, i).value.end - 1]);
      ParenGroup()(s, i).value.rep == "(" + w + ")"
      && NoDoubleSpace(w)
      && (w == [] || (!IsSpace(w[0]) && !IsSpace(w[|w| - 1])))
      && '(' !in w && ')' !in w
  {
    var k := RunEnd(s, i + 1, NonParen);
    var inner := s[i + 1..k];
    var t := TrimSpace(inner);
    var w := Tidy(inner);
    SqueezeTidy(t);
    RunEndAll(s, i + 1, NonParen);
    assert '(' !in inner && ')' !in inner;
    CountZero(inner, '(');
    CountZero(inner, ')');
    TrimKeepsCount(inner, '(');
    TrimKeepsCount(inner, ')');
    SqueezeKeeps(t, '(');
    SqueezeKeeps(t, ')');
    CountZero(w, '(');
    CountZero(w, ')');
  }

  /** Squeezing keeps every char that is not whitespace. */
  lemma SqueezeKeeps(t: string, c: char)
    requires !IsRegexSpace(c)
    ensures Count(Squeeze(t), c) == Count(t, c)
  {
    forall j | 0 <= j < |t| && HitAt(WhiteRun(), t, j)
      ensures Count(WhiteRun()(t, j).value.rep, c) == Count(t[j..WhiteRun()(t, j).value.end], c)
    {
      var e := RunEnd(t, j, ReSpace);
      RunEndAll(t, j, ReSpace);
      assert c !in t[j..e];
      CountZero(t[j..e], c);
      CountOne(' ', c);
    }
    CountKept(t, 0, WhiteRun(), c);
  }

  /** formatParentheses keeps every char that is not a space. */
  lemma FormatParenthesesKeeps(text: string, c: char)
    requires !IsSpace(c)
    ensures Count(FormatParentheses(text), c) == Count(text, c)
  {
    forall j | 0 <= j < |text| && HitAt(ParenGroup(), text, j)
      ensures Count(ParenGroup()(text, j).value.rep, c) == Count(text[j..ParenGroup()(text, j).value.end], c)
    {
      ParenGroupKeeps(text, j, c);
    }
    CountKept(text, 0, ParenGroup(), c);
  }

  /** One parenthesised group keeps its chars that are not spaces. */
  lemma ParenGroupKeeps(text: string, j: nat, c: char)
    requires !IsSpace(c) && ParenGroupAt(text, j).Some?
    ensures Count(ParenGroupAt(text, j).value.rep, c) == Count(text[j..ParenGroupAt(text, j).value.end], c)
  {
    var k := RunEnd(text, j + 1, NonParen);
    var inner := text[j + 1..k];
    TrimKeepsCount(inner, c);
    SqueezeKeeps(TrimSpace(inner), c);
    assert text[j..k + 1] == "(" + inner + ")";
    WrapCount(inner, c);
    WrapCount(Tidy(inner), c);
  }

  lemma WrapCount(t: string, c: char)
    ensures Count("(" + t + ")", c) == Count("(", c) + Count(t, c) + Count(")", c)
  {
    CountConcat("(" + t, ")", c);
    CountConcat("(", t, c);
  }

  /** formatParentheses brings in no newline (it may take some away). */
  lemma FormatParenthesesNoNewline(text: string)
    requires '\n' !in text
    ensures '\n' !in FormatParentheses(text)
  {
    forall j | 0 <= j < |text| && HitAt(ParenGroup(), text, j)
      ensures '\n' !in ParenGroup()(text, j).value.rep
    {
      var k := RunEnd(text, j + 1, NonParen);
      var t := TrimSpace(text[j + 1..k]);
      assert '\n' !in t;
      CharStaysAbsent(t, 0, WhiteRun(), '\n');
    }
    CharStaysAbsent(text, 0, ParenGroup(), '\n');
  }

  /** The inner runs of whitespace of "ggg   gg" become one space. */
  lemma SqueezeExample()
    ensures Squeeze("ggg   gg") == "ggg gg"
  {
    var t := "ggg   gg";
    assert RunEnd(t, 3, ReSpace) == 6 by {
      RunEndUnique(t, 3, ReSpace, 6);
    }
    var m := WhiteRun();
    assert ReplaceFrom(t, 6, m) == "gg" by {
      assert ReplaceFrom(t, 8, m) == [];
      assert ReplaceFrom(t, 7, m) == "g";
    }
    assert ReplaceFrom(t, 3, m) == " gg";
    assert ReplaceFrom(t, 0, m) == "ggg gg" by {
      assert ReplaceFrom(t, 2, m) == "g gg";
      assert ReplaceFrom(t, 1, m) == "gg gg";
    }
  }

  lemma TidyExample()
    ensures Tidy("   ggg   gg   ") == "ggg gg"
  {
    var inner := "   ggg   gg   ";
    assert TrimStart(inner) == 3 by {
      RunEndUnique(inner, 0, Space, 3);
    }
    assert RunStart(inner, 14, Space) == 11 by {
      RunStartUnique(inner, 14, Space, 11);
    }
    assert TrimSpace(inner) == "ggg   gg";
    SqueezeExample();
  }

  lemma GroupEndExample()
    ensures RunEnd("(   ggg   gg   )", 1, NonParen) == 15
  {
    var s := "(   ggg   gg   )";
    forall x | 1 <= x < 15
      ensures InClass(NonParen, s[x])
    {
      assert s[x] in "   ggg   gg   ";
    }
    RunEndUnique(s, 1, NonParen, 15);
  }

  lemma ParenGroupExample()
    ensures ParenGroupAt("(   ggg   gg   )", 0) == Some(Hit(16, "(ggg gg)"))
  {
    var s := "(   ggg   gg   )";
    var inner := s[1..15];
    assert inner == "   ggg   gg   ";
    GroupEndExample();
    assert s[15] == ')';
    assert ParenGroupAt(s, 0) == Some(Hit(16, "(" + Tidy(inner) + ")"));
    TidyExample();
    Parenthesised(Tidy(inner));
  }

  lemma Parenthesised(x: string)
    requires x == "ggg gg"
    ensures "(" + x + ")" == "(ggg gg)"
  {
  }

  /** "(   ggg   gg   )" becomes "(ggg gg)". */
  lemma ParenthesesExample()
    ensures FormatParentheses("(   ggg   gg   )") == "(ggg gg)"
  {
    var s := "(   ggg   gg   )";
    ParenGroupExample();
    assert ReplaceFrom(s, 16, ParenGroup()) == [];
  }

  /** The regular expression (\w+)\s{2,}(\w+) at offset i, replaced by "$1 $2": a word, two or
      more whitespace chars and a word, the gap made one space. */
  function WordGapAt(s: string, i: nat): (r: Option<Hit>)
  {
    if i < |s| && IsWord(s[i]) then
      var e1 := RunEnd(s, i, Word);
      var e2 := RunEnd(s, e1, ReSpace);
      var e3 := RunEnd(s, e2, Word);
      if e2 - e1 >= 2 && e3 > e2 then Some(Hit(e3, s[i..e1] + " " + s[e2..e3])) else None
    else None
  }

  function WordGap(): Matcher
  {
    (s: string, i: nat) => WordGapAt(s, i)
  }

  /** Each match becomes one char shorter at least; the words are kept and the gap becomes a
      single space. */
  lemma WordGapShrinks(s: string)
    ensures forall j :: 0 <= j < |s| && HitAt(WordGap(), s, j) ==> |WordGap()(s, j).value.rep| < WordGap()(s, j).value.end - j
  {
  }

  /** One pass of ReplaceAllString(line, "$1 $2"). */
  function CloseGapsOnce(line: string): (r: string)
  {
    ReplaceAll(line, WordGap())
  }

  /** The loop of normalizeSpaces on one line: the pass repeated until the line stops changing. */
  function GapsClosed(line: string): (r: string)
    decreases |line|
  {
    WordGapShrinks(line);
    ShrinkingFixpoint(line, WordGap());
    var next := CloseGapsOnce(line);
    if next == line then line else GapsClosed(next)
  }

  method CloseGaps(line: string) returns (r: string)
    ensures r == GapsClosed(line)
  {
    r := line;
    while true
      invariant GapsClosed(r) == GapsClosed(line)
      decreases |r|
    {
      var next := CloseGapsOnce(r);
      if next == r {
        break;
      }
      WordGapShrinks(r);
      ShrinkingFixpoint(r, WordGap());
      r := next;
    }
  }

  /** Once the loop stops, no word, two whitespace chars and word remain. */
  lemma {:induction false} GapsClosedStable(line: string)
    ensures !HasHitFrom(WordGap(), GapsClosed(line), 0)
    decreases |line|
  {
    WordGapShrinks(line);
    ShrinkingFixpoint(line, WordGap());
    if CloseGapsOnce(line) != line {
      GapsClosedStable(CloseGapsOnce(line));
    }
  }

  /** A pass keeps every char that is not whitespace. */
  lemma CloseGapsOnceKeeps(line: string, c: char)
    requires !IsRegexSpace(c)
    ensures Count(CloseGapsOnce(line), c) == Count(line, c)
  {
    forall j | 0 <= j < |line| && HitAt(WordGap(), line, j)
      ensures Count(WordGap()(line, j).value.rep, c) == Count(line[j..WordGap()(line, j).value.end], c)
    {
      var e1 := RunEnd(line, j, Word);
      var e2 := RunEnd(line, e1, ReSpace);
      var e3 := RunEnd(line, e2, Word);
      RunEndAll(line, e1, ReSpace);
      assert c !in line[e1..e2];
      CountZero(line[e1..e2], c);
      CountOne(' ', c);
      assert line[j..e3] == line[j..e1] + line[e1..e2] + line[e2..e3];
      CountConcat(line[j..e1] + line[e1..e2], line[e2..e3], c);
      CountConcat(line[j..e1], line[e1..e2], c);
      CountConcat(line[j..e1] + " ", line[e2..e3], c);
      CountConcat(line[j..e1], " ", c);
    }
    CountKept(line, 0, WordGap(), c);
  }

  /** Closing the gaps keeps every char that is not whitespace. */
  lemma {:induction false} GapsClosedKeeps(line: string, c: char)
    requires !IsRegexSpace(c)
    ensures Count(GapsClosed(line), c) == Count(line, c)
    decreases |line|
  {
    WordGapShrinks(line);
    ShrinkingFixpoint(line, WordGap());
    if CloseGapsOnce(line) != line {
      CloseGapsOnceKeeps(line, c);
      GapsClosedKeeps(CloseGapsOnce(line), c);
    }
  }

  /** Closing the gaps brings in no newline. */
  lemma {:induction false} GapsClosedNoNewline(line: string)
    requires '\n' !in line
    ensures '\n' !in GapsClosed(line)
    decreases |line|
  {
    WordGapShrinks(line);
    ShrinkingFixpoint(line, WordGap());
    var next := CloseGapsOnce(line);
    if next != line {
      forall j | 0 <= j < |line| && HitAt(WordGap(), line, j)
        ensures '\n' !in WordGap()(line, j).value.rep
      {
        var e1 := RunEnd(line, j, Word);
        var e2 := RunEnd(line, e1, ReSpace);
        var e3 := RunEnd(line, e2, Word);
        assert WordGap()(line, j).value.rep == line[j..e1] + " " + line[e2..e3];
      }
      CharStaysAbsent(line, 0, WordGap(), '\n');
      GapsClosedNoNewline(next);
    }
  }

  /** normalizeSpaces: formatQuotes, then formatParentheses, then the gaps closed on each line. */
  function SpacesNormalized(text: string): string
  {
    MapLines(FormatParentheses(QuotesFormatted(text)), GapsClosed)
  }

  method NormalizeSpaces(text: string) returns (r: string)
    ensures r == SpacesNormalized(text)
  {
    var t := FormatQuotes(text);
    t := FormatParentheses(t);
    var lines := Lines(t);
    ghost var orig := lines;
    for i := 0 to |lines|
      invariant |lines| == |orig|
      invariant forall k :: 0 <= k < i ==> lines[k] == GapsClosed(orig[k])
      invariant forall k :: i <= k < |lines| ==> lines[k] == orig[k]
    {
      var line := CloseGaps(lines[i]);
      lines := lines[i := line];
    }
    assert lines == ApplyAll(GapsClosed, orig);
    r := Join(lines, "\n");
  }

  /** After normalizeSpaces no line holds a word, two or more whitespace chars and a word, and
      line k of the output is line k of the tidied text with its gaps closed. */
  lemma NormalizedLines(text: string)
    ensures var tidied := FormatParentheses(QuotesFormatted(text));
      Lines(SpacesNormalized(text)) == ApplyAll(GapsClosed, Lines(tidied))
      && Count(SpacesNormalized(text), '\n') == Count(tidied, '\n')
    ensures forall k :: 0 <= k < |Lines(SpacesNormalized(text))| ==>
      !HasHitFrom(WordGap(), Lines(SpacesNormalized(text))[k], 0)
  {
    var tidied := FormatParentheses(QuotesFormatted(text));
    forall l: string | '\n' !in l
      ensures '\n' !in GapsClosed(l)
    {
      GapsClosedNoNewline(l);
    }
    MapLinesLines(tidied, GapsClosed);
    forall k | 0 <= k < |Lines(tidied)|
      ensures !HasHitFrom(WordGap(), GapsClosed(Lines(tidied)[k]), 0)
    {
      GapsClosedStable(Lines(tidied)[k]);
    }
  }
}
