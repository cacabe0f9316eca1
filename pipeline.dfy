/** ProcessText of proccess/proccess.go: the passes of the transformations package in their
    fixed order (quotes, punctuation groups, case markers, general punctuation, spacing, final
    spacing), then the whitespace normalised by strings.Join(strings.Fields(text), " "). */
module Pipeline {

  import opened Text
  import opened Spaced
  import opened QuoteFix
  import opened PunctuationPasses
  import opened Rewrite
  import CaseMarkers

  /** The words of ws written one after another. */
  function Concat(ws: seq<string>): string
  {
    if |ws| == 0 then [] else ws[0] + Concat(ws[1..])
  }

  /** A word without whitespace shows as itself. */
  lemma {:induction false} VisibleWord(w: string)
    requires forall k :: 0 <= k < |w| ==> !IsSpace(w[k])
    ensures Visible(w) == w
    decreases |w|
  {
    if |w| > 0 {
      VisibleWord(w[..|w| - 1]);
      assert w == w[..|w| - 1] + [w[|w| - 1]];
    }
  }

  /** Leading whitespace, a word, then the rest shows as the word and what the rest shows. */
  lemma VisibleSplit(lead: string, word: string, rest: string)
    requires forall k :: 0 <= k < |lead| ==> IsSpace(lead[k])
    requires forall k :: 0 <= k < |word| ==> !IsSpace(word[k])
    ensures Visible(lead + word + rest) == word + Visible(rest)
  {
    calc {
      Visible(lead + word + rest);
    == { VisibleConcat(lead + word, rest); }
      Visible(lead + word) + Visible(rest);
    == { VisibleConcat(lead, word); VisibleSpaces(lead); }
      [] + Visible(word) + Visible(rest);
    == { VisibleWord(word); assert [] + word == word; }
      word + Visible(rest);
    }
  }

  /** What a text shows is its fields run together. */
  lemma {:induction false} VisibleFields(s: string)
    ensures Visible(s) == Concat(Fields(s))
    decreases |s|
  {
    var a := RunEnd(s, 0, Space);
    RunEndAll(s, 0, Space);
    if a == |s| {
      VisibleSpaces(s);
    } else {
      var b := RunEnd(s, a, NonSpace);
      RunEndAll(s, a, NonSpace);
      FieldsUnfold(s, a, b);
      var lead, word, rest := s[..a], s[a..b], s[b..];
      assert s == lead + word + rest;
      VisibleSplit(lead, word, rest);
      VisibleFields(rest);
      var fs := [word] + Fields(rest);
      assert fs[1..] == Fields(rest);
      assert Concat(fs) == word + Concat(Fields(rest));
    }
  }

  /** Words joined by single spaces show as the words run together. */
  lemma {:induction false} VisibleJoin(ws: seq<string>)
    requires AllFields(ws)
    ensures Visible(Join(ws, " ")) == Concat(ws)
    decreases |ws|
  {
    if |ws| == 1 {
      VisibleWord(ws[0]);
      assert ws[0] + [] == ws[0];
    } else if |ws| > 1 {
      var t := Join(ws[1..], " ");
      VisibleJoin(ws[1..]);
      VisibleGap(ws[0], " ", t);
      VisibleConcat(ws[0], t);
      VisibleWord(ws[0]);
    }
  }

  /** The final strings.Join(strings.Fields(text), " ") only changes whitespace. */
  lemma NormalizedVisible(text: string)
    ensures Visible(Normalized(text)) == Visible(text)
  {
    VisibleFields(text);
    VisibleJoin(Fields(text));
  }

  /** The passes after the case pass: general punctuation, spacing, final spacing, and the
      whitespace normalisation. */
  function AfterCase(cased: string): string
  {
    var general := FixGeneralPunctuation(cased);
    var spaced := FixSpacing(general);
    var cleaned := CleanFinalSpacing(spaced);
    Normalized(cleaned)
  }

  /** ProcessText as written: the case pass is TransformCase, with its ellipsis protection. */
  function ProcessText(text: string): string
  {
    var quoted := FixQuotes2(text);
    var grouped := FixPunctuationGroups(quoted);
    var cased := CaseMarkers.TransformCaseText(grouped);
    AfterCase(cased)
  }

  /** ProcessText with the case pass as corrected (see CaseMarkers.TransformCaseFixed): the
      ellipsis stays an ellipsis whatever the case markers do to the text around it. */
  function ProcessTextFixed(text: string): string
  {
    var quoted := FixQuotes2(text);
    var grouped := FixPunctuationGroups(quoted);
    var cased := CaseMarkers.TransformCaseFixed(grouped);
    AfterCase(cased)
  }

  /** What the passes after the case pass leave: single-spaced, left alone by a second
      normalisation, and showing what the case pass produced, since only whitespace moves. */
  lemma AfterCaseShape(cased: string)
    ensures SingleSpaced(AfterCase(cased))
    ensures Normalized(AfterCase(cased)) == AfterCase(cased)
    ensures Visible(AfterCase(cased)) == Visible(cased)
  {
    var general := FixGeneralPunctuation(cased);
    var spaced := FixSpacing(general);
    var cleaned := CleanFinalSpacing(spaced);
    FixGeneralPunctuationShape(cased);
    FixSpacingShape(general);
    CleanFinalSpacingShape(spaced);
    NormalizedVisible(cleaned);
    NormalizedClean(cleaned);
  }

  /** The output is single-spaced and a second normalisation leaves it alone; after the case
      pass only whitespace moves, so what it shows is what the case pass produced. */
  lemma ProcessTextShape(text: string)
    ensures SingleSpaced(ProcessText(text))
    ensures Normalized(ProcessText(text)) == ProcessText(text)
    ensures Visible(ProcessText(text)) == Visible(CaseMarkers.TransformCaseText(FixPunctuationGroups(FixQuotes2(text))))
  {
    AfterCaseShape(CaseMarkers.TransformCaseText(FixPunctuationGroups(FixQuotes2(text))));
  }

  /** The same shape for the corrected pipeline. */
  lemma ProcessTextFixedShape(text: string)
    ensures SingleSpaced(ProcessTextFixed(text))
    ensures Normalized(ProcessTextFixed(text)) == ProcessTextFixed(text)
    ensures Visible(ProcessTextFixed(text)) == Visible(CaseMarkers.TransformCaseFixed(FixPunctuationGroups(FixQuotes2(text))))
  {
    AfterCaseShape(CaseMarkers.TransformCaseFixed(FixPunctuationGroups(FixQuotes2(text))));
  }

  // ---------------------------------------------------------------- the ellipsis leak

  /** A non-empty word of ASCII letters. */
  predicate Letters(w: string)
  {
    |w| > 0 && forall k :: 0 <= k < |w| ==> IsLetter(w[k])
  }

  /** A text that none of the passes after the case pass has anything to do with: no
      whitespace, no punctuation mark and no closing quote. */
  predicate Quiet(x: string)
  {
    forall k :: 0 <= k < |x| ==> !IsSpace(x[k]) && x[k] !in SentenceMarks && x[k] !in Closers
  }

  /** A text without a quote has nothing for fixQuotes2 to change. */
  lemma NoQuoteKept2(s: string)
    requires '\'' !in s
    ensures FixQuotes2(s) == s
  {
    forall j | 0 <= j < |s| ensures !HitAt(FixQuote2Matcher(), s, j) {
      assert s[j] in s;
    }
    NoHitIdentity(s, 0, FixQuote2Matcher());
  }

  /** Three dots, a space and '(' read as a run of three dots that takes the space with it. */
  lemma DotRunLow(s: string, n: nat)
    requires n + 5 <= |s| && s[n..n + 5] == "... ("
    ensures HitAt(Dots, s, n) && Dots(s, n).value == Hit(n + 4, "...")
  {
    var t := s[n..n + 5];
    assert s[n] == t[0] && s[n + 1] == t[1] && s[n + 2] == t[2] && s[n + 3] == t[3] && s[n + 4] == t[4];
    assert RunEnd(s, n + 4, ReSpace) == n + 4;
    assert RunEnd(s, n + 3, ReSpace) == n + 4;
    assert DotRun(s, n + 4) == (0, n + 4);
    assert DotRun(s, n + 2) == (1, n + 4);
    assert RunEnd(s, n + 2, ReSpace) == n + 2;
    assert DotRun(s, n + 1) == (2, n + 4);
    assert RunEnd(s, n + 1, ReSpace) == n + 1;
    assert DotRun(s, n) == (3, n + 4);
  }

  /** The dots pass on a word of letters and then "... (low)". */
  lemma DotsLow(w: string)
    requires Letters(w)
    ensures ReplaceAll(w + "... (low)", Dots) == w + "...(low)"
  {
    var s := w + "... (low)";
    var n := |w|;
    forall j | 0 <= j < n ensures !HitAt(Dots, s, j) {
      assert s[j] == w[j];
    }
    NoHitCopies(s, 0, n, Dots);
    assert s[n..n + 5] == "... (";
    DotRunLow(s, n);
    assert s[n + 4..] == "(low)";
    forall j | n + 4 <= j < |s| ensures !HitAt(Dots, s, j) {
      assert s[j] == s[n + 4..][j - n - 4];
    }
    NoHitIdentity(s, n + 4, Dots);
    assert s[..n] == w;
  }

  /** A text without '!' and '?' has no pair for FixPunctuationGroups to close up. */
  lemma PairsMiss(t: string)
    requires '!' !in t && '?' !in t
    ensures ReplaceAll(ReplaceAll(t, Pair('!', '?')), Pair('?', '!')) == t
  {
    forall j | 0 <= j < |t| ensures !HitAt(Pair('!', '?'), t, j) && !HitAt(Pair('?', '!'), t, j) {
      assert t[j] in t;
    }
    NoHitIdentity(t, 0, Pair('!', '?'));
    NoHitIdentity(t, 0, Pair('?', '!'));
  }

  /** A word of letters, then "... (low)": the dots and the space after them become one
      ellipsis glued to the marker. */
  lemma GroupedLow(w: string)
    requires Letters(w)
    ensures FixPunctuationGroups(w + "... (low)") == w + "...(low)"
  {
    DotsLow(w);
    var t := w + "...(low)";
    assert '!' !in t && '?' !in t by {
      forall k | 0 <= k < |t| ensures t[k] != '!' && t[k] != '?' {
        if k < |w| {
          assert t[k] == w[k];
        }
      }
    }
    PairsMiss(t);
  }

  /** The passes after the case pass leave a quiet text as it is. */
  lemma QuietKept(x: string)
    requires Quiet(x)
    ensures AfterCase(x) == x
  {
    forall j | 0 <= j < |x|
      ensures !HitAt(SpacesBefore(SentenceMarks), x, j) && !HitAt(SpacesBefore(CleanMarks), x, j)
      ensures !HitAt(SpacesBefore(Closers), x, j) && !HitAt(EllipsisGap, x, j)
      ensures !HitAt(StopGap, x, j) && !HitAt(Trailing, x, j) && !HitAt(DoubleSpace, x, j)
      ensures !HitAt(MarkQuote, x, j) && !HitAt(MarkThen, x, j)
    {
      assert x[j] !in Stops && x[j] !in CleanMarks;
    }
    NoHitIdentity(x, 0, SpacesBefore(SentenceMarks));
    NoHitIdentity(x, 0, EllipsisGap);
    NoHitIdentity(x, 0, StopGap);
    NoHitIdentity(x, 0, Trailing);
    TrimTrimmed(x);
    assert FixGeneralPunctuation(x) == x;
    NoHitIdentity(x, 0, DoubleSpace);
    assert FixSpacing(x) == x;
    NoHitIdentity(x, 0, SpacesBefore(CleanMarks));
    NoHitIdentity(x, 0, SpacesBefore(Closers));
    NoHitIdentity(x, 0, MarkQuote);
    NoHitIdentity(x, 0, MarkThen);
    assert CleanFinalSpacing(x) == x;
    if |x| > 0 {
      FieldsOfWord(x, "");
      assert x + "" == x;
    }
  }

  /** A lower-cased word of letters with the lower-cased placeholder after it is quiet. */
  lemma LeakQuiet(w: string)
    requires Letters(w)
    ensures Quiet(Lower(w) + "%%ellipsis%%")
  {
    var x := Lower(w) + "%%ellipsis%%";
    forall k | 0 <= k < |x| ensures !IsSpace(x[k]) && x[k] !in SentenceMarks && x[k] !in Closers {
      if k < |w| {
        assert x[k] == ToLowerChar(w[k]);
      }
    }
  }

  /** As written, ProcessText turns a word of letters followed by "... (low)" into the
      lower-cased word and a lower-cased placeholder: the ellipsis is lost. */
  lemma ProcessTextLeak(w: string)
    requires Letters(w)
    ensures ProcessText(w + "... (low)") == Lower(w) + "%%ellipsis%%"
  {
    var text := w + "... (low)";
    assert '\'' !in text by {
      forall k | 0 <= k < |text| ensures text[k] != '\'' {
        if k < |w| {
          assert text[k] == w[k];
        }
      }
    }
    NoQuoteKept2(text);
    GroupedLow(w);
    assert IsField(w) && '.' !in w && '(' !in w && '\'' !in w by {
      forall k | 0 <= k < |w| ensures !IsSpace(w[k]) && w[k] != '.' && w[k] != '(' && w[k] != '\'' {
      }
    }
    CaseMarkers.GluedLeakFor(w);
    LeakQuiet(w);
    QuietKept(Lower(w) + "%%ellipsis%%");
  }

  /** "hi" is a word of letters that lower-casing leaves alone. */
  lemma HiLetters()
    ensures Letters("hi") && Lower("hi") == "hi"
  {
    var w := "hi";
    assert IsLetter(w[0]) && IsLetter(w[1]);
    assert Lower(w)[0] == w[0] && Lower(w)[1] == w[1];
  }

  /** The smallest case of the leak. */
  lemma HiLowLeak()
    ensures var w := "hi"; ProcessText(w + "... (low)") == w + "%%ellipsis%%"
  {
    HiLetters();
    ProcessTextLeak("hi");
  }
}
