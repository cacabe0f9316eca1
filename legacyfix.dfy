/** The transformations of go-reloaded/processor/transformations.go, the older copy of the
    processor: the hex and binary conversions at a marker (the hex one also swallows the
    "(hex)" markers right after it), the path of a numbered case marker that finds no word,
    the punctuation, quote and parenthesis formatting, and the article fix. */
module LegacyTransforms {

  import opened Wrappers
  import opened Text
  import opened Numbers
  import opened Rewrite
  import opened Splicing
  import Markers
  import opened PunctuationPasses
  import Spacing
  import Pipeline
  import LegacyWords

  // ---------------------------------------------------------------- (hex) and (bin)

  /** "(hex)" starts at offset w. */
  predicate HexMarkAt(s: string, w: nat)
  {
    w + 5 <= |s| && s[w] == '(' && s[w + 1] == 'h' && s[w + 2] == 'e' && s[w + 3] == 'x' && s[w + 4] == ')'
  }

  /** ^(\s*\(hex\))* from offset i: where the run of "(hex)" markers, each after optional
      whitespace, ends, and how many markers it holds. \s* is greedy and "(" is not
      whitespace, so a marker can only follow the whole run of whitespace. */
  function HexRun(s: string, i: nat): (r: (nat, nat))
    requires i <= |s|
    ensures i <= r.0 <= |s|
    decreases |s| - i
  {
    var w := RunEnd(s, i, ReSpace);
    if HexMarkAt(s, w) then
      var next := HexRun(s, w + 5);
      (next.0, next.1 + 1)
    else (i, 0)
  }

  /** n markers "(hex)" one after the other. */
  function HexMarks(n: nat): string
  {
    if n == 0 then [] else "(hex)" + HexMarks(n - 1)
  }

  /** Whitespace, a marker, then more text shows as the marker and what the text shows. */
  lemma HexStepVisible(s: string, i: nat, w: nat, e: nat)
    requires i <= w && w + 5 <= e <= |s| && HexMarkAt(s, w)
    requires forall k :: i <= k < w ==> IsRegexSpace(s[k])
    ensures Visible(s[i..e]) == "(hex)" + Visible(s[w + 5..e])
  {
    var ws, mark, rest := s[i..w], s[w..w + 5], s[w + 5..e];
    assert mark == "(hex)";
    assert s[i..e] == [] + ws + (mark + rest);
    Pipeline.VisibleWord(mark);
    calc {
      Visible(s[i..e]);
    == { VisibleGap([], ws, mark + rest); assert [] + (mark + rest) == mark + rest; }
      Visible(mark + rest);
    == { VisibleConcat(mark, rest); }
      mark + Visible(rest);
    }
  }

  /** The run taken away shows as nothing but its markers, and no further marker follows it
      after whitespace. */
  lemma {:induction false} HexRunIs(s: string, i: nat)
    requires i <= |s|
    ensures !HexMarkAt(s, RunEnd(s, HexRun(s, i).0, ReSpace))
    ensures Visible(s[i..HexRun(s, i).0]) == HexMarks(HexRun(s, i).1)
    decreases |s| - i
  {
    var w := RunEnd(s, i, ReSpace);
    if HexMarkAt(s, w) {
      HexRunIs(s, w + 5);
      RunEndAll(s, i, ReSpace);
      HexStepVisible(s, i, w, HexRun(s, w + 5).0);
    } else {
      assert s[i..i] == [];
    }
  }

  /** processHexAtPosition with a "(hex)" marker at pos: a word before it that ParseInt
      reads in base 16 becomes its decimal, the marker and every marker right after it
      going too; otherwise only the five bytes of the marker go. */
  function LegacyHexAt(text: string, pos: nat): string
    requires pos + 5 <= |text|
  {
    var f := LegacyWords.LegacyWordBefore(text, pos);
    var d := ParseInt(f.word, 16);
    if f.word != "" && d.Some? then
      var after := text[pos + 5..];
      text[..f.start] + FormatInt(d.value) + after[HexRun(after, 0).0..]
    else RemovePatternAt(text, "(hex)", pos)
  }

  /** processBinAtPosition: the same in base 2, the text after the marker kept whole. */
  function LegacyBinAt(text: string, pos: nat): string
    requires pos + 5 <= |text|
  {
    var f := LegacyWords.LegacyWordBefore(text, pos);
    var d := ParseInt(f.word, 2);
    if f.word != "" && d.Some? then text[..f.start] + FormatInt(d.value) + text[pos + 5..]
    else RemovePatternAt(text, "(bin)", pos)
  }

  /** A hex word that ParseInt accepts: the text before the word, then the decimal, which
      reads back as the value, then the text after the marker less a run that shows as n
      further markers and after which no marker follows. */
  lemma LegacyHexConverts(text: string, pos: nat, v: int)
    requires pos + 5 <= |text|
    requires LegacyWords.LegacyWordBefore(text, pos).word != ""
    requires ParseInt(LegacyWords.LegacyWordBefore(text, pos).word, 16) == Some(v)
    ensures var f := LegacyWords.LegacyWordBefore(text, pos);
            var after := text[pos + 5..];
            var k := HexRun(after, 0).0;
            LegacyHexAt(text, pos) == text[..f.start] + FormatInt(v) + after[k..]
            && ParseInt(FormatInt(v), 10) == Some(v)
            && Visible(after[..k]) == HexMarks(HexRun(after, 0).1)
            && !HexMarkAt(after, RunEnd(after, k, ReSpace))
  {
    var after := text[pos + 5..];
    ParseFormatInt(v);
    HexRunIs(after, 0);
    assert after[0..HexRun(after, 0).0] == after[..HexRun(after, 0).0];
  }

  /** A binary word that ParseInt accepts: the decimal replaces the word, the gap and the
      marker, and the text after the marker is kept whole. */
  lemma LegacyBinConverts(text: string, pos: nat, v: int)
    requires pos + 5 <= |text|
    requires LegacyWords.LegacyWordBefore(text, pos).word != ""
    requires ParseInt(LegacyWords.LegacyWordBefore(text, pos).word, 2) == Some(v)
    ensures var f := LegacyWords.LegacyWordBefore(text, pos);
            LegacyBinAt(text, pos) == text[..f.start] + FormatInt(v) + text[pos + 5..]
            && ParseInt(FormatInt(v), 10) == Some(v)
  {
    ParseFormatInt(v);
  }

  /** Without a word, or with one ParseInt refuses, exactly the five bytes at pos go. */
  lemma LegacyConversionFallsBack(text: string, pos: nat)
    requires pos + 5 <= |text|
    ensures var f := LegacyWords.LegacyWordBefore(text, pos);
            (f.word == "" || ParseInt(f.word, 16).None?) ==>
              LegacyHexAt(text, pos) == text[..pos] + text[pos + 5..]
    ensures var f := LegacyWords.LegacyWordBefore(text, pos);
            (f.word == "" || ParseInt(f.word, 2).None?) ==>
              LegacyBinAt(text, pos) == text[..pos] + text[pos + 5..]
  {
  }

  // ---------------------------------------------------------------- numbered markers

  /** \(\s*(up|low|cap)\s*,\s*(\d+)\s*\) at offset i: the numbered marker of the live
      processor, whose count may start with a minus sign, when its count does not. Where the
      count starts with "-" this expression finds no digit and fails; everywhere else the two
      match alike. */
  function LegacyNumberedAt(s: string, i: nat): (r: Option<Markers.Marker>)
  {
    var m := Markers.NumberedAt(s, i);
    if m.Some? && m.value.count.Some? && |m.value.count.value| > 0 && m.value.count.value[0] != '-'
    then m else None
  }

  /** FindStringSubmatch: the leftmost match at or after i. */
  function FirstNumbered(p: string, i: nat): (r: Option<Markers.Marker>)
    decreases |p| - i
  {
    if i >= |p| then None
    else if LegacyNumberedAt(p, i).Some? then LegacyNumberedAt(p, i)
    else FirstNumbered(p, i + 1)
  }

  /** A count as the numbered marker reads it: non-empty, and digits only unless it starts
      with a minus sign. */
  predicate CountText(c: string)
  {
    |c| > 0 && (c[0] != '-' ==> forall k :: 0 <= k < |c| ==> IsDigit(c[k]))
  }

  /** What the count piece reads: a non-empty run of digits after an optional minus sign. */
  lemma CountPiece(s: string, j: nat, e: nat)
    requires Markers.PieceEnd(s, j, Markers.Count) == Some(e)
    ensures j < e <= |s| && CountText(s[j..e])
  {
    var m := if j < |s| && s[j] == '-' then j + 1 else j;
    RunEndAll(s, m, Digit);
    var c := s[j..e];
    assert forall k :: 0 <= k < |c| ==> c[k] == s[j + k];
  }

  /** The count of a numbered marker is an optional minus sign and a non-empty run of
      digits. */
  lemma NumberedCount(s: string, i: nat)
    requires Markers.NumberedAt(s, i).Some?
    ensures Markers.NumberedAt(s, i).value.count.Some? && CountText(Markers.NumberedAt(s, i).value.count.value)
  {
    var b := Markers.Bounds(s, i, Markers.NumberedPieces).value;
    Markers.BoundsStep(s, i, Markers.NumberedPieces, 6);
    CountPiece(s, b[6], b[7]);
  }

  /** The count the older expression accepts is a run of digits, so Atoi reads it as a
      number of zero or more. */
  lemma {:induction false} FirstNumberedUnsigned(p: string, i: nat)
    requires FirstNumbered(p, i).Some?
    ensures var c := FirstNumbered(p, i).value.count;
            c.Some? && |c.value| > 0 && AllDigits(c.value, 10) && Atoi(c.value) >= 0
    decreases |p| - i
  {
    if LegacyNumberedAt(p, i).Some? {
      NumberedCount(p, i);
      AtoiClamps(FirstNumbered(p, i).value.count.value);
    } else {
      FirstNumberedUnsigned(p, i + 1);
    }
  }

  /** processNumberedCasePattern on the path that finds no word before the marker: the
      pattern is cut out at position. Some(...) is that result; None stands for the path where
      the words before the marker are rewritten, which this model leaves out. A pattern the
      expression does not match is cut out as well. */
  function LegacyNumberedNoWord(text: string, pattern: string, position: nat): (r: Option<string>)
    requires position + |pattern| <= |text|
  {
    var m := FirstNumbered(pattern, 0);
    if m.Some? && m.value.count.Some?
       && |LegacyWords.LegacyWordsBefore(text, position, Atoi(m.value.count.value)).0| > 0
    then None
    else Some(RemovePatternAt(text, pattern, position))
  }

  /** Whenever the no-word path is taken, exactly the pattern is cut; it is taken when the
      pattern holds no numbered marker, when the count is 0, or when no word precedes the
      marker; the count is never negative. */
  lemma LegacyNumberedCuts(text: string, pattern: string, position: nat)
    requires position + |pattern| <= |text|
    ensures var r := LegacyNumberedNoWord(text, pattern, position);
            r.Some? ==> r.value == text[..position] + text[position + |pattern|..]
    ensures FirstNumbered(pattern, 0).None? ==> LegacyNumberedNoWord(text, pattern, position).Some?
    ensures var m := FirstNumbered(pattern, 0);
            m.Some? && m.value.count.Some? ==>
              var n := Atoi(m.value.count.value);
              n >= 0
              && (n == 0 || LegacyWords.Groups(text, position, n) == [] ==> LegacyNumberedNoWord(text, pattern, position).Some?)
  {
    var m := FirstNumbered(pattern, 0);
    if m.Some? {
      FirstNumberedUnsigned(pattern, 0);
      var n := Atoi(m.value.count.value);
      LegacyWords.LegacyWordsBeforeShape(text, position, n);
    }
  }

  // ---------------------------------------------------------------- formatPunctuation

  /** ([.,!?:;])([^\s.,!?:;]) replaced by "$1 $2": a space between a mark and a char right
      after it that is neither whitespace nor a mark. */
  function MarkGapAt(s: string, i: nat): Option<Hit>
  {
    if i + 1 < |s| && s[i] in SentenceMarks && !IsRegexSpace(s[i + 1]) && s[i + 1] !in SentenceMarks
    then Some(Hit(i + 2, [s[i], ' ', s[i + 1]]))
    else None
  }

  const MarkGap: Matcher := MarkGapAt

  /** ([.!?])\s+([.!?]) replaced by "$1$2": the whitespace between two stops goes. */
  function StopsJoinAt(s: string, i: nat): Option<Hit>
  {
    if i < |s| && s[i] in Stops && RunEnd(s, i + 1, ReSpace) > i + 1
       && RunEnd(s, i + 1, ReSpace) < |s| && s[RunEnd(s, i + 1, ReSpace)] in Stops
    then Some(Hit(RunEnd(s, i + 1, ReSpace) + 1, [s[i], s[RunEnd(s, i + 1, ReSpace)]]))
    else None
  }

  const StopsJoin: Matcher := StopsJoinAt

  /** "\s*([^"]*?)\s*" (and the same with ') through its callback: from a quote to the next
      one, the inside trimmed. The lazy group and the \s* around it never pass a quote, so
      the match always ends at the next quote. */
  function QuotePairAt(q: char, s: string, i: nat): Option<Hit>
  {
    if i < |s| && s[i] == q && IndexFrom(s, i + 1, q) < |s|
    then Some(Hit(IndexFrom(s, i + 1, q) + 1, [q] + TrimSpace(s[i + 1..IndexFrom(s, i + 1, q)]) + [q]))
    else None
  }

  function QuotePair(q: char): Matcher
  {
    (s: string, i: nat) => QuotePairAt(q, s, i)
  }

  /** formatQuotes: the double-quote pairs, then the single-quote pairs. */
  function LegacyFormatQuotes(text: string): string
  {
    ReplaceAll(ReplaceAll(text, QuotePair('"')), QuotePair('\''))
  }

  /** The three expressions of formatPunctuation before its quote and parenthesis steps. */
  function PunctuationSpaced(text: string): string
  {
    var tight := ReplaceAll(text, SpacesBefore(SentenceMarks));
    var spaced := ReplaceAll(tight, MarkGap);
    ReplaceAll(spaced, StopsJoin)
  }

  /** formatPunctuation */
  function LegacyFormatPunctuation(text: string): string
  {
    Spacing.FormatParentheses(LegacyFormatQuotes(PunctuationSpaced(text)))
  }

  /** No mark is directly followed by a char that is neither whitespace nor a mark. */
  predicate MarksSpaced(t: string)
  {
    forall k :: 0 <= k < |t| - 1 ==> !(t[k] in SentenceMarks && !IsRegexSpace(t[k + 1]) && t[k + 1] !in SentenceMarks)
  }

  /** r, the text from offset j on after the mark-gap expression: marks are spaced, no
      whitespace comes before a mark when none did in s, and r starts where s[j..] does. */
  predicate GappedFrom(s: string, j: nat, r: string)
    requires j <= |s|
  {
    MarksSpaced(r)
    && (NoSpaceBefore(s, SentenceMarks) ==> NoSpaceBefore(r, SentenceMarks))
    && (|r| == 0 <==> j == |s|)
    && (j < |s| ==> r[0] == s[j])
  }

  lemma GapHit(s: string, j: nat, b: string)
    requires HitAt(MarkGap, s, j)
    requires GappedFrom(s, j + 2, b)
    ensures GappedFrom(s, j, [s[j], ' ', s[j + 1]] + b)
  {
    var r := [s[j], ' ', s[j + 1]] + b;
    assert forall k :: 0 <= k < |b| ==> r[k + 3] == b[k];
  }

  lemma GapCopy(s: string, j: nat, b: string)
    requires j < |s| && !HitAt(MarkGap, s, j)
    requires GappedFrom(s, j + 1, b)
    ensures GappedFrom(s, j, [s[j]] + b)
  {
    var r := [s[j]] + b;
    assert forall k :: 0 <= k < |b| ==> r[k + 1] == b[k];
  }

  lemma {:induction false} GappedFromAll(s: string, j: nat)
    requires j <= |s|
    ensures GappedFrom(s, j, ReplaceFrom(s, j, MarkGap))
    decreases |s| - j
  {
    if j < |s| {
      if HitAt(MarkGap, s, j) {
        GappedFromAll(s, j + 2);
        GapHit(s, j, ReplaceFrom(s, j + 2, MarkGap));
      } else {
        GappedFromAll(s, j + 1);
        GapCopy(s, j, ReplaceFrom(s, j + 1, MarkGap));
      }
    }
  }

  /** Where no whitespace stands before a stop, two stops have no whitespace between them. */
  lemma StopsJoinIdle(t: string)
    requires NoSpaceBefore(t, SentenceMarks)
    ensures ReplaceAll(t, StopsJoin) == t
  {
    forall j | 0 <= j < |t|
      ensures !HitAt(StopsJoin, t, j)
    {
      var e := RunEnd(t, j + 1, ReSpace);
      RunEndAll(t, j + 1, ReSpace);
      if j + 1 < e < |t| {
        assert IsRegexSpace(t[e - 1]);
      }
    }
    NoHitIdentity(t, 0, StopsJoin);
  }

  /** After the three expressions no whitespace stands before a mark, a space follows each
      mark that a word or other char follows, and the join of stops across whitespace never
      finds anything to join: the first expression has already taken that whitespace out. */
  lemma PunctuationSpacedShape(text: string)
    ensures var tight := ReplaceAll(text, SpacesBefore(SentenceMarks));
            var spaced := ReplaceAll(tight, MarkGap);
            NoSpaceBefore(tight, SentenceMarks)
            && NoSpaceBefore(spaced, SentenceMarks) && MarksSpaced(spaced)
            && PunctuationSpaced(text) == spaced
  {
    var tight := ReplaceAll(text, SpacesBefore(SentenceMarks));
    SpacesBeforeTight(SentenceMarks, text);
    GappedFromAll(tight, 0);
    StopsJoinIdle(ReplaceAll(tight, MarkGap));
  }

  /** A char that is not whitespace occurs as often in what a text shows as in the text. */
  lemma {:induction false} VisibleCount(s: string, c: char)
    requires !IsSpace(c)
    ensures Count(Visible(s), c) == Count(s, c)
    decreases |s|
  {
    if |s| > 0 {
      var init, x := s[..|s| - 1], s[|s| - 1];
      VisibleCount(init, c);
      assert s == init + [x];
      CountConcat(init, [x], c);
      CountOne(x, c);
      var tail := if IsSpace(x) then [] else [x];
      CountConcat(Visible(init), tail, c);
      if IsSpace(x) {
        assert Count(tail, c) == 0;
      } else {
        CountOne(x, c);
      }
    }
  }

  /** Each match of the three expressions and of the quote pairs keeps what the text shows. */
  lemma MarkGapVisible(s: string)
    ensures forall j :: 0 <= j < |s| && HitAt(MarkGap, s, j) ==>
      Visible(MarkGap(s, j).value.rep) == Visible(s[j..MarkGap(s, j).value.end])
  {
    forall j | 0 <= j < |s| && HitAt(MarkGap, s, j)
      ensures Visible(MarkGap(s, j).value.rep) == Visible(s[j..MarkGap(s, j).value.end])
    {
      assert MarkGap(s, j).value.rep == [s[j]] + " " + [s[j + 1]];
      assert s[j..j + 2] == [s[j]] + [s[j + 1]];
      VisibleGap([s[j]], " ", [s[j + 1]]);
    }
  }

  lemma StopsJoinVisible(s: string)
    ensures forall j :: 0 <= j < |s| && HitAt(StopsJoin, s, j) ==>
      Visible(StopsJoin(s, j).value.rep) == Visible(s[j..StopsJoin(s, j).value.end])
  {
    forall j | 0 <= j < |s| && HitAt(StopsJoin, s, j)
      ensures Visible(StopsJoin(s, j).value.rep) == Visible(s[j..StopsJoin(s, j).value.end])
    {
      var e := RunEnd(s, j + 1, ReSpace);
      RunEndAll(s, j + 1, ReSpace);
      var ws := s[j + 1..e];
      assert forall k :: 0 <= k < |ws| ==> IsSpace(ws[k]);
      assert s[j..e + 1] == [s[j]] + ws + [s[e]];
      VisibleGap([s[j]], ws, [s[e]]);
    }
  }

  lemma QuotePairVisible(q: char, s: string)
    ensures forall j :: 0 <= j < |s| && HitAt(QuotePair(q), s, j) ==>
      Visible(QuotePair(q)(s, j).value.rep) == Visible(s[j..QuotePair(q)(s, j).value.end])
  {
    forall j | 0 <= j < |s| && HitAt(QuotePair(q), s, j)
      ensures Visible(QuotePair(q)(s, j).value.rep) == Visible(s[j..QuotePair(q)(s, j).value.end])
    {
      var e := IndexFrom(s, j + 1, q);
      var inner := s[j + 1..e];
      assert s[j..e + 1] == [q] + inner + [q];
      calc {
        Visible([q] + TrimSpace(inner) + [q]);
      == { VisibleConcat([q] + TrimSpace(inner), [q]); VisibleConcat([q], TrimSpace(inner)); }
        Visible([q]) + Visible(TrimSpace(inner)) + Visible([q]);
      == { TrimVisible(inner); }
        Visible([q]) + Visible(inner) + Visible([q]);
      == { VisibleConcat([q] + inner, [q]); VisibleConcat([q], inner); }
        Visible([q] + inner + [q]);
      }
    }
  }

  /** formatQuotes takes out whitespace only. */
  lemma LegacyFormatQuotesVisible(text: string)
    ensures Visible(LegacyFormatQuotes(text)) == Visible(text)
  {
    var d := ReplaceAll(text, QuotePair('"'));
    QuotePairVisible('"', text);
    PassVisible(text, QuotePair('"'));
    QuotePairVisible('\'', d);
    PassVisible(d, QuotePair('\''));
  }

  /** The three expressions add and take out whitespace only. */
  lemma PunctuationSpacedVisible(text: string)
    ensures Visible(PunctuationSpaced(text)) == Visible(text)
  {
    var tight := ReplaceAll(text, SpacesBefore(SentenceMarks));
    var spaced := ReplaceAll(tight, MarkGap);
    SpacesBeforeTight(SentenceMarks, text);
    MarkGapVisible(tight);
    PassVisible(tight, MarkGap);
    StopsJoinVisible(spaced);
    PassVisible(spaced, StopsJoin);
  }

  /** formatPunctuation keeps every char that is not whitespace, as many times as it occurs. */
  lemma LegacyFormatPunctuationKeeps(text: string, c: char)
    requires !IsSpace(c)
    ensures Count(LegacyFormatPunctuation(text), c) == Count(text, c)
  {
    var quoted := LegacyFormatQuotes(PunctuationSpaced(text));
    PunctuationSpacedVisible(text);
    LegacyFormatQuotesVisible(PunctuationSpaced(text));
    VisibleCount(quoted, c);
    VisibleCount(text, c);
    Spacing.FormatParenthesesKeeps(quoted, c);
  }

  // ---------------------------------------------------------------- fixArticles

  /** \b before a letter at offset i: the text starts there or a non-word char precedes. */
  predicate WordStart(s: string, i: nat)
    requires i <= |s|
  {
    i == 0 || !IsWord(s[i - 1])
  }

  /** The class [aeiouAEIOUhH]. */
  predicate VowelOrH(c: char)
  {
    c in {'a', 'e', 'i', 'o', 'u', 'h', 'A', 'E', 'I', 'O', 'U', 'H'}
  }

  /** The class [bcdfgjklmnpqrstvwxyzBCDFGJKLMNPQRSTVWXYZ]: every letter but the vowels and h. */
  predicate Consonant(c: char)
  {
    IsLetter(c) && !VowelOrH(c)
  }

  /** \b([aA])\s+([aeiouAEIOUhH]) through its callback: "AN " for "A", "an " for "a", then the
      vowel; the whitespace becomes one space. */
  function AnAt(s: string, i: nat): Option<Hit>
  {
    if i < |s| && (s[i] == 'a' || s[i] == 'A') && WordStart(s, i)
       && RunEnd(s, i + 1, ReSpace) > i + 1 && RunEnd(s, i + 1, ReSpace) < |s|
       && VowelOrH(s[RunEnd(s, i + 1, ReSpace)])
    then Some(Hit(RunEnd(s, i + 1, ReSpace) + 1,
                  (if s[i] == 'A' then "AN " else "an ") + [s[RunEnd(s, i + 1, ReSpace)]]))
    else None
  }

  const AnPass: Matcher := AnAt

  /** \b([aA][nN])\s+([consonants]) through its callback. As written the callback tests
      strings.ToUpper(article) == "AN", which every match passes, so the article always
      becomes "A"; with keepCase the article keeps the case of its first letter instead. */
  function AAt(keepCase: bool, s: string, i: nat): Option<Hit>
  {
    if i + 1 < |s| && (s[i] == 'a' || s[i] == 'A') && (s[i + 1] == 'n' || s[i + 1] == 'N')
       && WordStart(s, i)
       && RunEnd(s, i + 2, ReSpace) > i + 2 && RunEnd(s, i + 2, ReSpace) < |s|
       && Consonant(s[RunEnd(s, i + 2, ReSpace)])
    then Some(Hit(RunEnd(s, i + 2, ReSpace) + 1,
                  [if keepCase then s[i] else 'A', ' ', s[RunEnd(s, i + 2, ReSpace)]]))
    else None
  }

  function APass(keepCase: bool): Matcher
  {
    (s: string, i: nat) => AAt(keepCase, s, i)
  }

  /** fixArticles as written. */
  function LegacyFixArticles(text: string): string
  {
    ReplaceAll(ReplaceAll(text, AnPass), APass(false))
  }

  /** fixArticles with the an-to-a callback keeping the article's case. */
  function LegacyFixArticlesFixed(text: string): string
  {
    ReplaceAll(ReplaceAll(text, AnPass), APass(true))
  }

  /** Whitespace holds no char that is not whitespace. */
  lemma SpacesCount(ws: string, c: char)
    requires !IsRegexSpace(c) && forall k :: 0 <= k < |ws| ==> IsRegexSpace(ws[k])
    ensures Count(ws, c) == 0
  {
    CountZero(ws, c);
  }

  /** An article, whitespace and a letter: the counts of the three parts. */
  lemma ArticleMatchCount(s: string, i: nat, a: nat, e: nat, c: char)
    requires i < a < e < |s| && !IsRegexSpace(c)
    requires forall k :: a <= k < e ==> IsRegexSpace(s[k])
    ensures Count(s[i..e + 1], c) == Count(s[i..a], c) + Count([s[e]], c)
  {
    assert s[i..e + 1] == s[i..a] + s[a..e] + [s[e]];
    CountConcat(s[i..a] + s[a..e], [s[e]], c);
    CountConcat(s[i..a], s[a..e], c);
    SpacesCount(s[a..e], c);
  }

  /** The a-to-an pass adds an n or N and turns whitespace into one space; nothing else. */
  lemma AnPassKeeps(s: string, c: char)
    requires c != 'n' && c != 'N' && !IsRegexSpace(c)
    ensures Count(ReplaceAll(s, AnPass), c) == Count(s, c)
  {
    forall j | 0 <= j < |s| && HitAt(AnPass, s, j)
      ensures Count(AnPass(s, j).value.rep, c) == Count(s[j..AnPass(s, j).value.end], c)
    {
      var e := RunEnd(s, j + 1, ReSpace);
      RunEndAll(s, j + 1, ReSpace);
      ArticleMatchCount(s, j, j + 1, e, c);
      var n := if s[j] == 'A' then 'N' else 'n';
      assert AnPass(s, j).value.rep == [s[j]] + [n] + [' '] + [s[e]];
      assert s[j..j + 1] == [s[j]];
      CountConcat([s[j]] + [n] + [' '], [s[e]], c);
      CountConcat([s[j]] + [n], [' '], c);
      CountConcat([s[j]], [n], c);
      CountOne(n, c);
      CountOne(' ', c);
    }
    CountKept(s, 0, AnPass, c);
  }

  /** One match of the an-to-a pass: the article's first letter (or "A"), a space and the
      consonant. */
  lemma APassHitCount(keepCase: bool, s: string, j: nat, c: char)
    requires HitAt(APass(keepCase), s, j)
    requires c != 'n' && c != 'N' && !IsRegexSpace(c)
    requires !keepCase ==> c != 'a' && c != 'A'
    ensures Count(APass(keepCase)(s, j).value.rep, c) == Count(s[j..APass(keepCase)(s, j).value.end], c)
  {
    var e := RunEnd(s, j + 2, ReSpace);
    RunEndAll(s, j + 2, ReSpace);
    ArticleMatchCount(s, j, j + 2, e, c);
    var first := if keepCase then s[j] else 'A';
    assert APass(keepCase)(s, j).value.rep == [first] + [' '] + [s[e]];
    assert s[j..j + 2] == [s[j]] + [s[j + 1]];
    CountConcat([s[j]], [s[j + 1]], c);
    CountOne(s[j], c);
    CountOne(s[j + 1], c);
    CountConcat([first] + [' '], [s[e]], c);
    CountConcat([first], [' '], c);
    CountOne(first, c);
    CountOne(' ', c);
  }

  lemma APassKeeps(keepCase: bool, s: string, c: char)
    requires c != 'n' && c != 'N' && !IsRegexSpace(c)
    requires !keepCase ==> c != 'a' && c != 'A'
    ensures Count(ReplaceAll(s, APass(keepCase)), c) == Count(s, c)
  {
    forall j | 0 <= j < |s| && HitAt(APass(keepCase), s, j)
      ensures Count(APass(keepCase)(s, j).value.rep, c) == Count(s[j..APass(keepCase)(s, j).value.end], c)
    {
      APassHitCount(keepCase, s, j, c);
    }
    CountKept(s, 0, APass(keepCase), c);
  }

  /** As written, fixArticles keeps every char but n, N, whitespace and the article's own a
      or A, which the an-to-a pass may turn into A. */
  lemma LegacyFixArticlesKeeps(text: string, c: char)
    requires c != 'n' && c != 'N' && c != 'a' && c != 'A' && !IsRegexSpace(c)
    ensures Count(LegacyFixArticles(text), c) == Count(text, c)
  {
    AnPassKeeps(text, c);
    APassKeeps(false, ReplaceAll(text, AnPass), c);
  }

  /** With the case kept, fixArticles keeps every char but n, N and whitespace: an article
      only gains or loses its n, and its first letter keeps its case. */
  lemma LegacyFixArticlesFixedKeeps(text: string, c: char)
    requires c != 'n' && c != 'N' && !IsRegexSpace(c)
    ensures Count(LegacyFixArticlesFixed(text), c) == Count(text, c)
  {
    AnPassKeeps(text, c);
    APassKeeps(true, ReplaceAll(text, AnPass), c);
  }

  /** Inside a word no article starts. */
  lemma NoArticleInWord(s: string, from: nat)
    requires 0 < from <= |s|
    requires forall j :: from - 1 <= j < |s| ==> IsLetter(s[j])
    ensures !HasHitFrom(AnPass, s, from)
    ensures forall keepCase :: !HasHitFrom(APass(keepCase), s, from)
  {
    forall j | from <= j < |s| ensures !WordStart(s, j) {
      assert IsLetter(s[j - 1]);
    }
  }

  /** An article with n, one space, then a word of letters starting with a consonant. */
  predicate ArticleThenWord(s: string, w: string)
  {
    |s| == 3 + |w| && s[3..] == w && |w| > 0 && Consonant(w[0])
    && (forall j :: 0 <= j < |w| ==> IsLetter(w[j]))
    && (s[0] == 'a' || s[0] == 'A') && (s[1] == 'n' || s[1] == 'N') && s[2] == ' '
  }

  lemma ArticleThenLetters(s: string, w: string)
    requires ArticleThenWord(s, w)
    ensures forall j :: 3 <= j < |s| ==> IsLetter(s[j])
    ensures RunEnd(s, 1, ReSpace) == 1 && RunEnd(s, 2, ReSpace) == 3 && RunEnd(s, 3, ReSpace) == 3
  {
    forall j | 3 <= j < |s| ensures IsLetter(s[j]) { assert s[j] == w[j - 3]; }
  }

  /** There the a-to-an pass finds nothing ... */
  lemma AnPassIdle(s: string, w: string)
    requires ArticleThenWord(s, w)
    ensures ReplaceAll(s, AnPass) == s
  {
    ArticleThenLetters(s, w);
    NoArticleInWord(s, 4);
    assert !HitAt(AnPass, s, 0) && !HitAt(AnPass, s, 1) && !HitAt(AnPass, s, 2) && !HitAt(AnPass, s, 3);
    NoHitIdentity(s, 0, AnPass);
  }

  /** ... and the an-to-a pass rewrites the article alone. */
  lemma APassRewrites(keepCase: bool, s: string, w: string)
    requires ArticleThenWord(s, w)
    ensures ReplaceAll(s, APass(keepCase)) == [if keepCase then s[0] else 'A', ' '] + w
  {
    ArticleThenLetters(s, w);
    NoArticleInWord(s, 4);
    NoHitIdentity(s, 4, APass(keepCase));
    assert APass(keepCase)(s, 0) == Some(Hit(4, [if keepCase then s[0] else 'A', ' ', s[3]]));
    assert [s[3]] + s[4..] == w;
  }

  lemma ArticlePasses(keepCase: bool, s: string, w: string)
    requires ArticleThenWord(s, w)
    ensures ReplaceAll(ReplaceAll(s, AnPass), APass(keepCase)) == [if keepCase then s[0] else 'A', ' '] + w
  {
    AnPassIdle(s, w);
    APassRewrites(keepCase, s, w);
  }

  /** As written, a lower-case "an" before a consonant comes out as an upper-case "A". */
  lemma ArticleCaseLost(w: string)
    requires |w| > 0 && Consonant(w[0]) && forall j :: 0 <= j < |w| ==> IsLetter(w[j])
    ensures LegacyFixArticles("an " + w) == "A " + w
  {
    var s := "an " + w;
    assert s[3..] == w;
    assert ArticleThenWord(s, w);
    ArticlePasses(false, s, w);
  }

  /** With the case kept, "an" before a consonant becomes "a", and "An" becomes "A". */
  lemma ArticleCaseKept(w: string)
    requires |w| > 0 && Consonant(w[0]) && forall j :: 0 <= j < |w| ==> IsLetter(w[j])
    ensures LegacyFixArticlesFixed("an " + w) == "a " + w
    ensures LegacyFixArticlesFixed("An " + w) == "A " + w
  {
    var s, t := "an " + w, "An " + w;
    assert s[3..] == w && t[3..] == w;
    assert ArticleThenWord(s, w) && ArticleThenWord(t, w);
    ArticlePasses(true, s, w);
    ArticlePasses(true, t, w);
  }
}
