/** The numbered case applier of processor/transformations.go: the words of the marker's
    own line before it are rewritten in place, and the marker is cut out. */
module Numbered {

  import opened Wrappers
  import opened Text
  import opened Numbers
  import opened Rewrite
  import opened WordScan
  import opened WordList
  import opened Splicing
  import opened Markers
  import opened Scanner
  import opened Casing

  /** \b[a-zA-Z0-9_]+\b at offset i: a run of word chars that starts at i, taken whole. */
  function WordRunAt(): Matcher
  {
    (s: string, i: nat) =>
      if i < |s| && IsWord(s[i]) && (i == 0 || !IsWord(s[i - 1])) then Some(Hit(RunEnd(s, i, Word), "")) else None
  }

  /** The run of word chars that starts st bytes into the line text[ls..pos], as a found
      word with offsets into the whole text. */
  function RunFound(text: string, ls: nat, pos: nat, st: nat): Found
    requires ls <= pos <= |text| && st <= pos - ls
  {
    var line := text[ls..pos];
    var e := RunEnd(line, st, Word);
    Found(line[st..e], ls + st, ls + e, false, '\0')
  }

  /** f is a maximal non-empty run of word chars of text[ls..pos], unquoted. */
  predicate LineRun(text: string, ls: nat, pos: nat, f: Found)
  {
    ls <= f.start < f.end <= pos <= |text|
    && text[f.start..f.end] == f.word && !f.quoted
    && (forall k :: f.start <= k < f.end ==> IsWord(text[k]))
    && (f.start == ls || !IsWord(text[f.start - 1]))
    && (f.end == pos || !IsWord(text[f.end]))
  }

  /** Where \b[a-zA-Z0-9_]+\b matches in the line, RunFound is that match. */
  lemma RunFoundIsRun(text: string, ls: nat, pos: nat, st: nat)
    requires ls <= pos <= |text| && HitAt(WordRunAt(), text[ls..pos], st)
    ensures LineRun(text, ls, pos, RunFound(text, ls, pos, st))
    ensures RunFound(text, ls, pos, st).end == ls + WordRunAt()(text[ls..pos], st).value.end
  {
    var line := text[ls..pos];
    RunEndAll(line, st, Word);
    var e := RunEnd(line, st, Word);
    SliceOfSlice(text, ls, pos, st, e);
    RunFoundEdges(text, ls, pos, st, e);
    var f := RunFound(text, ls, pos, st);
    assert f.word == text[f.start..f.end] && f.start == ls + st && f.end == ls + e && !f.quoted;
  }

  /** The chars of a run of the line, and its two neighbours, are the text's. */
  lemma RunFoundEdges(text: string, ls: nat, pos: nat, st: nat, e: nat)
    requires ls <= pos <= |text| && st < e <= pos - ls
    requires forall k :: st <= k < e ==> IsWord(text[ls..pos][k])
    requires st == 0 || !IsWord(text[ls..pos][st - 1])
    requires e == pos - ls || !IsWord(text[ls..pos][e])
    ensures forall k :: ls + st <= k < ls + e ==> IsWord(text[k])
    ensures ls + st == ls || !IsWord(text[ls + st - 1])
    ensures ls + e == pos || !IsWord(text[ls + e])
  {
    var line := text[ls..pos];
    forall k | ls + st <= k < ls + e ensures IsWord(text[k]) {
      assert text[k] == line[k - ls];
    }
    if st > 0 {
      assert text[ls + st - 1] == line[st - 1];
    }
    if ls + e < pos {
      assert text[ls + e] == line[e];
    }
  }

  /** The runs of the line that start at the given offsets, in their order. */
  function RunsAt(text: string, ls: nat, pos: nat, sts: seq<nat>): (r: seq<Found>)
    requires ls <= pos <= |text| && forall k :: 0 <= k < |sts| ==> sts[k] <= pos - ls
    ensures |r| == |sts|
  {
    if |sts| == 0 then [] else [RunFound(text, ls, pos, sts[0])] + RunsAt(text, ls, pos, sts[1..])
  }

  lemma {:induction false} RunsAtIndex(text: string, ls: nat, pos: nat, sts: seq<nat>, i: nat)
    requires ls <= pos <= |text| && forall k :: 0 <= k < |sts| ==> sts[k] <= pos - ls
    requires i < |sts|
    ensures RunsAt(text, ls, pos, sts)[i] == RunFound(text, ls, pos, sts[i])
  {
    if i > 0 {
      RunsAtIndex(text, ls, pos, sts[1..], i - 1);
    }
  }

  /** The offsets of all matches of \b[a-zA-Z0-9_]+\b in the line that ends at pos. */
  function LineMatches(text: string, pos: nat): (r: seq<nat>)
    requires pos <= |text|
    ensures forall k :: 0 <= k < |r| ==> r[k] < pos - LineStart(text, pos)
  {
    FindAllFrom(WordRunAt(), text[LineStart(text, pos)..pos], 0)
  }

  /** The index of the first match taken: len(matches) - count, at least 0. */
  function StartIndex(n: nat, count: int): (r: nat)
    ensures r >= n - count && (n >= count ==> r == n - count)
  {
    if n - count < 0 then 0 else n - count
  }

  /** The words of the line that ends at pos: the last count runs of word chars between the
      last newline before pos and pos (none when count is not positive). */
  function WordsInLine(text: string, pos: nat, count: int): (r: seq<Found>)
    requires pos <= |text|
  {
    var ms := LineMatches(text, pos);
    var from := StartIndex(|ms|, count);
    if from >= |ms| then [] else RunsAt(text, LineStart(text, pos), pos, ms[from..])
  }

  /** Word i of the line is the run at match StartIndex + i. */
  lemma WordsInLineAt(text: string, pos: nat, count: int, i: nat)
    requires pos <= |text| && i < |WordsInLine(text, pos, count)|
    ensures StartIndex(|LineMatches(text, pos)|, count) + i < |LineMatches(text, pos)|
    ensures WordsInLine(text, pos, count)[i]
            == RunFound(text, LineStart(text, pos), pos, LineMatches(text, pos)[StartIndex(|LineMatches(text, pos)|, count) + i])
  {
    var ms := LineMatches(text, pos);
    var from := StartIndex(|ms|, count);
    RunsAtIndex(text, LineStart(text, pos), pos, ms[from..], i);
    assert ms[from..][i] == ms[from + i];
  }

  /** Each word taken is a maximal run of word chars of its line, left of pos, and the words
      are in text order; there are at most count of them. */
  lemma WordsInLineAreRuns(text: string, pos: nat, count: int)
    requires pos <= |text|
    ensures var r := WordsInLine(text, pos, count);
            |r| <= (if count < 0 then 0 else count)
            && (forall i :: 0 <= i < |r| ==> LineRun(text, LineStart(text, pos), pos, r[i]))
            && (forall i :: 0 <= i < |r| - 1 ==> r[i].end <= r[i + 1].start)
  {
    var ls := LineStart(text, pos);
    var ms := LineMatches(text, pos);
    var r := WordsInLine(text, pos, count);
    var from := StartIndex(|ms|, count);
    forall i | 0 <= i < |r| ensures LineRun(text, ls, pos, r[i]) {
      WordsInLineAt(text, pos, count, i);
      RunFoundIsRun(text, ls, pos, ms[from + i]);
    }
    forall i | 0 <= i < |r| - 1 ensures r[i].end <= r[i + 1].start {
      WordsInLineAt(text, pos, count, i);
      WordsInLineAt(text, pos, count, i + 1);
      RunFoundIsRun(text, ls, pos, ms[from + i]);
    }
  }

  /** The words of a numbered marker rewritten right to left from index i on: word j is
      replaced by its transformation, which has its length, so no offset moves. */
  function SpliceFrom(text: string, fs: seq<Found>, caseType: string, i: nat): (r: string)
    requires i <= |fs| && Spliceable(text, fs)
    ensures |r| == |text|
    decreases |fs| - i
  {
    if i == |fs| then text
    else
      var r := SpliceFrom(text, fs, caseType, i + 1);
      r[..fs[i].start] + CaseOf(caseType, fs[i].word) + r[fs[i].end..]
  }

  /** Spans that hold words of their own length, inside the text, in text order. */
  predicate Spliceable(text: string, fs: seq<Found>)
  {
    (forall j :: 0 <= j < |fs| ==> 0 <= fs[j].start && fs[j].start + |fs[j].word| == fs[j].end <= |text|)
    && (forall j :: 0 <= j < |fs| - 1 ==> fs[j].end <= fs[j + 1].start)
  }

  /** Span i is the only one that step i of the splice rewrites. */
  lemma SpliceStep(text: string, fs: seq<Found>, caseType: string, i: nat, k: nat)
    requires i < |fs| && k < |text| && Spliceable(text, fs)
    ensures SpliceFrom(text, fs, caseType, i)[k]
            == if fs[i].start <= k < fs[i].end then CaseOf(caseType, fs[i].word)[k - fs[i].start]
               else SpliceFrom(text, fs, caseType, i + 1)[k]
  {
    var r := SpliceFrom(text, fs, caseType, i + 1);
    SpliceIndex(r, fs[i].start, fs[i].end, CaseOf(caseType, fs[i].word), k);
  }

  /** A byte outside every span from i on is unchanged. */
  lemma {:induction false} SpliceOutside(text: string, fs: seq<Found>, caseType: string, i: nat, k: nat)
    requires i <= |fs| && k < |text| && Spliceable(text, fs)
    requires forall j :: i <= j < |fs| ==> !(fs[j].start <= k < fs[j].end)
    ensures SpliceFrom(text, fs, caseType, i)[k] == text[k]
    decreases |fs| - i
  {
    if i < |fs| {
      SpliceOutside(text, fs, caseType, i + 1, k);
      SpliceStep(text, fs, caseType, i, k);
    }
  }

  /** A byte inside span j is the transformed word's. */
  lemma {:induction false} SpliceInside(text: string, fs: seq<Found>, caseType: string, i: nat, j: nat, k: nat)
    requires i <= j < |fs| && Spliceable(text, fs)
    requires fs[j].start <= k < fs[j].end
    ensures SpliceFrom(text, fs, caseType, i)[k] == CaseOf(caseType, fs[j].word)[k - fs[j].start]
    decreases |fs| - i
  {
    SpliceStep(text, fs, caseType, i, k);
    if j != i {
      SpliceInside(text, fs, caseType, i + 1, j, k);
      SpansChain(fs, i, j);
    }
  }

  lemma {:induction false} SpansChain(fs: seq<Found>, i: nat, j: nat)
    requires i < j < |fs|
    requires forall j :: 0 <= j < |fs| ==> fs[j].start <= fs[j].end
    requires forall j :: 0 <= j < |fs| - 1 ==> fs[j].end <= fs[j + 1].start
    ensures fs[i].end <= fs[j].start
    decreases j - i
  {
    if j > i + 1 {
      SpansChain(fs, i, j - 1);
    }
  }

  /** The command and count of the first numbered marker of a pattern text, as
      FindStringSubmatch reports them. */
  function NumberedParts(pattern: string): (r: Option<(Command, string)>)
    ensures r.Some? ==> IsCase(r.value.0)
  {
    var first := FirstOf(pattern, true);
    if first.None? then None
    else
      FinderHit(pattern, first.value, true);
      var m := MarkerAt(pattern, first.value, true).value;
      Some((m.command, m.count.value))
  }

  lemma WordsInLineFit(text: string, pos: nat, count: int)
    requires pos <= |text|
    ensures Spliceable(text, WordsInLine(text, pos, count))
  {
    WordsInLineAreRuns(text, pos, count);
  }

  /** The body of processNumberedCasePattern once the marker is parsed: with a count of
      at least 1, the last count words of the line are transformed in place; the marker
      text is then cut at position. */
  function CaseInLine(text: string, pattern: string, position: nat, caseType: string, count: int): (r: string)
    requires position + |pattern| <= |text|
    ensures |r| == |text| - |pattern|
  {
    if count <= 0 then RemovePatternAt(text, pattern, position)
    else
      var fs := WordsInLine(text, position, count);
      if |fs| == 0 then RemovePatternAt(text, pattern, position)
      else
        WordsInLineFit(text, position, count);
        RemovePatternAt(SpliceFrom(text, fs, caseType, 0), pattern, position)
  }

  /** processNumberedCasePattern: the command and count of the marker, then CaseInLine;
      a pattern that does not parse is only cut out. */
  function NumberedCase(text: string, pattern: string, position: nat): string
    requires position + |pattern| <= |text|
  {
    var parts := NumberedParts(pattern);
    if parts.None? then RemovePatternAt(text, pattern, position)
    else CaseInLine(text, pattern, position, Name(parts.value.0), Atoi(parts.value.1))
  }

  /** findWordsBeforeInLine: the runs of the line, the last count of them appended in order. */
  method FindWordsBeforeInLine(text: string, patternPos: nat, count: int)
    returns (words: seq<string>, positions: seq<(int, int)>, quotedFlags: seq<bool>, quoteChars: seq<char>)
    requires patternPos <= |text|
    ensures words == WordsOf(WordsInLine(text, patternPos, count))
    ensures positions == SpansOf(WordsInLine(text, patternPos, count))
    ensures quotedFlags == QuotedOf(WordsInLine(text, patternPos, count))
    ensures quoteChars == QuoteCharsOf(WordsInLine(text, patternPos, count))
  {
    ghost var fs := WordsInLine(text, patternPos, count);
    var lineStart := LineStart(text, patternPos);
    var lineText := text[lineStart..patternPos];
    var matches := FindAllFrom(WordRunAt(), lineText, 0);
    assert matches == LineMatches(text, patternPos);
    var startIdx := |matches| - count;
    if startIdx < 0 {
      startIdx := 0;
    }
    words, positions, quotedFlags, quoteChars := [], [], [], [];
    ghost var done: seq<Found> := [];
    var i := startIdx;
    while i < |matches|
      invariant startIdx <= i && (i <= |matches| || i == startIdx)
      invariant |done| == i - startIdx <= |fs|
      invariant startIdx < |matches| ==> |fs| == |matches| - startIdx
      invariant startIdx >= |matches| ==> fs == []
      invariant done == fs[..|done|]
      invariant words == WordsOf(done) && positions == SpansOf(done)
      invariant quotedFlags == QuotedOf(done) && quoteChars == QuoteCharsOf(done)
    {
      var f := RunFound(text, lineStart, patternPos, matches[i]);
      WordsInLineAt(text, patternPos, count, i - startIdx);
      TakeSnoc(fs, |done|);
      words, positions, quotedFlags, quoteChars := AppendRun(f, words, positions, quotedFlags, quoteChars, done);
      done := done + [f];
      i := i + 1;
    }
    assert done == fs;
  }

  /** The appends of one iteration of findWordsBeforeInLine, one per column; a run of word
      chars holds no quote, so it is recorded as unquoted. */
  method AppendRun(f: Found, words: seq<string>, positions: seq<(int, int)>, quotedFlags: seq<bool>, quoteChars: seq<char>, ghost done: seq<Found>)
    returns (words': seq<string>, positions': seq<(int, int)>, quotedFlags': seq<bool>, quoteChars': seq<char>)
    requires !f.quoted && f.quoteChar == '\0'
    requires words == WordsOf(done) && positions == SpansOf(done)
    requires quotedFlags == QuotedOf(done) && quoteChars == QuoteCharsOf(done)
    ensures words' == WordsOf(done + [f]) && positions' == SpansOf(done + [f])
    ensures quotedFlags' == QuotedOf(done + [f]) && quoteChars' == QuoteCharsOf(done + [f])
  {
    ColumnsAppend(done, f);
    words' := words + [f.word];
    positions' := positions + [(f.start, f.end)];
    quotedFlags' := quotedFlags + [false];
    quoteChars' := quoteChars + ['\0'];
  }

  lemma TakeSnoc<T>(s: seq<T>, n: nat)
    requires n < |s|
    ensures s[..n + 1] == s[..n] + [s[n]]
  {
  }

  /** Appending a span appends one entry to each column. */
  lemma ColumnsAppend(done: seq<Found>, f: Found)
    ensures WordsOf(done + [f]) == WordsOf(done) + [f.word]
    ensures SpansOf(done + [f]) == SpansOf(done) + [(f.start, f.end)]
    ensures QuotedOf(done + [f]) == QuotedOf(done) + [f.quoted]
    ensures QuoteCharsOf(done + [f]) == QuoteCharsOf(done) + [f.quoteChar]
  {
  }

  /** processNumberedCasePattern: the words transformed first, then spliced in from the
      rightmost to the leftmost, then the marker cut out. */
  method ProcessNumberedCasePattern(text: string, pattern: string, position: nat) returns (result: string)
    requires position + |pattern| <= |text|
    ensures result == NumberedCase(text, pattern, position)
  {
    var parts := NumberedParts(pattern);
    if parts.Some? {
      result := ApplyInLine(text, pattern, position, Name(parts.value.0), Atoi(parts.value.1));
    } else {
      result := RemovePatternAt(text, pattern, position);
    }
  }

  /** The part of processNumberedCasePattern after the marker is parsed. */
  method ApplyInLine(text: string, pattern: string, position: nat, caseType: string, count: int) returns (result: string)
    requires position + |pattern| <= |text|
    ensures result == CaseInLine(text, pattern, position, caseType, count)
  {
    if count <= 0 {
      return RemovePatternAt(text, pattern, position);
    }
    var words, positions, _, _ := FindWordsBeforeInLine(text, position, count);
    if |words| > 0 {
      ghost var fs := WordsInLine(text, position, count);
      WordsInLineFit(text, position, count);
      var transformedWords := TransformWords(words, caseType);
      result := SpliceBack(text, positions, transformedWords, fs, caseType);
      return RemovePatternAt(result, pattern, position);
    }
    return RemovePatternAt(text, pattern, position);
  }

  /** The first loop of processNumberedCasePattern: the switch on the case type, word by word. */
  method TransformWords(words: seq<string>, caseType: string) returns (transformedWords: seq<string>)
    ensures |transformedWords| == |words|
    ensures forall k :: 0 <= k < |words| ==> transformedWords[k] == CaseOf(caseType, words[k])
  {
    transformedWords := [];
    for i := 0 to |words|
      invariant |transformedWords| == i
      invariant forall k :: 0 <= k < i ==> transformedWords[k] == CaseOf(caseType, words[k])
    {
      transformedWords := transformedWords + [CaseOf(caseType, words[i])];
    }
  }

  /** The second loop of processNumberedCasePattern: each transformed word written over its
      span, from the last span to the first. */
  method SpliceBack(text: string, positions: seq<(int, int)>, transformedWords: seq<string>, ghost fs: seq<Found>, caseType: string)
    returns (result: string)
    requires Spliceable(text, fs) && positions == SpansOf(fs)
    requires |transformedWords| == |fs| && forall k :: 0 <= k < |fs| ==> transformedWords[k] == CaseOf(caseType, fs[k].word)
    ensures result == SpliceFrom(text, fs, caseType, 0)
  {
    result := text;
    var i := |positions|;
    while i > 0
      invariant 0 <= i <= |fs|
      invariant result == SpliceFrom(text, fs, caseType, i)
    {
      i := i - 1;
      var wordStart: nat := positions[i].0;
      var wordEnd: nat := positions[i].1;
      result := result[..wordStart] + transformedWords[i] + result[wordEnd..];
    }
  }

  /** Splicing the words in and cutting the marker out after them leaves each word's
      transformation in its span. */
  lemma SpliceWord(text: string, fs: seq<Found>, caseType: string, pattern: string, position: nat, j: nat)
    requires Spliceable(text, fs) && j < |fs| && fs[j].end <= position && position + |pattern| <= |text|
    ensures RemovePatternAt(SpliceFrom(text, fs, caseType, 0), pattern, position)[fs[j].start..fs[j].end]
            == CaseOf(caseType, fs[j].word)
  {
    SpliceWordAll(text, fs, caseType, pattern, position, j);
    SliceIs(RemovePatternAt(SpliceFrom(text, fs, caseType, 0), pattern, position), fs[j].start, fs[j].end, CaseOf(caseType, fs[j].word));
  }

  lemma SpliceWordAll(text: string, fs: seq<Found>, caseType: string, pattern: string, position: nat, j: nat)
    requires Spliceable(text, fs) && j < |fs| && fs[j].end <= position && position + |pattern| <= |text|
    ensures fs[j].start <= fs[j].end <= |RemovePatternAt(SpliceFrom(text, fs, caseType, 0), pattern, position)|
    ensures |CaseOf(caseType, fs[j].word)| == fs[j].end - fs[j].start
    ensures forall k :: fs[j].start <= k < fs[j].end ==>
              RemovePatternAt(SpliceFrom(text, fs, caseType, 0), pattern, position)[k] == CaseOf(caseType, fs[j].word)[k - fs[j].start]
  {
    forall k | fs[j].start <= k < fs[j].end
      ensures RemovePatternAt(SpliceFrom(text, fs, caseType, 0), pattern, position)[k] == CaseOf(caseType, fs[j].word)[k - fs[j].start]
    {
      SpliceWordAt(text, fs, caseType, pattern, position, j, k);
    }
  }

  lemma SpliceWordAt(text: string, fs: seq<Found>, caseType: string, pattern: string, position: nat, j: nat, k: nat)
    requires Spliceable(text, fs) && j < |fs| && fs[j].end <= position && position + |pattern| <= |text|
    requires fs[j].start <= k < fs[j].end
    ensures RemovePatternAt(SpliceFrom(text, fs, caseType, 0), pattern, position)[k]
            == CaseOf(caseType, fs[j].word)[k - fs[j].start]
  {
    SpliceInside(text, fs, caseType, 0, j, k);
    RemoveKeeps(SpliceFrom(text, fs, caseType, 0), pattern, position, k);
  }

  /** ... and every other byte before the marker as it was. */
  lemma SpliceKeeps(text: string, fs: seq<Found>, caseType: string, pattern: string, position: nat, k: nat)
    requires Spliceable(text, fs) && k < position && position + |pattern| <= |text|
    requires forall j :: 0 <= j < |fs| ==> !(fs[j].start <= k < fs[j].end)
    ensures RemovePatternAt(SpliceFrom(text, fs, caseType, 0), pattern, position)[k] == text[k]
  {
    var t := SpliceFrom(text, fs, caseType, 0);
    SpliceOutside(text, fs, caseType, 0, k);
    RemoveKeeps(t, pattern, position, k);
  }

  /** ... and the text after the marker as it was, when every span ends before it. */
  lemma SpliceTail(text: string, fs: seq<Found>, caseType: string, pattern: string, position: nat)
    requires Spliceable(text, fs) && position + |pattern| <= |text|
    requires forall j :: 0 <= j < |fs| ==> fs[j].end <= position
    ensures RemovePatternAt(SpliceFrom(text, fs, caseType, 0), pattern, position)[position..] == text[position + |pattern|..]
  {
    var t := SpliceFrom(text, fs, caseType, 0);
    var r := RemovePatternAt(t, pattern, position);
    assert r == t[..position] + t[position + |pattern|..];
    forall k | position + |pattern| <= k < |text| ensures t[k] == text[k] {
      SpliceOutside(text, fs, caseType, 0, k);
    }
    assert r[position..] == t[position + |pattern|..];
  }

  /** With a positive count, each of the last count words of the line becomes its
      transformation in place. */
  lemma CaseInLineWord(text: string, pattern: string, position: nat, caseType: string, count: int, j: nat)
    requires position + |pattern| <= |text| && count > 0
    requires j < |WordsInLine(text, position, count)|
    ensures var f := WordsInLine(text, position, count)[j];
            LineRun(text, LineStart(text, position), position, f)
            && CaseInLine(text, pattern, position, caseType, count)[f.start..f.end] == CaseOf(caseType, f.word)
  {
    var fs := WordsInLine(text, position, count);
    WordsInLineAt(text, position, count, j);
    RunFoundIsRun(text, LineStart(text, position), position, LineMatches(text, position)[StartIndex(|LineMatches(text, position)|, count) + j]);
    WordsInLineFit(text, position, count);
    SpliceWord(text, fs, caseType, pattern, position, j);
  }

  /** Every byte before the marker outside the words taken is kept. */
  lemma CaseInLineKeeps(text: string, pattern: string, position: nat, caseType: string, count: int, k: nat)
    requires position + |pattern| <= |text| && k < position
    requires forall j :: 0 <= j < |WordsInLine(text, position, count)| ==>
               !(WordsInLine(text, position, count)[j].start <= k < WordsInLine(text, position, count)[j].end)
    ensures CaseInLine(text, pattern, position, caseType, count)[k] == text[k]
  {
    var fs := WordsInLine(text, position, count);
    if count > 0 && |fs| > 0 {
      WordsInLineFit(text, position, count);
      SpliceKeeps(text, fs, caseType, pattern, position, k);
    } else {
      var r := CaseInLine(text, pattern, position, caseType, count);
      assert r[k] == r[..position][k];
    }
  }

  /** What follows the marker is kept. */
  lemma CaseInLineTail(text: string, pattern: string, position: nat, caseType: string, count: int)
    requires position + |pattern| <= |text|
    ensures CaseInLine(text, pattern, position, caseType, count)[position..] == text[position + |pattern|..]
  {
    var fs := WordsInLine(text, position, count);
    if count > 0 && |fs| > 0 {
      WordsInLineFit(text, position, count);
      WordsInLineAreRuns(text, position, count);
      SpliceTail(text, fs, caseType, pattern, position);
    }
  }

  /** A count of zero or below, or a line without words, only cuts the marker out. */
  lemma CaseInLineOnlyCuts(text: string, pattern: string, position: nat, caseType: string, count: int)
    requires position + |pattern| <= |text|
    requires count <= 0 || WordsInLine(text, position, count) == []
    ensures CaseInLine(text, pattern, position, caseType, count) == text[..position] + text[position + |pattern|..]
  {
  }

  /** A pattern parses exactly when it holds a numbered marker, and then it is the first
      one that is read. */
  lemma NumberedPartsFound(pattern: string)
    ensures NumberedParts(pattern).None? <==> forall j :: 0 <= j < |pattern| ==> MarkerAt(pattern, j, true).None?
    ensures NumberedParts(pattern).Some? ==>
              exists j :: 0 <= j < |pattern| && MarkerAt(pattern, j, true).Some?
                 && MarkerAt(pattern, j, true).value.command == NumberedParts(pattern).value.0
                 && MarkerAt(pattern, j, true).value.count == Some(NumberedParts(pattern).value.1)
                 && forall i :: 0 <= i < j ==> MarkerAt(pattern, i, true).None?
  {
    FirstOfLeast(pattern, true);
    if NumberedParts(pattern).Some? {
      var j := FirstOf(pattern, true).value;
      FinderHit(pattern, j, true);
    }
  }
}
