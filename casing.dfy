/** The case applier of processor/transformations.go: the words found before a case
    marker are rewritten in upper, lower or title case, and the marker is cut out. */
module Casing {

  import opened Wrappers
  import opened Text
  import opened WordScan
  import opened WordList
  import opened Splicing

  /** The switch of processCaseAtPosition: up, cap and low; any other type keeps the word. */
  function CaseOf(caseType: string, w: string): (r: string)
    ensures |r| == |w|
  {
    if caseType == "up" then Upper(w)
    else if caseType == "cap" then (CapitalizeLaws(w); Capitalize(w))
    else if caseType == "low" then Lower(w)
    else w
  }

  /** Each transformation is idempotent. */
  lemma CaseOfIdempotent(caseType: string, w: string)
    ensures CaseOf(caseType, CaseOf(caseType, w)) == CaseOf(caseType, w)
  {
    UpperLowerIdempotent(w);
    CapitalizeLaws(w);
  }

  /** A found word written back: inside its parentheses or between its two quote chars when
      it was enclosed, bare otherwise. */
  function Wrap(f: Found, w: string): (r: string)
    ensures !f.quoted ==> r == w
    ensures f.quoted ==> |r| == |w| + 2 && r[1..|r| - 1] == w
  {
    if f.quoted then
      (if f.quoteChar == '(' then "(" + w + ")" else [f.quoteChar] + w + [f.quoteChar])
    else w
  }

  function CaseWords(fs: seq<Found>, caseType: string): (r: seq<string>)
    ensures |r| == |fs| && forall i :: 0 <= i < |fs| ==> r[i] == Wrap(fs[i], CaseOf(caseType, fs[i].word))
  {
    seq(|fs|, i requires 0 <= i < |fs| => Wrap(fs[i], CaseOf(caseType, fs[i].word)))
  }

  /** Found spans as offsets (they are never -1 for a found word). */
  function NatSpans(ps: seq<(int, int)>): (r: seq<(nat, nat)>)
    requires forall i :: 0 <= i < |ps| ==> ps[i].0 >= 0 && ps[i].1 >= 0
    ensures |r| == |ps| && forall i :: 0 <= i < |ps| ==> r[i].0 == ps[i].0 && r[i].1 == ps[i].1
  {
    seq(|ps|, i requires 0 <= i < |ps| => (ps[i].0 as nat, ps[i].1 as nat))
  }

  /** Spans of found words that end at or before pos, in text order without overlapping. */
  predicate FitsBefore(fs: seq<Found>, pos: nat)
  {
    (forall i :: 0 <= i < |fs| ==> 0 <= fs[i].start < fs[i].end <= pos) && InOrder(fs)
  }

  /** The spans findWordsBefore reports fit before the marker. */
  lemma WordsBeforeFit(text: string, pos: nat, count: int)
    requires pos <= |text|
    ensures FitsBefore(WordsBefore(text, pos, count), pos)
  {
    WordsBeforeOrdered(text, pos, count);
  }

  /** Spans that fit before the marker can be spliced back. */
  lemma SpansFit(text: string, pos: nat, fs: seq<Found>, caseType: string, patternLen: nat)
    requires pos + patternLen <= |text| && FitsBefore(fs, pos)
    ensures ReconstructOk(text, NatSpans(SpansOf(fs)), CaseWords(fs, caseType), pos, patternLen)
  {
  }

  /** The text processCaseAtPosition writes for the words fs found before the marker. */
  function CaseWith(text: string, pos: nat, caseType: string, count: int, fs: seq<Found>): string
    requires pos + GetPatternLength(caseType, count) <= |text| && FitsBefore(fs, pos)
  {
    var n := GetPatternLength(caseType, count);
    if |fs| > 0 then
      SpansFit(text, pos, fs, caseType, n);
      ReconstructWithWords(text, NatSpans(SpansOf(fs)), CaseWords(fs, caseType), pos, n)
    else RemovePatternAt(text, CaseMarker(caseType, count), pos)
  }

  /** processCaseAtPosition: the words found before the marker, transformed and written back
      inside their enclosures, then getPatternLength bytes cut at pos; with no word, the
      marker text rebuilt from the type and count is cut. */
  function CaseAt(text: string, pos: nat, caseType: string, count: int): string
    requires pos + GetPatternLength(caseType, count) <= |text|
  {
    WordsBeforeFit(text, pos, count);
    CaseWith(text, pos, caseType, count, WordsBefore(text, pos, count))
  }

  method ProcessCaseAtPosition(text: string, pos: nat, caseType: string, count: int) returns (result: string)
    requires pos + GetPatternLength(caseType, count) <= |text|
    ensures result == CaseAt(text, pos, caseType, count)
  {
    var words, positions, quotedFlags, quoteChars := FindWordsBefore(text, pos, count);
    ghost var fs := WordsBefore(text, pos, count);
    WordsBeforeFit(text, pos, count);
    if |words| > 0 {
      var transformed := TransformFound(words, positions, quotedFlags, quoteChars, fs, caseType);
      var n := GetPatternLength(caseType, count);
      SpansFit(text, pos, fs, caseType, n);
      result := ReconstructTextWithTransformedWords(text, NatSpans(positions), transformed, pos, n);
    } else {
      result := RemovePatternAt(text, CaseMarker(caseType, count), pos);
    }
  }

  /** The loop of processCaseAtPosition that transforms each word, with the enclosure each
      word is written back in. */
  method TransformFound(words: seq<string>, positions: seq<(int, int)>, quotedFlags: seq<bool>, quoteChars: seq<char>,
                        ghost fs: seq<Found>, caseType: string) returns (transformed: seq<string>)
    requires words == WordsOf(fs) && positions == SpansOf(fs)
    requires quotedFlags == QuotedOf(fs) && quoteChars == QuoteCharsOf(fs)
    ensures transformed == CaseWords(fs, caseType)
  {
    transformed := [];
    for i := 0 to |words|
      invariant |transformed| == i
      invariant forall k :: 0 <= k < i ==> transformed[k] == Wrap(fs[k], CaseOf(caseType, fs[k].word))
    {
      var f := Found(words[i], positions[i].0, positions[i].1, quotedFlags[i], quoteChars[i]);
      assert f == fs[i];
      transformed := transformed + [Wrap(f, CaseOf(caseType, words[i]))];
    }
  }

  /** One span: the text before it, the word, the gap up to the marker, the text after it. */
  lemma ReconstructSingle(text: string, p: (nat, nat), w: string, pos: nat, n: nat)
    requires p.0 <= p.1 <= pos && pos + n <= |text|
    ensures ReconstructOk(text, [p], [w], pos, n)
    ensures ReconstructWithWords(text, [p], [w], pos, n) == text[..p.0] + w + text[p.1..pos] + text[pos + n..]
  {
    assert Rebuilt(text, [p], [w], 0) == w + "" + Rebuilt(text, [p], [w], 1);
  }

  /** With count 1: the text before the word, the word transformed in its enclosure, the
      text up to the marker, and the text after the first |caseType| + 2 bytes of it. */
  lemma CaseAtSingle(text: string, pos: nat, caseType: string)
    requires pos + |caseType| + 2 <= |text|
    requires WordBefore(text, pos).word != ""
    ensures var f := WordBefore(text, pos);
            CaseAt(text, pos, caseType, 1)
            == text[..f.start] + Wrap(f, CaseOf(caseType, f.word)) + text[f.end..pos] + text[pos + |caseType| + 2..]
  {
    OneWordBefore(text, pos);
    WordsBeforeFit(text, pos, 1);
    CaseWithOne(text, pos, caseType, WordBefore(text, pos));
  }

  /** A lookup of one word finds the word before the offset, when there is one. */
  lemma OneWordBefore(text: string, pos: nat)
    requires pos <= |text| && WordBefore(text, pos).word != ""
    ensures WordsBefore(text, pos, 1) == [WordBefore(text, pos)]
  {
    assert WordsBefore(text, WordBefore(text, pos).start, 0) == [];
  }

  lemma CaseWithOne(text: string, pos: nat, caseType: string, f: Found)
    requires pos + |caseType| + 2 <= |text| && 0 <= f.start < f.end <= pos
    ensures FitsBefore([f], pos)
    ensures CaseWith(text, pos, caseType, 1, [f])
            == text[..f.start] + Wrap(f, CaseOf(caseType, f.word)) + text[f.end..pos] + text[pos + |caseType| + 2..]
  {
    var p := (f.start as nat, f.end as nat);
    var w := Wrap(f, CaseOf(caseType, f.word));
    assert NatSpans(SpansOf([f])) == [p] && CaseWords([f], caseType) == [w];
    ReconstructSingle(text, p, w, pos, |caseType| + 2);
  }

  /** Without a word before it, the marker text is cut and nothing else changes. */
  lemma CaseAtNoWord(text: string, pos: nat, caseType: string, count: int)
    requires pos + GetPatternLength(caseType, count) <= |text|
    requires WordsBefore(text, pos, count) == []
    ensures CaseAt(text, pos, caseType, count) == text[..pos] + text[pos + GetPatternLength(caseType, count)..]
  {
  }
}
