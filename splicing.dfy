/** The splicing helpers of processor/utils.go: cutting a marker out of the text, the
    length of a case marker, and putting rewritten words back at their spans. */
module Splicing {

  import opened Wrappers
  import opened Text
  import opened Numbers
  import opened WordScan
  import opened WordList

  /** removePatternAt: text[:pos] + text[pos+len(pattern):]. */
  function RemovePatternAt(text: string, pattern: string, pos: nat): (r: string)
    requires pos + |pattern| <= |text|
    ensures |r| == |text| - |pattern|
    ensures r[..pos] + text[pos..pos + |pattern|] + r[pos..] == text
  {
    var r := text[..pos] + text[pos + |pattern|..];
    assert r[..pos] == text[..pos] && r[pos..] == text[pos + |pattern|..];
    r
  }

  /** Bytes before the cut keep their offsets ... */
  lemma RemoveKeeps(text: string, pattern: string, pos: nat, k: nat)
    requires pos + |pattern| <= |text| && k < pos
    ensures RemovePatternAt(text, pattern, pos)[k] == text[k]
  {
    var r := RemovePatternAt(text, pattern, pos);
    assert r[k] == r[..pos][k];
  }

  /** ... and bytes after it move left by the length of the pattern. */
  lemma RemoveShifts(text: string, pattern: string, pos: nat, k: nat)
    requires pos + |pattern| <= |text| && pos <= k < |text| - |pattern|
    ensures RemovePatternAt(text, pattern, pos)[k] == text[k + |pattern|]
  {
    var r := RemovePatternAt(text, pattern, pos);
    assert r[k] == r[pos..][k - pos];
  }

  /** The marker text fmt.Sprintf("(%s)", c) or fmt.Sprintf("(%s, %d)", c, n). */
  function CaseMarker(caseType: string, count: int): string
  {
    if count == 1 then "(" + caseType + ")" else "(" + caseType + ", " + FormatInt(count) + ")"
  }

  /** getPatternLength: the length of the marker for the case type and count. */
  function GetPatternLength(caseType: string, count: int): (n: nat)
    ensures n == |CaseMarker(caseType, count)|
    ensures n == |caseType| + 2 <==> count == 1
  {
    if count == 1 then |caseType| + 2 else |"(" + caseType + ", " + FormatInt(count) + ")"|
  }

  /** The text reconstructTextWithTransformedWords writes for words i.. of the loop:
      each word, then the original gap to the next span while there is one. */
  function Rebuilt(text: string, positions: seq<(nat, nat)>, words: seq<string>, i: nat): string
    requires i <= |words| && |positions| > 0
    requires forall k :: 0 <= k < |positions| ==> positions[k].0 <= |text| && positions[k].1 <= |text|
    requires forall k :: 0 <= k < |positions| - 1 && k < |words| ==> positions[k].1 <= positions[k + 1].0
    decreases |words| - i
  {
    if i == |words| then ""
    else words[i] + (if i < |positions| - 1 then text[positions[i].1..positions[i + 1].0] else "")
         + Rebuilt(text, positions, words, i + 1)
  }

  /** The preconditions under which every slice of reconstructTextWithTransformedWords is in range. */
  predicate ReconstructOk(text: string, positions: seq<(nat, nat)>, words: seq<string>, patternPos: nat, patternLen: nat)
  {
    |positions| > 0 ==>
      (forall k :: 0 <= k < |positions| ==> positions[k].0 <= |text| && positions[k].1 <= |text|)
      && (forall k :: 0 <= k < |positions| - 1 && k < |words| ==> positions[k].1 <= positions[k + 1].0)
      && positions[|positions| - 1].1 <= patternPos && patternPos + patternLen <= |text|
  }

  function ReconstructWithWords(text: string, positions: seq<(nat, nat)>, words: seq<string>, patternPos: nat, patternLen: nat): string
    requires ReconstructOk(text, positions, words, patternPos, patternLen)
  {
    if |positions| == 0 then text
    else text[..positions[0].0] + Rebuilt(text, positions, words, 0)
         + text[positions[|positions| - 1].1..patternPos] + text[patternPos + patternLen..]
  }

  /** reconstructTextWithTransformedWords, appending to result word by word. */
  method ReconstructTextWithTransformedWords(text: string, positions: seq<(nat, nat)>, words: seq<string>, patternPos: nat, patternLen: nat)
    returns (result: string)
    requires ReconstructOk(text, positions, words, patternPos, patternLen)
    ensures result == ReconstructWithWords(text, positions, words, patternPos, patternLen)
  {
    if |positions| == 0 {
      return text;
    }
    result := text[..positions[0].0];
    ghost var goal := result + Rebuilt(text, positions, words, 0);
    var i := 0;
    while i < |words|
      invariant i <= |words|
      invariant result + Rebuilt(text, positions, words, i) == goal
    {
      ghost var before := result;
      ghost var gap := if i < |positions| - 1 then text[positions[i].1..positions[i + 1].0] else "";
      ghost var rest := Rebuilt(text, positions, words, i + 1);
      assert Rebuilt(text, positions, words, i) == words[i] + gap + rest;
      result := result + words[i];
      if i < |positions| - 1 {
        result := result + text[positions[i].1..positions[i + 1].0];
      }
      assert result == before + words[i] + gap;
      ConcatAssoc(before, words[i] + gap, rest);
      ConcatAssoc(before, words[i], gap);
      i := i + 1;
    }
    assert result == goal;
    result := result + text[positions[|positions| - 1].1..patternPos];
    result := result + text[patternPos + patternLen..];
  }

  /** Spans in order, one per word, each holding its word. */
  predicate SpansHoldWords(text: string, positions: seq<(nat, nat)>, words: seq<string>)
  {
    |positions| == |words|
    && (forall k :: 0 <= k < |positions| ==> positions[k].0 <= positions[k].1 <= |text|)
    && (forall j, k :: 0 <= j < k < |positions| ==> positions[j].1 <= positions[k].0)
    && (forall k :: 0 <= k < |positions| ==> text[positions[k].0..positions[k].1] == words[k])
  }

  lemma {:induction false} RebuiltOriginal(text: string, positions: seq<(nat, nat)>, words: seq<string>, i: nat)
    requires SpansHoldWords(text, positions, words) && i < |words|
    ensures Rebuilt(text, positions, words, i) == text[positions[i].0..positions[|positions| - 1].1]
    decreases |words| - i
  {
    var a, b := positions[i].0, positions[i].1;
    var z := positions[|positions| - 1].1;
    assert words[i] == text[a..b];
    if i < |words| - 1 {
      var c := positions[i + 1].0;
      assert b <= c <= z;
      RebuiltOriginal(text, positions, words, i + 1);
      assert Rebuilt(text, positions, words, i) == text[a..b] + text[b..c] + text[c..z];
      SliceSplit(text, b, c, z);
      SliceSplit(text, a, b, z);
    } else {
      assert Rebuilt(text, positions, words, i) == words[i] + "" + "";
    }
  }

  /** Writing back the words that were found changes nothing but the excised marker:
      the prefix and every gap between words are kept. */
  lemma ReconstructOriginalWords(text: string, positions: seq<(nat, nat)>, words: seq<string>, patternPos: nat, patternLen: nat)
    requires SpansHoldWords(text, positions, words)
    requires ReconstructOk(text, positions, words, patternPos, patternLen)
    requires |positions| > 0
    ensures ReconstructWithWords(text, positions, words, patternPos, patternLen)
            == text[..patternPos] + text[patternPos + patternLen..]
  {
    RebuiltOriginal(text, positions, words, 0);
    assert text[..patternPos] == text[..positions[0].0] + text[positions[0].0..positions[|positions| - 1].1]
                                 + text[positions[|positions| - 1].1..patternPos];
  }

  /** The original text the loop copies after word k: up to the next span while there is one. */
  function Gap(text: string, positions: seq<(nat, nat)>, words: seq<string>, k: nat): string
    requires k < |words| && |positions| > 0
    requires forall j :: 0 <= j < |positions| ==> positions[j].0 <= |text| && positions[j].1 <= |text|
    requires forall j :: 0 <= j < |positions| - 1 && j < |words| ==> positions[j].1 <= positions[j + 1].0
  {
    if k < |positions| - 1 then text[positions[k].1..positions[k + 1].0] else ""
  }

  /** Where word k starts in the text the loop writes from word i on. */
  function WordOffset(text: string, positions: seq<(nat, nat)>, words: seq<string>, i: nat, k: nat): nat
    requires i <= k < |words| && |positions| > 0
    requires forall j :: 0 <= j < |positions| ==> positions[j].0 <= |text| && positions[j].1 <= |text|
    requires forall j :: 0 <= j < |positions| - 1 && j < |words| ==> positions[j].1 <= positions[j + 1].0
    decreases k - i
  {
    if i == k then 0 else |words[i]| + |Gap(text, positions, words, i)| + WordOffset(text, positions, words, i + 1, k)
  }

  /** Whatever the words, the text written from word i on holds word k at its offset, and
      right after it the original gap that follows span k. */
  lemma {:induction false} RebuiltPlaces(text: string, positions: seq<(nat, nat)>, words: seq<string>, i: nat, k: nat)
    requires i <= k < |words| && |positions| > 0
    requires forall j :: 0 <= j < |positions| ==> positions[j].0 <= |text| && positions[j].1 <= |text|
    requires forall j :: 0 <= j < |positions| - 1 && j < |words| ==> positions[j].1 <= positions[j + 1].0
    ensures var r := Rebuilt(text, positions, words, i);
            var o := WordOffset(text, positions, words, i, k);
            var piece := words[k] + Gap(text, positions, words, k);
            o + |piece| <= |r| && r[o..o + |piece|] == piece
    decreases k - i
  {
    var r := Rebuilt(text, positions, words, i);
    var head := words[i] + Gap(text, positions, words, i);
    var rest := Rebuilt(text, positions, words, i + 1);
    assert r == head + rest;
    if i < k {
      RebuiltPlaces(text, positions, words, i + 1, k);
      var o := WordOffset(text, positions, words, i + 1, k);
      var piece := words[k] + Gap(text, positions, words, k);
      assert r[|head| + o..|head| + o + |piece|] == rest[o..o + |piece|];
    }
  }

  /** The three parts of a + b + c are found at their offsets, and so is any slice of b. */
  lemma ThreeParts(a: string, b: string, c: string, o: nat, n: nat)
    requires o + n <= |b|
    ensures var r := a + b + c;
            r[..|a|] == a && r[|a| + o..|a| + o + n] == b[o..o + n] && r[|r| - |c|..] == c
  {
  }

  /** Whatever words are written back, the text before the first span, each word at its
      place, the original gap after each word, and the text after the last span and the
      marker are all in the result. */
  lemma ReconstructKeepsGaps(text: string, positions: seq<(nat, nat)>, words: seq<string>, patternPos: nat, patternLen: nat, k: nat)
    requires ReconstructOk(text, positions, words, patternPos, patternLen)
    requires |positions| > 0 && k < |words|
    ensures var r := ReconstructWithWords(text, positions, words, patternPos, patternLen);
            var p0 := positions[0].0;
            var o := p0 + WordOffset(text, positions, words, 0, k);
            var piece := words[k] + Gap(text, positions, words, k);
            var tail := text[positions[|positions| - 1].1..patternPos] + text[patternPos + patternLen..];
            p0 <= |r| && r[..p0] == text[..p0]
            && o + |piece| <= |r| && r[o..o + |piece|] == piece
            && |tail| <= |r| && r[|r| - |tail|..] == tail
  {
    var p0 := positions[0].0;
    var body := Rebuilt(text, positions, words, 0);
    var tail := text[positions[|positions| - 1].1..patternPos] + text[patternPos + patternLen..];
    assert ReconstructWithWords(text, positions, words, patternPos, patternLen) == text[..p0] + body + tail;
    RebuiltPlaces(text, positions, words, 0, k);
    var o := WordOffset(text, positions, words, 0, k);
    var piece := words[k] + Gap(text, positions, words, k);
    ThreeParts(text[..p0], body, tail, o, |piece|);
  }
}
