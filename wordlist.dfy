/** findWordsBefore of processor/utils.go: up to count backward lookups, each starting
    where the previous word began, returned as four parallel columns. */
module WordList {

  import opened Wrappers
  import opened Text
  import opened WordScan

  /** The words findWordsBefore collects, leftmost first: up to count lookups, each one
      starting where the previous word began, stopping at the first that finds nothing. */
  function WordsBefore(text: string, pos: nat, count: int): (r: seq<Found>)
    requires pos <= |text|
    ensures |r| <= if count < 0 then 0 else count
    ensures forall i :: 0 <= i < |r| ==> r[i].word != "" && 0 <= r[i].start < r[i].end <= pos
    decreases pos
  {
    if count <= 0 || pos == 0 then []
    else
      var f := WordBefore(text, pos);
      if f.word == "" then [] else WordsBefore(text, f.start, count - 1) + [f]
  }

  /** Spans in text order, without overlapping. */
  predicate InOrder(r: seq<Found>)
  {
    forall i :: 0 <= i < |r| - 1 ==> r[i].end <= r[i + 1].start
  }

  lemma AppendInOrder(rest: seq<Found>, f: Found)
    requires InOrder(rest)
    requires forall i :: 0 <= i < |rest| ==> rest[i].end <= f.start
    ensures InOrder(rest + [f])
  {
    var r := rest + [f];
    forall i | 0 <= i < |r| - 1 ensures r[i].end <= r[i + 1].start {
      assert r[i] == rest[i];
      if i < |rest| - 1 {
        assert r[i + 1] == rest[i + 1];
      }
    }
  }

  /** The spans come in text order without overlapping. */
  lemma {:induction false} WordsBeforeOrdered(text: string, pos: nat, count: int)
    requires pos <= |text|
    ensures InOrder(WordsBefore(text, pos, count))
    decreases pos
  {
    if count > 0 && pos > 0 {
      var f := WordBefore(text, pos);
      if f.word != "" {
        var rest := WordsBefore(text, f.start, count - 1);
        WordsBeforeOrdered(text, f.start, count - 1);
        AppendInOrder(rest, f);
      }
    }
  }

  /** Where the leftmost word of a lookup starts, or pos when nothing was found. */
  function LeftEdge(text: string, pos: nat, count: int): nat
    requires pos <= |text|
  {
    var r := WordsBefore(text, pos, count);
    if |r| == 0 then pos else r[0].start
  }

  /** A short result means that one more lookup to the left of the leftmost word would
      find nothing (or would start at the beginning of the text). */
  lemma {:induction false} WordsBeforeStops(text: string, pos: nat, count: int)
    requires pos <= |text|
    requires |WordsBefore(text, pos, count)| < count
    ensures WordsBefore(text, LeftEdge(text, pos, count), 1) == []
    decreases pos, 1
  {
    if pos == 0 || WordBefore(text, pos).word == "" {
      StopsHere(text, pos, count);
    } else {
      StopsFurther(text, pos, count);
    }
  }

  /** The lookup at pos finds a word: the rest of the lookups stop at the same left edge. */
  lemma {:induction false} StopsFurther(text: string, pos: nat, count: int)
    requires pos <= |text| && pos > 0 && WordBefore(text, pos).word != ""
    requires |WordsBefore(text, pos, count)| < count
    ensures WordsBefore(text, LeftEdge(text, pos, count), 1) == []
    decreases pos, 0
  {
    var start := WordBefore(text, pos).start;
    LeftEdgeStep(text, pos, count);
    WordsBeforeStops(text, start, count - 1);
  }

  /** The lookup at pos finds nothing, so pos itself is the left edge. */
  lemma StopsHere(text: string, pos: nat, count: int)
    requires pos <= |text|
    requires pos == 0 || WordBefore(text, pos).word == ""
    ensures WordsBefore(text, LeftEdge(text, pos, count), 1) == []
  {
    WordsBeforeEnd(text, pos, count);
    WordsBeforeEnd(text, pos, 1);
  }

  /** One lookup further left: the rest of a short result is short, with the same left edge. */
  lemma LeftEdgeStep(text: string, pos: nat, count: int)
    requires pos <= |text| && pos > 0 && WordBefore(text, pos).word != ""
    requires |WordsBefore(text, pos, count)| < count
    ensures var start := WordBefore(text, pos).start;
            |WordsBefore(text, start, count - 1)| < count - 1
            && LeftEdge(text, pos, count) == LeftEdge(text, start, count - 1)
  {
    var f := WordBefore(text, pos);
    var rest := WordsBefore(text, f.start, count - 1);
    var r := WordsBefore(text, pos, count);
    assert r == rest + [f];
    if |rest| == 0 {
      assert r[0] == f;
    } else {
      assert r[0] == rest[0];
    }
  }

  /** The first word of a lookup of count words is the second of a lookup of count + 1. */
  lemma {:induction false} WordsBeforeLast(text: string, pos: nat, count: int)
    requires pos <= |text|
    requires |WordsBefore(text, pos, count)| > 0
    ensures WordsBefore(text, pos, count)[|WordsBefore(text, pos, count)| - 1] == WordBefore(text, pos)
  {
  }

  /** The four parallel slices findWordsBefore returns, one column of the found spans each. */
  function WordsOf(fs: seq<Found>): (r: seq<string>)
    ensures |r| == |fs| && forall i :: 0 <= i < |fs| ==> r[i] == fs[i].word
  {
    seq(|fs|, i requires 0 <= i < |fs| => fs[i].word)
  }

  function SpansOf(fs: seq<Found>): (r: seq<(int, int)>)
    ensures |r| == |fs| && forall i :: 0 <= i < |fs| ==> r[i] == (fs[i].start, fs[i].end)
  {
    seq(|fs|, i requires 0 <= i < |fs| => (fs[i].start, fs[i].end))
  }

  function QuotedOf(fs: seq<Found>): (r: seq<bool>)
    ensures |r| == |fs| && forall i :: 0 <= i < |fs| ==> r[i] == fs[i].quoted
  {
    seq(|fs|, i requires 0 <= i < |fs| => fs[i].quoted)
  }

  function QuoteCharsOf(fs: seq<Found>): (r: seq<char>)
    ensures |r| == |fs| && forall i :: 0 <= i < |fs| ==> r[i] == fs[i].quoteChar
  {
    seq(|fs|, i requires 0 <= i < |fs| => fs[i].quoteChar)
  }

  /** One lookup of findWordsBefore: the word found at pos comes last, after those found
      left of its start; the form the loop of FindWordsBefore keeps. */
  lemma WordsBeforeStep(text: string, pos: nat, count: int, f: Found, done: seq<Found>)
    requires pos <= |text| && count > 0 && pos > 0 && f == WordBefore(text, pos) && f.word != ""
    ensures WordsBefore(text, f.start, count - 1) + ([f] + done) == WordsBefore(text, pos, count) + done
  {
    ConcatAssoc(WordsBefore(text, f.start, count - 1), [f], done);
  }

  /** The lookups stop when the count is used up, the text starts, or nothing is found. */
  lemma WordsBeforeEnd(text: string, pos: nat, count: int)
    requires pos <= |text|
    requires count <= 0 || pos == 0 || WordBefore(text, pos).word == ""
    ensures WordsBefore(text, pos, count) == []
  {
  }

  /** One iteration of findWordsBefore, with left lookups still allowed: the lookup at pos,
      stated as the step it makes along WordsBefore. */
  method LookupStep(text: string, pos: nat, ghost left: int, ghost done: seq<Found>) returns (f: Found)
    requires 0 < pos <= |text| && 0 < left
    ensures f.word == "" ==> WordsBefore(text, pos, left) == []
    ensures f.word != "" ==> 0 <= f.start < pos
    ensures f.word != "" ==> WordsBefore(text, f.start, left - 1) + ([f] + done) == WordsBefore(text, pos, left) + done
  {
    var word, start, end, quoted, quoteChar := FindWordBefore(text, pos);
    f := Found(word, start, end, quoted, quoteChar);
    if word == "" {
      WordsBeforeEnd(text, pos, left);
    } else {
      WordsBeforeStep(text, pos, left, f, done);
    }
  }

  /** Prepending a span prepends one entry to each column. */
  lemma ColumnsPrepend(f: Found, done: seq<Found>)
    ensures WordsOf([f] + done) == [f.word] + WordsOf(done)
    ensures SpansOf([f] + done) == [(f.start, f.end)] + SpansOf(done)
    ensures QuotedOf([f] + done) == [f.quoted] + QuotedOf(done)
    ensures QuoteCharsOf([f] + done) == [f.quoteChar] + QuoteCharsOf(done)
  {
  }

  /** The prepends of one iteration of findWordsBefore, one per column. */
  method PrependFound(f: Found, words: seq<string>, positions: seq<(int, int)>, quotedFlags: seq<bool>, quoteChars: seq<char>, ghost done: seq<Found>)
    returns (words': seq<string>, positions': seq<(int, int)>, quotedFlags': seq<bool>, quoteChars': seq<char>)
    requires words == WordsOf(done) && positions == SpansOf(done)
    requires quotedFlags == QuotedOf(done) && quoteChars == QuoteCharsOf(done)
    ensures words' == WordsOf([f] + done) && positions' == SpansOf([f] + done)
    ensures quotedFlags' == QuotedOf([f] + done) && quoteChars' == QuoteCharsOf([f] + done)
  {
    ColumnsPrepend(f, done);
    words' := [f.word] + words;
    positions' := [(f.start, f.end)] + positions;
    quotedFlags' := [f.quoted] + quotedFlags;
    quoteChars' := [f.quoteChar] + quoteChars;
  }

  /** findWordsBefore: one lookup per iteration, prepending to four parallel slices. */
  method FindWordsBefore(text: string, patternPos: nat, count: int)
    returns (words: seq<string>, positions: seq<(int, int)>, quotedFlags: seq<bool>, quoteChars: seq<char>)
    requires patternPos <= |text|
    ensures words == WordsOf(WordsBefore(text, patternPos, count))
    ensures positions == SpansOf(WordsBefore(text, patternPos, count))
    ensures quotedFlags == QuotedOf(WordsBefore(text, patternPos, count))
    ensures quoteChars == QuoteCharsOf(WordsBefore(text, patternPos, count))
  {
    ghost var done: seq<Found> := [];
    ghost var total := WordsBefore(text, patternPos, count);
    ghost var left := count;
    words, positions, quotedFlags, quoteChars := [], [], [], [];
    var pos: nat := patternPos;
    var i := 0;
    EmptyConcat(total);
    while i < count && pos > 0
      invariant pos <= patternPos && left == count - i
      invariant WordsBefore(text, pos, left) + done == total
      invariant words == WordsOf(done) && positions == SpansOf(done)
      invariant quotedFlags == QuotedOf(done) && quoteChars == QuoteCharsOf(done)
      decreases pos
    {
      var f := LookupStep(text, pos, left, done);
      if f.word == "" {
        break;
      }
      words, positions, quotedFlags, quoteChars := PrependFound(f, words, positions, quotedFlags, quoteChars, done);
      done := [f] + done;
      pos := f.start;
      i := i + 1;
      left := left - 1;
    }
    if i >= count || pos == 0 {
      WordsBeforeEnd(text, pos, left);
    }
    EmptyConcat(done);
  }
}
