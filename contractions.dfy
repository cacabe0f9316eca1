/** processQuotesAndContractions of processor/processor.go: three regular expressions that
    space quotes away from the words around them and pull in the spaces of a quoted word,
    then, for each contraction of a fixed list, two case-insensitive expressions that close
    up the whitespace on either side of its apostrophe and write the list's spelling. */
module Contractions {

  import opened Wrappers
  import opened Text
  import opened Rewrite

  /** (\w)('[a-zA-Z]) replaced by "$1 $2": a space before a quote that opens a word. */
  function WordQuoteAt(s: string, i: nat): Option<Hit>
  {
    if i + 3 <= |s| && IsWord(s[i]) && s[i + 1] == '\'' && IsLetter(s[i + 2]) then
      Some(Hit(i + 3, [s[i], ' ', '\'', s[i + 2]]))
    else None
  }

  function WordQuote(): Matcher
  {
    (s: string, i: nat) => WordQuoteAt(s, i)
  }

  /** ([a-zA-Z]')(\w) replaced by "$1 $2": a space after a quote that closes a word. */
  function QuoteWordAt(s: string, i: nat): Option<Hit>
  {
    if i + 3 <= |s| && IsLetter(s[i]) && s[i + 1] == '\'' && IsWord(s[i + 2]) then
      Some(Hit(i + 3, [s[i], '\'', ' ', s[i + 2]]))
    else None
  }

  function QuoteWord(): Matcher
  {
    (s: string, i: nat) => QuoteWordAt(s, i)
  }

  /** '\s+([a-zA-Z]+)\s+' replaced by '$1'. The three runs are disjoint classes, so each is
      matched whole. */
  function StandaloneAt(s: string, i: nat): Option<Hit>
  {
    if i < |s| && s[i] == '\'' then
      var a := RunEnd(s, i + 1, ReSpace);
      var b := RunEnd(s, a, Letter);
      var c := RunEnd(s, b, ReSpace);
      if i + 1 < a < b < c < |s| && s[c] == '\'' then Some(Hit(c + 1, "'" + s[a..b] + "'")) else None
    else None
  }

  function Standalone(): Matcher
  {
    (s: string, i: nat) => StandaloneAt(s, i)
  }

  /** The three quote expressions, in order. */
  function QuoteSpacing(s: string): string
  {
    ReplaceAll(ReplaceAll(ReplaceAll(s, WordQuote()), QuoteWord()), Standalone())
  }

  /** Two chars equal up to ASCII case, as (?i) compares them. */
  predicate FoldEq(x: char, y: char)
  {
    ToLowerChar(x) == ToLowerChar(y)
  }

  /** w occurs at offset i of s up to ASCII case. */
  predicate FoldAt(s: string, i: nat, w: string)
  {
    i + |w| <= |s| && forall k :: 0 <= k < |w| ==> FoldEq(s[i + k], w[k])
  }

  /** (?i)before\s+'after at offset i, replaced by the contraction c. */
  function SpacedBeforeAt(b: string, a: string, c: string, s: string, i: nat): Option<Hit>
  {
    if FoldAt(s, i, b) then
      var q := RunEnd(s, i + |b|, ReSpace);
      if i + |b| < q < |s| && s[q] == '\'' && FoldAt(s, q + 1, a) then Some(Hit(q + 1 + |a|, c)) else None
    else None
  }

  function SpacedBefore(b: string, a: string, c: string): Matcher
  {
    (s: string, i: nat) => SpacedBeforeAt(b, a, c, s, i)
  }

  /** (?i)before'\s+after at offset i, replaced by the contraction c. */
  function SpacedAfterAt(b: string, a: string, c: string, s: string, i: nat): Option<Hit>
  {
    if FoldAt(s, i, b) && i + |b| < |s| && s[i + |b|] == '\'' then
      var q := RunEnd(s, i + |b| + 1, ReSpace);
      if i + |b| + 1 < q && FoldAt(s, q, a) then Some(Hit(q + |a|, c)) else None
    else None
  }

  function SpacedAfter(b: string, a: string, c: string): Matcher
  {
    (s: string, i: nat) => SpacedAfterAt(b, a, c, s, i)
  }

  /** The contractions whose apostrophe is closed up, in the order they are tried. */
  const ContractionList: seq<string> := [
    "can't", "don't", "doesn't", "won't", "isn't", "aren't",
    "haven't", "hasn't", "hadn't", "couldn't", "wouldn't", "shouldn't",
    "didn't", "it's", "that's", "there's", "he's", "she's", "what's",
    "who's", "where's", "here's", "how's", "I'm", "you're", "we're",
    "they're", "I've", "you've", "we've", "they've", "I'd", "you'd",
    "he'd", "she'd", "we'd", "they'd", "I'll", "you'll", "he'll",
    "she'll", "we'll", "they'll", "let's"
  ]

  /** One contraction: strings.Split(c, "'"), and when that gives two parts, the two patterns
      built from them, the spaced-before one first. */
  function FixContraction(s: string, c: string): string
  {
    var parts := Split(c, '\'');
    if |parts| == 2 then
      ReplaceAll(ReplaceAll(s, SpacedBefore(parts[0], parts[1], c)), SpacedAfter(parts[0], parts[1], c))
    else s
  }

  /** The contractions of cs, each applied to the result of the ones before it. */
  function FixContractions(s: string, cs: seq<string>): string
    decreases |cs|
  {
    if cs == [] then s else FixContraction(FixContractions(s, cs[..|cs| - 1]), cs[|cs| - 1])
  }

  /** processQuotesAndContractions as a function of the text. */
  function QuotesAndContractions(s: string): string
  {
    FixContractions(QuoteSpacing(s), ContractionList)
  }

  /** processQuotesAndContractions: the quote expressions, then the loop over the list. It
      keeps the number of apostrophes. */
  method ProcessQuotesAndContractions(text: string) returns (r: string)
    ensures r == QuotesAndContractions(text)
    ensures Count(r, '\'') == Count(text, '\'')
  {
    r := QuoteSpacing(text);
    for k := 0 to |ContractionList|
      invariant r == FixContractions(QuoteSpacing(text), ContractionList[..k])
    {
      assert ContractionList[..k + 1][..k] == ContractionList[..k];
      r := FixContraction(r, ContractionList[k]);
    }
    assert ContractionList[..|ContractionList|] == ContractionList;
    QuotesAndContractionsKeep(text);
  }

  /** A char that folds to the apostrophe is the apostrophe. */
  lemma FoldQuote(x: char, y: char)
    requires FoldEq(x, y) && y != '\''
    ensures x != '\''
  {
  }

  /** A case-insensitive occurrence of a word without apostrophe holds none. */
  lemma FoldNoQuote(s: string, i: nat, w: string)
    requires FoldAt(s, i, w) && '\'' !in w
    ensures Count(s[i..i + |w|], '\'') == 0
  {
    var t := s[i..i + |w|];
    forall k | 0 <= k < |t| ensures t[k] != '\'' {
      FoldQuote(s[i + k], w[k]);
    }
    CountZero(t, '\'');
  }

  /** A run of whitespace holds no apostrophe. */
  lemma SpacesNoQuote(s: string, i: nat)
    requires i <= |s|
    ensures Count(s[i..RunEnd(s, i, ReSpace)], '\'') == 0
  {
    RunEndAll(s, i, ReSpace);
    CountZero(s[i..RunEnd(s, i, ReSpace)], '\'');
  }

  /** The apostrophe counted at offset q of s. */
  lemma QuoteAt(s: string, q: nat)
    requires q < |s| && s[q] == '\''
    ensures Count(s[q..q + 1], '\'') == 1
  {
    assert s[q..q + 1] == [s[q]];
    CountOne(s[q], '\'');
  }

  /** A contraction with two parts holds one apostrophe; its parts hold none. */
  lemma ContractionQuotes(c: string)
    requires |Split(c, '\'')| == 2
    ensures Count(c, '\'') == 1
    ensures '\'' !in Split(c, '\'')[0] && '\'' !in Split(c, '\'')[1]
  {
    SplitCount(c, '\'');
  }

  /** The spaced-before pattern replaces a match holding one apostrophe by the contraction. */
  lemma SpacedBeforeKeeps(b: string, a: string, c: string, s: string, j: nat)
    requires '\'' !in b && '\'' !in a && Count(c, '\'') == 1
    requires HitAt(SpacedBefore(b, a, c), s, j)
    ensures Count(SpacedBefore(b, a, c)(s, j).value.rep, '\'') == Count(s[j..SpacedBefore(b, a, c)(s, j).value.end], '\'')
  {
    var q := RunEnd(s, j + |b|, ReSpace);
    FoldNoQuote(s, j, b);
    SpacesNoQuote(s, j + |b|);
    FoldNoQuote(s, q + 1, a);
    OneQuoteCount(s, j, j + |b|, q, q + 1 + |a|);
  }

  /** The spaced-after pattern replaces a match holding one apostrophe by the contraction. */
  lemma SpacedAfterKeeps(b: string, a: string, c: string, s: string, j: nat)
    requires '\'' !in b && '\'' !in a && Count(c, '\'') == 1
    requires HitAt(SpacedAfter(b, a, c), s, j)
    ensures Count(SpacedAfter(b, a, c)(s, j).value.rep, '\'') == Count(s[j..SpacedAfter(b, a, c)(s, j).value.end], '\'')
  {
    var p := j + |b|;
    var q := RunEnd(s, p + 1, ReSpace);
    FoldNoQuote(s, j, b);
    SpacesNoQuote(s, p + 1);
    FoldNoQuote(s, q, a);
    CountSplit(s, p + 1, q, q + |a|, '\'');
    assert Count(s[j..j], '\'') == 0;
    OneQuoteCount(s, j, j, p, q + |a|);
  }

  /** Two stretches without quotes, a quote, a stretch without quotes: one quote in all. The
      quote sits at offset q, the stretches are [j, x), [x, q) and [q + 1, e), the middle one
      or the last one taken empty when a pattern has no such part. */
  lemma OneQuoteCount(s: string, j: nat, x: nat, q: nat, e: nat)
    requires j <= x <= q < e <= |s| && s[q] == '\''
    requires Count(s[j..x], '\'') == 0 && Count(s[x..q], '\'') == 0 && Count(s[q + 1..e], '\'') == 0
    ensures Count(s[j..e], '\'') == 1
  {
    QuoteAt(s, q);
    CountSplit(s, j, x, e, '\'');
    CountSplit(s, x, q, e, '\'');
    CountSplit(s, q, q + 1, e, '\'');
  }

  /** One contraction keeps the number of apostrophes. */
  lemma FixContractionKeeps(s: string, c: string)
    ensures Count(FixContraction(s, c), '\'') == Count(s, '\'')
  {
    var parts := Split(c, '\'');
    if |parts| == 2 {
      ContractionQuotes(c);
      var m1 := SpacedBefore(parts[0], parts[1], c);
      var m2 := SpacedAfter(parts[0], parts[1], c);
      forall j | 0 <= j < |s| && HitAt(m1, s, j)
        ensures Count(m1(s, j).value.rep, '\'') == Count(s[j..m1(s, j).value.end], '\'')
      {
        SpacedBeforeKeeps(parts[0], parts[1], c, s, j);
      }
      CountKept(s, 0, m1, '\'');
      var t := ReplaceAll(s, m1);
      forall j | 0 <= j < |t| && HitAt(m2, t, j)
        ensures Count(m2(t, j).value.rep, '\'') == Count(t[j..m2(t, j).value.end], '\'')
      {
        SpacedAfterKeeps(parts[0], parts[1], c, t, j);
      }
      CountKept(t, 0, m2, '\'');
      assert s[0..] == s && t[0..] == t;
    }
  }

  lemma {:induction false} FixContractionsKeep(s: string, cs: seq<string>)
    ensures Count(FixContractions(s, cs), '\'') == Count(s, '\'')
    decreases |cs|
  {
    if cs != [] {
      FixContractionsKeep(s, cs[..|cs| - 1]);
      FixContractionKeeps(FixContractions(s, cs[..|cs| - 1]), cs[|cs| - 1]);
    }
  }

  /** The quote expressions move spaces around apostrophes and keep every apostrophe. */
  lemma QuoteSpacingKeeps(s: string)
    ensures Count(QuoteSpacing(s), '\'') == Count(s, '\'')
  {
    forall j | 0 <= j < |s| && HitAt(WordQuote(), s, j)
      ensures Count(WordQuote()(s, j).value.rep, '\'') == Count(s[j..WordQuote()(s, j).value.end], '\'')
    {
      ThreeKeep(s, j, [s[j], ' ', '\'', s[j + 2]]);
    }
    CountKept(s, 0, WordQuote(), '\'');
    var t := ReplaceAll(s, WordQuote());
    forall j | 0 <= j < |t| && HitAt(QuoteWord(), t, j)
      ensures Count(QuoteWord()(t, j).value.rep, '\'') == Count(t[j..QuoteWord()(t, j).value.end], '\'')
    {
      ThreeKeep(t, j, [t[j], '\'', ' ', t[j + 2]]);
    }
    CountKept(t, 0, QuoteWord(), '\'');
    var u := ReplaceAll(t, QuoteWord());
    forall j | 0 <= j < |u| && HitAt(Standalone(), u, j)
      ensures Count(Standalone()(u, j).value.rep, '\'') == Count(u[j..Standalone()(u, j).value.end], '\'')
    {
      StandaloneKeeps(u, j);
    }
    CountKept(u, 0, Standalone(), '\'');
    assert s[0..] == s && t[0..] == t && u[0..] == u;
  }

  /** A word char, a quote and a letter, with a space put on one side of the quote. */
  lemma ThreeKeep(s: string, j: nat, rep: string)
    requires j + 3 <= |s| && s[j] != '\'' && s[j + 1] == '\'' && s[j + 2] != '\''
    requires rep == [s[j], ' ', '\'', s[j + 2]] || rep == [s[j], '\'', ' ', s[j + 2]]
    ensures Count(rep, '\'') == Count(s[j..j + 3], '\'') == 1
  {
    CountOne(s[j], '\'');
    CountOne(s[j + 2], '\'');
    CountOne(' ', '\'');
    CountOne('\'', '\'');
    assert s[j..j + 3] == [s[j]] + ['\''] + [s[j + 2]];
    CountConcat([s[j]] + ['\''], [s[j + 2]], '\'');
    CountConcat([s[j]], ['\''], '\'');
    if rep == [s[j], ' ', '\'', s[j + 2]] {
      assert rep == [s[j]] + [' '] + ['\''] + [s[j + 2]];
      Count4([s[j]], [' '], ['\''], [s[j + 2]], '\'');
    } else {
      assert rep == [s[j]] + ['\''] + [' '] + [s[j + 2]];
      Count4([s[j]], ['\''], [' '], [s[j + 2]], '\'');
    }
  }

  /** A quoted word with spaces inside keeps its two quotes when the spaces go. */
  lemma StandaloneKeeps(s: string, j: nat)
    requires HitAt(Standalone(), s, j)
    ensures Count(Standalone()(s, j).value.rep, '\'') == Count(s[j..Standalone()(s, j).value.end], '\'')
  {
    var a := RunEnd(s, j + 1, ReSpace);
    var b := RunEnd(s, a, Letter);
    var c := RunEnd(s, b, ReSpace);
    SpacesNoQuote(s, j + 1);
    SpacesNoQuote(s, b);
    QuotedRunCount(s, j, a, b, c);
  }

  /** Quote, a stretch without quotes, the kept part, a stretch without quotes, quote: the
      kept part between two quotes counts the same. */
  lemma QuotedRunCount(s: string, j: nat, a: nat, b: nat, c: nat)
    requires j < a <= b <= c < |s| && s[j] == '\'' && s[c] == '\''
    requires Count(s[j + 1..a], '\'') == 0 && Count(s[b..c], '\'') == 0
    ensures Count("'" + s[a..b] + "'", '\'') == Count(s[j..c + 1], '\'')
  {
    QuoteAt(s, j);
    QuoteAt(s, c);
    CountSplit(s, j, j + 1, c + 1, '\'');
    CountSplit(s, j + 1, a, c + 1, '\'');
    CountSplit(s, a, b, c + 1, '\'');
    CountSplit(s, b, c, c + 1, '\'');
    CountConcat("'" + s[a..b], "'", '\'');
    CountConcat("'", s[a..b], '\'');
    assert s[j..j + 1] == "'" && s[c..c + 1] == "'";
  }

  /** processQuotesAndContractions keeps the number of apostrophes: it only moves whitespace
      around them and rewrites letters. */
  lemma QuotesAndContractionsKeep(s: string)
    ensures Count(QuotesAndContractions(s), '\'') == Count(s, '\'')
  {
    QuoteSpacingKeeps(s);
    FixContractionsKeep(QuoteSpacing(s), ContractionList);
  }

  /** "I DON 't" has its contraction closed up and written as the list spells it: the match
      is case-insensitive, the replacement is the list's text. */
  lemma ContractionExample()
    ensures SpacedBeforeAt("don", "t", "don't", "I DON 't", 2) == Some(Hit(8, "don't"))
  {
    var s := "I DON 't";
    assert FoldAt(s, 2, "don");
    assert RunEnd(s, 6, ReSpace) == 6;
    assert RunEnd(s, 5, ReSpace) == 6;
    assert FoldAt(s, 7, "t");
  }
}
