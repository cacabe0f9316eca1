/** fixArticles of processor/transformations.go: on every line, the regular expression
    (\b(?:[aA]n?\s+)*)([aA]n?)\s+([a-zA-Z]\w*) finds a chain of articles and the word after
    it, and the last article of the chain is made to agree with that word. */
module Articles {

  import opened Wrappers
  import opened Text
  import opened Rewrite

  /** One of a, A, an, An: the n is lower case only. */
  predicate IsArticle(t: string)
  {
    (|t| == 1 || (|t| == 2 && t[1] == 'n')) && (t[0] == 'a' || t[0] == 'A')
  }

  /** [aA]n?\s+ at p, as RE2 takes it: the length of the article (1 or 2), or 0 when no
      article followed by whitespace starts at p. The n is lower case only. */
  function ArticleLen(s: string, p: nat): (r: nat)
    ensures r <= 2
    ensures r > 0 ==> p + r < |s| && (s[p] == 'a' || s[p] == 'A') && IsRegexSpace(s[p + r])
    ensures r == 2 ==> s[p + 1] == 'n'
    ensures r == 1 ==> s[p + 1] != 'n'
    ensures r == 0 && p < |s| && (s[p] == 'a' || s[p] == 'A') ==>
      p + 1 == |s| || (s[p + 1] != 'n' && !IsRegexSpace(s[p + 1]))
      || (s[p + 1] == 'n' && (p + 2 == |s| || !IsRegexSpace(s[p + 2])))
  {
    if p < |s| && (s[p] == 'a' || s[p] == 'A') then
      if p + 1 < |s| && s[p + 1] == 'n' then (if p + 2 < |s| && IsRegexSpace(s[p + 2]) then 2 else 0)
      else if p + 1 < |s| && IsRegexSpace(s[p + 1]) then 1 else 0
    else 0
  }

  lemma ArticleText(s: string, p: nat)
    requires ArticleLen(s, p) > 0
    ensures IsArticle(s[p..p + ArticleLen(s, p)])
  {
  }

  /** Where the next article of a chain may start: past the article at p and its whitespace. */
  function AfterArticle(s: string, p: nat): (r: nat)
    requires ArticleLen(s, p) > 0
    ensures p + ArticleLen(s, p) < r <= |s|
  {
    RunEnd(s, p + ArticleLen(s, p), ReSpace)
  }

  /** A maximal chain of articles, each followed by whitespace: how many there are, where the
      last two start, and where the chain ends. */
  datatype Chain = Chain(count: nat, before: nat, last: nat, next: nat)

  function ArticleChain(s: string, p: nat): (c: Chain)
    requires ArticleLen(s, p) > 0
    ensures c.count >= 1 && p <= c.before <= c.last < c.next <= |s|
    ensures ArticleLen(s, c.last) > 0 && c.next == AfterArticle(s, c.last)
    ensures ArticleLen(s, c.next) == 0
    ensures c.count == 1 ==> c.last == p
    ensures c.count >= 2 ==> ArticleLen(s, c.before) > 0 && c.last == AfterArticle(s, c.before)
    decreases |s| - p
  {
    var q := AfterArticle(s, p);
    if ArticleLen(s, q) == 0 then Chain(1, p, p, q)
    else
      var c := ArticleChain(s, q);
      Chain(c.count + 1, if c.count == 1 then p else c.before, c.last, c.next)
  }

  /** The first char of the word calls for "an": a vowel or h, in either case. */
  predicate NeedsAn(first: char)
  {
    var l := ToLowerChar(first);
    l == 'a' || l == 'e' || l == 'i' || l == 'o' || l == 'u' || l == 'h'
  }

  /** The article that replaces last before a word starting with first: A or a becomes An or
      an before a vowel or h, An or an becomes A or a before anything else. */
  function NewArticle(last: string, first: char): (r: string)
    requires IsArticle(last)
    ensures r == [last[0]] + (if NeedsAn(first) then "n" else "")
    ensures IsArticle(r)
  {
    if NeedsAn(first) then
      if last == ['A'] then "An" else if last == ['a'] then "an" else last
    else
      if last == ['A'] || last == "An" then "A" else "a"
  }

  /** A word that is itself an article in any case, which strings.ToLower(w) == "a" || ... == "an"
      tests; the callback leaves its match alone. */
  predicate IsArticleWord(w: string)
  {
    |w| >= 1 && ToLowerChar(w[0]) == 'a' && (|w| == 1 || (|w| == 2 && ToLowerChar(w[1]) == 'n'))
  }

  lemma ArticleWordLower(w: string)
    ensures IsArticleWord(w) <==> Lower(w) == "a" || Lower(w) == "an"
  {
    if Lower(w) == "a" {
      assert Lower(w)[0] == 'a';
    } else if Lower(w) == "an" {
      assert Lower(w)[0] == 'a' && Lower(w)[1] == 'n';
    }
    if IsArticleWord(w) {
      if |w| == 1 {
        assert Lower(w) == "a";
      } else {
        assert Lower(w) == "an";
      }
    }
  }

  /** What a chain ending at c.last tells about s: the last article and the whitespace after it. */
  predicate ChainFacts(s: string, i: nat, c: Chain)
  {
    i <= c.last && ArticleLen(s, c.last) > 0 && c.next == AfterArticle(s, c.last)
    && (c.count >= 2 ==> i < c.last)
  }

  /** The text the callback puts for a match whose last article starts at last and whose
      target word is s[next..e]: the earlier articles, the new article, one space, the word. */
  function Replacement(s: string, i: nat, c: Chain, e: nat): string
    requires ChainFacts(s, i, c) && c.next < e <= |s|
  {
    s[i..c.last] + NewArticle(s[c.last..c.last + ArticleLen(s, c.last)], s[c.next]) + " " + s[c.next..e]
  }

  /** The match at i once the chain c of articles starting at i is known. RE2 lets the starred
      group take all articles of the chain but the last, so the target is the word after the
      chain when it starts with a letter; otherwise the group gives back one more article, the
      target is the last article itself and the match is left unchanged. */
  function ChainHit(s: string, i: nat, c: Chain): (r: Option<Hit>)
    requires ChainFacts(s, i, c)
    ensures r.Some? ==> i < r.value.end <= |s|
  {
    if c.next < |s| && IsLetter(s[c.next]) then
      var e := RunEnd(s, c.next, Word);
      if IsArticleWord(s[c.next..e]) then Some(Hit(e, s[i..e]))
      else Some(Hit(e, Replacement(s, i, c, e)))
    else if c.count >= 2 then Some(Hit(c.last + ArticleLen(s, c.last), s[i..c.last + ArticleLen(s, c.last)]))
    else None
  }

  /** The regular expression at offset i, with the callback of fixArticles applied: \b holds
      before an article that no word char precedes. */
  function ArticleSeqAt(s: string, i: nat): (r: Option<Hit>)
    ensures r.Some? ==> i < r.value.end <= |s|
  {
    if ArticleLen(s, i) > 0 && (i == 0 || !IsWord(s[i - 1])) then ChainHit(s, i, ArticleChain(s, i))
    else None
  }

  function ArticleSeq(): Matcher
  {
    (s: string, i: nat) => ArticleSeqAt(s, i)
  }

  /** fixArticles on one line. */
  function ArticlesInLine(line: string): string
  {
    ReplaceAll(line, ArticleSeq())
  }

  /** fixArticles */
  function ArticlesFixed(text: string): string
  {
    MapLines(text, ArticlesInLine)
  }

  method FixArticles(text: string) returns (r: string)
    ensures r == ArticlesFixed(text)
  {
    var lines := Lines(text);
    ghost var orig := lines;
    for i := 0 to |lines|
      invariant |lines| == |orig|
      invariant forall k :: 0 <= k < i ==> lines[k] == ArticlesInLine(orig[k])
      invariant forall k :: i <= k < |lines| ==> lines[k] == orig[k]
    {
      var line := ReplaceAll(lines[i], ArticleSeq());
      lines := lines[i := line];
    }
    assert lines == ApplyAll(ArticlesInLine, orig);
    r := Join(lines, "\n");
  }

  /** A match the callback rewrites keeps the articles before the last one and the word;
      only the last article and the whitespace after it differ. */
  lemma MatchParts(s: string, i: nat, c: Chain, e: nat)
    requires ChainFacts(s, i, c) && c.next < e <= |s|
    ensures var a := s[c.last..c.last + ArticleLen(s, c.last)];
      IsArticle(a) && s[i..e] == s[i..c.last] + a + s[c.last + |a|..c.next] + s[c.next..e]
  {
    var a := s[c.last..c.last + ArticleLen(s, c.last)];
    SliceSplit(s, i, c.last, c.next);
    SliceSplit(s, c.last, c.last + |a|, c.next);
    SliceSplit(s, i, c.next, e);
  }

  /** The whitespace between the last article and the word holds no other char. */
  lemma GapCount(s: string, p: nat, c: char)
    requires ArticleLen(s, p) > 0 && !IsRegexSpace(c)
    ensures Count(s[p + ArticleLen(s, p)..AfterArticle(s, p)], c) == 0
  {
    RunEndAll(s, p + ArticleLen(s, p), ReSpace);
    CountZero(s[p + ArticleLen(s, p)..AfterArticle(s, p)], c);
  }

  /** The old and the new article hold the same chars but for the n. */
  lemma ArticleCount(a: string, first: char, c: char)
    requires IsArticle(a) && c != 'n'
    ensures Count(NewArticle(a, first), c) == Count(a, c)
  {
    CountOne(a[0], c);
    CountOne('n', c);
    CountConcat([a[0]], if NeedsAn(first) then "n" else "", c);
    assert a == [a[0]] + a[1..];
    CountConcat([a[0]], a[1..], c);
    if |a| == 2 {
      assert a[1..] == "n";
    } else {
      assert a[1..] == "";
    }
  }

  /** The replacement keeps every char of the match but the n and the whitespace. */
  lemma ReplacementCount(s: string, i: nat, cs: Chain, e: nat, c: char)
    requires ChainFacts(s, i, cs) && cs.next < e <= |s| && c != 'n' && !IsRegexSpace(c)
    ensures Count(Replacement(s, i, cs, e), c) == Count(s[i..e], c)
  {
    var al := ArticleLen(s, cs.last);
    var a := s[cs.last..cs.last + al];
    ArticleText(s, cs.last);
    GapCount(s, cs.last, c);
    ArticleCount(a, s[cs.next], c);
    CountOne(' ', c);
    Count4(s[i..cs.last], NewArticle(a, s[cs.next]), " ", s[cs.next..e], c);
    assert Count(Replacement(s, i, cs, e), c) == Count(s[i..cs.last], c) + Count(a, c) + Count(s[cs.next..e], c);
    CountSplit(s, i, cs.last, e, c);
    CountSplit(s, cs.last, cs.last + al, e, c);
    CountSplit(s, cs.last + al, cs.next, e, c);
    assert Count(s[i..e], c) == Count(s[i..cs.last], c) + Count(a, c) + Count(s[cs.next..e], c);
  }

  /** One match keeps every char but the n and the whitespace. */
  lemma ChainHitCount(s: string, i: nat, cs: Chain, c: char)
    requires ChainFacts(s, i, cs) && ChainHit(s, i, cs).Some? && c != 'n' && !IsRegexSpace(c)
    ensures Count(ChainHit(s, i, cs).value.rep, c) == Count(s[i..ChainHit(s, i, cs).value.end], c)
  {
    if cs.next < |s| && IsLetter(s[cs.next]) {
      var e := RunEnd(s, cs.next, Word);
      if !IsArticleWord(s[cs.next..e]) {
        ReplacementCount(s, i, cs, e, c);
      }
    }
  }

  lemma ArticleHitCount(s: string, i: nat, c: char)
    requires ArticleSeqAt(s, i).Some? && c != 'n' && !IsRegexSpace(c)
    ensures Count(ArticleSeqAt(s, i).value.rep, c) == Count(s[i..ArticleSeqAt(s, i).value.end], c)
  {
    ChainHitCount(s, i, ArticleChain(s, i), c);
  }

  /** fixArticles changes nothing on a line but the n of an article and whitespace. */
  lemma ArticlesKeep(line: string, c: char)
    requires c != 'n' && !IsRegexSpace(c)
    ensures Count(ArticlesInLine(line), c) == Count(line, c)
  {
    forall j | 0 <= j < |line| && HitAt(ArticleSeq(), line, j)
      ensures Count(ArticleSeq()(line, j).value.rep, c) == Count(line[j..ArticleSeq()(line, j).value.end], c)
    {
      ArticleHitCount(line, j, c);
    }
    CountKept(line, 0, ArticleSeq(), c);
  }

  lemma ReplacementNoNewline(s: string, i: nat, cs: Chain, e: nat)
    requires ChainFacts(s, i, cs) && cs.next < e <= |s| && '\n' !in s
    ensures '\n' !in Replacement(s, i, cs, e)
  {
    var a := s[cs.last..cs.last + ArticleLen(s, cs.last)];
    assert '\n' !in s[i..cs.last] && '\n' !in s[cs.next..e];
    assert '\n' !in NewArticle(a, s[cs.next]);
  }

  /** A match brings in no newline. */
  lemma ChainHitNoNewline(s: string, i: nat, cs: Chain)
    requires ChainFacts(s, i, cs) && ChainHit(s, i, cs).Some? && '\n' !in s
    ensures '\n' !in ChainHit(s, i, cs).value.rep
  {
    var h := ChainHit(s, i, cs).value;
    if cs.next < |s| && IsLetter(s[cs.next]) && !IsArticleWord(s[cs.next..h.end]) {
      ReplacementNoNewline(s, i, cs, h.end);
    } else {
      assert h.rep == s[i..h.end];
    }
  }

  lemma ArticleHitNoNewline(s: string, i: nat)
    requires ArticleSeqAt(s, i).Some? && '\n' !in s
    ensures '\n' !in ArticleSeqAt(s, i).value.rep
  {
    ChainHitNoNewline(s, i, ArticleChain(s, i));
  }

  lemma ArticlesNoNewline()
    ensures forall l: string :: '\n' !in l ==> '\n' !in ArticlesInLine(l)
  {
    forall l: string | '\n' !in l
      ensures '\n' !in ArticlesInLine(l)
    {
      forall j | 0 <= j < |l| && HitAt(ArticleSeq(), l, j)
        ensures '\n' !in ArticleSeq()(l, j).value.rep
      {
        ArticleHitNoNewline(l, j);
      }
      CharStaysAbsent(l, 0, ArticleSeq(), '\n');
    }
  }

  /** fixArticles works line by line and keeps the newlines. */
  lemma FixArticlesLines(text: string)
    ensures Lines(ArticlesFixed(text)) == ApplyAll(ArticlesInLine, Lines(text))
    ensures Count(ArticlesFixed(text), '\n') == Count(text, '\n')
  {
    ArticlesNoNewline();
    MapLinesLines(text, ArticlesInLine);
  }

  lemma VowelChain()
    ensures ArticleChain("a apple", 0) == Chain(1, 0, 0, 2)
  {
    var s := "a apple";
    assert ArticleLen(s, 0) == 1;
    assert AfterArticle(s, 0) == 2 by {
      RunEndUnique(s, 1, ReSpace, 2);
    }
    assert ArticleLen(s, 2) == 0;
  }

  lemma VowelReplacement()
    ensures ChainFacts("a apple", 0, Chain(1, 0, 0, 2))
    ensures Replacement("a apple", 0, Chain(1, 0, 0, 2), 7) == "an apple"
  {
    var s := "a apple";
    VowelChain();
    assert s[0..1] == "a";
    assert s[2..7] == "apple";
  }

  lemma VowelChainHit()
    ensures ChainHit("a apple", 0, Chain(1, 0, 0, 2)) == Some(Hit(7, "an apple"))
  {
    var s := "a apple";
    VowelReplacement();
    assert RunEnd(s, 2, Word) == 7 by {
      RunEndUnique(s, 2, Word, 7);
    }
    assert !IsArticleWord(s[2..7]);
  }

  lemma VowelHit()
    ensures ArticleSeqAt("a apple", 0) == Some(Hit(7, "an apple"))
  {
    VowelChain();
    VowelChainHit();
  }

  /** "a apple" becomes "an apple". */
  lemma ArticleBeforeVowel()
    ensures ArticlesInLine("a apple") == "an apple"
  {
    VowelHit();
    assert ReplaceFrom("a apple", 7, ArticleSeq()) == [];
  }

  lemma ConsonantChain()
    ensures ArticleChain("An car", 0) == Chain(1, 0, 0, 3)
  {
    var s := "An car";
    assert ArticleLen(s, 0) == 2;
    assert AfterArticle(s, 0) == 3 by {
      RunEndUnique(s, 2, ReSpace, 3);
    }
    assert ArticleLen(s, 3) == 0;
  }

  lemma ConsonantReplacement()
    ensures ChainFacts("An car", 0, Chain(1, 0, 0, 3))
    ensures Replacement("An car", 0, Chain(1, 0, 0, 3), 6) == "A car"
  {
    var s := "An car";
    ConsonantChain();
    assert s[0..2] == "An";
    assert s[3..6] == "car";
  }

  lemma ConsonantChainHit()
    ensures ChainHit("An car", 0, Chain(1, 0, 0, 3)) == Some(Hit(6, "A car"))
  {
    var s := "An car";
    ConsonantReplacement();
    assert RunEnd(s, 3, Word) == 6 by {
      RunEndUnique(s, 3, Word, 6);
    }
    assert !IsArticleWord(s[3..6]);
  }

  lemma ConsonantHit()
    ensures ArticleSeqAt("An car", 0) == Some(Hit(6, "A car"))
  {
    ConsonantChain();
    ConsonantChainHit();
  }

  /** "An car" becomes "A car". */
  lemma ArticleBeforeConsonant()
    ensures ArticlesInLine("An car") == "A car"
  {
    ConsonantHit();
    assert ReplaceFrom("An car", 6, ArticleSeq()) == [];
  }
}
