/** The single-quote pass that transformations/case.go (fixQuotes) and
    transformations/punctuation.go (FixQuotes2) share: the regular expression '\s*(.*?)\s*'
    replaced by the group between two quotes, so that the whitespace just inside a pair of
    quotes disappears. */
module QuoteFix {

  import opened Wrappers
  import opened Text
  import opened Rewrite
  import Quotes

  /** A match of '\s*(.*?)\s*': the group is s[start..stop], the closing quote is at close. */
  datatype Span = Span(start: nat, stop: nat, close: nat)

  /** The first offset at or after i holding c is j. */
  lemma IndexFromIs(s: string, i: nat, c: char, j: nat)
    requires i <= j <= |s|
    requires forall x :: i <= x < j ==> s[x] != c
    requires j == |s| || s[j] == c
    ensures IndexFrom(s, i, c) == j
    decreases j - i
  {
    if i < j {
      IndexFromIs(s, i + 1, c, j);
    }
  }

  /** '\s*(.*?)\s*' at offset i, the way RE2 picks the match: the greedy \s* takes all the
      whitespace after the opening quote, the lazy group stops as soon as the rest can match,
      which is at the whitespace run just before the next quote; since . does not match a
      newline, there is no match when the group would hold one. */
  function QuoteSpanAt(s: string, i: nat): (r: Option<Span>)
    ensures r.Some? ==> i < r.value.start <= r.value.stop <= r.value.close < |s|
  {
    if i < |s| && s[i] == '\'' then SpanFrom(s, RunEnd(s, i + 1, ReSpace)) else None
  }

  /** The rest of the match once the whitespace after the opening quote ends at a: the next
      quote closes it. */
  function SpanFrom(s: string, a: nat): (r: Option<Span>)
    requires a <= |s|
    ensures r.Some? ==> a == r.value.start <= r.value.stop <= r.value.close < |s|
  {
    var k := IndexFrom(s, a, '\'');
    if k == |s| then None else GroupTo(s, a, k, RunStart(s, k, ReSpace))
  }

  /** The group from a to the whitespace run that starts at b0 before the closing quote at k. */
  function GroupTo(s: string, a: nat, k: nat, b0: nat): (r: Option<Span>)
    requires a <= k < |s|
    ensures r.Some? ==> a == r.value.start <= r.value.stop <= r.value.close == k
  {
    var b := if b0 < a then a else if b0 > k then k else b0;
    if IndexFrom(s, a, '\n') < b then None else Some(Span(a, b, k))
  }

  /** What a match of '\s*(.*?)\s*' at i with span sp looks like: quotes at i and at close and
      none between them, whitespace only between the quotes and the group, a group that
      neither starts nor ends with whitespace and holds no newline. */
  ghost predicate SpanOk(s: string, i: nat, sp: Span)
  {
    i < sp.start <= sp.stop <= sp.close < |s| && s[i] == '\'' && s[sp.close] == '\''
    && (forall x :: i < x < sp.close ==> s[x] != '\'')
    && (forall x :: i < x < sp.start ==> IsRegexSpace(s[x]))
    && (sp.start == sp.close || !IsRegexSpace(s[sp.start]))
    && (forall x :: sp.stop <= x < sp.close ==> IsRegexSpace(s[x]))
    && (sp.stop == sp.start || !IsRegexSpace(s[sp.stop - 1]))
    && (forall x :: sp.start <= x < sp.stop ==> s[x] != '\n')
  }

  /** Every match has that shape. */
  lemma QuoteSpanShape(s: string, i: nat, sp: Span)
    requires QuoteSpanAt(s, i) == Some(sp)
    ensures SpanOk(s, i, sp)
  {
    RunEndAll(s, i + 1, ReSpace);
    RunStartAll(s, sp.close, ReSpace);
  }

  /** A quote, a closing quote with no newline between them: the pattern matches. */
  lemma QuoteMatches(s: string, i: nat, k: nat)
    requires i < k < |s| && s[i] == '\'' && s[k] == '\''
    requires forall x :: i < x < k ==> s[x] != '\'' && s[x] != '\n'
    ensures QuoteSpanAt(s, i).Some? && QuoteSpanAt(s, i).value.close == k
  {
    var a := RunEnd(s, i + 1, ReSpace);
    RunEndAll(s, i + 1, ReSpace);
    IndexFromIs(s, a, '\'', k);
  }

  /** fixQuotes: the match becomes "'$1'". */
  function FixQuoteAt(s: string, i: nat): Option<Hit>
  {
    match QuoteSpanAt(s, i)
    case None => None
    case Some(sp) => Some(Hit(sp.close + 1, "'" + s[sp.start..sp.stop] + "'"))
  }

  function FixQuoteMatcher(): Matcher
  {
    (s: string, i: nat) => FixQuoteAt(s, i)
  }

  /** fixQuotes of transformations/case.go */
  function FixQuotes(text: string): string
  {
    ReplaceAll(text, FixQuoteMatcher())
  }

  /** The group of a match, found again inside the matched text m on its own. */
  function Regroup(m: string): string
  {
    match QuoteSpanAt(m, 0)
    case None => []
    case Some(g) => m[g.start..g.stop]
  }

  /** The callback of FixQuotes2: the group found again inside the matched text, trimmed with
      strings.TrimSpace. */
  function FixQuote2At(s: string, i: nat): Option<Hit>
  {
    match QuoteSpanAt(s, i)
    case None => None
    case Some(sp) => Some(Hit(sp.close + 1, "'" + TrimSpace(Regroup(s[i..sp.close + 1])) + "'"))
  }

  function FixQuote2Matcher(): Matcher
  {
    (s: string, i: nat) => FixQuote2At(s, i)
  }

  /** FixQuotes2 of transformations/punctuation.go */
  function FixQuotes2(text: string): string
  {
    ReplaceAll(text, FixQuote2Matcher())
  }

  /** Conversely, that shape pins the match down: a span is the match exactly when it is
      SpanOk. */
  lemma QuoteSpanIs(s: string, i: nat, sp: Span)
    requires SpanOk(s, i, sp)
    ensures QuoteSpanAt(s, i) == Some(sp)
  {
    RunEndUnique(s, i + 1, ReSpace, sp.start);
    IndexFromIs(s, sp.start, '\'', sp.close);
    GroupIs(s, i, sp);
  }

  /** The group QuoteSpanIs ends up with, once the closing quote is found. */
  lemma GroupIs(s: string, i: nat, sp: Span)
    requires SpanOk(s, i, sp)
    ensures GroupTo(s, sp.start, sp.close, RunStart(s, sp.close, ReSpace)) == Some(sp)
  {
    var b0 := RunStart(s, sp.close, ReSpace);
    if sp.stop > sp.start {
      RunStartUnique(s, sp.close, ReSpace, sp.stop);
    } else {
      RunStartAll(s, sp.close, ReSpace);
    }
    assert (if b0 < sp.start then sp.start else if b0 > sp.close then sp.close else b0) == sp.stop;
    assert IndexFrom(s, sp.start, '\n') >= sp.stop;
  }

  /** The shape carried over to the matched text cut out of s. */
  lemma ShiftedSpan(s: string, i: nat, sp: Span, m: string)
    requires SpanOk(s, i, sp) && m == s[i..sp.close + 1]
    ensures SpanOk(m, 0, Span(sp.start - i, sp.stop - i, sp.close - i))
  {
    forall x | 0 <= x < |m| ensures m[x] == s[i + x] {
    }
  }

  /** The matched text on its own yields the same group, moved to its offsets. */
  lemma RefindSpan(s: string, i: nat, sp: Span)
    requires QuoteSpanAt(s, i) == Some(sp)
    ensures QuoteSpanAt(s[i..sp.close + 1], 0) == Some(Span(sp.start - i, sp.stop - i, sp.close - i))
  {
    QuoteSpanShape(s, i, sp);
    ShiftedSpan(s, i, sp, s[i..sp.close + 1]);
    QuoteSpanIs(s[i..sp.close + 1], 0, Span(sp.start - i, sp.stop - i, sp.close - i));
  }

  /** FixQuotes2 writes the group of the match trimmed with strings.TrimSpace. */
  lemma FixQuote2Content(s: string, i: nat, sp: Span)
    requires QuoteSpanAt(s, i) == Some(sp)
    ensures FixQuote2At(s, i) == Some(Hit(sp.close + 1, "'" + TrimSpace(s[sp.start..sp.stop]) + "'"))
  {
    RegroupIs(s, i, sp);
  }

  /** Found again inside the matched text, the group is the same text. */
  lemma RegroupIs(s: string, i: nat, sp: Span)
    requires QuoteSpanAt(s, i) == Some(sp)
    ensures Regroup(s[i..sp.close + 1]) == s[sp.start..sp.stop]
  {
    var g := Span(sp.start - i, sp.stop - i, sp.close - i);
    RefindSpan(s, i, sp);
    RegroupOf(s[i..sp.close + 1], g);
    SliceOfSlice(s, i, sp.close + 1, g.start, g.stop);
  }

  lemma RegroupOf(m: string, g: Span)
    requires QuoteSpanAt(m, 0) == Some(g)
    ensures Regroup(m) == m[g.start..g.stop]
  {
  }

  /** The group has no whitespace at its ends: without vertical tabs, TrimSpace leaves it. */
  lemma TrimGroup(s: string, i: nat, sp: Span)
    requires QuoteSpanAt(s, i) == Some(sp)
    requires forall x :: 0 <= x < |s| ==> s[x] != '\U{B}'
    ensures TrimSpace(s[sp.start..sp.stop]) == s[sp.start..sp.stop]
  {
    QuoteSpanShape(s, i, sp);
    var g := s[sp.start..sp.stop];
    if |g| > 0 {
      assert g[0] == s[sp.start] && g[|g| - 1] == s[sp.stop - 1];
      assert TrimStart(g) == 0;
      assert RunStart(g, |g|, Space) == |g|;
    } else {
      assert TrimStart(g) == 0;
    }
  }

  /** Two matchers that agree on every offset replace alike. */
  lemma {:induction false} ReplaceAgree(s: string, i: nat, m1: Matcher, m2: Matcher)
    requires i <= |s|
    requires forall j :: i <= j < |s| ==> m1(s, j) == m2(s, j)
    ensures ReplaceFrom(s, i, m1) == ReplaceFrom(s, i, m2)
    decreases |s| - i
  {
    if i < |s| {
      if HitAt(m1, s, i) {
        ReplaceAgree(s, m1(s, i).value.end, m1, m2);
      } else {
        ReplaceAgree(s, i + 1, m1, m2);
      }
    }
  }

  /** The two quote passes differ only on vertical tabs, which TrimSpace treats as whitespace
      and \s does not. */
  lemma QuotePassesAgree(s: string)
    requires forall x :: 0 <= x < |s| ==> s[x] != '\U{B}'
    ensures FixQuotes2(s) == FixQuotes(s)
  {
    forall j | 0 <= j < |s| ensures FixQuote2Matcher()(s, j) == FixQuoteMatcher()(s, j) {
      match QuoteSpanAt(s, j)
      case None =>
      case Some(sp) =>
        FixQuote2Content(s, j, sp);
        TrimGroup(s, j, sp);
    }
    ReplaceAgree(s, 0, FixQuote2Matcher(), FixQuoteMatcher());
  }

  /** The opening quote and the whitespace after it hold one c when c is the quote, and none
      of any other char that is not whitespace. */
  lemma EdgeCount(e: string, q: nat, c: char)
    requires q < |e| && e[q] == '\''
    requires forall x :: 0 <= x < |e| && x != q ==> IsRegexSpace(e[x])
    requires !IsRegexSpace(c)
    ensures Count(e, c) == (if c == '\'' then 1 else 0)
  {
    CountSlices(e, q, c);
    CountSlices(e[q..], 1, c);
    assert e[q..][..1] == [e[q]];
    CountOne(e[q], c);
    assert c !in e[..q];
    CountZero(e[..q], c);
    assert c !in e[q..][1..];
    CountZero(e[q..][1..], c);
  }

  /** The opening quote of a match and the whitespace after it. */
  lemma OpenCount(s: string, i: nat, sp: Span, c: char)
    requires SpanOk(s, i, sp) && !IsRegexSpace(c)
    ensures Count(s[i..sp.start], c) == Count("'", c)
  {
    var e := s[i..sp.start];
    forall x | 0 <= x < |e| && x != 0 ensures IsRegexSpace(e[x]) {
      assert e[x] == s[i + x];
    }
    EdgeCount(e, 0, c);
    CountOne('\'', c);
  }

  /** The whitespace before the closing quote of a match and the quote. */
  lemma CloseCount(s: string, i: nat, sp: Span, c: char)
    requires SpanOk(s, i, sp) && !IsRegexSpace(c)
    ensures Count(s[sp.stop..sp.close + 1], c) == Count("'", c)
  {
    var e := s[sp.stop..sp.close + 1];
    forall x | 0 <= x < |e| && x != sp.close - sp.stop ensures IsRegexSpace(e[x]) {
      assert e[x] == s[sp.stop + x];
    }
    EdgeCount(e, sp.close - sp.stop, c);
    CountOne('\'', c);
  }

  /** A match holds its group and, around it, one quote at each end and otherwise whitespace
      only. */
  lemma MatchCount(s: string, i: nat, sp: Span, c: char)
    requires QuoteSpanAt(s, i) == Some(sp)
    requires !IsRegexSpace(c)
    ensures Count(s[i..sp.close + 1], c) == Count(s[sp.start..sp.stop], c) + 2 * Count("'", c)
  {
    QuoteSpanShape(s, i, sp);
    CountSplit(s, i, sp.start, sp.close + 1, c);
    CountSplit(s, sp.start, sp.stop, sp.close + 1, c);
    OpenCount(s, i, sp, c);
    CloseCount(s, i, sp, c);
  }

  /** A replacement that wraps g in quotes holds g and two quotes. */
  lemma WrapCount(g: string, c: char)
    ensures Count("'" + g + "'", c) == Count(g, c) + 2 * Count("'", c)
  {
    Count4("'", g, "'", [], c);
    assert "'" + g + "'" + [] == "'" + g + "'";
  }

  /** fixQuotes keeps every char that is not whitespace, quotes included: it only cuts
      whitespace just inside a pair of quotes. */
  lemma FixQuotesKeeps(s: string, c: char)
    requires !IsRegexSpace(c)
    ensures Count(FixQuotes(s), c) == Count(s, c)
  {
    var m := FixQuoteMatcher();
    forall j | 0 <= j < |s| && HitAt(m, s, j)
      ensures Count(m(s, j).value.rep, c) == Count(s[j..m(s, j).value.end], c)
    {
      var sp := QuoteSpanAt(s, j).value;
      MatchCount(s, j, sp, c);
      WrapCount(s[sp.start..sp.stop], c);
    }
    CountKept(s, 0, m, c);
  }

  /** FixQuotes2 keeps every char that is not whitespace, quotes included. */
  lemma FixQuotes2Keeps(s: string, c: char)
    requires !IsSpace(c)
    ensures Count(FixQuotes2(s), c) == Count(s, c)
  {
    var m := FixQuote2Matcher();
    forall j | 0 <= j < |s| && HitAt(m, s, j)
      ensures Count(m(s, j).value.rep, c) == Count(s[j..m(s, j).value.end], c)
    {
      FixQuote2HitKeeps(s, j, c);
    }
    CountKept(s, 0, m, c);
  }

  /** One replacement of FixQuotes2 keeps every char that is not whitespace. */
  lemma FixQuote2HitKeeps(s: string, j: nat, c: char)
    requires !IsSpace(c) && HitAt(FixQuote2Matcher(), s, j)
    ensures var h := FixQuote2Matcher()(s, j).value;
            Count(h.rep, c) == Count(s[j..h.end], c)
  {
    var sp := QuoteSpanAt(s, j).value;
    var t := s[sp.start..sp.stop];
    FixQuote2Content(s, j, sp);
    assert FixQuote2Matcher()(s, j) == Some(Hit(sp.close + 1, "'" + TrimSpace(t) + "'"));
    MatchCount(s, j, sp, c);
    HitCount(t, s[j..sp.close + 1], c);
  }

  /** Trimming the text between the quotes and quoting it again keeps the count of a char
      that is not whitespace. */
  lemma HitCount(t: string, matched: string, c: char)
    requires !IsSpace(c)
    requires Count(matched, c) == Count(t, c) + 2 * Count("'", c)
    ensures Count("'" + TrimSpace(t) + "'", c) == Count(matched, c)
  {
    Quotes.TrimKeepsCount(t, c);
    WrapCount(TrimSpace(t), c);
  }
}
