/** The word lookups of go-reloaded/processor/utils.go, the older copy of the processor.
    Its findWordBefore has the same quote and parenthesis branches as the live one (module
    WordScan) but takes the plain word right where the spaces before the marker begin, with
    no punctuation skip. Its findWordsBefore counts the words inside a quoted or
    parenthesised group and hands them out one by one. */
module LegacyWords {

  import opened Text
  import opened WordScan

  /** What the older findWordBefore returns: the word and its span, ("", -1, -1) for none. */
  datatype Span = Span(word: string, start: int, end: int)

  const NoSpan: Span := Span("", -1, -1)

  /** findWordBefore: skip the spaces before the marker, try a quoted text, then a
      parenthesised one, then the run of letters and digits ending there. */
  function LegacyWordBefore(text: string, pos: nat): (r: Span)
    requires pos <= |text|
    ensures r.word != "" ==> 0 <= r.start < r.end <= pos
    ensures r.word == "" <==> r == NoSpan
  {
    var e := RunStart(text, pos, Blank);
    var q := QuotedBefore(text, e);
    if q.word != "" then Span(q.word, q.start, q.end)
    else
      var p := ParenBefore(text, e);
      if p.word != "" then Span(p.word, p.start, p.end)
      else
        var st := RunStart(text, e, Alnum);
        if st < e then Span(text[st..e], st, e) else NoSpan
  }

  /** findWordBefore as its loops run it. */
  method LegacyFindWordBefore(text: string, patternPos: nat) returns (word: string, start: int, end: int)
    requires patternPos <= |text|
    ensures Span(word, start, end) == LegacyWordBefore(text, patternPos)
  {
    var e := SkipBack(text, patternPos, Blank);
    var r, s := FindQuotedBefore(text, e);
    if r.word == "" {
      r := FindParenBefore(text, e, s);
    }
    if r.word != "" {
      return r.word, r.start, r.end;
    }
    var st := SkipBack(text, e, Alnum);
    if st < e {
      return text[st..e], st, e;
    }
    return "", -1, -1;
  }

  /** A plain result is the maximal run of letters and digits that ends where the spaces
      before the marker begin. */
  lemma LegacyPlainFacts(text: string, pos: nat)
    requires pos <= |text|
    requires var e := RunStart(text, pos, Blank);
             QuotedBefore(text, e).word == "" && ParenBefore(text, e).word == ""
    ensures var r := LegacyWordBefore(text, pos);
            r.word != "" ==>
              text[r.start..r.end] == r.word
              && (forall k :: r.start <= k < r.end ==> IsAlnum(text[k]))
              && (r.start == 0 || !IsAlnum(text[r.start - 1]))
              && (forall k :: r.end <= k < pos ==> text[k] == ' ')
  {
    var e := RunStart(text, pos, Blank);
    RunStartAll(text, pos, Blank);
    RunStartAll(text, e, Alnum);
  }

  /** Punctuation right before the marker (spaces aside) hides the word before it: the
      older lookup finds nothing. */
  lemma PunctuationHidesWord(text: string, pos: nat)
    requires pos <= |text|
    requires var e := RunStart(text, pos, Blank); e > 0 && IsPunct(text[e - 1])
    ensures LegacyWordBefore(text, pos) == NoSpan
  {
    var e := RunStart(text, pos, Blank);
    assert !IsQuote(text[e - 1]) && text[e - 1] != ')' && !IsAlnum(text[e - 1]);
    assert QuoteStart(text, e) == e;
    assert RunStart(text, e, Alnum) == e;
  }

  /** Anywhere else the older lookup finds what the live one finds. */
  lemma LegacyAgrees(text: string, pos: nat)
    requires pos <= |text|
    requires var e := RunStart(text, pos, Blank); e == 0 || !IsPunct(text[e - 1])
    ensures var f := WordBefore(text, pos);
            LegacyWordBefore(text, pos) == Span(f.word, f.start, f.end)
  {
    var e := RunStart(text, pos, Blank);
    assert PlainEnd(text, e) == e;
  }

  /** How many words a found group counts for: the fields of a group with a space in it
      (strings.Contains(word, " ")), one otherwise. */
  function Weight(w: string): nat
  {
    if ' ' in w then |Fields(w)| else 1
  }

  /** The first loop of findWordsBefore: the groups found one after the other to the left,
      leftmost first, until need words are counted or the lookup finds nothing. */
  function Groups(text: string, pos: nat, need: int): (r: seq<Span>)
    requires pos <= |text|
    ensures forall i :: 0 <= i < |r| ==> r[i].word != "" && 0 <= r[i].start < r[i].end <= pos
    decreases pos
  {
    if pos == 0 || need <= 0 then []
    else
      var f := LegacyWordBefore(text, pos);
      if f.word == "" then []
      else if Weight(f.word) >= need then [f]
      else Groups(text, f.start, need - Weight(f.word)) + [f]
  }

  /** k copies of x. */
  function Repeat<T>(x: T, k: nat): (r: seq<T>)
    ensures |r| == k && forall i :: 0 <= i < k ==> r[i] == x
  {
    seq(k, _ => x)
  }

  /** The second loop: from the rightmost group leftwards, the last sub-words of a group with
      a space, or the group itself, until r words are taken; each word carries its group's
      span. */
  function Take(gs: seq<Span>, r: int): (res: (seq<string>, seq<(int, int)>))
    ensures |res.0| == |res.1|
    decreases |gs|
  {
    if |gs| == 0 || r <= 0 then ([], [])
    else
      var g := gs[|gs| - 1];
      if ' ' in g.word then
        var sub := Fields(g.word);
        var k := if |sub| < r then |sub| else r;
        var prev := Take(gs[..|gs| - 1], r - k);
        (prev.0 + sub[|sub| - k..], prev.1 + Repeat((g.start, g.end), k))
      else
        var prev := Take(gs[..|gs| - 1], r - 1);
        (prev.0 + [g.word], prev.1 + [(g.start, g.end)])
  }

  /** findWordsBefore: the words and their spans. */
  function LegacyWordsBefore(text: string, pos: nat, count: int): (res: (seq<string>, seq<(int, int)>))
    requires pos <= |text|
  {
    Take(Groups(text, pos, count), count)
  }

  // ---------------------------------------------------------------- the loops

  /** The lookup at pos finds nothing: no more groups. */
  lemma GroupsStop(text: string, pos: nat, need: int, acc: seq<Span>)
    requires 0 < pos <= |text| && LegacyWordBefore(text, pos).word == ""
    ensures Groups(text, pos, need) + acc == acc
  {
  }

  /** One step of the first loop: the group f found at pos, then the groups to its left. */
  lemma GroupsStep(text: string, pos: nat, need: int, f: Span, acc: seq<Span>)
    requires 0 < pos <= |text| && need > 0
    requires f == LegacyWordBefore(text, pos) && f.word != ""
    ensures 0 <= f.start < pos
    ensures Weight(f.word) >= need ==> Groups(text, pos, need) + acc == [f] + acc
    ensures Weight(f.word) < need ==> Groups(text, pos, need) + acc == Groups(text, f.start, need - Weight(f.word)) + ([f] + acc)
  {
    if Weight(f.word) < need {
      GroupsStepMore(text, pos, need, f, acc);
    } else {
      GroupsUnfold(text, pos, need);
    }
  }

  lemma GroupsStepMore(text: string, pos: nat, need: int, f: Span, acc: seq<Span>)
    requires 0 < pos <= |text| && need > 0
    requires f == LegacyWordBefore(text, pos) && f.word != "" && Weight(f.word) < need
    ensures Groups(text, pos, need) + acc == Groups(text, f.start, need - Weight(f.word)) + ([f] + acc)
  {
    GroupsUnfold(text, pos, need);
    ConcatAssoc(Groups(text, f.start, need - Weight(f.word)), [f], acc);
  }

  /** Groups where the lookup at pos finds a group. */
  lemma GroupsUnfold(text: string, pos: nat, need: int)
    requires 0 < pos <= |text| && need > 0 && LegacyWordBefore(text, pos).word != ""
    ensures var f := LegacyWordBefore(text, pos);
            Groups(text, pos, need) == if Weight(f.word) >= need then [f] else Groups(text, f.start, need - Weight(f.word)) + [f]
  {
  }

  /** The first loop, collecting the groups and counting their words. */
  method CollectGroups(text: string, patternPos: nat, count: int) returns (allWords: seq<Span>)
    requires patternPos <= |text|
    ensures allWords == Groups(text, patternPos, count)
  {
    allWords := [];
    var wordCount := 0;
    ghost var need := count;
    var pos: nat := patternPos;
    assert Groups(text, patternPos, count) + [] == Groups(text, patternPos, count);
    while pos > 0 && wordCount < count
      invariant pos <= patternPos
      invariant need == count - wordCount
      invariant Groups(text, patternPos, count) == Groups(text, pos, need) + allWords
      decreases pos
    {
      var word, start, end := LegacyFindWordBefore(text, pos);
      if word == "" {
        GroupsStop(text, pos, need, allWords);
        break;
      }
      var f := Span(word, start, end);
      GroupsStep(text, pos, need, f, allWords);
      var n := if ' ' in word then |Fields(word)| else 1;
      assert n == Weight(word);
      allWords := [f] + allWords;
      wordCount := wordCount + n;
      need := need - n;
      if wordCount >= count {
        break;
      }
      pos := start;
    }
    assert Groups(text, pos, need) == [];
  }

  /** The inner loop of the second one: up to remaining sub-words of one group, taken from
      its right end, each with the group's span. */
  method TakeSubWords(sub: seq<string>, span: (int, int), remaining0: int, words0: seq<string>, positions0: seq<(int, int)>)
    returns (words: seq<string>, positions: seq<(int, int)>, remaining: int)
    requires remaining0 > 0
    ensures var k := if |sub| < remaining0 then |sub| else remaining0;
            words == sub[|sub| - k..] + words0
            && positions == Repeat(span, k) + positions0
            && remaining == remaining0 - k
  {
    words, positions, remaining := words0, positions0, remaining0;
    var j := |sub| - 1;
    while j >= 0 && remaining > 0
      invariant -1 <= j < |sub|
      invariant remaining == remaining0 - (|sub| - 1 - j) && remaining >= 0
      invariant words == sub[j + 1..] + words0
      invariant positions == Repeat(span, |sub| - 1 - j) + positions0
    {
      TakeOne(sub, span, j, words0, positions0);
      words := [sub[j]] + words;
      positions := [span] + positions;
      remaining := remaining - 1;
      j := j - 1;
    }
    ghost var k := if |sub| < remaining0 then |sub| else remaining0;
    assert j + 1 == |sub| - k;
  }

  lemma TakeOne(sub: seq<string>, span: (int, int), j: nat, words0: seq<string>, positions0: seq<(int, int)>)
    requires j < |sub|
    ensures [sub[j]] + (sub[j + 1..] + words0) == sub[j..] + words0
    ensures [span] + (Repeat(span, |sub| - 1 - j) + positions0) == Repeat(span, |sub| - j) + positions0
  {
    assert sub[j..] == [sub[j]] + sub[j + 1..];
    assert Repeat(span, |sub| - j) == [span] + Repeat(span, |sub| - 1 - j);
  }

  /** Where the second loop stands before group i: what is still to take from the first
      i + 1 groups, followed by the words already taken, makes up the whole result. */
  predicate TakeState(all: seq<Span>, count: int, i: int, r: int, words: seq<string>, positions: seq<(int, int)>)
    requires -1 <= i < |all|
  {
    Take(all, count) == (Take(all[..i + 1], r).0 + words, Take(all[..i + 1], r).1 + positions)
  }

  /** Taking the last sub-words of a group with a space in it. */
  lemma SubWordsStep(all: seq<Span>, count: int, i: nat, r: int, words: seq<string>, positions: seq<(int, int)>)
    requires i < |all| && r > 0 && ' ' in all[i].word
    requires TakeState(all, count, i, r, words, positions)
    ensures var g := all[i];
            var sub := Fields(g.word);
            var k := if |sub| < r then |sub| else r;
            TakeState(all, count, i - 1, r - k, sub[|sub| - k..] + words, Repeat((g.start, g.end), k) + positions)
  {
    var g := all[i];
    var sub := Fields(g.word);
    var k := if |sub| < r then |sub| else r;
    assert all[..i + 1][..i] == all[..i];
    var prev := Take(all[..i], r - k);
    assert Take(all[..i + 1], r) == (prev.0 + sub[|sub| - k..], prev.1 + Repeat((g.start, g.end), k));
    ConcatAssoc(prev.0, sub[|sub| - k..], words);
    ConcatAssoc(prev.1, Repeat((g.start, g.end), k), positions);
  }

  /** Taking a group without a space whole. */
  lemma WordStep(all: seq<Span>, count: int, i: nat, r: int, words: seq<string>, positions: seq<(int, int)>)
    requires i < |all| && r > 0 && ' ' !in all[i].word
    requires TakeState(all, count, i, r, words, positions)
    ensures TakeState(all, count, i - 1, r - 1, [all[i].word] + words, [(all[i].start, all[i].end)] + positions)
  {
    var g := all[i];
    assert all[..i + 1][..i] == all[..i];
    var prev := Take(all[..i], r - 1);
    assert Take(all[..i + 1], r) == (prev.0 + [g.word], prev.1 + [(g.start, g.end)]);
    ConcatAssoc(prev.0, [g.word], words);
    ConcatAssoc(prev.1, [(g.start, g.end)], positions);
  }

  lemma TakeStart(all: seq<Span>, count: int)
    ensures TakeState(all, count, |all| - 1, count, [], [])
  {
    assert all[..|all|] == all;
    assert Take(all, count).0 + [] == Take(all, count).0;
    assert Take(all, count).1 + [] == Take(all, count).1;
  }

  lemma TakeEnd(all: seq<Span>, count: int, i: int, r: int, words: seq<string>, positions: seq<(int, int)>)
    requires -1 <= i < |all| && (i < 0 || r <= 0)
    requires TakeState(all, count, i, r, words, positions)
    ensures (words, positions) == Take(all, count)
  {
    assert Take(all[..i + 1], r) == ([], []);
    assert [] + words == words && [] + positions == positions;
  }

  /** One round of the second loop: group i taken, whole or by its last sub-words. */
  method TakeGroup(all: seq<Span>, count: int, i: nat, r: int, words0: seq<string>, positions0: seq<(int, int)>)
    returns (words: seq<string>, positions: seq<(int, int)>, remaining: int)
    requires i < |all| && r > 0
    requires TakeState(all, count, i, r, words0, positions0)
    ensures TakeState(all, count, i - 1, remaining, words, positions)
  {
    var g := all[i];
    if ' ' in g.word {
      SubWordsStep(all, count, i, r, words0, positions0);
      words, positions, remaining := TakeSubWords(Fields(g.word), (g.start, g.end), r, words0, positions0);
    } else {
      WordStep(all, count, i, r, words0, positions0);
      words := [g.word] + words0;
      positions := [(g.start, g.end)] + positions0;
      remaining := r - 1;
    }
  }

  /** The second loop. */
  method TakeWords(all: seq<Span>, count: int) returns (words: seq<string>, positions: seq<(int, int)>)
    ensures (words, positions) == Take(all, count)
  {
    words, positions := [], [];
    var remaining := count;
    var i := |all| - 1;
    TakeStart(all, count);
    while i >= 0 && remaining > 0
      invariant -1 <= i < |all|
      invariant TakeState(all, count, i, remaining, words, positions)
    {
      words, positions, remaining := TakeGroup(all, count, i, remaining, words, positions);
      i := i - 1;
    }
    TakeEnd(all, count, i, remaining, words, positions);
  }

  /** findWordsBefore: the two loops one after the other. */
  method LegacyFindWordsBefore(text: string, patternPos: nat, count: int) returns (words: seq<string>, positions: seq<(int, int)>)
    requires patternPos <= |text|
    ensures (words, positions) == LegacyWordsBefore(text, patternPos, count)
  {
    var all := CollectGroups(text, patternPos, count);
    words, positions := TakeWords(all, count);
  }

  // ---------------------------------------------------------------- what the lookups return

  /** The words a group stands for, and the span each of them carries. */
  function PieceWords(g: Span): seq<string>
  {
    if ' ' in g.word then Fields(g.word) else [g.word]
  }

  function PieceSpans(g: Span): seq<(int, int)>
  {
    Repeat((g.start, g.end), |PieceWords(g)|)
  }

  /** All the words of the groups, left to right, with their spans: the reference that the
      second loop takes its words from the end of. */
  function AllWords(gs: seq<Span>): seq<string>
    decreases |gs|
  {
    if |gs| == 0 then [] else AllWords(gs[..|gs| - 1]) + PieceWords(gs[|gs| - 1])
  }

  function AllSpans(gs: seq<Span>): (r: seq<(int, int)>)
    ensures |r| == |AllWords(gs)|
    decreases |gs|
  {
    if |gs| == 0 then [] else AllSpans(gs[..|gs| - 1]) + PieceSpans(gs[|gs| - 1])
  }

  function Min(a: int, b: int): int { if a < b then a else b }

  /** The last n elements of s, or all of s when it has fewer. */
  function LastN<T>(s: seq<T>, n: nat): (r: seq<T>)
    ensures |r| == Min(n, |s|)
    ensures forall i :: 0 <= i < |r| ==> r[i] == s[|s| - |r| + i]
  {
    if n < |s| then s[|s| - n..] else s
  }

  /** The last n elements of a + b: the last n - |b| of a and then b when n reaches past b,
      the last n of b otherwise. */
  lemma LastNConcat<T>(a: seq<T>, b: seq<T>, n: nat)
    ensures n >= |b| ==> LastN(a + b, n) == LastN(a, n - |b|) + b
    ensures n <= |b| ==> LastN(a + b, n) == LastN(b, n)
  {
    if n >= |b| {
      assert LastN(a + b, n) == LastN(a, n - |b|) + b;
    } else {
      assert LastN(a + b, n) == LastN(b, n);
    }
  }

  /** One step of Take, written with the pieces of the last group. */
  lemma TakeLast(gs: seq<Span>, r: int)
    requires |gs| > 0 && r > 0
    ensures var g := gs[|gs| - 1];
            var prev := Take(gs[..|gs| - 1], r - Min(|PieceWords(g)|, r));
            Take(gs, r) == (prev.0 + LastN(PieceWords(g), r), prev.1 + LastN(PieceSpans(g), r))
  {
    if ' ' in gs[|gs| - 1].word {
      TakeLastSpaced(gs, r);
    } else {
      TakeLastWord(gs, r);
    }
  }

  /** TakeLast for a group with a space: its last sub-words. */
  lemma TakeLastSpaced(gs: seq<Span>, r: int)
    requires |gs| > 0 && r > 0 && ' ' in gs[|gs| - 1].word
    ensures var g := gs[|gs| - 1];
            var prev := Take(gs[..|gs| - 1], r - Min(|PieceWords(g)|, r));
            Take(gs, r) == (prev.0 + LastN(PieceWords(g), r), prev.1 + LastN(PieceSpans(g), r))
  {
    var g := gs[|gs| - 1];
    var sub := Fields(g.word);
    var k := Min(|sub|, r);
    assert PieceWords(g) == sub;
    assert LastN(sub, r) == sub[|sub| - k..];
    assert LastN(PieceSpans(g), r) == Repeat((g.start, g.end), k);
  }

  /** TakeLast for a group without a space: the group itself. */
  lemma TakeLastWord(gs: seq<Span>, r: int)
    requires |gs| > 0 && r > 0 && ' ' !in gs[|gs| - 1].word
    ensures var g := gs[|gs| - 1];
            var prev := Take(gs[..|gs| - 1], r - Min(|PieceWords(g)|, r));
            Take(gs, r) == (prev.0 + LastN(PieceWords(g), r), prev.1 + LastN(PieceSpans(g), r))
  {
    var g := gs[|gs| - 1];
    assert PieceWords(g) == [g.word];
    assert LastN([g.word], r) == [g.word];
    assert LastN(PieceSpans(g), r) == [(g.start, g.end)];
  }

  /** The second loop takes the last r words of all the groups, or all of them when there are
      fewer, each with its group's span. */
  lemma {:induction false} TakeIsSuffix(gs: seq<Span>, r: nat)
    ensures Take(gs, r) == (LastN(AllWords(gs), r), LastN(AllSpans(gs), r))
    decreases |gs|
  {
    if |gs| > 0 && r > 0 {
      var init, g := gs[..|gs| - 1], gs[|gs| - 1];
      var pw, pp := PieceWords(g), PieceSpans(g);
      TakeLast(gs, r);
      assert AllWords(gs) == AllWords(init) + pw && AllSpans(gs) == AllSpans(init) + pp;
      LastNConcat(AllWords(init), pw, r);
      LastNConcat(AllSpans(init), pp, r);
      if r <= |pw| {
        assert Take(init, 0) == ([], []);
        assert [] + LastN(pw, r) == LastN(pw, r) && [] + LastN(pp, r) == LastN(pp, r);
      } else {
        TakeIsSuffix(init, r - |pw|);
        assert LastN(pw, r) == pw && LastN(pp, r) == pp;
      }
    }
  }

  /** The groups lie left to right without overlapping. */
  predicate Sorted(gs: seq<Span>)
  {
    (forall j :: 0 <= j < |gs| ==> gs[j].start < gs[j].end)
    && forall j, k :: 0 <= j < k < |gs| ==> gs[j].end <= gs[k].start
  }

  lemma {:induction false} GroupsSorted(text: string, pos: nat, need: int)
    requires pos <= |text|
    ensures Sorted(Groups(text, pos, need))
    decreases pos
  {
    if pos > 0 && need > 0 {
      var f := LegacyWordBefore(text, pos);
      if f.word != "" && Weight(f.word) < need {
        GroupsSorted(text, f.start, need - Weight(f.word));
      }
    }
  }

  /** Each word carries the span of one of the groups, and the spans never go backwards:
      two neighbouring words share a group's span or lie one after the other. */
  predicate SpanOf(p: (int, int), gs: seq<Span>)
  {
    exists j :: 0 <= j < |gs| && p == (gs[j].start, gs[j].end)
  }

  predicate FromGroups(ps: seq<(int, int)>, gs: seq<Span>)
  {
    forall i :: 0 <= i < |ps| ==> SpanOf(ps[i], gs)
  }

  predicate Ascending(ps: seq<(int, int)>)
  {
    forall i :: 0 <= i < |ps| - 1 ==> ps[i] == ps[i + 1] || ps[i].1 <= ps[i + 1].0
  }

  lemma {:induction false} AllSpansOrdered(gs: seq<Span>)
    requires Sorted(gs)
    ensures FromGroups(AllSpans(gs), gs) && Ascending(AllSpans(gs))
    decreases |gs|
  {
    if |gs| > 0 {
      var init, g := gs[..|gs| - 1], gs[|gs| - 1];
      var ip, pp := AllSpans(init), PieceSpans(g);
      assert Sorted(init);
      AllSpansOrdered(init);
      var ps := ip + pp;
      forall i | 0 <= i < |ps|
        ensures SpanOf(ps[i], gs)
      {
        if i < |ip| {
          var j :| 0 <= j < |init| && ip[i] == (init[j].start, init[j].end);
          assert gs[j] == init[j];
        } else {
          assert ps[i] == (gs[|gs| - 1].start, gs[|gs| - 1].end);
        }
      }
      forall i | 0 <= i < |ps| - 1
        ensures ps[i] == ps[i + 1] || ps[i].1 <= ps[i + 1].0
      {
        if i + 1 < |ip| {
          assert ps[i] == ip[i] && ps[i + 1] == ip[i + 1];
        } else if i + 1 == |ip| {
          var j :| 0 <= j < |init| && ip[i] == (init[j].start, init[j].end);
          assert gs[j] == init[j] && j < |gs| - 1;
          assert ps[i + 1] == (g.start, g.end);
        } else {
          assert ps[i] == ps[i + 1];
        }
      }
    }
  }

  /** The spans a suffix keeps still come from the groups, in order, before pos. */
  lemma SuffixOrdered(ps: seq<(int, int)>, gs: seq<Span>, d: nat, pos: int)
    requires d <= |ps| && FromGroups(ps, gs) && Ascending(ps)
    requires forall j :: 0 <= j < |gs| ==> 0 <= gs[j].start < gs[j].end <= pos
    ensures FromGroups(ps[d..], gs) && Ascending(ps[d..])
    ensures forall i :: 0 <= i < |ps| - d ==> 0 <= ps[d..][i].0 < ps[d..][i].1 <= pos
  {
    var qs := ps[d..];
    forall i | 0 <= i < |qs|
      ensures SpanOf(qs[i], gs)
    {
      assert qs[i] == ps[d + i];
    }
    forall i | 0 <= i < |qs|
      ensures 0 <= qs[i].0 < qs[i].1 <= pos
    {
      assert qs[i] == ps[d + i];
      var j :| 0 <= j < |gs| && ps[d + i] == (gs[j].start, gs[j].end);
    }
    forall i | 0 <= i < |qs| - 1
      ensures qs[i] == qs[i + 1] || qs[i].1 <= qs[i + 1].0
    {
      assert qs[i] == ps[d + i] && qs[i + 1] == ps[d + i + 1];
    }
  }

  /** findWordsBefore returns nothing for a count of zero or less. Otherwise it returns the
      last count words of the groups it found (all of them when there are fewer), the
      words inside a group with a space counted one by one and each carrying the group's
      span; the spans come from the groups, in text order, all before the marker. */
  lemma LegacyWordsBeforeShape(text: string, pos: nat, count: int)
    requires pos <= |text|
    ensures count <= 0 ==> LegacyWordsBefore(text, pos, count) == ([], [])
    ensures count > 0 ==>
      var gs := Groups(text, pos, count);
      LegacyWordsBefore(text, pos, count) == (LastN(AllWords(gs), count), LastN(AllSpans(gs), count))
    ensures var gs := Groups(text, pos, count);
            var res := LegacyWordsBefore(text, pos, count);
            |res.0| == |res.1| && |res.0| <= (if count < 0 then 0 else count)
            && FromGroups(res.1, gs) && Ascending(res.1)
            && forall i :: 0 <= i < |res.1| ==> 0 <= res.1[i].0 < res.1[i].1 <= pos
  {
    var gs := Groups(text, pos, count);
    if count > 0 {
      TakeIsSuffix(gs, count);
      GroupsSorted(text, pos, count);
      TakeSpansOrdered(gs, count, pos);
    }
  }

  /** The spans the second loop takes from sorted groups come from the groups, in order. */
  lemma TakeSpansOrdered(gs: seq<Span>, r: nat, pos: int)
    requires Sorted(gs) && forall j :: 0 <= j < |gs| ==> 0 <= gs[j].start < gs[j].end <= pos
    ensures var ps := Take(gs, r).1;
            FromGroups(ps, gs) && Ascending(ps) && forall i :: 0 <= i < |ps| ==> 0 <= ps[i].0 < ps[i].1 <= pos
  {
    var ps := AllSpans(gs);
    TakeIsSuffix(gs, r);
    AllSpansOrdered(gs);
    LastNSuffix(ps, r);
    SuffixOrdered(ps, gs, |ps| - Min(r, |ps|), pos);
  }

  lemma LastNSuffix<T>(s: seq<T>, n: nat)
    ensures LastN(s, n) == s[|s| - Min(n, |s|)..]
  {
  }

}
