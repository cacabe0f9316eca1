/** The single backward lookups of processor/utils.go: the digit-string predicates and
    findWordBefore, which finds the quoted span, parenthesised span or plain word that ends
    just before an offset. */
module WordScan {

  import opened Wrappers
  import opened Text
  import opened Numbers

  predicate IsHexDigit(c: char)
  {
    IsDigit(c) || ('a' <= c <= 'f') || ('A' <= c <= 'F')
  }

  /** isHex: non-empty and made of hexadecimal digits of either case. */
  predicate IsHex(s: string)
  {
    |s| > 0 && forall k :: 0 <= k < |s| ==> IsHexDigit(s[k])
  }

  /** isBin: non-empty and made of 0 and 1. */
  predicate IsBin(s: string)
  {
    |s| > 0 && forall k :: 0 <= k < |s| ==> s[k] == '0' || s[k] == '1'
  }

  /** The predicates accept exactly what strconv accepts as unsigned digits of base 16 and 2. */
  lemma DigitPredicatesAgree(s: string)
    ensures IsHex(s) <==> |s| > 0 && AllDigits(s, 16)
    ensures IsBin(s) <==> |s| > 0 && AllDigits(s, 2)
  {
    if |s| > 0 && AllDigits(s, 16) {
      forall k | 0 <= k < |s| ensures IsHexDigit(s[k]) {
        assert DigitValue(s[k]) < 16;
      }
    }
    if |s| > 0 && AllDigits(s, 2) {
      forall k | 0 <= k < |s| ensures s[k] == '0' || s[k] == '1' {
        assert DigitValue(s[k]) < 2;
      }
    }
  }

  predicate IsQuote(c: char) { c == '\'' || c == '"' }

  /** What findWordBefore returns: the word, where its span starts and ends (-1 when
      nothing was found), whether it was enclosed, and the enclosing char ('\0' for none). */
  datatype Found = Found(word: string, start: int, end: int, quoted: bool, quoteChar: char)

  const NotFound: Found := Found("", -1, -1, false, '\0')

  /** Where the quote branch of findWordBefore leaves start: on the opening quote, or at 0
      when there is none; e itself when no quote precedes e. */
  function QuoteStart(text: string, e: nat): (s: nat)
    requires e <= |text|
    ensures s <= e
    ensures e > 0 && IsQuote(text[e - 1]) ==> s < e && (s == 0 || text[s] == text[e - 1])
  {
    if e > 0 && IsQuote(text[e - 1]) then
      var s1 := RunStart(text, e - 1, Except(text[e - 1]));
      if s1 > 0 then s1 - 1 else 0
    else e
  }

  /** The backward scan for the opening parenthesis: start at s with the given depth,
      step left, and count '(' down and ')' up until the depth reaches 0 or the text starts. */
  function ParenOpen(text: string, s: nat, depth: nat): (r: nat)
    requires s <= |text|
    ensures r <= s
    ensures depth > 0 && s > 0 ==> r < s && (r == 0 || text[r] == '(')
    decreases s
  {
    if s == 0 || depth == 0 then s
    else
      var d := if text[s - 1] == '(' then depth - 1 else if text[s - 1] == ')' then depth + 1 else depth;
      ParenOpen(text, s - 1, d)
  }

  /** The end of the plain word: past trailing punctuation and the spaces before it. */
  function PlainEnd(text: string, e: nat): (e1: nat)
    requires e <= |text|
    ensures e1 <= e
    ensures forall k :: e1 <= k < e ==> text[k] == ' ' || IsPunct(text[k])
  {
    if e > 0 && IsPunct(text[e - 1]) then
      var p := RunStart(text, e, Punct);
      RunStartAll(text, e, Punct);
      RunStartAll(text, p, Blank);
      RunStart(text, p, Blank)
    else e
  }

  /** The run of letters and digits that ends at PlainEnd(text, e). */
  function PlainWordBefore(text: string, e: nat): (r: Found)
    requires e <= |text|
    ensures r.word == "" <==> r == NotFound
    ensures r.word != "" ==> 0 <= r.start < r.end == PlainEnd(text, e) && !r.quoted
                             && text[r.start..r.end] == r.word
                             && (forall k :: r.start <= k < r.end ==> IsAlnum(text[k]))
                             && (r.start == 0 || !IsAlnum(text[r.start - 1]))
  {
    var e1 := PlainEnd(text, e);
    var st := RunStart(text, e1, Alnum);
    RunStartAll(text, e1, Alnum);
    if st < e1 then Found(text[st..e1], st, e1, false, '\0') else NotFound
  }

  /** The trimmed text between an opener at o and a closer at e - 1, as a found enclosure
      marked with q; nothing when that text is blank. */
  function Enclosed(text: string, o: nat, e: nat, q: char): (r: Found)
    requires o <= e <= |text|
    ensures r.word == "" <==> r == NotFound
    ensures r.word != "" ==> r.start == o && r.end == e && o + 1 <= e - 1
                             && r.word == TrimSpace(text[o + 1..e - 1]) && r.quoted && r.quoteChar == q
  {
    if o + 1 <= e - 1 then
      var w := TrimSpace(text[o + 1..e - 1]);
      if w != "" then Found(w, o, e, true, q) else NotFound
    else NotFound
  }

  /** The quote branch of findWordBefore at the end e of the skipped spaces: the trimmed
      text between the opening quote and the closing quote at e - 1, when it is not blank. */
  function QuotedBefore(text: string, e: nat): (r: Found)
    requires e <= |text|
    ensures r.word == "" <==> r == NotFound
    ensures r.word != "" ==> e > 0 && IsQuote(text[e - 1])
                             && r == Enclosed(text, QuoteStart(text, e), e, text[e - 1])
  {
    if e > 0 && IsQuote(text[e - 1]) then Enclosed(text, QuoteStart(text, e), e, text[e - 1])
    else NotFound
  }

  /** The parenthesis branch: it looks left of where the quote branch left start, so after a
      blank quoted text it looks at the char before the opening quote. */
  function ParenBefore(text: string, e: nat): (r: Found)
    requires e <= |text|
    ensures r.word == "" <==> r == NotFound
    ensures r.word != "" ==> var s := QuoteStart(text, e);
                             s > 0 && text[s - 1] == ')' && r == Enclosed(text, ParenOpen(text, s - 1, 1), e, '(')
  {
    var s := QuoteStart(text, e);
    if s > 0 && text[s - 1] == ')' then Enclosed(text, ParenOpen(text, s - 1, 1), e, '(')
    else NotFound
  }

  /** findWordBefore, with the quote branch guarded as in go-reloaded/processor/utils.go:120
      so that it is total (see Findings). */
  function WordBefore(text: string, pos: nat): (r: Found)
    requires pos <= |text|
    ensures r.word != "" ==> 0 <= r.start < r.end <= pos
    ensures r.word == "" <==> r == NotFound
  {
    var e := RunStart(text, pos, Blank);
    var q := QuotedBefore(text, e);
    if q.word != "" then q
    else
      var p := ParenBefore(text, e);
      if p.word != "" then p else PlainWordBefore(text, e)
  }

  /** One of the backward loops of findWordBefore: step left while the char before i satisfies p. */
  method SkipBack(text: string, i: nat, k: CharClass) returns (j: nat)
    requires i <= |text|
    ensures j == RunStart(text, i, k)
  {
    j := i;
    while j > 0 && InClass(k, text[j - 1])
      invariant j <= i
      invariant RunStart(text, j, k) == RunStart(text, i, k)
    {
      j := j - 1;
    }
  }

  /** The depth-counting loop of findWordBefore, started just left of a ')'. */
  method ScanParenOpen(text: string, s0: nat) returns (s: nat)
    requires s0 <= |text|
    ensures s == ParenOpen(text, s0, 1)
  {
    s := s0;
    var depth: nat := 1;
    while s > 0 && depth > 0
      invariant s <= s0
      invariant ParenOpen(text, s, depth) == ParenOpen(text, s0, 1)
    {
      s := s - 1;
      if text[s] == '(' {
        depth := depth - 1;
      } else if text[s] == ')' {
        depth := depth + 1;
      }
    }
  }

  /** The slice, trim and blank test shared by the quote and parenthesis branches. */
  method TakeEnclosed(text: string, o: nat, e: nat, q: char) returns (r: Found)
    requires o <= e <= |text|
    ensures r == Enclosed(text, o, e, q)
  {
    r := NotFound;
    if o + 1 <= e - 1 {
      var content := TrimSpace(text[o + 1..e - 1]);
      if content != "" {
        r := Found(content, o, e, true, q);
      }
    }
  }

  /** The quote branch as loops: also returns where it leaves start. */
  method FindQuotedBefore(text: string, e: nat) returns (r: Found, s: nat)
    requires e <= |text|
    ensures r == QuotedBefore(text, e) && s == QuoteStart(text, e)
  {
    s := e;
    r := NotFound;
    if s > 0 && (text[s - 1] == '\'' || text[s - 1] == '"') {
      var q := text[s - 1];
      s := SkipBack(text, s - 1, Except(q));
      if s > 0 && text[s - 1] == q {
        s := s - 1;
      }
      r := TakeEnclosed(text, s, e, q);
    }
  }

  /** The parenthesis branch as loops, from where the quote branch left start. */
  method FindParenBefore(text: string, e: nat, s0: nat) returns (r: Found)
    requires e <= |text| && s0 == QuoteStart(text, e)
    ensures r == ParenBefore(text, e)
  {
    r := NotFound;
    if s0 > 0 && text[s0 - 1] == ')' {
      var s := ScanParenOpen(text, s0 - 1);
      r := TakeEnclosed(text, s, e, '(');
    }
  }

  /** The punctuation skip and the plain word scan. */
  method FindPlainWordBefore(text: string, e0: nat) returns (r: Found)
    requires e0 <= |text|
    ensures r == PlainWordBefore(text, e0)
  {
    var e := e0;
    if e > 0 && IsPunct(text[e - 1]) {
      e := SkipBack(text, e, Punct);
      e := SkipBack(text, e, Blank);
    }
    var s := SkipBack(text, e, Alnum);
    if s < e {
      r := Found(text[s..e], s, e, false, '\0');
    } else {
      r := NotFound;
    }
  }

  /** findWordBefore: skip the spaces before the marker, then try the quote branch, the
      parenthesis branch and the plain word in that order. */
  method FindWordBefore(text: string, patternPos: nat) returns (word: string, start: int, end: int, quoted: bool, quoteChar: char)
    requires patternPos <= |text|
    ensures Found(word, start, end, quoted, quoteChar) == WordBefore(text, patternPos)
  {
    var e := SkipBack(text, patternPos, Blank);
    var r, s := FindQuotedBefore(text, e);
    if r.word == "" {
      r := FindParenBefore(text, e, s);
      if r.word == "" {
        r := FindPlainWordBefore(text, e);
      }
    }
    return r.word, r.start, r.end, r.quoted, r.quoteChar;
  }

  /** A plain result is the maximal run of letters and digits ending at its end, and only
      spaces and punctuation lie between it and the marker. */
  lemma PlainWordFacts(text: string, pos: nat)
    requires pos <= |text|
    requires WordBefore(text, pos).word != "" && !WordBefore(text, pos).quoted
    ensures var r := WordBefore(text, pos);
            text[r.start..r.end] == r.word
            && (forall k :: r.start <= k < r.end ==> IsAlnum(text[k]))
            && (r.start == 0 || !IsAlnum(text[r.start - 1]))
            && (forall k :: r.end <= k < pos ==> text[k] == ' ' || IsPunct(text[k]))
  {
    RunStartAll(text, pos, Blank);
  }

  /** When a letter or digit comes right before the marker (spaces aside), that word is found. */
  lemma AdjacentWordFound(text: string, pos: nat)
    requires pos <= |text|
    requires RunStart(text, pos, Blank) > 0 && IsAlnum(text[RunStart(text, pos, Blank) - 1])
    ensures var e := RunStart(text, pos, Blank);
            WordBefore(text, pos) == Found(text[RunStart(text, e, Alnum)..e], RunStart(text, e, Alnum), e, false, '\0')
  {
    var e := RunStart(text, pos, Blank);
    assert !IsQuote(text[e - 1]) && !IsPunct(text[e - 1]) && text[e - 1] != ')';
    assert QuoteStart(text, e) == e;
    assert QuotedBefore(text, e) == NotFound;
    assert ParenBefore(text, e) == NotFound;
    assert PlainEnd(text, e) == e;
    var st := RunStart(text, e, Alnum);
    assert st < e by {
      assert InClass(Alnum, text[e - 1]);
    }
  }

  /** What an enclosed result ending at e is: the trimmed, non-blank text between the opener
      at start and the closer just before e. A parenthesised result may close on a quote:
      the parenthesis branch runs after a quoted text that was blank. */
  predicate EnclosedShape(text: string, r: Found, e: nat)
    requires e <= |text|
  {
    r.word != "" && r.quoted && 0 <= r.start && r.start + 1 <= r.end - 1 && r.end == e
    && r.word == TrimSpace(text[r.start + 1..r.end - 1])
    && (r.start == 0 || text[r.start] == r.quoteChar)
    && (IsQuote(r.quoteChar) ==> text[e - 1] == r.quoteChar)
    && (r.quoteChar == '(' ==> text[e - 1] == ')' || IsQuote(text[e - 1]))
    && (IsQuote(r.quoteChar) || r.quoteChar == '(')
  }

  lemma QuotedFacts(text: string, e: nat)
    requires e <= |text| && QuotedBefore(text, e).word != ""
    ensures EnclosedShape(text, QuotedBefore(text, e), e)
  {
  }

  lemma ParenFacts(text: string, e: nat)
    requires e <= |text| && ParenBefore(text, e).word != ""
    ensures EnclosedShape(text, ParenBefore(text, e), e)
  {
    var s := QuoteStart(text, e);
    var o := ParenOpen(text, s - 1, 1);
    assert ParenBefore(text, e) == Enclosed(text, o, e, '(');
    if !(e > 0 && IsQuote(text[e - 1])) {
      assert s == e;
    }
    var w := TrimSpace(text[o + 1..e - 1]);
    assert Enclosed(text, o, e, '(') == Found(w, o, e, true, '(');
    ParenEnclosedShape(text, w, o, e);
  }

  /** The word w enclosed from a '(' at o (or from the start of the text) to a closing ')'
      or quote at e - 1 has the shape of an enclosed result. */
  lemma ParenEnclosedShape(text: string, w: string, o: nat, e: nat)
    requires o + 1 <= e - 1 && e <= |text| && w == TrimSpace(text[o + 1..e - 1]) && w != ""
    requires o == 0 || text[o] == '('
    requires text[e - 1] == ')' || IsQuote(text[e - 1])
    ensures EnclosedShape(text, Found(w, o, e, true, '('), e)
  {
    assert !IsQuote('(');
  }

  /** An enclosed result of findWordBefore has that shape, and only spaces lie between its
      end and the marker. */
  lemma EnclosedFacts(text: string, pos: nat)
    requires pos <= |text|
    requires WordBefore(text, pos).quoted
    ensures var r := WordBefore(text, pos);
            0 <= r.end <= pos && EnclosedShape(text, r, r.end)
            && forall k :: r.end <= k < pos ==> text[k] == ' '
  {
    var e := RunStart(text, pos, Blank);
    RunStartAll(text, pos, Blank);
    if QuotedBefore(text, e).word == "" {
      assert WordBefore(text, pos) == ParenBefore(text, e);
      ParenFacts(text, e);
    } else {
      assert WordBefore(text, pos) == QuotedBefore(text, e);
      QuotedFacts(text, e);
    }
  }

  /** processor/utils.go:233 as written: the bounds of the quote slice text[start+1:end-1]. */
  function QuoteSliceBounds(text: string, pos: nat): (b: (int, int))
    requires pos <= |text|
    ensures var e := RunStart(text, pos, Blank);
            e > 0 && IsQuote(text[e - 1]) ==> (b.0 > b.1 <==> e == 1)
  {
    var e := RunStart(text, pos, Blank);
    var s := QuoteStart(text, e);
    (s + 1, e - 1)
  }

  /** The quote branch is taken and its slice is out of range: Go panics. */
  predicate QuoteSlicePanics(text: string, pos: nat)
    requires pos <= |text|
  {
    var e := RunStart(text, pos, Blank);
    e > 0 && IsQuote(text[e - 1]) && QuoteSliceBounds(text, pos).0 > QuoteSliceBounds(text, pos).1
  }

  /** "'(up)": the marker at 1 follows a lone quote at index 0, the slice would be text[1:0]. */
  lemma LoneQuotePanics()
    ensures QuoteSlicePanics("'(up)", 1)
    ensures WordBefore("'(up)", 1) == NotFound
  {
    assert RunStart("'(up)", 1, Blank) == 1;
  }

  /** findWordBefore exactly as written, defined only where its quote slice is in range. */
  function WordBeforeAsWritten(text: string, pos: nat): (r: Found)
    requires pos <= |text| && !QuoteSlicePanics(text, pos)
  {
    var e := RunStart(text, pos, Blank);
    var s := QuoteStart(text, e);
    if e > 0 && IsQuote(text[e - 1]) && TrimSpace(text[s + 1..e - 1]) != "" then
      Found(TrimSpace(text[s + 1..e - 1]), s, e, true, text[e - 1])
    else
      var p := ParenBefore(text, e);
      if p.word != "" then p else PlainWordBefore(text, e)
  }

  /** The guard changes nothing where the code as written does not panic. */
  lemma GuardKeepsResults(text: string, pos: nat)
    requires pos <= |text| && !QuoteSlicePanics(text, pos)
    ensures WordBeforeAsWritten(text, pos) == WordBefore(text, pos)
  {
    var e := RunStart(text, pos, Blank);
    if e > 0 && IsQuote(text[e - 1]) {
      var s := QuoteStart(text, e);
      assert s + 1 <= e - 1 by { assert QuoteSliceBounds(text, pos) == (s + 1, e - 1); }
    }
  }
}
