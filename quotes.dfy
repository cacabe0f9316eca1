/** The quote passes of processor/transformations.go: handleConsecutiveQuotes splits runs of
    three or more quotes into pairs, formatQuoteType pairs each quote with the next one on the
    line, and formatQuotes runs both for ' and then " on every line. */
module Quotes {

  import opened Wrappers
  import opened Text
  import opened Rewrite

  /** strings.Repeat(q+q+" ", p): p pairs, each followed by a space. */
  function Pairs(q: char, p: nat): (r: string)
    ensures |r| == 3 * p
  {
    Repeat([q, q, ' '], p)
  }

  /** The callback of handleConsecutiveQuotes for a run of n quotes: n/2 pairs separated by
      spaces, then the odd quote, or the trailing space dropped when n is even. */
  function SplitRun(q: char, n: nat): (r: string)
    requires n >= 3
  {
    var pairs := Pairs(q, n / 2);
    if n % 2 > 0 then pairs + [q] else pairs[..|pairs| - 1]
  }

  /** The regular expression q{3,} at offset i: a run of three or more q, taken whole. */
  function QuoteRunAt(q: char, s: string, i: nat): (r: Option<Hit>)
    ensures r.Some? <==> i <= |s| && RunEnd(s, i, Only(q)) - i >= 3
    ensures r.Some? ==> r.value.end == RunEnd(s, i, Only(q))
  {
    if i <= |s| && RunEnd(s, i, Only(q)) - i >= 3
    then Some(Hit(RunEnd(s, i, Only(q)), SplitRun(q, RunEnd(s, i, Only(q)) - i)))
    else None
  }

  function QuoteRun(q: char): Matcher
  {
    (s: string, i: nat) => QuoteRunAt(q, s, i)
  }

  /** handleConsecutiveQuotes */
  function HandleConsecutiveQuotes(line: string, q: char): string
  {
    ReplaceAll(line, QuoteRun(q))
  }

  /** No three q in a row. */
  predicate NoTriple(t: string, q: char)
  {
    forall k :: 0 <= k < |t| - 2 ==> !(t[k] == q && t[k + 1] == q && t[k + 2] == q)
  }

  /** t starts with n copies of q. */
  predicate Starts(t: string, q: char, n: nat)
  {
    n <= |t| && forall k :: 0 <= k < n ==> t[k] == q
  }

  lemma {:induction false} PairsAt(q: char, p: nat, k: nat)
    requires k < 3 * p
    ensures Pairs(q, p)[k] == if k % 3 == 2 then ' ' else q
    decreases p
  {
    if k >= 3 {
      PairsAt(q, p - 1, k - 3);
    }
  }

  lemma {:induction false} PairsCount(q: char, p: nat)
    requires q != ' '
    ensures Count(Pairs(q, p), q) == 2 * p
    decreases p
  {
    if p > 0 {
      PairsCount(q, p - 1);
      CountConcat([q, q, ' '], Pairs(q, p - 1), q);
      CountConcat([q, q], [' '], q);
      CountConcat([q], [q], q);
      CountOne(q, q);
      CountOne(' ', q);
      assert [q, q, ' '] == [q] + [q] + [' '];
    }
  }

  /** Every third char of t is a space, all the others q: pairs of quotes split by spaces. */
  predicate PairPattern(t: string, q: char)
  {
    forall k :: 0 <= k < |t| ==> t[k] == if k % 3 == 2 then ' ' else q
  }

  lemma PairsShape(q: char, p: nat)
    ensures PairPattern(Pairs(q, p), q)
  {
    forall k | 0 <= k < 3 * p
      ensures Pairs(q, p)[k] == if k % 3 == 2 then ' ' else q
    {
      PairsAt(q, p, k);
    }
  }

  /** An odd run: the last quote after the pairs. */
  lemma OddRunShape(q: char, pairs: string)
    requires q != ' ' && |pairs| % 3 == 0 && PairPattern(pairs, q)
    ensures PairPattern(pairs + [q], q) && Count(pairs + [q], q) == Count(pairs, q) + 1
  {
    CountConcat(pairs, [q], q);
    CountOne(q, q);
  }

  /** An even run: the pairs without their trailing space. */
  lemma EvenRunShape(q: char, pairs: string)
    requires q != ' ' && |pairs| % 3 == 0 && |pairs| > 0 && PairPattern(pairs, q)
    ensures PairPattern(pairs[..|pairs| - 1], q) && Count(pairs[..|pairs| - 1], q) == Count(pairs, q)
  {
    assert pairs == pairs[..|pairs| - 1] + [' '];
    CountConcat(pairs[..|pairs| - 1], [' '], q);
    CountOne(' ', q);
  }

  /** The replacement of a run holds as many quotes as the run, two before each space. */
  lemma SplitRunShape(q: char, n: nat)
    requires n >= 3 && q != ' '
    ensures Count(SplitRun(q, n), q) == n
    ensures PairPattern(SplitRun(q, n), q)
  {
    var pairs := Pairs(q, n / 2);
    PairsCount(q, n / 2);
    PairsShape(q, n / 2);
    if n % 2 > 0 {
      OddRunShape(q, pairs);
    } else {
      EvenRunShape(q, pairs);
    }
  }

  lemma {:induction false} CountOnly(t: string, q: char)
    requires forall k :: 0 <= k < |t| ==> t[k] == q
    ensures Count(t, q) == |t|
    decreases |t|
  {
    if |t| > 0 {
      CountOnly(t[1..], q);
      assert t == [t[0]] + t[1..];
      CountConcat([t[0]], t[1..], q);
    }
  }

  /** Every match of q{3,} is replaced by as many quotes as it holds. */
  lemma RunsKeepQuotes(s: string, q: char)
    requires q != ' '
    ensures forall j :: 0 <= j < |s| && HitAt(QuoteRun(q), s, j) ==>
      Count(QuoteRun(q)(s, j).value.rep, q) == Count(s[j..QuoteRun(q)(s, j).value.end], q)
  {
    forall j | 0 <= j < |s| && HitAt(QuoteRun(q), s, j)
      ensures Count(QuoteRun(q)(s, j).value.rep, q) == Count(s[j..QuoteRun(q)(s, j).value.end], q)
    {
      var e := RunEnd(s, j, Only(q));
      RunEndAll(s, j, Only(q));
      CountOnly(s[j..e], q);
      SplitRunShape(q, e - j);
    }
  }

  /** handleConsecutiveQuotes keeps the number of quote chars of the line. */
  lemma ConsecutiveQuotesKeepCount(line: string, q: char)
    requires q != ' '
    ensures Count(HandleConsecutiveQuotes(line, q), q) == Count(line, q)
  {
    RunsKeepQuotes(line, q);
    CountKept(line, 0, QuoteRun(q), q);
  }

  lemma NoTripleCons(x: char, b: string, q: char)
    requires NoTriple(b, q)
    requires x == q ==> !Starts(b, q, 2)
    ensures NoTriple([x] + b, q)
  {
    var t := [x] + b;
    forall k | 0 <= k < |t| - 2
      ensures !(t[k] == q && t[k + 1] == q && t[k + 2] == q)
    {
      if k > 0 {
        assert t[k] == b[k - 1] && t[k + 1] == b[k] && t[k + 2] == b[k + 1];
      }
    }
  }

  /** A triple across a + b would need b to start with q. */
  lemma NoTripleConcat(a: string, b: string, q: char)
    requires NoTriple(a, q) && NoTriple(b, q) && !Starts(b, q, 1)
    ensures NoTriple(a + b, q)
  {
    var t := a + b;
    forall k | 0 <= k < |t| - 2
      ensures !(t[k] == q && t[k + 1] == q && t[k + 2] == q)
    {
      if k + 2 < |a| {
        assert t[k] == a[k] && t[k + 1] == a[k + 1] && t[k + 2] == a[k + 2];
      } else if k + 2 == |a| {
        assert t[k + 2] == b[0];
      } else if k + 1 == |a| {
        assert t[k + 1] == b[0];
      } else {
        assert t[k] == b[k - |a|] && t[k + 1] == b[k + 1 - |a|] && t[k + 2] == b[k + 2 - |a|];
      }
    }
  }

  /** In the replacement of a run every third char is a space. */
  lemma SplitRunNoTriple(q: char, n: nat)
    requires n >= 3 && q != ' '
    ensures NoTriple(SplitRun(q, n), q) && Starts(SplitRun(q, n), q, 2) && !Starts(SplitRun(q, n), q, 3)
  {
    var a := SplitRun(q, n);
    SplitRunShape(q, n);
    forall k | 0 <= k < |a| - 2
      ensures !(a[k] == q && a[k + 1] == q && a[k + 2] == q)
    {
      assert k % 3 == 2 || (k + 1) % 3 == 2 || (k + 2) % 3 == 2;
    }
    assert a[2] == ' ';
  }

  lemma ThreeMakeRun(s: string, q: char, j: nat)
    requires j + 2 < |s| && s[j] == q && s[j + 1] == q && s[j + 2] == q
    ensures RunEnd(s, j, Only(q)) >= j + 3
  {
    assert RunEnd(s, j, Only(q)) == RunEnd(s, j + 1, Only(q)) == RunEnd(s, j + 2, Only(q)) == RunEnd(s, j + 3, Only(q));
  }

  /** r, the output from offset j on, has no three quotes in a row, and starts with one or two
      quotes only where s does. */
  predicate ShortFrom(s: string, q: char, j: nat, r: string)
  {
    NoTriple(r, q) && !Starts(r, q, 3)
    && (Starts(r, q, 1) ==> j < |s| && s[j] == q)
    && (Starts(r, q, 2) ==> j + 1 < |s| && s[j + 1] == q)
  }

  lemma ShortAfterHit(s: string, q: char, j: nat, b: string)
    requires j < |s| && q != ' ' && HitAt(QuoteRun(q), s, j)
    requires ShortFrom(s, q, RunEnd(s, j, Only(q)), b)
    ensures ShortFrom(s, q, j, SplitRun(q, RunEnd(s, j, Only(q)) - j) + b)
  {
    var e := RunEnd(s, j, Only(q));
    assert QuoteRunAt(q, s, j).Some?;
    RunEndAll(s, j, Only(q));
    assert s[j] == q && s[j + 1] == q;
    assert !Starts(b, q, 1);
    var a := SplitRun(q, e - j);
    SplitRunNoTriple(q, e - j);
    NoTripleConcat(a, b, q);
    StartsAppend(a, b, q, 3);
  }

  /** The first n chars of a + b are those of a when a has n of them. */
  lemma StartsAppend(a: string, b: string, q: char, n: nat)
    requires n <= |a|
    ensures Starts(a + b, q, n) <==> Starts(a, q, n)
    ensures n > 0 ==> (Starts(a + b, q, n - 1) <==> Starts(a, q, n - 1))
    ensures n > 1 ==> (Starts(a + b, q, n - 2) <==> Starts(a, q, n - 2))
  {
    assert forall k :: 0 <= k < |a| ==> (a + b)[k] == a[k];
  }

  lemma StartsCons(x: char, b: string, q: char, n: nat)
    ensures Starts([x] + b, q, n + 1) <==> x == q && Starts(b, q, n)
  {
    var t := [x] + b;
    assert t[0] == x;
    assert forall k :: 0 <= k < |b| ==> t[k + 1] == b[k];
    if x == q && Starts(b, q, n) {
      forall k | 0 <= k < n + 1
        ensures t[k] == q
      {
        if k > 0 {
          assert t[k] == b[k - 1];
        }
      }
    }
  }

  lemma ShortAfterCopy(s: string, q: char, j: nat, b: string)
    requires j < |s| && !HitAt(QuoteRun(q), s, j)
    requires ShortFrom(s, q, j + 1, b)
    ensures ShortFrom(s, q, j, [s[j]] + b)
  {
    NoTripleCons(s[j], b, q);
    StartsCons(s[j], b, q, 0);
    StartsCons(s[j], b, q, 1);
    StartsCons(s[j], b, q, 2);
    if |b| > 0 {
      StartsCons(b[0], b[1..], q, 0);
      assert [b[0]] + b[1..] == b;
    }
    if Starts(b, q, 2) && s[j] == q {
      ThreeMakeRun(s, q, j);
    }
  }

  /** From offset j on, the output has no three quotes in a row. */
  lemma {:induction false} ShortRunsFrom(s: string, q: char, j: nat)
    requires j <= |s| && q != ' '
    ensures ShortFrom(s, q, j, ReplaceFrom(s, j, QuoteRun(q)))
    decreases |s| - j
  {
    var m := QuoteRun(q);
    if j < |s| {
      if HitAt(m, s, j) {
        var e := RunEnd(s, j, Only(q));
        ShortRunsFrom(s, q, e);
        ShortAfterHit(s, q, j, ReplaceFrom(s, e, m));
      } else {
        ShortRunsFrom(s, q, j + 1);
        ShortAfterCopy(s, q, j, ReplaceFrom(s, j + 1, m));
      }
    }
  }

  /** handleConsecutiveQuotes leaves no run of three or more quote chars. */
  lemma ConsecutiveQuotesShort(line: string, q: char)
    requires q != ' '
    ensures NoTriple(HandleConsecutiveQuotes(line, q), q)
  {
    ShortRunsFrom(line, q, 0);
  }

  /** formatQuoteType puts a space before an opening quote when the char before it is a letter
      other than n or t, in either case, and the output so far does not end in a space. */
  predicate SpaceBefore(s: string, i: nat, acc: string)
    requires i < |s|
  {
    i > 0 && IsLetter(s[i - 1]) && ToLowerChar(s[i - 1]) != 'n' && ToLowerChar(s[i - 1]) != 't'
    && |acc| > 0 && acc[|acc| - 1] != ' '
  }

  /** The output once the quote at i is opened, with acc the output before it. */
  function Opened(s: string, q: char, i: nat, acc: string): string
    requires i < |s|
  {
    (if SpaceBefore(s, i, acc) then acc + " " else acc) + [q]
  }

  /** What follows the opener when the closer is at k: the trimmed text between them, the
      closer, and a space when a letter or digit comes next. */
  function Closed(s: string, q: char, i: nat, k: nat): string
    requires i < k < |s|
  {
    TrimSpace(s[i + 1..k]) + [q] + (if k + 1 < |s| && IsAlnum(s[k + 1]) then " " else "")
  }

  /** formatQuoteType from offset i on, with acc the output so far: each q is paired with the
      next q on the line, or with one added at the end of the line when there is none. */
  function PairFrom(s: string, q: char, i: nat, acc: string): string
    requires i <= |s|
    decreases |s| - i
  {
    if i == |s| then acc
    else if s[i] != q then PairFrom(s, q, i + 1, acc + [s[i]])
    else
      var k := IndexFrom(s, i + 1, q);
      if k == |s| then Opened(s, q, i, acc) + s[i + 1..] + [q]
      else PairFrom(s, q, k + 1, Opened(s, q, i, acc) + Closed(s, q, i, k))
  }

  /** The result of formatQuoteType(line, q). */
  function PairQuotes(line: string, q: char): string
  {
    PairFrom(line, q, 0, [])
  }

  /** The opening step of formatQuoteType: the optional space, then the quote. */
  method OpenQuote(line: string, q: char, i: nat, r: string) returns (r': string)
    requires i < |line|
    ensures r' == Opened(line, q, i, r)
  {
    r' := r;
    if i > 0 && IsLetter(line[i - 1]) {
      var prev := ToLowerChar(line[i - 1]);
      if prev != 'n' && prev != 't' {
        if |r'| > 0 && r'[|r'| - 1] != ' ' {
          r' := r' + " ";
        }
      }
    }
    r' := r' + [q];
  }

  /** The search of formatQuoteType for the closing quote, -1 when there is none. */
  method FindClose(line: string, q: char, i: nat) returns (close: int)
    requires i <= |line|
    ensures close == -1 ==> IndexFrom(line, i, q) == |line|
    ensures close != -1 ==> i <= close < |line| && IndexFrom(line, i, q) == close
  {
    close := -1;
    for j := i to |line|
      invariant close == -1
      invariant forall k :: i <= k < j ==> line[k] != q
    {
      if line[j] == q {
        close := j;
        break;
      }
    }
    if close == -1 {
      assert IndexFrom(line, i, q) == |line|;
    } else {
      assert IndexFrom(line, i, q) == close;
    }
  }

  /** The closing step of formatQuoteType: the trimmed content, the quote, and the space
      before a letter or digit. */
  method CloseQuote(line: string, q: char, i: nat, close: nat, r: string) returns (r': string)
    requires i < close < |line|
    ensures r' == r + Closed(line, q, i, close)
  {
    var content := line[i + 1..close];
    r' := r + TrimSpace(content) + [q];
    var next := close + 1;
    if next < |line| && IsAlnum(line[next]) {
      r' := r' + " ";
    }
  }

  /** formatQuoteType */
  method FormatQuoteType(line: string, q: char) returns (r: string)
    ensures r == PairQuotes(line, q)
  {
    r := [];
    var i := 0;
    while i < |line|
      invariant 0 <= i <= |line|
      invariant PairFrom(line, q, i, r) == PairQuotes(line, q)
      decreases |line| - i
    {
      if line[i] == q {
        var head := OpenQuote(line, q, i, r);
        var close := FindClose(line, q, i + 1);
        if close == -1 {
          r := head + line[i + 1..] + [q];
          break;
        } else {
          r := CloseQuote(line, q, i, close, head);
          i := close + 1;
        }
      } else {
        r := r + [line[i]];
        i := i + 1;
      }
    }
  }

  /** TrimSpace only drops spaces: it keeps every other char. */
  lemma TrimKeepsCount(t: string, c: char)
    ensures Count(TrimSpace(t), c) <= Count(t, c)
    ensures !IsSpace(c) ==> Count(TrimSpace(t), c) == Count(t, c)
  {
    var a, b := TrimStart(t), TrimEnd(t);
    TrimCutsSpaces(t);
    assert t == t[..a] + t[a..b] + t[b..];
    CountConcat(t[..a] + t[a..b], t[b..], c);
    CountConcat(t[..a], t[a..b], c);
    if !IsSpace(c) {
      assert c !in t[..a] && c !in t[b..];
      CountZero(t[..a], c);
      CountZero(t[b..], c);
    }
  }

  /** Opening a quote adds the quote and maybe a space. */
  lemma OpenedCount(s: string, q: char, i: nat, acc: string, c: char)
    requires i < |s| && c != ' '
    ensures Count(Opened(s, q, i, acc), c) == Count(acc, c) + (if c == q then 1 else 0)
  {
    var pre := if SpaceBefore(s, i, acc) then acc + " " else acc;
    CountConcat(pre, [q], c);
    CountConcat(acc, " ", c);
    CountOne(q, c);
    CountOne(' ', c);
  }

  /** Closing a pair keeps the chars between the quotes that are not spaces, and adds the closer. */
  lemma ClosedCount(s: string, q: char, i: nat, k: nat, c: char)
    requires i < k < |s| && c != ' '
    ensures Count(Closed(s, q, i, k), c) <= Count(s[i + 1..k], c) + (if c == q then 1 else 0)
    ensures !IsSpace(c) ==> Count(Closed(s, q, i, k), c) == Count(s[i + 1..k], c) + (if c == q then 1 else 0)
  {
    var inner := TrimSpace(s[i + 1..k]);
    var gap := if k + 1 < |s| && IsAlnum(s[k + 1]) then " " else "";
    TrimKeepsCount(s[i + 1..k], c);
    CountConcat(inner, [q], c);
    CountConcat(inner + [q], gap, c);
    CountOne(q, c);
    CountOne(' ', c);
    assert Count(gap, c) == 0 by {
      if gap == " " {
        assert gap == [' '];
      } else {
        assert gap == [];
      }
    }
  }

  /** The quote at i and everything up to its closer k, counted in s. */
  lemma PairSpanCount(s: string, q: char, i: nat, k: nat, c: char)
    requires i < k < |s| && s[i] == q && s[k] == q
    ensures Count(s[i..], c) == Count(s[i + 1..k], c) + Count(s[k + 1..], c) + (if c == q then 2 else 0)
  {
    assert s[i..] == [s[i]] + s[i + 1..k] + [s[k]] + s[k + 1..];
    CountConcat([s[i]] + s[i + 1..k] + [s[k]], s[k + 1..], c);
    CountConcat([s[i]] + s[i + 1..k], [s[k]], c);
    CountConcat([s[i]], s[i + 1..k], c);
  }

  /** Each quote is matched by one found or added closer, so the count of q grows by pairs. */
  lemma {:induction false} PairFromEven(s: string, q: char, i: nat, acc: string)
    requires i <= |s| && !IsSpace(q)
    ensures Count(PairFrom(s, q, i, acc), q) % 2 == Count(acc, q) % 2
    decreases |s| - i
  {
    if i < |s| {
      if s[i] != q {
        PairFromEven(s, q, i + 1, acc + [s[i]]);
        CountConcat(acc, [s[i]], q);
        CountOne(s[i], q);
      } else {
        var k := IndexFrom(s, i + 1, q);
        var o := Opened(s, q, i, acc);
        OpenedCount(s, q, i, acc, q);
        if k == |s| {
          assert q !in s[i + 1..];
          CountZero(s[i + 1..], q);
          CountConcat(o, s[i + 1..], q);
          CountConcat(o + s[i + 1..], [q], q);
        } else {
          assert q !in s[i + 1..k];
          CountZero(s[i + 1..k], q);
          ClosedCount(s, q, i, k, q);
          CountConcat(o, Closed(s, q, i, k), q);
          PairFromEven(s, q, k + 1, o + Closed(s, q, i, k));
        }
      }
    }
  }

  /** formatQuoteType leaves an even number of q on the line. */
  lemma PairedEven(line: string, q: char)
    requires !IsSpace(q)
    ensures Count(PairQuotes(line, q), q) % 2 == 0
  {
    PairFromEven(line, q, 0, []);
  }

  /** Every char other than q and the space is copied or dropped by trimming. */
  lemma KeepsCopy(s: string, i: nat, acc: string, c: char)
    requires i < |s|
    ensures Count(acc + [s[i]], c) + Count(s[i + 1..], c) == Count(acc, c) + Count(s[i..], c)
  {
    assert s[i..] == [s[i]] + s[i + 1..];
    CountConcat([s[i]], s[i + 1..], c);
    CountConcat(acc, [s[i]], c);
  }

  lemma KeepsUnclosed(s: string, q: char, i: nat, acc: string, c: char)
    requires i < |s| && s[i] == q && c != q && c != ' '
    ensures Count(Opened(s, q, i, acc) + s[i + 1..] + [q], c) <= Count(acc, c) + Count(s[i..], c)
    ensures !IsSpace(c) ==> Count(Opened(s, q, i, acc) + s[i + 1..] + [q], c) == Count(acc, c) + Count(s[i..], c)
  {
    var o := Opened(s, q, i, acc);
    OpenedCount(s, q, i, acc, c);
    assert s[i..] == [s[i]] + s[i + 1..];
    CountConcat([s[i]], s[i + 1..], c);
    CountConcat(o, s[i + 1..], c);
    CountConcat(o + s[i + 1..], [q], c);
  }

  lemma KeepsPair(s: string, q: char, i: nat, k: nat, acc: string, c: char)
    requires i < k < |s| && s[i] == q && s[k] == q && c != q && c != ' '
    ensures Count(Opened(s, q, i, acc) + Closed(s, q, i, k), c) + Count(s[k + 1..], c)
            <= Count(acc, c) + Count(s[i..], c)
    ensures !IsSpace(c) ==>
      Count(Opened(s, q, i, acc) + Closed(s, q, i, k), c) + Count(s[k + 1..], c) == Count(acc, c) + Count(s[i..], c)
  {
    var o := Opened(s, q, i, acc);
    OpenedCount(s, q, i, acc, c);
    ClosedCount(s, q, i, k, c);
    PairSpanCount(s, q, i, k, c);
    CountConcat(o, Closed(s, q, i, k), c);
  }

  lemma {:induction false} PairFromKeeps(s: string, q: char, i: nat, acc: string, c: char)
    requires i <= |s| && c != q && c != ' '
    ensures Count(PairFrom(s, q, i, acc), c) <= Count(acc, c) + Count(s[i..], c)
    ensures !IsSpace(c) ==> Count(PairFrom(s, q, i, acc), c) == Count(acc, c) + Count(s[i..], c)
    decreases |s| - i
  {
    if i < |s| {
      if s[i] != q {
        PairFromKeeps(s, q, i + 1, acc + [s[i]], c);
        KeepsCopy(s, i, acc, c);
      } else {
        var k := IndexFrom(s, i + 1, q);
        if k == |s| {
          KeepsUnclosed(s, q, i, acc, c);
        } else {
          PairFromKeeps(s, q, k + 1, Opened(s, q, i, acc) + Closed(s, q, i, k), c);
          KeepsPair(s, q, i, k, acc, c);
        }
      }
    }
  }

  /** formatQuoteType(line, q) keeps every char other than q and the spaces, and brings in
      no char beyond q and the space. */
  lemma PairedKeeps(line: string, q: char, c: char)
    requires c != q && c != ' '
    ensures Count(PairQuotes(line, q), c) <= Count(line, c)
    ensures !IsSpace(c) ==> Count(PairQuotes(line, q), c) == Count(line, c)
  {
    PairFromKeeps(line, q, 0, [], c);
  }

  /** A lone apostrophe after an n or a t gets a closer at the end of the line. */
  lemma ContractionGetsCloser()
    ensures PairQuotes("don't", '\'') == "don't'"
  {
    var s := "don't";
    assert IndexFrom(s, 4, '\'') == 5;
    assert !SpaceBefore(s, 3, "don");
    assert PairFrom(s, '\'', 0, []) == PairFrom(s, '\'', 1, "d") == PairFrom(s, '\'', 2, "do") == PairFrom(s, '\'', 3, "don");
  }

  /** The text of a pair is trimmed. */
  lemma PairIsTrimmed()
    ensures PairQuotes("' hello '", '\'') == "'hello'"
  {
    var s := "' hello '";
    var t := s[1..8];
    assert t == " hello ";
    assert IndexFrom(s, 1, '\'') == 8;
    assert RunEnd(t, 0, Space) == RunEnd(t, 1, Space) == 1;
    assert RunStart(t, 7, Space) == RunStart(t, 6, Space) == 6;
    assert TrimSpace(t) == "hello";
  }

  /** formatQuotesInLine */
  function QuotesInLine(line: string): string
  {
    var split := HandleConsecutiveQuotes(HandleConsecutiveQuotes(line, '\''), '"');
    PairQuotes(PairQuotes(split, '\''), '"')
  }

  method FormatQuotesInLine(line: string) returns (r: string)
    ensures r == QuotesInLine(line)
  {
    r := HandleConsecutiveQuotes(line, '\'');
    r := HandleConsecutiveQuotes(r, '"');
    r := FormatQuoteType(r, '\'');
    r := FormatQuoteType(r, '"');
  }

  /** Both quote chars end up in even numbers on every line. */
  lemma QuotesInLineEven(line: string)
    ensures Count(QuotesInLine(line), '"') % 2 == 0
    ensures Count(QuotesInLine(line), '\'') % 2 == 0
  {
    var split := HandleConsecutiveQuotes(HandleConsecutiveQuotes(line, '\''), '"');
    PairedEven(PairQuotes(split, '\''), '"');
    PairedEven(split, '\'');
    PairedKeeps(PairQuotes(split, '\''), '"', '\'');
  }

  /** The replacement of a run holds no newline. */
  lemma SplitRunNoNewline(q: char, s: string, j: nat)
    requires q == '\'' || q == '"'
    requires HitAt(QuoteRun(q), s, j)
    ensures '\n' !in QuoteRun(q)(s, j).value.rep
  {
    var rep := SplitRun(q, RunEnd(s, j, Only(q)) - j);
    assert QuoteRun(q)(s, j).value.rep == rep;
    SplitRunShape(q, RunEnd(s, j, Only(q)) - j);
    forall k | 0 <= k < |rep|
      ensures rep[k] != '\n'
    {
    }
  }

  lemma ConsecutiveQuotesNoNewline(line: string, q: char)
    requires q == '\'' || q == '"'
    requires '\n' !in line
    ensures '\n' !in HandleConsecutiveQuotes(line, q)
  {
    forall j | 0 <= j < |line| && HitAt(QuoteRun(q), line, j)
      ensures '\n' !in QuoteRun(q)(line, j).value.rep
    {
      SplitRunNoNewline(q, line, j);
    }
    CharStaysAbsent(line, 0, QuoteRun(q), '\n');
  }

  lemma PairedNoNewline(line: string, q: char)
    requires q != '\n' && q != ' '
    requires '\n' !in line
    ensures '\n' !in PairQuotes(line, q)
  {
    CountZero(line, '\n');
    PairedKeeps(line, q, '\n');
    CountZero(PairQuotes(line, q), '\n');
  }

  /** No pass of formatQuotesInLine brings in a newline. */
  lemma QuotesInLineNoNewline(line: string)
    requires '\n' !in line
    ensures '\n' !in QuotesInLine(line)
  {
    var one := HandleConsecutiveQuotes(line, '\'');
    var two := HandleConsecutiveQuotes(one, '"');
    ConsecutiveQuotesNoNewline(line, '\'');
    ConsecutiveQuotesNoNewline(one, '"');
    PairedNoNewline(two, '\'');
    PairedNoNewline(PairQuotes(two, '\''), '"');
  }

  /** formatQuotes: formatQuotesInLine on every line. */
  function QuotesFormatted(text: string): string
  {
    MapLines(text, QuotesInLine)
  }

  method FormatQuotes(text: string) returns (r: string)
    ensures r == QuotesFormatted(text)
  {
    var lines := Lines(text);
    ghost var orig := lines;
    for i := 0 to |lines|
      invariant |lines| == |orig|
      invariant forall k :: 0 <= k < i ==> lines[k] == QuotesInLine(orig[k])
      invariant forall k :: i <= k < |lines| ==> lines[k] == orig[k]
    {
      var line := FormatQuotesInLine(lines[i]);
      lines := lines[i := line];
    }
    assert lines == ApplyAll(QuotesInLine, orig);
    r := Join(lines, "\n");
  }

  /** formatQuotes works line by line: line k of the output is line k of the input with its
      quotes formatted, and the newlines are kept. */
  lemma FormatQuotesLines(text: string)
    ensures Lines(QuotesFormatted(text)) == ApplyAll(QuotesInLine, Lines(text))
    ensures Count(QuotesFormatted(text), '\n') == Count(text, '\n')
  {
    forall l: string | '\n' !in l
      ensures '\n' !in QuotesInLine(l)
    {
      QuotesInLineNoNewline(l);
    }
    MapLinesLines(text, QuotesInLine);
  }
}
