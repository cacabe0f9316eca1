/** Character classes and the few helpers of Go's strings package that the processor uses.
    Every char of a Dafny string stands for one byte of the Go string: the classes below are
    the ASCII ones, and a char outside ASCII is never a letter, a digit or a space. */
module Text {

  predicate IsLower(c: char) { 'a' <= c <= 'z' }
  predicate IsUpper(c: char) { 'A' <= c <= 'Z' }
  predicate IsLetter(c: char) { IsLower(c) || IsUpper(c) }
  predicate IsDigit(c: char) { '0' <= c <= '9' }

  /** Letters and digits: isWordChar, and unicode.IsLetter || unicode.IsDigit on ASCII. */
  predicate IsAlnum(c: char) { IsLetter(c) || IsDigit(c) }

  /** The regular-expression class \w of RE2. */
  predicate IsWord(c: char) { IsAlnum(c) || c == '_' }

  /** The regular-expression class \s of RE2: tab, newline, form feed, carriage return, space. */
  predicate IsRegexSpace(c: char) { c == ' ' || c == '\t' || c == '\n' || c == '\U{C}' || c == '\r' }

  /** unicode.IsSpace on ASCII, used by strings.TrimSpace and strings.Fields: \s plus vertical tab. */
  predicate IsSpace(c: char) { IsRegexSpace(c) || c == '\U{B}' }

  /** Whitespace only, as \s* matches it. */
  predicate AllRegexSpace(ws: string)
  {
    forall x :: 0 <= x < |ws| ==> IsRegexSpace(ws[x])
  }

  /** Sentence punctuation: isPunctuation and the class [.,!?:;]. */
  predicate IsPunct(c: char) { c == '.' || c == ',' || c == '!' || c == '?' || c == ':' || c == ';' }

  function ToUpperChar(c: char): (r: char)
    ensures IsLower(c) ==> IsUpper(r) && r as int == c as int - 32
    ensures !IsLower(c) ==> r == c
  {
    if IsLower(c) then (c as int - 32) as char else c
  }

  function ToLowerChar(c: char): (r: char)
    ensures IsUpper(c) ==> IsLower(r) && r as int == c as int + 32
    ensures !IsUpper(c) ==> r == c
  {
    if IsUpper(c) then (c as int + 32) as char else c
  }

  /** strings.ToUpper */
  function Upper(s: string): (r: string)
    ensures |r| == |s|
    ensures forall i :: 0 <= i < |s| ==> r[i] == ToUpperChar(s[i])
  {
    seq(|s|, i requires 0 <= i < |s| => ToUpperChar(s[i]))
  }

  /** strings.ToLower */
  function Lower(s: string): (r: string)
    ensures |r| == |s|
    ensures forall i :: 0 <= i < |s| ==> r[i] == ToLowerChar(s[i])
  {
    seq(|s|, i requires 0 <= i < |s| => ToLowerChar(s[i]))
  }

  /** capitalize: the first char upper-cased and the rest lower-cased; "" stays "". */
  function Capitalize(s: string): (r: string)
  {
    if |s| == 0 then s else [ToUpperChar(s[0])] + Lower(s[1..])
  }

  lemma CapitalizeLaws(s: string)
    ensures Capitalize("") == ""
    ensures |Capitalize(s)| == |s|
    ensures |s| > 0 ==> Capitalize(s)[0] == ToUpperChar(s[0])
    ensures forall i :: 0 < i < |s| ==> Capitalize(s)[i] == ToLowerChar(s[i])
    ensures Capitalize(Capitalize(s)) == Capitalize(s)
  {
    if |s| > 0 {
      var c := Capitalize(s);
      assert c[1..] == Lower(s[1..]);
      assert Lower(c[1..]) == c[1..];
    }
  }

  lemma UpperLowerIdempotent(s: string)
    ensures Upper(Upper(s)) == Upper(s)
    ensures Lower(Lower(s)) == Lower(s)
  {
  }

  lemma ConcatAssoc<T>(a: seq<T>, b: seq<T>, c: seq<T>)
    ensures a + (b + c) == (a + b) + c
  {
  }

  /** f applied to each element of xs, in order. */
  function Images<A, B>(f: A --> B, xs: seq<A>): (r: seq<B>)
    requires forall k :: 0 <= k < |xs| ==> f.requires(xs[k])
    ensures |r| == |xs|
    ensures forall k :: 0 <= k < |xs| ==> r[k] == f(xs[k])
  {
    seq(|xs|, k requires 0 <= k < |xs| => f(xs[k]))
  }

  /** The images of a prefix one longer are those of the prefix and one more image. */
  lemma ImagesSnoc<A, B>(f: A --> B, xs: seq<A>, k: nat)
    requires k < |xs|
    requires forall j :: 0 <= j < |xs| ==> f.requires(xs[j])
    ensures Images(f, xs[..k + 1]) == Images(f, xs[..k]) + [f(xs[k])]
  {
    var a := Images(f, xs[..k + 1]);
    var b := Images(f, xs[..k]) + [f(xs[k])];
    forall j | 0 <= j < |a|
      ensures a[j] == b[j]
    {
      assert xs[..k + 1][j] == xs[j];
      if j < k {
        assert xs[..k][j] == xs[j];
      }
    }
  }

  lemma EmptyConcat<T>(a: seq<T>)
    ensures [] + a == a && a + [] == a
  {
  }

  /** A slice equals a sequence that agrees with it char by char. */
  lemma SliceIs<T>(s: seq<T>, a: nat, b: nat, w: seq<T>)
    requires a <= b <= |s| && |w| == b - a
    requires forall k :: a <= k < b ==> s[k] == w[k - a]
    ensures s[a..b] == w
  {
    assert forall k :: 0 <= k < |w| ==> s[a..b][k] == s[a + k];
  }

  /** A slice of a slice is a slice of the whole. */
  lemma SliceOfSlice<T>(s: seq<T>, a: nat, b: nat, i: nat, j: nat)
    requires a <= b <= |s| && i <= j <= b - a
    ensures s[a..b][i..j] == s[a + i..a + j]
  {
    SliceIs(s, a + i, a + j, s[a..b][i..j]);
  }

  /** The chars of s with s[a..b] replaced by w, which has the same length. */
  lemma SpliceIndex<T>(s: seq<T>, a: nat, b: nat, w: seq<T>, k: nat)
    requires a <= b <= |s| && |w| == b - a && k < |s|
    ensures |s[..a] + w + s[b..]| == |s|
    ensures (s[..a] + w + s[b..])[k] == if k < a then s[k] else if k < b then w[k - a] else s[k]
  {
  }

  /** A slice is its two halves around any inner offset. */
  lemma SliceSplit<T>(s: seq<T>, a: nat, b: nat, c: nat)
    requires a <= b <= c <= |s|
    ensures s[a..c] == s[a..b] + s[b..c]
  {
  }

  /** The number of occurrences of c in s. */
  function Count(s: string, c: char): nat
  {
    if |s| == 0 then 0 else (if s[0] == c then 1 else 0) + Count(s[1..], c)
  }

  lemma {:induction false} CountConcat(a: string, b: string, c: char)
    ensures Count(a + b, c) == Count(a, c) + Count(b, c)
    decreases |a|
  {
    if |a| > 0 {
      CountConcat(a[1..], b, c);
      assert (a + b)[1..] == a[1..] + b;
    } else {
      assert a + b == b;
    }
  }

  lemma CountOne(x: char, c: char)
    ensures Count([x], c) == if x == c then 1 else 0
  {
    assert [x][1..] == [];
  }

  lemma CountSlices(s: string, i: nat, c: char)
    requires i <= |s|
    ensures Count(s, c) == Count(s[..i], c) + Count(s[i..], c)
  {
    assert s == s[..i] + s[i..];
    CountConcat(s[..i], s[i..], c);
  }

  /** A slice counted in two pieces split at b. */
  lemma CountSplit(s: string, a: nat, b: nat, d: nat, c: char)
    requires a <= b <= d <= |s|
    ensures Count(s[a..d], c) == Count(s[a..b], c) + Count(s[b..d], c)
  {
    assert s[a..d] == s[a..b] + s[b..d];
    CountConcat(s[a..b], s[b..d], c);
  }

  lemma Count4(a: string, b: string, x: string, d: string, c: char)
    ensures Count(a + b + x + d, c) == Count(a, c) + Count(b, c) + Count(x, c) + Count(d, c)
  {
    CountConcat(a + b + x, d, c);
    CountConcat(a + b, x, c);
    CountConcat(a, b, c);
  }

  lemma {:induction false} CountZero(s: string, c: char)
    ensures Count(s, c) == 0 <==> c !in s
    decreases |s|
  {
    if |s| > 0 {
      CountZero(s[1..], c);
      assert s == [s[0]] + s[1..];
    }
  }

  /** The classes of chars that the backward and forward scans of the processors step over. */
  datatype CharClass = Blank | Space | ReSpace | Punct | Letter | Alnum | Word | Digit | NonSpace | NonParen | Except(c: char) | Only(c: char)

  /** Blank is ' ' alone, as the loops of findWordBefore test it; Except(q) is every char but q,
      Only(q) is q alone. */
  predicate InClass(k: CharClass, c: char)
  {
    match k
    case Blank => c == ' '
    case Space => IsSpace(c)
    case ReSpace => IsRegexSpace(c)
    case Punct => IsPunct(c)
    case Letter => IsLetter(c)
    case Alnum => IsAlnum(c)
    case Word => IsWord(c)
    case Digit => IsDigit(c)
    case NonSpace => !IsSpace(c)
    case NonParen => c != '(' && c != ')'
    case Except(q) => c != q
    case Only(q) => c == q
  }

  /** The end of the run of chars of class k that starts at i. */
  function RunEnd(s: string, i: nat, k: CharClass): (r: nat)
    requires i <= |s|
    ensures i <= r <= |s|
    ensures r == |s| || !InClass(k, s[r])
    decreases |s| - i
  {
    if i < |s| && InClass(k, s[i]) then RunEnd(s, i + 1, k) else i
  }

  /** The start of the run of chars of class k that ends just before i. */
  function RunStart(s: string, i: nat, k: CharClass): (r: nat)
    requires i <= |s|
    ensures r <= i
    ensures r == 0 || !InClass(k, s[r - 1])
  {
    if i > 0 && InClass(k, s[i - 1]) then RunStart(s, i - 1, k) else i
  }

  lemma {:induction false} RunEndAll(s: string, i: nat, k: CharClass)
    requires i <= |s|
    ensures forall j :: i <= j < RunEnd(s, i, k) ==> InClass(k, s[j])
    decreases |s| - i
  {
    if i < |s| && InClass(k, s[i]) {
      RunEndAll(s, i + 1, k);
    }
  }

  lemma {:induction false} RunStartAll(s: string, i: nat, k: CharClass)
    requires i <= |s|
    ensures forall j :: RunStart(s, i, k) <= j < i ==> InClass(k, s[j])
  {
    if i > 0 && InClass(k, s[i - 1]) {
      RunStartAll(s, i - 1, k);
    }
  }

  lemma {:induction false} RunEndUnique(s: string, i: nat, k: CharClass, j: nat)
    requires i <= j <= |s|
    requires forall x :: i <= x < j ==> InClass(k, s[x])
    requires j == |s| || !InClass(k, s[j])
    ensures RunEnd(s, i, k) == j
    decreases j - i
  {
    if i < j {
      RunEndUnique(s, i + 1, k, j);
    }
  }

  lemma {:induction false} RunStartUnique(s: string, i: nat, k: CharClass, j: nat)
    requires j <= i <= |s|
    requires forall x :: j <= x < i ==> InClass(k, s[x])
    requires j == 0 || !InClass(k, s[j - 1])
    ensures RunStart(s, i, k) == j
    decreases i - j
  {
    if j < i {
      RunStartUnique(s, i - 1, k, j);
    }
  }

  /** Where strings.TrimSpace starts its result: past the leading spaces. */
  function TrimStart(s: string): (a: nat)
    ensures a <= |s|
    ensures a == |s| || !IsSpace(s[a])
  {
    RunEnd(s, 0, Space)
  }

  /** Where strings.TrimSpace ends its result: before the trailing spaces (the start when all are spaces). */
  function TrimEnd(s: string): (b: nat)
    ensures TrimStart(s) <= b <= |s|
    ensures b == TrimStart(s) || !IsSpace(s[b - 1])
  {
    var a := TrimStart(s);
    if a == |s| then a
    else
      var b := RunStart(s, |s|, Space);
      assert a < b by {
        RunStartAll(s, |s|, Space);
        assert !IsSpace(s[a]);
      }
      b
  }

  /** Only spaces are cut off by TrimSpace. */
  lemma TrimCutsSpaces(s: string)
    ensures forall j :: 0 <= j < TrimStart(s) ==> IsSpace(s[j])
    ensures forall j :: TrimEnd(s) <= j < |s| ==> IsSpace(s[j])
  {
    RunEndAll(s, 0, Space);
    RunStartAll(s, |s|, Space);
  }

  /** strings.TrimSpace */
  function TrimSpace(s: string): (r: string)
    ensures |r| <= |s|
    ensures r == [] || (!IsSpace(r[0]) && !IsSpace(r[|r| - 1]))
  {
    s[TrimStart(s)..TrimEnd(s)]
  }

  /** strings.TrimLeft(s, cutset) for a one-char cutset. */
  function TrimLeftChar(s: string, c: char): (r: string)
    ensures |r| <= |s| && r == s[|s| - |r|..]
    ensures r == [] || r[0] != c
    ensures forall k :: 0 <= k < |s| - |r| ==> s[k] == c
  {
    if |s| > 0 && s[0] == c then TrimLeftChar(s[1..], c) else s
  }

  predicate HasPrefix(s: string, p: string) { |p| <= |s| && s[..|p|] == p }
  predicate HasSuffix(s: string, p: string) { |p| <= |s| && s[|s| - |p|..] == p }

  /** strings.Contains */
  predicate Contains(s: string, sub: string)
  {
    exists i :: 0 <= i <= |s| - |sub| && OccursAt(s, i, sub)
  }

  predicate OccursAt(s: string, i: nat, sub: string)
  {
    i + |sub| <= |s| && s[i..i + |sub|] == sub
  }

  /** Where sub occurs, its chars are the text's. */
  lemma OccursChar(s: string, j: nat, sub: string, p: nat)
    requires p < |sub|
    ensures OccursAt(s, j, sub) ==> s[j + p] == sub[p]
  {
    if OccursAt(s, j, sub) {
      assert s[j + p] == s[j..j + |sub|][p];
    }
  }

  /** An occurrence inside the slice s[a..b] is an occurrence in the slice. */
  lemma OccursInSlice(s: string, a: nat, b: nat, j: nat, sub: string)
    requires a <= j && j + |sub| <= b <= |s| && OccursAt(s, j, sub)
    ensures OccursAt(s[a..b], j - a, sub)
  {
    var t := s[a..b][j - a..j - a + |sub|];
    var u := s[j..j + |sub|];
    assert forall k :: 0 <= k < |sub| ==> t[k] == u[k];
    assert t == u;
  }

  /** A text none of whose chars is c does not contain c. */
  lemma CharAbsent(s: string, c: char)
    requires forall k :: 0 <= k < |s| ==> s[k] != c
    ensures !Contains(s, [c])
  {
    forall o | 0 <= o <= |s| - 1 ensures !OccursAt(s, o, [c]) {
      OccursChar(s, o, [c], 0);
    }
  }

  /** strings.Repeat */
  function Repeat(s: string, n: nat): (r: string)
    ensures |r| == n * |s|
  {
    if n == 0 then [] else s + Repeat(s, n - 1)
  }

  /** The first offset at or after i holding c, or |s| when there is none. */
  function IndexFrom(s: string, i: nat, c: char): (r: nat)
    requires i <= |s|
    ensures i <= r <= |s|
    ensures forall k :: i <= k < r ==> s[k] != c
    ensures r < |s| ==> s[r] == c
    decreases |s| - i
  {
    if i == |s| || s[i] == c then i else IndexFrom(s, i + 1, c)
  }

  /** The offset just past the last c before i, or 0 when there is none:
      strings.LastIndex(s[:i], "\n") + 1 with the -1 case mapped to 0. */
  function LineStart(s: string, i: nat): (r: nat)
    requires i <= |s|
    ensures r <= i
    ensures forall k :: r <= k < i ==> s[k] != '\n'
    ensures r == 0 || s[r - 1] == '\n'
  {
    if i == 0 || s[i - 1] == '\n' then i else LineStart(s, i - 1)
  }

  /** strings.Split(s, sep) for a one-char sep: at least one part, none holding sep, one
      more part than there are seps. */
  function Split(s: string, sep: char): (r: seq<string>)
    ensures |r| >= 1
    ensures forall k :: 0 <= k < |r| ==> sep !in r[k]
    decreases |s|
  {
    var k := IndexFrom(s, 0, sep);
    if k == |s| then [s]
    else
      assert sep !in s[..k];
      [s[..k]] + Split(s[k + 1..], sep)
  }

  /** Joining the parts with sep gives the text back. */
  lemma {:induction false} JoinSplit(s: string, sep: char)
    ensures Join(Split(s, sep), [sep]) == s
    decreases |s|
  {
    var k := IndexFrom(s, 0, sep);
    if k < |s| {
      JoinSplit(s[k + 1..], sep);
      var ls := Split(s, sep);
      assert ls[1..] == Split(s[k + 1..], sep);
      assert s == s[..k] + [sep] + s[k + 1..];
    }
  }

  /** There is one part more than there are seps. */
  lemma {:induction false} SplitCount(s: string, sep: char)
    ensures |Split(s, sep)| == Count(s, sep) + 1
    decreases |s|
  {
    var k := IndexFrom(s, 0, sep);
    CountZero(s[..k], sep);
    CountSlices(s, k, sep);
    if k < |s| {
      SplitCount(s[k + 1..], sep);
      assert s[k..] == [sep] + s[k + 1..];
      CountConcat([sep], s[k + 1..], sep);
      CountOne(sep, sep);
    } else {
      assert s[k..] == [];
    }
  }

  /** strings.Split(s, "\n"): the lines of s. */
  function Lines(s: string): (r: seq<string>)
    ensures |r| >= 1
    ensures forall k :: 0 <= k < |r| ==> '\n' !in r[k]
  {
    Split(s, '\n')
  }

  /** Joining the lines with newlines gives the text back. */
  lemma JoinLines(s: string)
    ensures Join(Lines(s), "\n") == s
  {
    JoinSplit(s, '\n');
  }

  /** Splitting lines joined with newlines gives the lines back. */
  lemma {:induction false} LinesOfJoin(ls: seq<string>)
    requires |ls| >= 1
    requires forall k :: 0 <= k < |ls| ==> '\n' !in ls[k]
    ensures Lines(Join(ls, "\n")) == ls
    decreases |ls|
  {
    var s := Join(ls, "\n");
    if |ls| == 1 {
      assert IndexFrom(s, 0, '\n') == |s|;
    } else {
      LinesOfJoin(ls[1..]);
      assert s == ls[0] + "\n" + Join(ls[1..], "\n");
      assert s[|ls[0]|] == '\n';
      assert IndexFrom(s, 0, '\n') == |ls[0]|;
      assert s[..|ls[0]|] == ls[0];
      assert s[|ls[0]| + 1..] == Join(ls[1..], "\n");
    }
  }

  /** f applied to each element. */
  function ApplyAll(f: string -> string, ls: seq<string>): (r: seq<string>)
    ensures |r| == |ls|
  {
    seq(|ls|, k requires 0 <= k < |ls| => f(ls[k]))
  }

  /** strings.Join of f(line) for each line of strings.Split(s, "\n"): a pass applied line by line. */
  function MapLines(s: string, f: string -> string): string
  {
    Join(ApplyAll(f, Lines(s)), "\n")
  }

  /** Lines joined with newlines hold one newline fewer than there are lines. */
  lemma {:induction false} JoinNewlines(ls: seq<string>)
    requires |ls| >= 1
    requires forall k :: 0 <= k < |ls| ==> '\n' !in ls[k]
    ensures Count(Join(ls, "\n"), '\n') == |ls| - 1
    decreases |ls|
  {
    CountZero(ls[0], '\n');
    if |ls| > 1 {
      JoinNewlines(ls[1..]);
      CountConcat(ls[0] + "\n", Join(ls[1..], "\n"), '\n');
      CountConcat(ls[0], "\n", '\n');
    }
  }

  /** A per-line pass that never introduces a newline keeps the lines apart: line k of the
      output is f of line k of the input, and the number of newlines is unchanged. */
  lemma MapLinesLines(s: string, f: string -> string)
    requires forall l: string :: '\n' !in l ==> '\n' !in f(l)
    ensures Lines(MapLines(s, f)) == ApplyAll(f, Lines(s))
    ensures Count(MapLines(s, f), '\n') == Count(s, '\n')
  {
    var ls := ApplyAll(f, Lines(s));
    assert forall k :: 0 <= k < |ls| ==> '\n' !in ls[k] by {
      forall k | 0 <= k < |ls|
        ensures '\n' !in ls[k]
      {
        assert '\n' !in Lines(s)[k];
      }
    }
    LinesOfJoin(ls);
    JoinNewlines(ls);
    JoinNewlines(Lines(s));
    JoinLines(s);
  }

  /** strings.Fields: the maximal runs of non-space chars, in order. */
  function Fields(s: string): (r: seq<string>)
    ensures forall i :: 0 <= i < |r| ==> |r[i]| > 0 && forall k :: 0 <= k < |r[i]| ==> !IsSpace(r[i][k])
    decreases |s|
  {
    var a := RunEnd(s, 0, Space);
    if a == |s| then []
    else
      var b := RunEnd(s, a, NonSpace);
      RunEndAll(s, a, NonSpace);
      [s[a..b]] + Fields(s[b..])
  }

  /** strings.Join */
  function Join(ws: seq<string>, sep: string): string
  {
    if |ws| == 0 then [] else if |ws| == 1 then ws[0] else ws[0] + sep + Join(ws[1..], sep)
  }
}
