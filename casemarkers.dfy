/** TransformCase of transformations/case.go: the (cap), (up) and (low) markers, optionally
    with a count as in "(up, 2)", change the case of the words before them and disappear. */
module CaseMarkers {

  import opened Wrappers
  import opened Text
  import opened Numbers
  import opened Rewrite
  import opened Spaced
  import opened TokenText
  import opened QuoteFix
  import opened CasePattern

  /** The change one marker makes to one word it reaches: a word that starts with a quote and
      has more after it gets the rest capitalized whatever the marker says; any other word is
      capitalized, upper-cased or lower-cased. */
  function CaseWord(kind: CaseKind, w: string): string
  {
    if |w| > 1 && w[0] == '\'' then "'" + Capitalize(w[1..])
    else
      match kind
      case Cap => Capitalize(w)
      case Up => Upper(w)
      case Low => Lower(w)
  }

  /** The case pattern of a word after that change: no lower-case letter where an upper-case
      one belongs, and no upper-case letter elsewhere. */
  predicate CaseShaped(kind: CaseKind, w: string)
  {
    if |w| > 1 && w[0] == '\'' then
      !IsLower(w[1]) && forall x :: 2 <= x < |w| ==> !IsUpper(w[x])
    else
      match kind
      case Up => forall x :: 0 <= x < |w| ==> !IsLower(w[x])
      case Low => forall x :: 0 <= x < |w| ==> !IsUpper(w[x])
      case Cap => (|w| > 0 ==> !IsLower(w[0])) && forall x :: 1 <= x < |w| ==> !IsUpper(w[x])
  }

  /** Two chars equal but for case: the one that is not lower-case is the upper-case form. */
  lemma NotLowerIsUpper(a: char, b: char)
    requires ToLowerChar(a) == ToLowerChar(b) && !IsLower(a)
    ensures a == ToUpperChar(b)
  {
  }

  /** Two chars equal but for case: the one that is not upper-case is the lower-case form. */
  lemma NotUpperIsLower(a: char, b: char)
    requires ToLowerChar(a) == ToLowerChar(b) && !IsUpper(a)
    ensures a == ToLowerChar(b)
  {
  }

  /** Upper- and lower-casing leave the lower-case form of a char as it is. */
  lemma LowerOfCase(c: char)
    ensures ToLowerChar(ToUpperChar(c)) == ToLowerChar(c)
    ensures ToLowerChar(ToLowerChar(c)) == ToLowerChar(c)
    ensures !IsLower(ToUpperChar(c)) && !IsUpper(ToLowerChar(c))
  {
  }

  /** Capitalizing keeps the length and the lower-case form, and gives the Cap pattern. */
  lemma CapitalizeShape(w: string)
    ensures |Capitalize(w)| == |w| && Lower(Capitalize(w)) == Lower(w)
    ensures |w| > 0 ==> !IsLower(Capitalize(w)[0])
    ensures forall x :: 1 <= x < |w| ==> !IsUpper(Capitalize(w)[x])
  {
    CapitalizeLaws(w);
    if |w| > 0 {
      LowerOfCase(w[0]);
      forall x | 0 <= x < |w| ensures Lower(Capitalize(w))[x] == Lower(w)[x] {
        LowerOfCase(w[x]);
      }
    }
  }

  /** The quote rule keeps the length and the lower-case form. */
  lemma QuoteRuleShape(w: string)
    requires |w| > 1 && w[0] == '\''
    ensures |"'" + Capitalize(w[1..])| == |w| && Lower("'" + Capitalize(w[1..])) == Lower(w)
    ensures !IsLower(("'" + Capitalize(w[1..]))[1])
    ensures forall x :: 2 <= x < |w| ==> !IsUpper(("'" + Capitalize(w[1..]))[x])
  {
    var c := Capitalize(w[1..]);
    var r := "'" + c;
    CapitalizeShape(w[1..]);
    forall x | 0 <= x < |w| ensures Lower(r)[x] == Lower(w)[x] {
      if x > 0 {
        assert r[x] == c[x - 1] && Lower(c)[x - 1] == Lower(w[1..])[x - 1];
      }
    }
    forall x | 2 <= x < |w| ensures !IsUpper(r[x]) {
      assert r[x] == c[x - 1];
    }
  }

  /** CaseWord changes case only, and gives the word the pattern of its marker. */
  lemma CaseWordShape(kind: CaseKind, w: string)
    ensures |CaseWord(kind, w)| == |w| && Lower(CaseWord(kind, w)) == Lower(w)
    ensures CaseShaped(kind, CaseWord(kind, w))
  {
    var r := CaseWord(kind, w);
    if |w| > 1 && w[0] == '\'' {
      QuoteRuleShape(w);
    } else {
      match kind
      case Cap => CapitalizeShape(w);
      case Up =>
        forall x | 0 <= x < |w| ensures Lower(r)[x] == Lower(w)[x] && !IsLower(r[x]) {
          LowerOfCase(w[x]);
        }
      case Low =>
        forall x | 0 <= x < |w| ensures Lower(r)[x] == Lower(w)[x] && !IsUpper(r[x]) {
          LowerOfCase(w[x]);
        }
    }
    if |w| > 1 && w[0] == '\'' {
      assert r[0] == '\'';
    } else if |w| > 1 {
      assert ToLowerChar(r[0]) == ToLowerChar(w[0]);
      assert r[0] != '\'';
    }
  }

  /** A word with the lower-case form of w and the pattern of the marker is CaseWord(kind, w):
      the change is exactly "same letters, this case pattern". */
  lemma ShapedIsCaseWord(kind: CaseKind, w: string, r: string)
    requires |r| == |w| && Lower(r) == Lower(w) && CaseShaped(kind, r)
    ensures r == CaseWord(kind, w)
  {
    var c := CaseWord(kind, w);
    CaseWordShape(kind, w);
    if |w| > 1 {
      assert ToLowerChar(r[0]) == ToLowerChar(w[0]);
    }
    forall x | 0 <= x < |w| ensures r[x] == c[x] {
      assert ToLowerChar(r[x]) == ToLowerChar(w[x]) == ToLowerChar(c[x]);
      if |w| > 1 && w[0] == '\'' {
        if x == 0 {
        } else if x == 1 {
          NotLowerIsUpper(r[x], w[x]);
          NotLowerIsUpper(c[x], w[x]);
        } else {
          NotUpperIsLower(r[x], w[x]);
          NotUpperIsLower(c[x], w[x]);
        }
      } else {
        match kind
        case Up =>
          NotLowerIsUpper(r[x], w[x]);
          NotLowerIsUpper(c[x], w[x]);
        case Low =>
          NotUpperIsLower(r[x], w[x]);
          NotUpperIsLower(c[x], w[x]);
        case Cap =>
          if x == 0 {
            NotLowerIsUpper(r[x], w[x]);
            NotLowerIsUpper(c[x], w[x]);
          } else {
            NotUpperIsLower(r[x], w[x]);
            NotUpperIsLower(c[x], w[x]);
          }
      }
    }
  }

  /** Both directions together. */
  lemma CaseWordIff(kind: CaseKind, w: string, r: string)
    ensures r == CaseWord(kind, w) <==> |r| == |w| && Lower(r) == Lower(w) && CaseShaped(kind, r)
  {
    CaseWordShape(kind, w);
    if |r| == |w| && Lower(r) == Lower(w) && CaseShaped(kind, r) {
      ShapedIsCaseWord(kind, w, r);
    }
  }

  /** How many words a marker reaches: 1 without a count, the count when strconv.Atoi reads it
      without error, and 1 again when it does not (a count beyond the int range). */
  function Reach(mk: CaseMark): int
  {
    if mk.digits == [] then 1
    else
      match ParseIntFull(mk.digits, 10)
      case Ok(n) => n
      case _ => 1
  }

  /** The count is read as a decimal: no count and a count too large for an int both mean 1. */
  lemma ReachIs(mk: CaseMark)
    requires AllDecimal(mk.digits)
    ensures AllDigits(mk.digits, 10)
    ensures mk.digits == [] ==> Reach(mk) == 1
    ensures mk.digits != [] && Value(mk.digits, 10) <= MaxInt64 ==> Reach(mk) == Value(mk.digits, 10)
    ensures mk.digits != [] && Value(mk.digits, 10) > MaxInt64 ==> Reach(mk) == 1
  {
    var ds := mk.digits;
    forall k | 0 <= k < |ds| ensures DigitValue(ds[k]) < 10 {
      assert IsDigit(ds[k]);
    }
    if ds != [] {
      assert ds[0] != '-' && ds[0] != '+' by {
        assert IsDigit(ds[0]);
      }
    }
  }

  /** The words after a marker of the given kind that reaches n words back: the last n of
      them, or all when there are fewer, go through CaseWord. */
  function ApplyCase(rs: seq<string>, kind: CaseKind, n: int): (r: seq<string>)
    ensures |r| == |rs|
  {
    var start := if |rs| - n < 0 then 0 else |rs| - n;
    seq(|rs|, k requires 0 <= k < |rs| => if k < start then rs[k] else CaseWord(kind, rs[k]))
  }

  /** One word of ApplyCase. */
  lemma ApplyCaseAt(rs: seq<string>, kind: CaseKind, n: int, k: nat)
    requires k < |rs|
    ensures ApplyCase(rs, kind, n)[k] == if k + n < |rs| then rs[k] else CaseWord(kind, rs[k])
  {
  }

  /** A marker reaching n words changes the case of the last min(n, |rs|) words and of no
      other; a count of 0 changes nothing. */
  lemma ApplyCaseWindow(rs: seq<string>, kind: CaseKind, n: int)
    ensures |ApplyCase(rs, kind, n)| == |rs|
    ensures forall k :: 0 <= k < |rs| && k + n < |rs| ==> ApplyCase(rs, kind, n)[k] == rs[k]
    ensures forall k :: 0 <= k < |rs| && k + n >= |rs| ==>
      var w := ApplyCase(rs, kind, n)[k];
      |w| == |rs[k]| && Lower(w) == Lower(rs[k]) && CaseShaped(kind, w)
    ensures n <= 0 ==> ApplyCase(rs, kind, n) == rs
  {
    var r := ApplyCase(rs, kind, n);
    forall k | 0 <= k < |rs| && k + n >= |rs|
      ensures |r[k]| == |rs[k]| && Lower(r[k]) == Lower(rs[k]) && CaseShaped(kind, r[k])
    {
      CaseWordShape(kind, rs[k]);
    }
  }

  /** The marker FindStringSubmatch reads from a token: the leftmost match in it. */
  function MarkOf(token: string): Option<CaseMark>
  {
    match FirstHit(CaseMarker, token, 0)
    case None => None
    case Some(p) => CaseMarkAt(token, p)
  }

  /** A marker is read from exactly the tokens that MatchString accepts. */
  lemma MarkOfIff(token: string)
    ensures MarkOf(token).Some? <==> MatchString(CaseMarker, token)
  {
    var h := FirstHit(CaseMarker, token, 0);
    if h.Some? {
      assert HitAt(CaseMarker, token, h.value);
    }
  }

  /** One turn of the loop of TransformCase: a marker token changes the case of the words
      before it and is dropped; any other token is appended. */
  function CaseStep(rs: seq<string>, token: string): seq<string>
  {
    match MarkOf(token)
    case Some(mk) => ApplyCase(rs, mk.kind, Reach(mk))
    case None => rs + [token]
  }

  /** The result list of TransformCase after the first n tokens. */
  function CaseFold(tokens: seq<string>, n: nat): seq<string>
    requires n <= |tokens|
  {
    if n == 0 then [] else CaseStep(CaseFold(tokens, n - 1), tokens[n - 1])
  }

  /** The tokens among the first n that are no markers, in order. */
  function Kept(tokens: seq<string>, n: nat): seq<string>
    requires n <= |tokens|
  {
    if n == 0 then []
    else if MarkOf(tokens[n - 1]).Some? then Kept(tokens, n - 1)
    else Kept(tokens, n - 1) + [tokens[n - 1]]
  }

  /** Word by word the same letters, case aside. */
  predicate SameLetters(a: seq<string>, b: seq<string>)
  {
    |a| == |b| && forall k :: 0 <= k < |a| ==> |a[k]| == |b[k]| && Lower(a[k]) == Lower(b[k])
  }

  /** The result list holds the non-marker tokens in order, only their case changed: markers
      leave the list and no word is lost, split or altered but for case. */
  lemma {:induction false} CaseFoldKept(tokens: seq<string>, n: nat)
    requires n <= |tokens|
    ensures SameLetters(CaseFold(tokens, n), Kept(tokens, n))
  {
    if n > 0 {
      CaseFoldKept(tokens, n - 1);
      var prev := CaseFold(tokens, n - 1);
      var mk := MarkOf(tokens[n - 1]);
      if mk.Some? {
        ApplyCaseWindow(prev, mk.value.kind, Reach(mk.value));
      }
    }
  }

  /** Same letters keep a word free of whitespace: case changes touch letters only. */
  lemma SameLettersFields(a: seq<string>, b: seq<string>)
    requires SameLetters(a, b) && AllFields(b)
    ensures AllFields(a)
  {
    forall k | 0 <= k < |a| ensures IsField(a[k]) {
      forall x | 0 <= x < |a[k]| ensures !IsSpace(a[k][x]) {
        assert ToLowerChar(a[k][x]) == Lower(a[k])[x] == Lower(b[k])[x] == ToLowerChar(b[k][x]);
        assert !IsSpace(b[k][x]);
      }
    }
  }

  /** The kept tokens of a tokenized text are words without whitespace. */
  lemma {:induction false} KeptFields(tokens: seq<string>, n: nat)
    requires n <= |tokens|
    requires forall k :: 0 <= k < |tokens| ==> IsField(tokens[k]) || MatchString(CaseMarker, tokens[k])
    ensures AllFields(Kept(tokens, n))
  {
    if n > 0 {
      KeptFields(tokens, n - 1);
      MarkOfIff(tokens[n - 1]);
    }
  }

  /** The stand-in that TransformCase puts in place of every "..." while it works. */
  const Placeholder: string := "%%ELLIPSIS%%"

  /** protectEllipsis */
  function ProtectEllipsis(text: string): string
  {
    ReplaceLiteral(text, "...", Placeholder)
  }

  /** unprotectEllipsis */
  function UnprotectEllipsis(text: string): string
  {
    ReplaceLiteral(text, Placeholder, "...")
  }

  /** Unprotecting what was protected from offset i on gives that text back, as long as no
      '%' could make a placeholder of its own. */
  lemma {:induction false} EllipsisBack(s: string, i: nat)
    requires i <= |s| && '%' !in s
    ensures UnprotectEllipsis(ReplaceFrom(s, i, Literal("...", Placeholder))) == s[i..]
    decreases |s| - i
  {
    if i < |s| {
      LiteralAt("...", Placeholder, s, i);
      if HitAt(Literal("...", Placeholder), s, i) {
        EllipsisBack(s, i + 3);
        EllipsisBackHit(s, i);
      } else {
        EllipsisBack(s, i + 1);
        EllipsisBackMiss(s, i);
      }
    }
  }

  /** A step of EllipsisBack where "..." starts at i: the placeholder goes back to "...". */
  lemma EllipsisBackHit(s: string, i: nat)
    requires i + 3 <= |s| && HitAt(Literal("...", Placeholder), s, i)
    requires Literal("...", Placeholder)(s, i).value.end == i + 3
    requires UnprotectEllipsis(ReplaceFrom(s, i + 3, Literal("...", Placeholder))) == s[i + 3..]
    requires s[i..i + 3] == "..."
    ensures UnprotectEllipsis(ReplaceFrom(s, i, Literal("...", Placeholder))) == s[i..]
  {
    var m := Literal("...", Placeholder);
    var rest := ReplaceFrom(s, i + 3, m);
    assert ReplaceFrom(s, i, m) == Placeholder + rest;
    LiteralFound(Placeholder, "...", rest);
    assert s[i..] == s[i..i + 3] + s[i + 3..];
  }

  /** A step of EllipsisBack where no "..." starts at i: the char is copied. */
  lemma EllipsisBackMiss(s: string, i: nat)
    requires i < |s| && '%' !in s && !HitAt(Literal("...", Placeholder), s, i)
    requires UnprotectEllipsis(ReplaceFrom(s, i + 1, Literal("...", Placeholder))) == s[i + 1..]
    ensures UnprotectEllipsis(ReplaceFrom(s, i, Literal("...", Placeholder))) == s[i..]
  {
    var m := Literal("...", Placeholder);
    var rest := ReplaceFrom(s, i + 1, m);
    assert ReplaceFrom(s, i, m) == [s[i]] + rest;
    assert s[i] in s;
    LiteralHead(Placeholder, "...", s[i], rest);
    assert s[i..] == [s[i]] + s[i + 1..];
  }

  /** The ellipsis protection is undone exactly on a text without '%'. */
  lemma EllipsisRoundTrip(s: string)
    requires '%' !in s
    ensures UnprotectEllipsis(ProtectEllipsis(s)) == s
  {
    EllipsisBack(s, 0);
  }

  /** Without that condition the round trip fails: a placeholder already in the text comes
      out as "...". */
  lemma PlaceholderInText()
    ensures UnprotectEllipsis(ProtectEllipsis(Placeholder)) == "..."
  {
    LiteralAbsent("...", Placeholder, Placeholder, 0);
    assert Placeholder + [] == Placeholder;
    LiteralFound(Placeholder, "...", []);
  }

  /** The tokens TransformCase works on: the quote-fixed, ellipsis-protected text split by
      tokenizeText around the markers. */
  function CaseTokens(text: string): seq<string>
  {
    TokensFrom(CaseMarker, ProtectEllipsis(FixQuotes(text)), 0)
  }

  /** tokenizeText with the marker pattern gives the reference tokens. */
  lemma CaseTokensAre(text: string)
    ensures TokensOfParts(CaseMarker, PartsFrom(CaseMarker, text, 0)) == TokensFrom(CaseMarker, text, 0)
  {
    CaseMarkerLocal();
    CaseMarkerWhole();
    PartsTokens(CaseMarker, text, 0);
  }

  /** The output of TransformCase for a text. */
  function TransformCaseText(text: string): string
  {
    var tokens := CaseTokens(text);
    UnprotectEllipsis(Join(CaseFold(tokens, |tokens|), " "))
  }

  /** The inner loop of TransformCase: the words from max(0, len - num) on change case in
      place. */
  method ApplyMarker(words: seq<string>, kind: CaseKind, num: int) returns (result: seq<string>)
    ensures result == ApplyCase(words, kind, num)
  {
    result := words;
    var start := |result| - num;
    if start < 0 {
      start := 0;
    }
    var i := start;
    while i < |result|
      invariant start <= i && (i <= |words| || i == start)
      invariant |result| == |words|
      invariant forall k :: 0 <= k < |words| ==> result[k] == if start <= k < i then CaseWord(kind, words[k]) else words[k]
    {
      result := result[i := CaseWord(kind, result[i])];
      i := i + 1;
    }
    forall k | 0 <= k < |words| ensures result[k] == ApplyCase(words, kind, num)[k] {
      ApplyCaseAt(words, kind, num, k);
    }
  }

  /** The token loop of TransformCase. */
  method CaseTokensLoop(tokens: seq<string>) returns (result: seq<string>)
    ensures result == CaseFold(tokens, |tokens|)
  {
    result := [];
    for t := 0 to |tokens|
      invariant result == CaseFold(tokens, t)
    {
      result := FoldToken(result, tokens[t]);
    }
  }

  /** The body of the loop over the tokens: a marker applies its case change to the words so
      far (its count parsed when there is one, 1 otherwise or when it does not parse), any
      other token is appended. */
  method FoldToken(words: seq<string>, token: string) returns (result: seq<string>)
    ensures result == CaseStep(words, token)
  {
    MarkOfIff(token);
    if MatchString(CaseMarker, token) {
      var mk := MarkOf(token).value;
      var num := 1;
      if mk.digits != [] {
        var parsed := ParseIntFull(mk.digits, 10);
        if parsed.Ok? {
          num := parsed.v;
        }
      }
      result := ApplyMarker(words, mk.kind, num);
      return;
    }
    result := words + [token];
  }

  /** TransformCase */
  method TransformCase(text: string) returns (r: string)
    ensures r == TransformCaseText(text)
  {
    var fixedText := FixQuotes(text);
    var protectedText := ProtectEllipsis(fixedText);
    var tokens := TokenizeText(CaseMarker, protectedText);
    CaseTokensAre(protectedText);
    var result := CaseTokensLoop(tokens);
    r := UnprotectEllipsis(Join(result, " "));
  }

  /** A text without a quote has nothing for fixQuotes to change. */
  lemma NoQuoteUnchanged(s: string)
    requires '\'' !in s
    ensures FixQuotes(s) == s
  {
    forall j | 0 <= j < |s| ensures !HitAt(FixQuoteMatcher(), s, j) {
      assert s[j] in s;
    }
    NoHitIdentity(s, 0, FixQuoteMatcher());
  }

  /** Protecting a text with a single ellipsis and no other '.'. */
  lemma {:induction false} ProtectOne(w: string, rest: string)
    requires '.' !in w && '.' !in rest
    ensures ProtectEllipsis(w + "..." + rest) == w + Placeholder + rest
    decreases |w|
  {
    if |w| == 0 {
      assert w + "..." + rest == "..." + rest;
      LiteralFound("...", Placeholder, rest);
      LiteralAbsent("...", Placeholder, rest, 0);
    } else {
      ProtectOne(w[1..], rest);
      assert w + "..." + rest == [w[0]] + (w[1..] + "..." + rest);
      assert w[0] in w;
      LiteralHead("...", Placeholder, w[0], w[1..] + "..." + rest);
      assert w + Placeholder + rest == [w[0]] + (w[1..] + Placeholder + rest);
    }
  }

  /** A text without '(' holds no marker. */
  lemma NoParenNoMark(w: string)
    requires '(' !in w
    ensures !HasHitFrom(CaseMarker, w, 0)
  {
    forall j | 0 <= j < |w| ensures !HitAt(CaseMarker, w, j) {
      assert w[j] in w;
    }
  }

  /** A bare marker after any text is matched there, up to the end. */
  lemma MarkAtEnd(x: string, kind: CaseKind)
    ensures CaseMarkAt(x + MarkerText(kind, "", ""), |x|) == Some(CaseMark(kind, [], |x| + |MarkerText(kind, "", "")|))
  {
    var mt := MarkerText(kind, "", "");
    var s := x + mt;
    MarkerTextMatches(kind, "", "", []);
    assert mt + [] == mt;
    assert s[|x|..|s|] == mt;
    MarkSlice(s, |x|, |s|, 0);
  }

  /** No marker starts inside a prefix without '('. */
  lemma NoMarkBefore(x: string, y: string)
    requires '(' !in x
    ensures forall j :: 0 <= j < |x| ==> !HitAt(CaseMarker, x + y, j)
  {
    forall j | 0 <= j < |x| ensures !HitAt(CaseMarker, x + y, j) {
      assert (x + y)[j] == x[j] && x[j] in x;
    }
  }

  /** A word followed by a space or by nothing is one field. */
  lemma FieldsWordSep(w: string, sep: string)
    requires IsField(w) && (sep == "" || sep == " ")
    ensures Fields(w + sep) == [w]
  {
    FieldsOfWord(w, sep);
    if sep == " " {
      assert sep[1..] == [];
      assert RunEnd([], 0, Space) == 0;
    }
  }

  /** Nothing is left to read at the end of the text. */
  lemma TokensAtEnd(s: string)
    ensures TokensFrom(CaseMarker, s, |s|) == []
  {
    assert s[|s|..] == [];
    assert RunEnd([], 0, Space) == 0;
  }

  /** After a word and a space or nothing, the first marker is the one that follows them. */
  lemma FirstMarkAfterWord(w: string, sep: string, mt: string)
    requires '(' !in w && (sep == "" || sep == " ")
    requires HitAt(CaseMarker, (w + sep) + mt, |w| + |sep|)
    ensures FirstHit(CaseMarker, (w + sep) + mt, 0) == Some(|w| + |sep|)
  {
    var x := w + sep;
    assert '(' !in x by {
      assert forall j :: 0 <= j < |w| ==> x[j] == w[j];
    }
    NoMarkBefore(x, mt);
    FirstHitAt(CaseMarker, x + mt, 0, |x|);
  }

  /** A word, a space or nothing, and a marker that runs to the end split into those two
      tokens. */
  lemma TokensWordMark(w: string, sep: string, mt: string)
    requires IsField(w) && '(' !in w && (sep == "" || sep == " ")
    requires HitAt(CaseMarker, (w + sep) + mt, |w| + |sep|)
    requires CaseMarker((w + sep) + mt, |w| + |sep|).value.end == |w| + |sep| + |mt|
    ensures TokensFrom(CaseMarker, (w + sep) + mt, 0) == [w, mt]
  {
    var x := w + sep;
    var s := x + mt;
    var p := |x|;
    FirstMarkAfterWord(w, sep, mt);
    TokensFromStep(CaseMarker, s, 0, p);
    assert s[0..p] == x && s[p..|s|] == mt;
    FieldsWordSep(w, sep);
    TokensAtEnd(s);
  }

  /** A word, then a space or nothing, then a bare marker split into those two tokens. */
  lemma WordThenMarker(w: string, sep: string, kind: CaseKind)
    requires IsField(w) && '(' !in w && (sep == "" || sep == " ")
    ensures TokensFrom(CaseMarker, w + sep + MarkerText(kind, "", ""), 0) == [w, MarkerText(kind, "", "")]
  {
    MarkAtEnd(w + sep, kind);
    TokensWordMark(w, sep, MarkerText(kind, "", ""));
  }

  /** The case pass on a word and then a bare marker: the word alone, in the marker's case. */
  lemma WordThenMarkerFold(w: string, kind: CaseKind)
    requires '(' !in w
    ensures CaseFold([w, MarkerText(kind, "", "")], 2) == [CaseWord(kind, w)]
  {
    var mt := MarkerText(kind, "", "");
    MarkerTextMatches(kind, "", "", []);
    assert mt + [] == mt;
    FirstHitAt(CaseMarker, mt, 0, 0);
    assert MarkOf(mt) == Some(CaseMark(kind, [], |mt|));
    NoParenNoMark(w);
    assert MarkOf(w) == None;
    assert CaseFold([w, mt], 1) == [w];
    ApplyCaseAt([w], kind, 1, 0);
  }

  /** Lower-casing works char by char. */
  lemma LowerConcat(a: string, b: string)
    ensures Lower(a + b) == Lower(a) + Lower(b)
  {
  }

  /** The whole pass on a text that fixQuotes and the protection turn into one word and a
      bare marker: that word in the marker's case, unprotected. */
  lemma TransformWordMark(text: string, v: string, kind: CaseKind)
    requires IsField(v) && '(' !in v
    requires ProtectEllipsis(FixQuotes(text)) == v + " " + MarkerText(kind, "", "")
    ensures TransformCaseText(text) == UnprotectEllipsis(CaseWord(kind, v))
  {
    WordThenMarker(v, " ", kind);
    WordThenMarkerFold(v, kind);
  }

  /** A word without '.', '(', a quote or '%' and then "... (low)" is protected as the word,
      the placeholder, a space and the marker. */
  lemma ProtectedLow(w: string)
    requires '.' !in w && '\'' !in w
    ensures ProtectEllipsis(FixQuotes(w + "... (low)")) == (w + Placeholder) + " " + MarkerText(Low, "", "")
  {
    var text := w + "... (low)";
    assert '\'' !in text;
    NoQuoteUnchanged(text);
    assert text == w + "..." + " (low)";
    ProtectOne(w, " (low)");
    assert MarkerText(Low, "", "") == "(low)";
  }

  /** (low) turns the placeholder after a word into "%%ellipsis%%", which has no 'E'. */
  lemma LowPlaceholder(w: string)
    requires '\'' !in w
    ensures CaseWord(Low, w + Placeholder) == Lower(w) + "%%ellipsis%%"
    ensures 'E' !in Lower(w) + "%%ellipsis%%"
  {
    var v := w + Placeholder;
    LowerConcat(w, Placeholder);
    assert Lower(Placeholder) == "%%ellipsis%%";
    if |v| > 1 {
      assert v[0] != '\'' by {
        if |w| > 0 {
          assert v[0] == w[0] && w[0] in w;
        }
      }
    }
    var lowered := Lower(w) + "%%ellipsis%%";
    forall k | 0 <= k < |lowered| ensures lowered[k] != 'E' {
      if k < |w| {
        assert lowered[k] == ToLowerChar(w[k]);
      }
    }
  }

  /** As written, (low) after a word that ends in an ellipsis lower-cases the placeholder,
      which then no longer reads as one: the ellipsis is lost. */
  lemma EllipsisLeakFor(w: string)
    requires IsField(w) && '.' !in w && '(' !in w && '\'' !in w
    ensures TransformCaseText(w + "... (low)") == Lower(w) + "%%ellipsis%%"
  {
    PlaceholderWord(w);
    ProtectedLow(w);
    TransformWordMark(w + "... (low)", w + Placeholder, Low);
    LowPlaceholderLost(w);
  }

  /** The same leak when the marker follows the ellipsis with no space between them, which
      is how FixPunctuationGroups hands the text on. */
  lemma GluedLeakFor(w: string)
    requires IsField(w) && '.' !in w && '(' !in w && '\'' !in w
    ensures TransformCaseText(w + "...(low)") == Lower(w) + "%%ellipsis%%"
  {
    var text := w + "...(low)";
    var v := w + Placeholder;
    assert '\'' !in text;
    NoQuoteUnchanged(text);
    assert text == w + "..." + "(low)";
    ProtectOne(w, "(low)");
    assert MarkerText(Low, "", "") == "(low)";
    assert v + "" + "(low)" == w + Placeholder + "(low)";
    assert ProtectEllipsis(FixQuotes(text)) == v + "" + MarkerText(Low, "", "");
    PlaceholderWord(w);
    WordThenMarker(v, "", Low);
    WordThenMarkerFold(v, Low);
    LowPlaceholderLost(w);
  }

  /** A word followed by the placeholder is still one word with no '('. */
  lemma PlaceholderWord(w: string)
    requires IsField(w) && '(' !in w
    ensures IsField(w + Placeholder) && '(' !in w + Placeholder
  {
    var v := w + Placeholder;
    forall k | 0 <= k < |v| ensures !IsSpace(v[k]) && v[k] != '(' {
      if k < |w| {
        assert v[k] == w[k] && w[k] in w;
      } else {
        assert v[k] == Placeholder[k - |w|];
      }
    }
  }

  /** The lower-cased placeholder is not restored. */
  lemma LowPlaceholderLost(w: string)
    requires '\'' !in w
    ensures UnprotectEllipsis(CaseWord(Low, w + Placeholder)) == Lower(w) + "%%ellipsis%%"
  {
    LowPlaceholder(w);
    assert Placeholder[2] == 'E';
    LiteralAbsent(Placeholder, "...", Lower(w) + "%%ellipsis%%", 2);
  }

  /** TransformCase without the ellipsis protection. The protection has no work to do, since
      "..." holds neither whitespace nor a marker, so tokenizing splits the text alike. */
  function TransformCaseFixed(text: string): string
  {
    var tokens := TokensFrom(CaseMarker, FixQuotes(text), 0);
    Join(CaseFold(tokens, |tokens|), " ")
  }

  /** The tokens of any text, folded and joined: single-spaced, and its words are the
      non-marker tokens with only their case changed. */
  lemma CaseJoinShape(s: string)
    ensures var tokens := TokensFrom(CaseMarker, s, 0);
            var joined := Join(CaseFold(tokens, |tokens|), " ");
            SingleSpaced(joined) && SameLetters(Fields(joined), Kept(tokens, |tokens|))
  {
    var tokens := TokensFrom(CaseMarker, s, 0);
    var fold := CaseFold(tokens, |tokens|);
    CaseMarkerWhole();
    TokensShape(CaseMarker, s, 0);
    KeptFields(tokens, |tokens|);
    CaseFoldKept(tokens, |tokens|);
    SameLettersFields(fold, Kept(tokens, |tokens|));
    JoinSingleSpaced(fold);
    FieldsOfJoin(fold);
  }

  /** The output of the corrected pass is single-spaced, and its words are the non-marker
      tokens of the quote-fixed text with only their case changed: every '.' of an ellipsis
      stays in place. */
  lemma TransformCaseFixedWords(text: string)
    ensures SingleSpaced(TransformCaseFixed(text))
    ensures var tokens := TokensFrom(CaseMarker, FixQuotes(text), 0);
            SameLetters(Fields(TransformCaseFixed(text)), Kept(tokens, |tokens|))
  {
    CaseJoinShape(FixQuotes(text));
  }

  /** The corrected pass on a text that fixQuotes turns into one word and a bare marker. */
  lemma FixedWordMark(text: string, v: string, kind: CaseKind)
    requires IsField(v) && '(' !in v
    requires FixQuotes(text) == v + " " + MarkerText(kind, "", "")
    ensures TransformCaseFixed(text) == CaseWord(kind, v)
  {
    WordThenMarker(v, " ", kind);
    WordThenMarkerFold(v, kind);
  }

  /** Without the protection the text is the word with its ellipsis and the marker. */
  lemma FixedLow(w: string)
    requires '\'' !in w
    ensures FixQuotes(w + "... (low)") == (w + "...") + " " + MarkerText(Low, "", "")
  {
    var text := w + "... (low)";
    assert '\'' !in text;
    NoQuoteUnchanged(text);
    assert MarkerText(Low, "", "") == "(low)";
  }

  /** (low) keeps the dots after a word. */
  lemma LowEllipsis(w: string)
    requires '\'' !in w
    ensures CaseWord(Low, w + "...") == Lower(w) + "..."
  {
    var v := w + "...";
    LowerConcat(w, "...");
    assert Lower("...") == "...";
    if |v| > 1 && |w| > 0 {
      assert v[0] == w[0] && w[0] in w;
    }
  }

  /** The same inputs as EllipsisLeakFor keep their ellipsis. */
  lemma EllipsisKeptFor(w: string)
    requires IsField(w) && '.' !in w && '(' !in w && '\'' !in w
    ensures TransformCaseFixed(w + "... (low)") == Lower(w) + "..."
  {
    var v := w + "...";
    assert IsField(v) && '(' !in v;
    FixedLow(w);
    FixedWordMark(w + "... (low)", v, Low);
    LowEllipsis(w);
  }
}
