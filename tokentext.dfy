/** tokenizeText of transformations/hex_bin.go, shared with transformations/case.go: the text
    is cut into the matches of a marker pattern and the text around them, then every part
    that the pattern matches is kept whole and every other part is split on whitespace. */
module TokenText {

  import opened Wrappers
  import opened Text
  import opened Rewrite
  import opened Spaced

  /** regexp.MatchString: the pattern matches somewhere in t. */
  predicate MatchString(m: Matcher, t: string)
  {
    HasHitFrom(m, t, 0)
  }

  /** A match found in a slice of s is a match of s at the same place: the pattern reads
      nothing outside the text it matches. */
  ghost predicate Local(m: Matcher)
  {
    forall s: string, a: nat, b: nat, j: nat :: a <= b <= |s| && HitAt(m, s[a..b], j) ==> HitAt(m, s, a + j)
  }

  /** A match of s, cut out on its own, still matches at its start. */
  ghost predicate Whole(m: Matcher)
  {
    forall s: string, i: nat :: HitAt(m, s, i) ==> HitAt(m, s[i..m(s, i).value.end], 0)
  }

  /** The parts the first loop of tokenizeText builds from offset i on: the text before each
      match when there is any, the match itself, and the text after the last match. */
  function PartsFrom(m: Matcher, s: string, i: nat): (r: seq<string>)
    requires i <= |s|
    decreases |s| - i
  {
    var h := FirstHit(m, s, i);
    if h.None? then (if i < |s| then [s[i..]] else [])
    else
      var p := h.value;
      var e := m(s, p).value.end;
      (if i < p then [s[i..p]] else []) + [s[p..e]] + PartsFrom(m, s, e)
  }

  /** The parts glued back together without separators. */
  function Concat(ps: seq<string>): string
  {
    if |ps| == 0 then [] else Concat(ps[..|ps| - 1]) + ps[|ps| - 1]
  }

  /** The tokens the second loop makes of one part. */
  function PartTokens(m: Matcher, part: string): seq<string>
  {
    if MatchString(m, part) then [part] else Fields(part)
  }

  /** The tokens of a list of parts, in order. */
  function TokensOfParts(m: Matcher, ps: seq<string>): seq<string>
  {
    if |ps| == 0 then [] else TokensOfParts(m, ps[..|ps| - 1]) + PartTokens(m, ps[|ps| - 1])
  }

  /** The reference reading of tokenizeText: the whitespace-separated words of the text before
      the leftmost match, the match as one token, then the same from the end of the match. */
  function TokensFrom(m: Matcher, s: string, i: nat): (r: seq<string>)
    requires i <= |s|
    decreases |s| - i
  {
    var h := FirstHit(m, s, i);
    if h.None? then Fields(s[i..])
    else
      var p := h.value;
      var e := m(s, p).value.end;
      Fields(s[i..p]) + [s[p..e]] + TokensFrom(m, s, e)
  }

  lemma ConcatAppend(ps: seq<string>, qs: seq<string>)
    ensures Concat(ps + qs) == Concat(ps) + Concat(qs)
    decreases |qs|
  {
    if |qs| > 0 {
      var q, x := qs[..|qs| - 1], qs[|qs| - 1];
      var a := ps + qs;
      assert a[..|a| - 1] == ps + q && a[|a| - 1] == x;
      assert Concat(a) == Concat(ps + q) + x;
      assert Concat(qs) == Concat(q) + x;
      ConcatAppend(ps, q);
    } else {
      assert ps + qs == ps;
    }
  }

  lemma TokensAppend(m: Matcher, ps: seq<string>, qs: seq<string>)
    ensures TokensOfParts(m, ps + qs) == TokensOfParts(m, ps) + TokensOfParts(m, qs)
    decreases |qs|
  {
    if |qs| > 0 {
      var q, x := qs[..|qs| - 1], qs[|qs| - 1];
      var a := ps + qs;
      assert a[..|a| - 1] == ps + q && a[|a| - 1] == x;
      TokensUnfold(m, a);
      TokensUnfold(m, qs);
      TokensAppend(m, ps, q);
    } else {
      assert ps + qs == ps;
    }
  }

  lemma TokensUnfold(m: Matcher, ps: seq<string>)
    requires |ps| > 0
    ensures TokensOfParts(m, ps) == TokensOfParts(m, ps[..|ps| - 1]) + PartTokens(m, ps[|ps| - 1])
  {
  }

  /** The tokens of one part. */
  lemma TokensSingle(m: Matcher, x: string)
    ensures TokensOfParts(m, [x]) == PartTokens(m, x)
  {
    assert [x][..0] == [];
    TokensUnfold(m, [x]);
  }

  /** The parts of tokenizeText glue back into the text. */
  lemma {:induction false} PartsConcat(m: Matcher, s: string, i: nat)
    requires i <= |s|
    ensures Concat(PartsFrom(m, s, i)) == s[i..]
    decreases |s| - i
  {
    var h := FirstHit(m, s, i);
    if h.None? {
      if i < |s| {
        assert Concat([s[i..]]) == Concat([]) + s[i..];
      }
    } else {
      var p := h.value;
      var e := m(s, p).value.end;
      PartsConcat(m, s, e);
      ConcatStep(s, i, p, e, PartsFrom(m, s, e));
    }
  }

  lemma ConcatOne(x: string)
    ensures Concat([x]) == x
  {
    assert [x][..0] == [];
  }

  /** The match, then the rest. */
  lemma ConcatMatch(s: string, p: nat, e: nat, rest: seq<string>)
    requires p < e <= |s| && Concat(rest) == s[e..]
    ensures Concat([s[p..e]] + rest) == s[p..]
  {
    ConcatAppend([s[p..e]], rest);
    ConcatOne(s[p..e]);
    assert s[p..] == s[p..e] + s[e..];
  }

  /** Gluing the parts of one step: the gap, the match, then the rest. */
  lemma ConcatStep(s: string, i: nat, p: nat, e: nat, rest: seq<string>)
    requires i <= p < e <= |s| && Concat(rest) == s[e..]
    ensures Concat((if i < p then [s[i..p]] else []) + [s[p..e]] + rest) == s[i..]
  {
    var tail := [s[p..e]] + rest;
    ConcatMatch(s, p, e, rest);
    if i < p {
      assert [s[i..p]] + [s[p..e]] + rest == [s[i..p]] + tail;
      ConcatAppend([s[i..p]], tail);
      ConcatOne(s[i..p]);
      assert s[i..] == s[i..p] + s[p..];
    } else {
      assert [] + [s[p..e]] + rest == tail;
    }
  }

  /** Text before the leftmost match holds no match of a pattern that reads only what it
      matches. */
  lemma GapHasNoMatch(m: Matcher, s: string, i: nat, p: nat)
    requires Local(m) && i <= p <= |s|
    requires forall j :: i <= j < p ==> !HitAt(m, s, j)
    ensures !MatchString(m, s[i..p])
  {
  }

  /** With such a pattern, the tokens of the parts are the reference tokens. */
  lemma {:induction false} PartsTokens(m: Matcher, s: string, i: nat)
    requires Local(m) && Whole(m) && i <= |s|
    ensures TokensOfParts(m, PartsFrom(m, s, i)) == TokensFrom(m, s, i)
    decreases |s| - i
  {
    var h := FirstHit(m, s, i);
    if h.None? {
      GapHasNoMatch(m, s, i, |s|);
      assert s[i..|s|] == s[i..];
      TokensLast(m, s, i);
    } else {
      var p := h.value;
      var e := m(s, p).value.end;
      PartsTokens(m, s, e);
      GapHasNoMatch(m, s, i, p);
      assert HitAt(m, s[p..e], 0);
      TokensStep(m, s, i, p, e, PartsFrom(m, s, e));
    }
  }

  /** The text after the last match gives its words. */
  lemma TokensLast(m: Matcher, s: string, i: nat)
    requires i <= |s| && !MatchString(m, s[i..])
    ensures TokensOfParts(m, if i < |s| then [s[i..]] else []) == Fields(s[i..])
  {
    if i < |s| {
      TokensSingle(m, s[i..]);
    } else {
      assert Fields(s[i..]) == [] by {
        assert RunEnd(s[i..], 0, Space) == 0;
      }
    }
  }

  /** The tokens of one step: the words of the gap, the match, then the rest. */
  lemma TokensStep(m: Matcher, s: string, i: nat, p: nat, e: nat, rest: seq<string>)
    requires i <= p < e <= |s|
    requires !MatchString(m, s[i..p]) && MatchString(m, s[p..e])
    ensures TokensOfParts(m, (if i < p then [s[i..p]] else []) + [s[p..e]] + rest) == Fields(s[i..p]) + [s[p..e]] + TokensOfParts(m, rest)
  {
    var gap := if i < p then [s[i..p]] else [];
    TokensAppend(m, gap + [s[p..e]], rest);
    TokensAppend(m, gap, [s[p..e]]);
    TokensSingle(m, s[p..e]);
    if i < p {
      TokensSingle(m, s[i..p]);
    } else {
      assert Fields(s[i..p]) == [] by {
        assert RunEnd(s[i..p], 0, Space) == 0;
      }
    }
  }

  /** One step of the reference tokens, at the leftmost match p. */
  lemma TokensFromStep(m: Matcher, s: string, i: nat, p: nat)
    requires i <= |s| && FirstHit(m, s, i) == Some(p)
    ensures p < m(s, p).value.end <= |s|
    ensures TokensFrom(m, s, i) == Fields(s[i..p]) + [s[p..m(s, p).value.end]] + TokensFrom(m, s, m(s, p).value.end)
  {
  }

  /** Every reference token is a whitespace-free word or a text the pattern matches. */
  lemma {:induction false} TokensShape(m: Matcher, s: string, i: nat)
    requires Whole(m) && i <= |s|
    ensures forall k :: 0 <= k < |TokensFrom(m, s, i)| ==> IsField(TokensFrom(m, s, i)[k]) || MatchString(m, TokensFrom(m, s, i)[k])
    decreases |s| - i
  {
    var h := FirstHit(m, s, i);
    if h.Some? {
      var p := h.value;
      var e := m(s, p).value.end;
      TokensShape(m, s, e);
      assert HitAt(m, s[p..e], 0);
      var f, rest := Fields(s[i..p]), TokensFrom(m, s, e);
      assert TokensFrom(m, s, i) == f + [s[p..e]] + rest;
      TokensJoin(m, f, s[p..e], rest);
    }
  }

  /** Fields, then a match, then tokens: all of them tokens. */
  lemma TokensJoin(m: Matcher, f: seq<string>, x: string, rest: seq<string>)
    requires forall k :: 0 <= k < |f| ==> IsField(f[k])
    requires MatchString(m, x)
    requires forall k :: 0 <= k < |rest| ==> IsField(rest[k]) || MatchString(m, rest[k])
    ensures var r := f + [x] + rest;
            forall k :: 0 <= k < |r| ==> IsField(r[k]) || MatchString(m, r[k])
  {
    var r := f + [x] + rest;
    forall k | 0 <= k < |r| ensures IsField(r[k]) || MatchString(m, r[k]) {
      if k < |f| {
        assert r[k] == f[k];
      } else if k == |f| {
        assert r[k] == x;
      } else {
        assert r[k] == rest[k - |f| - 1];
      }
    }
  }

  /** The parts that tokenizeText builds when the regexp library reports the matches at the
      offsets given by FindAllFrom. */
  method CutParts(m: Matcher, text: string) returns (parts: seq<string>)
    ensures parts == PartsFrom(m, text, 0)
  {
    var matches := FindAllFrom(m, text, 0);
    parts := [];
    var lastEnd := 0;
    for idx := 0 to |matches|
      invariant lastEnd <= |text|
      invariant matches[idx..] == FindAllFrom(m, text, lastEnd)
      invariant parts + PartsFrom(m, text, lastEnd) == PartsFrom(m, text, 0)
    {
      var start := matches[idx];
      var end := m(text, start).value.end;
      CutStep(m, text, parts, lastEnd, matches[idx..]);
      if start > lastEnd {
        parts := parts + [text[lastEnd..start]];
      }
      parts := parts + [text[start..end]];
      lastEnd := end;
    }
    CutLast(m, text, parts, lastEnd);
    if lastEnd < |text| {
      parts := parts + [text[lastEnd..]];
    }
  }

  /** One turn of the first loop keeps the parts built so far a prefix of all the parts. */
  lemma CutStep(m: Matcher, s: string, parts: seq<string>, i: nat, ms: seq<nat>)
    requires i <= |s| && ms == FindAllFrom(m, s, i) && |ms| > 0
    requires parts + PartsFrom(m, s, i) == PartsFrom(m, s, 0)
    ensures i <= ms[0] < m(s, ms[0]).value.end <= |s|
    ensures ms[1..] == FindAllFrom(m, s, m(s, ms[0]).value.end)
    ensures (if i < ms[0] then parts + [s[i..ms[0]]] else parts) + [s[ms[0]..m(s, ms[0]).value.end]] + PartsFrom(m, s, m(s, ms[0]).value.end) == PartsFrom(m, s, 0)
  {
    PartsStep(m, s, i, ms);
  }

  /** After the last match, the rest of the text is the last part when it is not empty. */
  lemma CutLast(m: Matcher, s: string, parts: seq<string>, i: nat)
    requires i <= |s| && [] == FindAllFrom(m, s, i)
    requires parts + PartsFrom(m, s, i) == PartsFrom(m, s, 0)
    ensures (if i < |s| then parts + [s[i..]] else parts) == PartsFrom(m, s, 0)
  {
    FindAllFirst(m, s, i);
    if i == |s| {
      assert parts + [] == parts;
    }
  }

  /** The next match reported is the leftmost one from the current offset, and the list goes
      on with the matches after it. */
  lemma PartsStep(m: Matcher, s: string, i: nat, ms: seq<nat>)
    requires i <= |s| && ms == FindAllFrom(m, s, i) && |ms| > 0
    ensures FirstHit(m, s, i) == Some(ms[0])
    ensures i <= ms[0] < m(s, ms[0]).value.end <= |s|
    ensures ms[1..] == FindAllFrom(m, s, m(s, ms[0]).value.end)
    ensures PartsFrom(m, s, i) == (if i < ms[0] then [s[i..ms[0]]] else []) + [s[ms[0]..m(s, ms[0]).value.end]] + PartsFrom(m, s, m(s, ms[0]).value.end)
  {
    FindAllFirst(m, s, i);
    FindAllSkip(m, s, i, ms[0]);
  }

  /** FindAll from i skips the offsets before the first match. */
  lemma {:induction false} FindAllSkip(m: Matcher, s: string, i: nat, p: nat)
    requires i <= p < |s| && HitAt(m, s, p)
    requires forall j :: i <= j < p ==> !HitAt(m, s, j)
    ensures FindAllFrom(m, s, i) == [p] + FindAllFrom(m, s, m(s, p).value.end)
    decreases p - i
  {
    if i < p {
      FindAllSkip(m, s, i + 1, p);
    }
  }

  /** tokenizeText: the parts, then every part the pattern matches kept whole and every other
      part split into its whitespace-separated words. */
  method TokenizeText(m: Matcher, text: string) returns (tokens: seq<string>)
    ensures tokens == TokensOfParts(m, PartsFrom(m, text, 0))
    ensures Local(m) && Whole(m) ==> tokens == TokensFrom(m, text, 0)
  {
    var parts := CutParts(m, text);
    tokens := [];
    for idx := 0 to |parts|
      invariant tokens == TokensOfParts(m, parts[..idx])
    {
      var part := parts[idx];
      assert parts[..idx + 1][..idx] == parts[..idx];
      if MatchString(m, part) {
        tokens := tokens + [part];
      } else {
        tokens := tokens + Fields(part);
      }
    }
    assert parts[..|parts|] == parts;
    if Local(m) && Whole(m) {
      PartsTokens(m, text, 0);
    }
  }
}
