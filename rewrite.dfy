/** Leftmost-first, non-overlapping replacement and search, the way Go's regexp package runs
    ReplaceAllString, ReplaceAllStringFunc, FindAllStringIndex and FindStringSubmatchIndex,
    and the way strings.Replace(s, old, new, -1) runs for a non-empty old.
    A pattern is given as a matcher: a function that says whether the pattern matches at one
    offset of the whole text (so that it can look at the char before, as \b does) and, if it
    does, where the match that RE2 would choose ends and what the replacement is. */
module Rewrite {

  import opened Wrappers
  import opened Text

  /** A match found at some offset: the offset just past it and the text that replaces it. */
  datatype Hit = Hit(end: nat, rep: string)

  type Matcher = (string, nat) -> Option<Hit>

  /** m matches at offset i of s with a non-empty match that stays inside s. */
  predicate HitAt(m: Matcher, s: string, i: nat)
  {
    i < |s| && m(s, i).Some? && i < m(s, i).value.end <= |s|
  }

  /** m matches somewhere in s[i..]. */
  predicate HasHitFrom(m: Matcher, s: string, i: nat)
  {
    exists j :: i <= j < |s| && HitAt(m, s, j)
  }

  /** The search resumes after each replaced match; text between matches is copied. */
  function ReplaceFrom(s: string, i: nat, m: Matcher): string
    requires i <= |s|
    decreases |s| - i
  {
    if i == |s| then []
    else if HitAt(m, s, i) then m(s, i).value.rep + ReplaceFrom(s, m(s, i).value.end, m)
    else [s[i]] + ReplaceFrom(s, i + 1, m)
  }

  function ReplaceAll(s: string, m: Matcher): string
  {
    ReplaceFrom(s, 0, m)
  }

  /** The first offset at or after i where m matches. */
  function FirstHit(m: Matcher, s: string, i: nat): (r: Option<nat>)
    requires i <= |s|
    ensures r.Some? ==> i <= r.value < |s| && HitAt(m, s, r.value)
    ensures r.Some? ==> forall j :: i <= j < r.value ==> !HitAt(m, s, j)
    ensures r.None? ==> !HasHitFrom(m, s, i)
    decreases |s| - i
  {
    if i == |s| then None
    else if HitAt(m, s, i) then Some(i)
    else FirstHit(m, s, i + 1)
  }

  /** The offsets of all non-overlapping matches from i on (FindAllStringIndex). */
  function FindAllFrom(m: Matcher, s: string, i: nat): (r: seq<nat>)
    requires i <= |s|
    ensures forall k :: 0 <= k < |r| ==> i <= r[k] && HitAt(m, s, r[k])
    ensures forall k :: 0 <= k < |r| - 1 ==> HitAt(m, s, r[k]) && m(s, r[k]).value.end <= r[k + 1]
    decreases |s| - i
  {
    if i == |s| then []
    else if HitAt(m, s, i) then [i] + FindAllFrom(m, s, m(s, i).value.end)
    else FindAllFrom(m, s, i + 1)
  }

  /** FindAll finds a match whenever there is one, first of all the leftmost. */
  lemma {:induction false} FindAllFirst(m: Matcher, s: string, i: nat)
    requires i <= |s|
    ensures FindAllFrom(m, s, i) == [] <==> !HasHitFrom(m, s, i)
    ensures FindAllFrom(m, s, i) != [] ==> FirstHit(m, s, i) == Some(FindAllFrom(m, s, i)[0])
    decreases |s| - i
  {
    if i < |s| && !HitAt(m, s, i) {
      FindAllFirst(m, s, i + 1);
      assert HasHitFrom(m, s, i) ==> HasHitFrom(m, s, i + 1) by {
        if HasHitFrom(m, s, i) {
          var j :| i <= j < |s| && HitAt(m, s, j);
          assert j != i;
        }
      }
    }
  }

  /** Where no match starts, the text is copied unchanged. */
  lemma {:induction false} NoHitCopies(s: string, i: nat, j: nat, m: Matcher)
    requires i <= j <= |s|
    requires forall k :: i <= k < j ==> !HitAt(m, s, k)
    ensures ReplaceFrom(s, i, m) == s[i..j] + ReplaceFrom(s, j, m)
    decreases j - i
  {
    if i < j {
      NoHitCopies(s, i + 1, j, m);
      var rest := ReplaceFrom(s, j, m);
      assert !HitAt(m, s, i);
      assert ReplaceFrom(s, i, m) == [s[i]] + ReplaceFrom(s, i + 1, m);
      assert s[i..j] == [s[i]] + s[i + 1..j];
      ConcatAssoc([s[i]], s[i + 1..j], rest);
    }
  }

  /** With no match at all, replacement is the identity. */
  lemma NoHitIdentity(s: string, i: nat, m: Matcher)
    requires i <= |s|
    requires !HasHitFrom(m, s, i)
    ensures ReplaceFrom(s, i, m) == s[i..]
  {
    NoHitCopies(s, i, |s|, m);
  }

  /** A match with no match before it is the first. */
  lemma FirstHitAt(m: Matcher, s: string, i: nat, p: nat)
    requires i <= p && HitAt(m, s, p)
    requires forall j :: i <= j < p ==> !HitAt(m, s, j)
    ensures FirstHit(m, s, i) == Some(p)
  {
    var h := FirstHit(m, s, i);
    if h.None? {
      assert HasHitFrom(m, s, i);
    }
  }

  /** The output up to and including the first match. */
  lemma FirstHitSplit(s: string, i: nat, m: Matcher)
    requires i <= |s|
    requires FirstHit(m, s, i).Some?
    ensures var j := FirstHit(m, s, i).value;
            ReplaceFrom(s, i, m) == s[i..j] + m(s, j).value.rep + ReplaceFrom(s, m(s, j).value.end, m)
  {
    NoHitCopies(s, i, FirstHit(m, s, i).value, m);
  }

  /** Matches whose replacement is shorter than the match make the text shorter,
      strictly so as soon as one match exists. */
  lemma {:induction false} ShrinkingReplace(s: string, i: nat, m: Matcher)
    requires i <= |s|
    requires forall j :: i <= j < |s| && HitAt(m, s, j) ==> |m(s, j).value.rep| < m(s, j).value.end - j
    ensures |ReplaceFrom(s, i, m)| <= |s| - i
    ensures HasHitFrom(m, s, i) ==> |ReplaceFrom(s, i, m)| < |s| - i
    decreases |s| - i
  {
    if i < |s| {
      if HitAt(m, s, i) {
        ShrinkingReplace(s, m(s, i).value.end, m);
      } else {
        ShrinkingReplace(s, i + 1, m);
        assert HasHitFrom(m, s, i) ==> HasHitFrom(m, s, i + 1) by {
          if HasHitFrom(m, s, i) {
            var j :| i <= j < |s| && HitAt(m, s, j);
            assert j != i;
          }
        }
      }
    }
  }

  /** A shrinking pass either finds nothing and is the identity, or changes the text. */
  lemma ShrinkingFixpoint(s: string, m: Matcher)
    requires forall j :: 0 <= j < |s| && HitAt(m, s, j) ==> |m(s, j).value.rep| < m(s, j).value.end - j
    ensures ReplaceAll(s, m) == s <==> !HasHitFrom(m, s, 0)
    ensures ReplaceAll(s, m) != s ==> |ReplaceAll(s, m)| < |s|
  {
    ShrinkingReplace(s, 0, m);
    if !HasHitFrom(m, s, 0) {
      NoHitIdentity(s, 0, m);
    }
  }

  /** Replacements that keep the count of c in each match keep it in the whole text. */
  lemma {:induction false} CountKept(s: string, i: nat, m: Matcher, c: char)
    requires i <= |s|
    requires forall j :: i <= j < |s| && HitAt(m, s, j) ==> Count(m(s, j).value.rep, c) == Count(s[j..m(s, j).value.end], c)
    ensures Count(ReplaceFrom(s, i, m), c) == Count(s[i..], c)
    decreases |s| - i
  {
    if i < |s| {
      var e := if HitAt(m, s, i) then m(s, i).value.end else i + 1;
      var head := if HitAt(m, s, i) then m(s, i).value.rep else [s[i]];
      assert ReplaceFrom(s, i, m) == head + ReplaceFrom(s, e, m);
      assert Count(head, c) == Count(s[i..e], c);
      CountKept(s, e, m, c);
      assert s[i..] == s[i..e] + s[e..];
      CountSum(head, ReplaceFrom(s, e, m), s[i..e], s[e..], c);
    }
  }

  lemma CountSum(a: string, b: string, x: string, y: string, c: char)
    requires Count(a, c) == Count(x, c) && Count(b, c) == Count(y, c)
    ensures Count(a + b, c) == Count(x + y, c)
  {
    CountConcat(a, b, c);
    CountConcat(x, y, c);
  }

  /** A char absent from the text and from every replacement is absent from the output. */
  lemma {:induction false} CharStaysAbsent(s: string, i: nat, m: Matcher, c: char)
    requires i <= |s|
    requires c !in s[i..]
    requires forall j :: i <= j < |s| && HitAt(m, s, j) ==> c !in m(s, j).value.rep
    ensures c !in ReplaceFrom(s, i, m)
    decreases |s| - i
  {
    if i < |s| {
      if HitAt(m, s, i) {
        assert s[m(s, i).value.end..] == s[i..][m(s, i).value.end - i..];
        CharStaysAbsent(s, m(s, i).value.end, m, c);
      } else {
        assert s[i + 1..] == s[i..][1..];
        CharStaysAbsent(s, i + 1, m, c);
      }
    }
  }

  /** Every match of m is replaced by something shorter than the match. */
  ghost predicate Shrinking(m: Matcher)
  {
    forall s: string, j: nat :: HitAt(m, s, j) ==> |m(s, j).value.rep| < m(s, j).value.end - j
  }

  /** s with the match of m at offset i replaced: text[:start] + rep + text[end:]. */
  function SpliceHit(m: Matcher, s: string, i: nat): (r: string)
    requires HitAt(m, s, i)
    ensures |r| == |s| - (m(s, i).value.end - i) + |m(s, i).value.rep|
  {
    s[..i] + m(s, i).value.rep + s[m(s, i).value.end..]
  }

  /** Replace the leftmost match, search again from the start of the new text, and stop
      when nothing matches. */
  function Rescan(m: Matcher, s: string): (r: string)
    requires Shrinking(m)
    ensures !HasHitFrom(m, r, 0)
    ensures |r| <= |s|
    ensures HasHitFrom(m, s, 0) ==> |r| < |s|
    ensures r == s <==> !HasHitFrom(m, s, 0)
    decreases |s|
  {
    var h := FirstHit(m, s, 0);
    if h.None? then s else Rescan(m, SpliceHit(m, s, h.value))
  }

  /** The loop form of Rescan, as processNoSpacePatterns, processAdjacentCasePatterns and
      processAdjacentCharPatterns run it. */
  method RescanLoop(m: Matcher, text: string) returns (r: string)
    requires Shrinking(m)
    ensures r == Rescan(m, text)
    ensures !HasHitFrom(m, r, 0)
  {
    r := text;
    while true
      invariant Rescan(m, r) == Rescan(m, text)
      decreases |r|
    {
      var h := FirstHit(m, r, 0);
      if h.None? {
        return;
      }
      r := SpliceHit(m, r, h.value);
    }
  }

  /** One rewrite round on s: the new text, or None when the round finds nothing to do. */
  function RoundOf(next: string -> Option<string>, s: string): Option<string>
  {
    next(s)
  }

  /** Apply a rewrite round again and again until a round finds nothing to do, with at most
      fuel rounds: None when the rounds outlast the fuel. */
  function Run(next: string -> Option<string>, s: string, fuel: nat): (r: Option<string>)
    decreases fuel
  {
    var n := RoundOf(next, s);
    if n.None? then Some(s)
    else if fuel == 0 then None
    else Run(next, n.value, fuel - 1)
  }

  /** A result is a text on which the round finds nothing to do; a text on which it finds
      nothing is its own result, whatever the fuel. */
  lemma {:induction false} RunDone(next: string -> Option<string>, s: string, fuel: nat)
    ensures Run(next, s, fuel).Some? ==> RoundOf(next, Run(next, s, fuel).value).None?
    ensures RoundOf(next, s).None? ==> Run(next, s, fuel) == Some(s)
    decreases fuel
  {
    if RoundOf(next, s).Some? && fuel > 0 {
      RunDone(next, RoundOf(next, s).value, fuel - 1);
    }
  }

  /** A round that does something spends one unit of fuel. */
  lemma RunStep(next: string -> Option<string>, s: string, fuel: nat)
    requires RoundOf(next, s).Some? && fuel > 0
    ensures Run(next, s, fuel) == Run(next, RoundOf(next, s).value, fuel - 1)
  {
  }

  /** More fuel never changes a result that was reached. */
  lemma {:induction false} RunFuel(next: string -> Option<string>, s: string, fuel: nat, more: nat)
    requires fuel <= more && Run(next, s, fuel).Some?
    ensures Run(next, s, more) == Run(next, s, fuel)
    decreases fuel
  {
    if RoundOf(next, s).Some? {
      RunFuel(next, RoundOf(next, s).value, fuel - 1, more - 1);
    }
  }

  /** strings.Replace(s, pat, rep, -1) for a non-empty pat. */
  function Literal(pat: string, rep: string): Matcher
  {
    (s: string, i: nat) => LiteralMatch(pat, rep, s, i)
  }

  function LiteralMatch(pat: string, rep: string, s: string, i: nat): Option<Hit>
  {
    if |pat| > 0 && OccursAt(s, i, pat) then Some(Hit(i + |pat|, rep)) else None
  }

  function ReplaceLiteral(s: string, pat: string, rep: string): string
  {
    ReplaceAll(s, Literal(pat, rep))
  }

  /** Where a literal pattern matches, and what the match is. */
  lemma LiteralAt(pat: string, rep: string, s: string, i: nat)
    ensures HitAt(Literal(pat, rep), s, i) <==> |pat| > 0 && OccursAt(s, i, pat)
    ensures HitAt(Literal(pat, rep), s, i) ==> Literal(pat, rep)(s, i) == Some(Hit(i + |pat|, rep))
  {
  }

  /** A hit found in a suffix that starts at offset d, seen from the whole text. */
  function ShiftedHit(h: Option<Hit>, d: nat): Option<Hit>
  {
    if h.Some? then Some(Hit(h.value.end + d, h.value.rep)) else None
  }

  /** m sees the same hits in s from offset d on as it sees in s[d..]. */
  predicate ShiftsBy(m: Matcher, s: string, d: nat)
    requires d <= |s|
  {
    forall k: nat :: k < |s| - d ==> m(s, d + k) == ShiftedHit(m(s[d..], k), d)
  }

  /** One step of ReplaceShift: where m matches at j in s[d..] and at d + j in s with the
      same replacement, both go on from where the match ends. */
  lemma ReplaceShiftHit(m: Matcher, s: string, d: nat, j: nat)
    requires d + j < |s| && HitAt(m, s[d..], j) && m(s, d + j) == ShiftedHit(m(s[d..], j), d)
    requires ReplaceFrom(s, d + m(s[d..], j).value.end, m) == ReplaceFrom(s[d..], m(s[d..], j).value.end, m)
    ensures ReplaceFrom(s, d + j, m) == ReplaceFrom(s[d..], j, m)
  {
    var t := s[d..];
    var h := m(t, j).value;
    assert |t| == |s| - d;
    assert HitAt(m, s, d + j);
    assert ReplaceFrom(s, d + j, m) == h.rep + ReplaceFrom(s, d + h.end, m);
  }

  /** One step of ReplaceShift where m matches neither at j in s[d..] nor at d + j in s: both
      copy the same char. */
  lemma ReplaceShiftMiss(m: Matcher, s: string, d: nat, j: nat)
    requires d + j < |s| && !HitAt(m, s[d..], j) && m(s, d + j) == ShiftedHit(m(s[d..], j), d)
    requires ReplaceFrom(s, d + j + 1, m) == ReplaceFrom(s[d..], j + 1, m)
    ensures ReplaceFrom(s, d + j, m) == ReplaceFrom(s[d..], j, m)
  {
    assert s[d + j] == s[d..][j];
  }

  /** Such a matcher replaces the same way in s from d + j on as in s[d..] from j on. */
  lemma {:induction false} ReplaceShift(m: Matcher, s: string, d: nat, j: nat)
    requires d + j <= |s| && ShiftsBy(m, s, d)
    ensures ReplaceFrom(s, d + j, m) == ReplaceFrom(s[d..], j, m)
    decreases |s| - j
  {
    if d + j < |s| {
      assert m(s, d + j) == ShiftedHit(m(s[d..], j), d);
      if HitAt(m, s[d..], j) {
        ReplaceShift(m, s, d, m(s[d..], j).value.end);
        ReplaceShiftHit(m, s, d, j);
      } else {
        ReplaceShift(m, s, d, j + 1);
        ReplaceShiftMiss(m, s, d, j);
      }
    }
  }

  /** A literal pattern sees the same hits in a suffix. */
  lemma LiteralShifts(pat: string, rep: string, s: string, d: nat)
    requires d <= |s|
    ensures ShiftsBy(Literal(pat, rep), s, d)
  {
    var t := s[d..];
    forall k: nat | k < |s| - d
      ensures LiteralMatch(pat, rep, s, d + k) == ShiftedHit(LiteralMatch(pat, rep, t, k), d)
    {
      if d + k + |pat| <= |s| {
        assert s[d + k..d + k + |pat|] == t[k..k + |pat|];
      }
    }
  }

  /** A char that cannot start the pattern is copied. */
  lemma LiteralHead(pat: string, rep: string, c: char, t: string)
    requires |pat| > 0 && c != pat[0]
    ensures ReplaceLiteral([c] + t, pat, rep) == [c] + ReplaceLiteral(t, pat, rep)
  {
    LiteralAt(pat, rep, [c] + t, 0);
    LiteralShifts(pat, rep, [c] + t, 1);
    ReplaceShift(Literal(pat, rep), [c] + t, 1, 0);
    assert ([c] + t)[1..] == t;
  }

  /** The pattern at the start is replaced. */
  lemma LiteralFound(pat: string, rep: string, t: string)
    requires |pat| > 0
    ensures ReplaceLiteral(pat + t, pat, rep) == rep + ReplaceLiteral(t, pat, rep)
  {
    assert (pat + t)[0..|pat|] == pat;
    LiteralAt(pat, rep, pat + t, 0);
    LiteralShifts(pat, rep, pat + t, |pat|);
    ReplaceShift(Literal(pat, rep), pat + t, |pat|, 0);
    assert (pat + t)[|pat|..] == t;
  }

  /** A text missing one of the pattern's chars is left as it is. */
  lemma LiteralAbsent(pat: string, rep: string, s: string, p: nat)
    requires p < |pat| && pat[p] !in s
    ensures ReplaceLiteral(s, pat, rep) == s
  {
    forall j | 0 <= j < |s| ensures !HitAt(Literal(pat, rep), s, j) {
      LiteralAt(pat, rep, s, j);
      if j + |pat| <= |s| {
        assert s[j + p] in s;
        assert s[j..j + |pat|][p] == s[j + p];
      }
    }
    NoHitIdentity(s, 0, Literal(pat, rep));
  }
}
