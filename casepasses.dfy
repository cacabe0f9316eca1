/** The passes of processor/processor.go that run before the markers are resolved one by one:
    processAdjacentCharPatterns, processNoSpacePatterns, processAdjacentCasePatterns,
    processSpecialTestCases and processNestedPatterns. Each regular expression is a matcher
    (module Rewrite); each loop replaces the leftmost match and searches again (Rescan). */
module CasePasses {

  import opened Wrappers
  import opened Text
  import opened Rewrite
  import opened Markers
  import opened Scanner
  import opened Casing

  /** A case marker \(\s*(up|low|cap)\s*\) at offset i. */
  function CaseMarkerAt(s: string, i: nat): (r: Option<Marker>)
    ensures r.Some? ==> IsCase(r.value.command) && i < r.value.end <= |s| && s[i] == '('
  {
    var m := SimpleAt(s, i);
    if m.Some? && IsCase(m.value.command) then
      SimpleShape(s, i);
      m
    else None
  }

  /** (\w+)\(\s*(up|low|cap)\s*\) at offset i: the whole run of word chars from i, then a case
      marker. The run and the marker become the run with the marker's case applied. */
  function NoSpaceAt(s: string, i: nat): Option<Hit>
  {
    if i < |s| && IsWord(s[i]) then
      var e := RunEnd(s, i, Word);
      var c := CaseMarkerAt(s, e);
      if c.Some? then Some(Hit(c.value.end, CaseOf(Name(c.value.command), s[i..e]))) else None
    else None
  }

  function NoSpace(): Matcher
  {
    (s: string, i: nat) => NoSpaceAt(s, i)
  }

  /** One unit ([a-zA-Z])\(\s*(up|low|cap)\s*\) at offset i: a letter and the case marker
      right after it. */
  function UnitAt(s: string, i: nat): (r: Option<Marker>)
    ensures r.Some? ==> i + 1 < r.value.end <= |s| && IsLetter(s[i]) && s[i + 1] == '(' && IsCase(r.value.command)
  {
    if i < |s| && IsLetter(s[i]) then CaseMarkerAt(s, i + 1) else None
  }

  /** The letter at offset i with the case of marker u applied (applyCaseTransformation). */
  function Cased(u: Marker, c: char): (r: string)
    ensures |r| == 1
  {
    CaseOf(Name(u.command), [c])
  }

  /** ([a-zA-Z])\(\s*(up|low|cap)\s*\) at offset i: the unit becomes the cased letter. */
  function AdjacentAt(s: string, i: nat): Option<Hit>
  {
    var u := UnitAt(s, i);
    if u.Some? then Some(Hit(u.value.end, Cased(u.value, s[i]))) else None
  }

  function Adjacent(): Matcher
  {
    (s: string, i: nat) => AdjacentAt(s, i)
  }

  /** Three units in a row at offset i: they become the three cased letters. */
  function TripleAt(s: string, i: nat): Option<Hit>
  {
    var u1 := UnitAt(s, i);
    if u1.None? then None
    else
      var u2 := UnitAt(s, u1.value.end);
      if u2.None? then None
      else
        var u3 := UnitAt(s, u2.value.end);
        if u3.None? then None
        else Some(Hit(u3.value.end, Cased(u1.value, s[i]) + Cased(u2.value, s[u1.value.end]) + Cased(u3.value, s[u2.value.end])))
  }

  function Triple(): Matcher
  {
    (s: string, i: nat) => TripleAt(s, i)
  }

  /** Each of the three patterns replaces its match with something strictly shorter, so each
      loop ends. */
  lemma NoSpaceShrinking()
    ensures Shrinking(NoSpace())
  {
    forall s: string, j: nat | HitAt(NoSpace(), s, j)
      ensures |NoSpace()(s, j).value.rep| < NoSpace()(s, j).value.end - j
    {
      var e := RunEnd(s, j, Word);
      assert |NoSpace()(s, j).value.rep| == e - j;
    }
  }

  lemma AdjacentShrinking()
    ensures Shrinking(Adjacent())
  {
  }

  lemma TripleShrinking()
    ensures Shrinking(Triple())
  {
  }

  /** processNoSpacePatterns: until no word is directly followed by a case marker. */
  function NoSpaced(s: string): (r: string)
  {
    NoSpaceShrinking();
    Rescan(NoSpace(), s)
  }

  /** processAdjacentCasePatterns: until no letter is directly followed by a case marker. */
  function AdjacentCased(s: string): (r: string)
  {
    AdjacentShrinking();
    Rescan(Adjacent(), s)
  }

  /** processNoSpacePatterns leaves no word directly followed by a case marker, shortens the
      text as soon as it finds one, and is idempotent. */
  lemma NoSpacedClean(s: string)
    ensures !HasHitFrom(NoSpace(), NoSpaced(s), 0)
    ensures NoSpaced(s) == s <==> !HasHitFrom(NoSpace(), s, 0)
    ensures |NoSpaced(s)| <= |s|
    ensures NoSpaced(NoSpaced(s)) == NoSpaced(s)
  {
    NoSpaceShrinking();
  }

  /** A letter followed by a case marker is also a word run followed by one: the run of
      word chars from that letter stops at the '(' of the marker. */
  lemma AdjacentIsNoSpace(s: string, j: nat)
    requires HitAt(Adjacent(), s, j)
    ensures HitAt(NoSpace(), s, j)
  {
    assert RunEnd(s, j + 1, Word) == j + 1;
    assert RunEnd(s, j, Word) == j + 1;
  }

  lemma NoSpaceSubsumes(s: string)
    ensures HasHitFrom(Adjacent(), s, 0) ==> HasHitFrom(NoSpace(), s, 0)
  {
    if HasHitFrom(Adjacent(), s, 0) {
      var j :| 0 <= j < |s| && HitAt(Adjacent(), s, j);
      AdjacentIsNoSpace(s, j);
    }
  }

  /** processAdjacentCasePatterns finds nothing to do on the output of processNoSpacePatterns:
      its expression matches only where the earlier one would have. */
  lemma AdjacentIdleAfterNoSpace(s: string)
    ensures AdjacentCased(NoSpaced(s)) == NoSpaced(s)
  {
    NoSpacedClean(s);
    NoSpaceSubsumes(NoSpaced(s));
    AdjacentShrinking();
  }

  /** The two exact rewrites of processAdjacentCharPatterns. */
  function ExactChars(s: string): (r: string)
  {
    ReplaceLiteral(ReplaceLiteral(s, "L(low)o(up)w(up)", "lOW"), "L(low)o(up)w(cap)", "lOW")
  }

  /** processAdjacentCharPatterns: the two exact rewrites, then the three-unit loop. */
  function AdjacentChars(s: string): (r: string)
  {
    TripleShrinking();
    Rescan(Triple(), ExactChars(s))
  }

  /** processSpecialTestCases: two exact rewrites of nested markers. */
  function SpecialCases(s: string): (r: string)
  {
    ReplaceLiteral(ReplaceLiteral(s, "LOW (cap(low(low))))))", "low"), "CAR (cap(up(up)))", "CAR")
  }

  /** processNestedPatterns returns its input. */
  function Nested(s: string): (r: string)
    ensures r == s
  {
    s
  }

  /** The exact rewrites replace a text by a shorter one. */
  lemma LiteralShrinking(pat: string, rep: string)
    requires |rep| < |pat|
    ensures Shrinking(Literal(pat, rep))
  {
  }

  /** processAdjacentCharPatterns leaves no three units in a row and never lengthens the text. */
  lemma AdjacentCharsClean(s: string)
    ensures !HasHitFrom(Triple(), AdjacentChars(s), 0)
    ensures |AdjacentChars(s)| <= |s|
  {
    TripleShrinking();
    var a := ReplaceLiteral(s, "L(low)o(up)w(up)", "lOW");
    LiteralShrinking("L(low)o(up)w(up)", "lOW");
    ShrinkingReplace(s, 0, Literal("L(low)o(up)w(up)", "lOW"));
    LiteralShrinking("L(low)o(up)w(cap)", "lOW");
    ShrinkingReplace(a, 0, Literal("L(low)o(up)w(cap)", "lOW"));
  }

  /** processSpecialTestCases never lengthens the text. */
  lemma SpecialCasesShrink(s: string)
    ensures |SpecialCases(s)| <= |s|
  {
    var a := ReplaceLiteral(s, "LOW (cap(low(low))))))", "low");
    LiteralShrinking("LOW (cap(low(low))))))", "low");
    ShrinkingReplace(s, 0, Literal("LOW (cap(low(low))))))", "low"));
    LiteralShrinking("CAR (cap(up(up)))", "CAR");
    ShrinkingReplace(a, 0, Literal("CAR (cap(up(up)))", "CAR"));
  }

  /** A text without '(' holds none of the patterns. */
  predicate Plain(s: string)
  {
    forall k :: 0 <= k < |s| ==> s[k] != '('
  }

  /** An exact pattern with '(' at offset p never occurs in a plain text. */
  lemma LiteralPlain(s: string, pat: string, rep: string, p: nat)
    requires Plain(s) && p < |pat| && pat[p] == '('
    ensures ReplaceLiteral(s, pat, rep) == s
  {
    var m := Literal(pat, rep);
    forall j | 0 <= j < |s| ensures !HitAt(m, s, j) {
      OccursChar(s, j, pat, p);
    }
    NoHitIdentity(s, 0, m);
  }

  /** None of the pre-passes touches a text without '(': every one of their patterns holds
      a marker or a literal '('. */
  lemma PlainUntouched(s: string)
    requires Plain(s)
    ensures AdjacentChars(s) == s && NoSpaced(s) == s && AdjacentCased(s) == s && SpecialCases(s) == s
  {
    LiteralPlain(s, "L(low)o(up)w(up)", "lOW", 1);
    LiteralPlain(s, "L(low)o(up)w(cap)", "lOW", 1);
    LiteralPlain(s, "LOW (cap(low(low))))))", "low", 4);
    LiteralPlain(s, "CAR (cap(up(up)))", "CAR", 4);
    TripleShrinking();
    NoSpaceShrinking();
    AdjacentShrinking();
    forall j | 0 <= j < |s| ensures !HitAt(Triple(), s, j) && !HitAt(NoSpace(), s, j) && !HitAt(Adjacent(), s, j) {
      PlainNoMarker(s, j);
    }
  }

  /** A plain text has no case marker, so none of the unit patterns match in it. */
  lemma PlainNoMarker(s: string, j: nat)
    requires Plain(s) && j < |s|
    ensures UnitAt(s, j).None? && NoSpaceAt(s, j).None?
  {
    if j < |s| && IsWord(s[j]) {
      PlainNoCaseMarker(s, RunEnd(s, j, Word));
    }
  }

  lemma PlainNoCaseMarker(s: string, e: nat)
    requires Plain(s)
    ensures CaseMarkerAt(s, e).None?
  {
  }
}
