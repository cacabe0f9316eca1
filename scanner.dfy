/** The markers of processor/processor.go: the simple markers \(\s*(hex|bin|up|low|cap)\s*\)
    and the numbered ones \(\s*(up|low|cap)\s*,\s*(-?\d+)\s*\), recognised by hand at one
    offset (module Markers), collected left to right by findAllPatterns, and the leftmost
    of them. */
module Scanner {

  import opened Wrappers
  import opened Text
  import opened Rewrite
  import opened Markers

  lemma SimpleShape(s: string, i: nat)
    requires SimpleAt(s, i).Some?
    ensures Shaped(s, i, SimpleAt(s, i).value, false)
  {
    var b := Bounds(s, i, SimplePieces).value;
    PiecesMarkerShape(s, i, SimplePieces, 2, b, 5, None);
  }

  lemma NumberedShape(s: string, i: nat)
    requires NumberedAt(s, i).Some?
    ensures Shaped(s, i, NumberedAt(s, i).value, true)
  {
    var b := Bounds(s, i, NumberedPieces).value;
    NumberedAtIs(s, i);
    NumberedBoundsShape(s, i, b);
  }

  /** The numbered marker read off matching bounds b has the shape of a marker. */
  lemma NumberedBoundsShape(s: string, i: nat, b: seq<nat>)
    requires Bounds(s, i, NumberedPieces) == Some(b)
    ensures |b| == 10 && b[6] <= b[7] <= |s| && CommandAt(s, b[2]).Some?
    ensures Shaped(s, i, Marker(b[9], CommandAt(s, b[2]).value, b[2], Some(s[b[6]..b[7]])), true)
  {
    BoundsMonotone(s, i, NumberedPieces, 6, 7);
    BoundsOrdered(s, i, NumberedPieces, 7);
    assert NumberedPieces[2].numbered;
    PiecesMarkerShape(s, i, NumberedPieces, 2, b, 9, Some(s[b[6]..b[7]]));
  }

  /** A marker read off the bounds of pieces that open with '(' and close with ')' around a
      keyword has the shape of a marker. */
  lemma PiecesMarkerShape(s: string, i: nat, ps: seq<Piece>, kw: nat, b: seq<nat>, n: nat, count: Option<string>)
    requires Bounds(s, i, ps) == Some(b) && n == |ps| && 0 < kw < n - 1 && ps[kw].Key?
    requires ps[0] == Lit('(') && ps[n - 1] == Lit(')') && (ps[kw].numbered <==> count.Some?)
    ensures |b| == n + 1 && CommandAt(s, b[kw]).Some?
    ensures Shaped(s, i, Marker(b[n], CommandAt(s, b[kw]).value, b[kw], count), ps[kw].numbered)
  {
    PiecesShape(s, i, ps, kw, b, n);
  }

  /** What NumberedAt returns, read off the bounds of its pieces. */
  lemma NumberedAtIs(s: string, i: nat)
    requires NumberedAt(s, i).Some?
    ensures var b := Bounds(s, i, NumberedPieces).value;
            |b| == 10 && b[6] <= b[7] <= |s| && CommandAt(s, b[2]).Some?
            && NumberedAt(s, i).value == Marker(b[9], CommandAt(s, b[2]).value, b[2], Some(s[b[6]..b[7]]))
  {
    var b := Bounds(s, i, NumberedPieces);
    assert b.Some?;
    PiecesShape(s, i, NumberedPieces, 2, b.value, 9);
    BoundsMonotone(s, i, NumberedPieces, 6, 7);
    BoundsOrdered(s, i, NumberedPieces, 7);
  }

  lemma MarkerShape(s: string, i: nat, numbered: bool)
    requires MarkerAt(s, i, numbered).Some?
    ensures Shaped(s, i, MarkerAt(s, i, numbered).value, numbered)
  {
    if numbered {
      NumberedShape(s, i);
    } else {
      SimpleShape(s, i);
    }
  }


  function AsHit(m: Option<Marker>): Option<Hit>
  {
    if m.Some? then Some(Hit(m.value.end, "")) else None
  }

  /** The matcher FindAllStringIndex runs for one of the two marker expressions. */
  function Finder(numbered: bool): Matcher
  {
    (s: string, i: nat) => AsHit(MarkerAt(s, i, numbered))
  }

  /** A simple marker and a numbered marker never start at the same '(': after the
      keyword and its spaces, one needs ')' and the other ','. */
  lemma SimpleNumberedDisjoint(s: string, i: nat)
    ensures !(SimpleAt(s, i).Some? && NumberedAt(s, i).Some?)
  {
    var a := Bounds(s, i, SimplePieces);
    var b := Bounds(s, i, NumberedPieces);
    if a.Some? && b.Some? {
      var x, y := a.value, b.value;
      BoundsStep(s, i, SimplePieces, 0);
      BoundsStep(s, i, NumberedPieces, 0);
      assert x[1] == y[1];
      BoundsStep(s, i, SimplePieces, 1);
      BoundsStep(s, i, NumberedPieces, 1);
      assert x[2] == y[2];
      BoundsStep(s, i, SimplePieces, 2);
      BoundsStep(s, i, NumberedPieces, 2);
      assert x[3] == y[3];
      BoundsStep(s, i, SimplePieces, 3);
      BoundsStep(s, i, NumberedPieces, 3);
      assert x[4] == y[4];
      BoundsStep(s, i, SimplePieces, 4);
      BoundsStep(s, i, NumberedPieces, 4);
    }
  }

  /** A marker of either kind starts at offset i. */
  predicate AnyMarkerAt(s: string, i: nat)
  {
    SimpleAt(s, i).Some? || NumberedAt(s, i).Some?
  }

  lemma FinderHit(s: string, i: nat, numbered: bool)
    ensures HitAt(Finder(numbered), s, i) <==> MarkerAt(s, i, numbered).Some?
    ensures HitAt(Finder(numbered), s, i) ==> Finder(numbered)(s, i).value.end == MarkerAt(s, i, numbered).value.end
  {
    if MarkerAt(s, i, numbered).Some? {
      MarkerShape(s, i, numbered);
    }
  }

  /** What findAllPatterns stores for a marker: its text, offset, keyword and count text. */
  datatype PatternMatch = PatternMatch(text: string, position: nat, command: Command, count: string)

  function MatchAt(s: string, i: nat, numbered: bool): (p: PatternMatch)
    requires MarkerAt(s, i, numbered).Some?
  {
    var m := MarkerAt(s, i, numbered).value;
    MarkerShape(s, i, numbered);
    PatternMatch(s[i..m.end], i, m.command, if m.count.Some? then m.count.value else "")
  }

  /** The match record of the marker of one kind at an offset. */
  function MatchFn(s: string, numbered: bool): (f: nat --> PatternMatch)
    ensures forall i: nat :: MarkerAt(s, i, numbered).Some? ==> f.requires(i)
  {
    (i: nat) requires MarkerAt(s, i, numbered).Some? => MatchAt(s, i, numbered)
  }

  /** The matches at the offsets FindAllStringIndex reports for one expression. */
  function MatchesAt(s: string, ps: seq<nat>, numbered: bool): (r: seq<PatternMatch>)
    requires forall k :: 0 <= k < |ps| ==> MarkerAt(s, ps[k], numbered).Some?
    ensures |r| == |ps|
    ensures forall k :: 0 <= k < |ps| ==> r[k] == MatchAt(s, ps[k], numbered)
  {
    Images(MatchFn(s, numbered), ps)
  }

  /** The offsets of the markers of one kind, left to right and without overlap. */
  function Offsets(s: string, numbered: bool): (r: seq<nat>)
    ensures forall k :: 0 <= k < |r| ==> r[k] < |s| && MarkerAt(s, r[k], numbered).Some?
  {
    var r := FindAllFrom(Finder(numbered), s, 0);
    forall k | 0 <= k < |r| ensures r[k] < |s| && MarkerAt(s, r[k], numbered).Some? {
      FinderHit(s, r[k], numbered);
    }
    r
  }

  /** All simple markers, then all numbered ones. */
  function AllPatterns(s: string): seq<PatternMatch>
  {
    MatchesAt(s, Offsets(s, false), false) + MatchesAt(s, Offsets(s, true), true)
  }

  lemma MatchesAtSnoc(s: string, ps: seq<nat>, k: nat, numbered: bool)
    requires k < |ps|
    requires forall j :: 0 <= j < |ps| ==> MarkerAt(s, ps[j], numbered).Some?
    ensures MatchesAt(s, ps[..k + 1], numbered) == MatchesAt(s, ps[..k], numbered) + [MatchAt(s, ps[k], numbered)]
  {
    ImagesSnoc(MatchFn(s, numbered), ps, k);
  }

  /** findAllPatterns: two loops that append, first over the simple matches, then over the
      numbered ones. */
  method FindAllPatterns(text: string) returns (patterns: seq<PatternMatch>)
    ensures patterns == AllPatterns(text)
  {
    patterns := AppendMatches(text, Offsets(text, false), false, []);
    patterns := AppendMatches(text, Offsets(text, true), true, patterns);
    assert [] + MatchesAt(text, Offsets(text, false), false) == MatchesAt(text, Offsets(text, false), false);
  }

  /** One loop of findAllPatterns: a match record for each offset, appended in order. */
  method AppendMatches(text: string, offsets: seq<nat>, numbered: bool, init: seq<PatternMatch>)
    returns (patterns: seq<PatternMatch>)
    requires forall j :: 0 <= j < |offsets| ==> MarkerAt(text, offsets[j], numbered).Some?
    ensures patterns == init + MatchesAt(text, offsets, numbered)
  {
    patterns := init;
    assert offsets[..0] == [];
    for k := 0 to |offsets|
      invariant patterns == init + MatchesAt(text, offsets[..k], numbered)
    {
      MatchesAtSnoc(text, offsets, k, numbered);
      ConcatAssoc(init, MatchesAt(text, offsets[..k], numbered), [MatchAt(text, offsets[k], numbered)]);
      patterns := patterns + [MatchAt(text, offsets[k], numbered)];
    }
    assert offsets[..|offsets|] == offsets;
  }

  /** Where the marker that starts at offset i ends; at most one kind starts there. */
  function MarkerEnd(s: string, i: nat): (e: nat)
    requires AnyMarkerAt(s, i)
    ensures i < e <= |s|
  {
    if SimpleAt(s, i).Some? then
      SimpleShape(s, i);
      SimpleAt(s, i).value.end
    else
      NumberedShape(s, i);
      NumberedAt(s, i).value.end
  }

  /** t is the text of a marker of s that starts at offset i: the slice from i to the
      marker's end, enclosed in parentheses. */
  predicate MarkerText(s: string, i: nat, t: string)
  {
    i < |s| && AnyMarkerAt(s, i) && i + |t| <= |s| && t == s[i..i + |t|]
    && i + |t| == MarkerEnd(s, i)
    && |t| >= 2 && t[0] == '(' && t[|t| - 1] == ')'
  }

  /** p is a marker of s at p.position. */
  predicate Stored(s: string, p: PatternMatch)
  {
    MarkerText(s, p.position, p.text)
  }

  lemma MatchAtStored(s: string, i: nat, numbered: bool)
    requires MarkerAt(s, i, numbered).Some?
    ensures Stored(s, MatchAt(s, i, numbered))
  {
    var e := MarkerAt(s, i, numbered).value.end;
    MarkerEndIs(s, i, numbered);
    MatchAtFields(s, i, numbered);
    SliceMarkerText(s, i, e);
  }

  /** MarkerEnd agrees with the marker of the kind found at i, and that marker is enclosed
      in parentheses. */
  lemma MarkerEndIs(s: string, i: nat, numbered: bool)
    requires MarkerAt(s, i, numbered).Some?
    ensures var e := MarkerAt(s, i, numbered).value.end;
            i < |s| && AnyMarkerAt(s, i) && MarkerEnd(s, i) == e
            && i + 2 <= e <= |s| && s[i] == '(' && s[e - 1] == ')'
  {
    MarkerShape(s, i, numbered);
    SimpleNumberedDisjoint(s, i);
  }

  /** The record of a marker holds its offset and the slice up to its end. */
  lemma MatchAtFields(s: string, i: nat, numbered: bool)
    requires MarkerAt(s, i, numbered).Some?
    ensures i <= MarkerAt(s, i, numbered).value.end <= |s|
    ensures MatchAt(s, i, numbered).position == i
    ensures MatchAt(s, i, numbered).text == s[i..MarkerAt(s, i, numbered).value.end]
  {
    MarkerShape(s, i, numbered);
  }

  /** The slice from a marker's '(' to its end is its text. */
  lemma SliceMarkerText(s: string, i: nat, e: nat)
    requires i < |s| && AnyMarkerAt(s, i) && MarkerEnd(s, i) == e
    requires i + 2 <= e && s[i] == '(' && s[e - 1] == ')'
    ensures MarkerText(s, i, s[i..e])
  {
    SliceShape(s, i, e);
  }

  lemma SliceShape(s: string, i: nat, e: nat)
    requires i + 2 <= e <= |s|
    ensures var t := s[i..e];
            i + |t| <= |s| && t == s[i..i + |t|] && i + |t| == e && |t| >= 2 && t[0] == s[i] && t[|t| - 1] == s[e - 1]
  {
  }

  /** The k-th stored match is a marker of the text at its offset. */
  lemma StoredAt(s: string, k: nat)
    requires k < |AllPatterns(s)|
    ensures Stored(s, AllPatterns(s)[k])
  {
    var a := Offsets(s, false);
    var b := Offsets(s, true);
    var x := MatchesAt(s, a, false);
    var y := MatchesAt(s, b, true);
    assert AllPatterns(s) == x + y;
    if k < |a| {
      assert (x + y)[k] == x[k] == MatchAt(s, a[k], false);
      MatchAtStored(s, a[k], false);
    } else {
      assert (x + y)[k] == y[k - |a|] == MatchAt(s, b[k - |a|], true);
      MatchAtStored(s, b[k - |a|], true);
    }
  }

  /** Every stored match is a marker of the text at its offset. */
  lemma AllPatternsAreMarkers(s: string)
    ensures forall k :: 0 <= k < |AllPatterns(s)| ==> Stored(s, AllPatterns(s)[k])
  {
    forall k | 0 <= k < |AllPatterns(s)| ensures Stored(s, AllPatterns(s)[k]) {
      StoredAt(s, k);
    }
  }

  /** Where the leftmost marker of one kind starts, if there is one. */
  function FirstOf(s: string, numbered: bool): Option<nat>
  {
    FirstHit(Finder(numbered), s, 0)
  }

  lemma FirstOfLeast(s: string, numbered: bool)
    ensures FirstOf(s, numbered).None? <==> forall j :: 0 <= j < |s| ==> MarkerAt(s, j, numbered).None?
    ensures FirstOf(s, numbered).Some? ==> Offsets(s, numbered) != [] && Offsets(s, numbered)[0] == FirstOf(s, numbered).value
    ensures FirstOf(s, numbered).Some? ==> forall j :: 0 <= j < FirstOf(s, numbered).value ==> MarkerAt(s, j, numbered).None?
  {
    FindAllFirst(Finder(numbered), s, 0);
    forall j | 0 <= j < |s| ensures HitAt(Finder(numbered), s, j) <==> MarkerAt(s, j, numbered).Some? {
      FinderHit(s, j, numbered);
    }
  }

  /** With no stored match there is no marker anywhere. */
  lemma NoPatternsNoMarker(s: string)
    requires AllPatterns(s) == []
    ensures forall j :: 0 <= j < |s| ==> !AnyMarkerAt(s, j)
  {
    assert |MatchesAt(s, Offsets(s, false), false)| == |Offsets(s, false)| == 0;
    assert |MatchesAt(s, Offsets(s, true), true)| == |Offsets(s, true)| == 0;
    FirstOfLeast(s, false);
    FirstOfLeast(s, true);
    forall j | 0 <= j < |s| ensures !AnyMarkerAt(s, j) {
      assert MarkerAt(s, j, false).None? && MarkerAt(s, j, true).None?;
    }
  }

  /** When the first offset of one kind is at or after bound, no marker of that kind
      starts before bound. */
  lemma NoneBefore(s: string, numbered: bool, bound: nat)
    requires Offsets(s, numbered) != [] ==> bound <= Offsets(s, numbered)[0]
    ensures forall j :: 0 <= j < bound ==> MarkerAt(s, j, numbered).None?
  {
    FirstOfLeast(s, numbered);
    forall j | 0 <= j < bound ensures MarkerAt(s, j, numbered).None? {
      if MarkerAt(s, j, numbered).Some? {
        assert false;
      }
    }
  }

  /** The first match of each kind heads its part of the stored list. */
  lemma HeadsStored(s: string)
    ensures Offsets(s, false) != [] ==> AllPatterns(s)[0].position == Offsets(s, false)[0]
    ensures Offsets(s, true) != [] ==> AllPatterns(s)[|Offsets(s, false)|].position == Offsets(s, true)[0]
  {
    var a := Offsets(s, false);
    var b := Offsets(s, true);
    var x := MatchesAt(s, a, false);
    var y := MatchesAt(s, b, true);
    assert AllPatterns(s) == x + y;
    if a != [] {
      assert (x + y)[0] == x[0] == MatchAt(s, a[0], false);
    }
    if b != [] {
      assert (x + y)[|a|] == y[0] == MatchAt(s, b[0], true);
    }
  }

  /** A stored match whose offset is least among the stored ones is a marker, and no
      marker of either kind starts further left. */
  lemma LeastIsLeftmost(s: string, p: PatternMatch)
    requires p in AllPatterns(s)
    requires forall k :: 0 <= k < |AllPatterns(s)| ==> p.position <= AllPatterns(s)[k].position
    ensures Stored(s, p)
    ensures forall j :: 0 <= j < p.position ==> !AnyMarkerAt(s, j)
  {
    var all := AllPatterns(s);
    var k :| 0 <= k < |all| && all[k] == p;
    StoredAt(s, k);
    HeadsStored(s);
    var a := Offsets(s, false);
    if a != [] {
      assert p.position <= all[0].position;
    }
    if Offsets(s, true) != [] {
      assert |all| == |a| + |Offsets(s, true)|;
      assert p.position <= all[|a|].position;
    }
    NoneOfEither(s, p.position);
  }

  /** Before a bound at or left of the first offset of each kind, no marker starts. */
  lemma NoneOfEither(s: string, bound: nat)
    requires Offsets(s, false) != [] ==> bound <= Offsets(s, false)[0]
    requires Offsets(s, true) != [] ==> bound <= Offsets(s, true)[0]
    ensures forall j :: 0 <= j < bound ==> !AnyMarkerAt(s, j)
  {
    NoneBefore(s, false, bound);
    NoneBefore(s, true, bound);
    forall j | 0 <= j < bound ensures !AnyMarkerAt(s, j) {
      assert MarkerAt(s, j, false).None? && MarkerAt(s, j, true).None?;
    }
  }

  /** The loop of findLeftmostPattern: the first match, replaced by any later one that
      starts further left. */
  method LeastByPosition(patterns: seq<PatternMatch>) returns (leftmost: PatternMatch)
    requires |patterns| > 0
    ensures leftmost in patterns
    ensures forall k :: 0 <= k < |patterns| ==> leftmost.position <= patterns[k].position
  {
    leftmost := patterns[0];
    for i := 0 to |patterns|
      invariant leftmost in patterns
      invariant forall k :: 0 <= k < i ==> leftmost.position <= patterns[k].position
    {
      if patterns[i].position < leftmost.position {
        leftmost := patterns[i];
      }
    }
  }

  /** findLeftmostPattern: the leftmost stored match; ("", -1) when there is none. */
  method FindLeftmostPattern(text: string) returns (pattern: string, position: int)
    ensures position == -1 <==> forall j :: 0 <= j < |text| ==> !AnyMarkerAt(text, j)
    ensures position == -1 ==> pattern == ""
    ensures position != -1 ==> 0 <= position && MarkerText(text, position, pattern)
    ensures position != -1 ==> forall j :: 0 <= j < position ==> !AnyMarkerAt(text, j)
  {
    var patterns := FindAllPatterns(text);
    if |patterns| == 0 {
      NoPatternsNoMarker(text);
      return "", -1;
    }
    var leftmost := LeastByPosition(patterns);
    LeastIsLeftmost(text, leftmost);
    pattern, position := leftmost.text, leftmost.position;
  }
}
