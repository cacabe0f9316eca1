/** The case marker \((cap|up|low)(?:,\s*(\d+))?\) of transformations/case.go, as a matcher
    for the tokenizer, with the keyword and the count it carries. */
module CasePattern {

  import opened Wrappers
  import opened Text
  import opened Rewrite
  import opened TokenText

  datatype CaseKind = Cap | Up | Low

  /** A match of \((cap|up|low)(?:,\s*(\d+))?\): its keyword, its digits ("" when there is no
      count) and the offset just past its closing parenthesis. */
  datatype CaseMark = CaseMark(kind: CaseKind, digits: string, end: nat)

  /** The keyword at offset j and the offset just past it. */
  function KeywordAt(s: string, j: nat): (r: Option<(CaseKind, nat)>)
    ensures r.Some? ==> j < r.value.1 <= |s|
  {
    if j + 3 <= |s| && s[j] == 'c' && s[j + 1] == 'a' && s[j + 2] == 'p' then Some((Cap, j + 3))
    else if j + 2 <= |s| && s[j] == 'u' && s[j + 1] == 'p' then Some((Up, j + 2))
    else if j + 3 <= |s| && s[j] == 'l' && s[j + 1] == 'o' && s[j + 2] == 'w' then Some((Low, j + 3))
    else None
  }

  /** What follows the keyword: ")" at once, or "," and a count. */
  function MarkRest(s: string, kind: CaseKind, j: nat): (r: Option<CaseMark>)
    requires j <= |s|
    ensures r.Some? ==> j < r.value.end <= |s| && r.value.kind == kind
  {
    if j < |s| && s[j] == ')' then Some(CaseMark(kind, [], j + 1))
    else if j < |s| && s[j] == ',' then CountAt(s, kind, RunEnd(s, j + 1, ReSpace))
    else None
  }

  /** The count once the whitespace after the comma ends at a: one digit or more, then ")". */
  function CountAt(s: string, kind: CaseKind, a: nat): (r: Option<CaseMark>)
    requires a <= |s|
    ensures r.Some? ==> a < r.value.end <= |s| && r.value.kind == kind
  {
    var b := RunEnd(s, a, Digit);
    if a < b < |s| && s[b] == ')' then Some(CaseMark(kind, s[a..b], b + 1)) else None
  }

  /** The marker pattern at offset i. */
  function CaseMarkAt(s: string, i: nat): (r: Option<CaseMark>)
    ensures r.Some? ==> i < r.value.end <= |s|
  {
    if i < |s| && s[i] == '(' then
      match KeywordAt(s, i + 1)
      case None => None
      case Some(kw) => MarkRest(s, kw.0, kw.1)
    else None
  }

  function CaseMarkerAt(s: string, i: nat): Option<Hit>
  {
    match CaseMarkAt(s, i)
    case None => None
    case Some(mk) => Some(Hit(mk.end, s[i..mk.end]))
  }

  /** The marker pattern as a matcher, for tokenizeText and MatchString. */
  const CaseMarker: Matcher := CaseMarkerAt

  /** A run read in a slice u == v[d..e] and in v ends at the same place when it ends inside
      the slice. */
  lemma RunSlice(v: string, d: nat, e: nat, x: nat, k: CharClass)
    requires d <= e <= |v| && x <= e - d
    ensures RunEnd(v, d + x, k) < e <==> RunEnd(v[d..e], x, k) < e - d
    ensures RunEnd(v, d + x, k) < e ==> RunEnd(v, d + x, k) == d + RunEnd(v[d..e], x, k)
  {
    var u := v[d..e];
    var r, q := RunEnd(v, d + x, k), RunEnd(u, x, k);
    RunEndAll(v, d + x, k);
    RunEndAll(u, x, k);
    if r < e {
      forall y | x <= y < r - d ensures InClass(k, u[y]) {
        assert u[y] == v[d + y];
      }
      assert u[r - d] == v[r];
      RunEndUnique(u, x, k, r - d);
    }
  }

  /** A match found in v, as it is seen in the slice v[d..e]: the same match moved by d when it
      lies inside the slice, none otherwise. */
  function Inside(o: Option<CaseMark>, d: nat, e: nat): Option<CaseMark>
  {
    if o.Some? && d < o.value.end <= e then Some(CaseMark(o.value.kind, o.value.digits, o.value.end - d)) else None
  }

  /** The keyword read in a slice u == v[d..e] and in v: found in both alike when it ends
      inside the slice. */
  lemma KeywordSlice(v: string, d: nat, e: nat, j: nat)
    requires d <= e <= |v| && d + j <= e
    ensures KeywordAt(v[d..e], j) == if KeywordAt(v, d + j).Some? && KeywordAt(v, d + j).value.1 <= e
                                     then Some((KeywordAt(v, d + j).value.0, KeywordAt(v, d + j).value.1 - d)) else None
  {
    var u := v[d..e];
    if d + j < e {
      assert u[j] == v[d + j];
    }
    if d + j + 1 < e {
      assert u[j + 1] == v[d + j + 1];
    }
    if d + j + 2 < e {
      assert u[j + 2] == v[d + j + 2];
    }
  }

  /** The count of a marker read in a slice u == v[d..e] and in v. */
  lemma CountSlice(v: string, d: nat, e: nat, a: nat, kind: CaseKind)
    requires d <= e <= |v| && d + a <= e
    ensures CountAt(v[d..e], kind, a) == Inside(CountAt(v, kind, d + a), d, e)
  {
    var u := v[d..e];
    RunSlice(v, d, e, a, Digit);
    var b := RunEnd(v, d + a, Digit);
    if b < e {
      assert u[b - d] == v[b];
      SliceOfSlice(v, d, e, a, b - d);
    }
  }

  /** What follows the keyword, read in a slice u == v[d..e] and in v. */
  lemma RestSlice(v: string, d: nat, e: nat, j: nat, kind: CaseKind)
    requires d <= e <= |v| && d + j <= e
    ensures MarkRest(v[d..e], kind, j) == Inside(MarkRest(v, kind, d + j), d, e)
  {
    if d + j < e {
      assert v[d..e][j] == v[d + j];
      if v[d + j] == ',' {
        CommaSlice(v, d, e, j, kind);
      }
    }
  }

  /** The count after the comma, read in a slice u == v[d..e] and in v. */
  lemma CommaSlice(v: string, d: nat, e: nat, j: nat, kind: CaseKind)
    requires d <= e <= |v| && d + j < e
    ensures CountAt(v[d..e], kind, RunEnd(v[d..e], j + 1, ReSpace)) == Inside(CountAt(v, kind, RunEnd(v, d + j + 1, ReSpace)), d, e)
  {
    RunSlice(v, d, e, j + 1, ReSpace);
    var a := RunEnd(v, d + j + 1, ReSpace);
    if a < e {
      assert RunEnd(v[d..e], j + 1, ReSpace) == a - d;
      CountSlice(v, d, e, a - d, kind);
    } else {
      assert RunEnd(v[d..e], j + 1, ReSpace) == e - d;
      assert CountAt(v[d..e], kind, e - d).None?;
      assert CountAt(v, kind, a).None? || CountAt(v, kind, a).value.end > e;
    }
  }

  /** The marker pattern reads only the chars it matches: a slice v[d..e] that holds the whole
      match matches at the same place, with the same keyword and count, and matches nowhere
      else. */
  lemma MarkSlice(v: string, d: nat, e: nat, j: nat)
    requires d <= e <= |v| && d + j <= e
    ensures CaseMarkAt(v[d..e], j) == Inside(CaseMarkAt(v, d + j), d, e)
  {
    if d + j + 1 < e {
      assert v[d..e][j] == v[d + j];
      if v[d + j] == '(' {
        OpenSlice(v, d, e, j);
      }
    }
  }

  /** MarkSlice where the slice holds an opening parenthesis and a char after it. */
  lemma OpenSlice(v: string, d: nat, e: nat, j: nat)
    requires d <= e <= |v| && d + j + 1 < e && v[d + j] == '('
    ensures CaseMarkAt(v[d..e], j) == Inside(CaseMarkAt(v, d + j), d, e)
  {
    var u := v[d..e];
    assert u[j] == '(';
    KeywordSlice(v, d, e, j + 1);
    var kv := KeywordAt(v, d + j + 1);
    if kv.Some? && kv.value.1 <= e {
      assert KeywordAt(u, j + 1) == Some((kv.value.0, kv.value.1 - d));
      RestSlice(v, d, e, kv.value.1 - d, kv.value.0);
    } else {
      assert KeywordAt(u, j + 1).None?;
    }
  }

  /** The marker pattern reads only the chars of its match (see MarkSlice). */
  lemma CaseMarkerLocal()
    ensures Local(CaseMarker)
  {
    forall s: string, a: nat, b: nat, j: nat | a <= b <= |s| && HitAt(CaseMarker, s[a..b], j)
      ensures HitAt(CaseMarker, s, a + j)
    {
      MarkSlice(s, a, b, j);
    }
  }

  lemma CaseMarkerWhole()
    ensures Whole(CaseMarker)
  {
    forall s: string, i: nat | HitAt(CaseMarker, s, i)
      ensures HitAt(CaseMarker, s[i..CaseMarker(s, i).value.end], 0)
    {
      MarkSlice(s, i, CaseMarker(s, i).value.end, 0);
    }
  }

  function KeywordText(kind: CaseKind): string
  {
    match kind
    case Cap => "cap"
    case Up => "up"
    case Low => "low"
  }

  /** The text of a marker: "(up)", or "(up," then whitespace, the digits and ")". */
  function MarkerText(kind: CaseKind, ws: string, digits: string): string
  {
    "(" + KeywordText(kind) + (if digits == [] then ")" else "," + ws + digits + ")")
  }

  predicate AllDecimal(ds: string)
  {
    forall x :: 0 <= x < |ds| ==> IsDigit(ds[x])
  }

  /** The keyword text is found as that keyword. */
  lemma KeywordFound(kind: CaseKind, s: string, j: nat)
    requires j + |KeywordText(kind)| <= |s| && s[j..j + |KeywordText(kind)|] == KeywordText(kind)
    ensures KeywordAt(s, j) == Some((kind, j + |KeywordText(kind)|))
  {
    var k := KeywordText(kind);
    assert s[j] == k[0] && s[j + 1] == k[1];
    if |k| == 3 {
      assert s[j + 2] == k[2];
    }
  }

  /** The count part of a marker text is read back: the whitespace, then the digits. */
  lemma CountFound(kind: CaseKind, s: string, j: nat, ws: string, digits: string)
    requires AllRegexSpace(ws) && AllDecimal(digits) && |digits| > 0
    requires j + 1 + |ws| + |digits| < |s| && s[j..j + 2 + |ws| + |digits|] == "," + ws + digits + ")"
    ensures MarkRest(s, kind, j) == Some(CaseMark(kind, digits, j + 2 + |ws| + |digits|))
  {
    var t := "," + ws + digits + ")";
    var a, b := j + 1 + |ws|, j + 1 + |ws| + |digits|;
    forall x | j <= x < j + |t| ensures s[x] == t[x - j] {
      assert s[x] == s[j..j + |t|][x - j];
    }
    forall x | j + 1 <= x < a ensures InClass(ReSpace, s[x]) {
      assert s[x] == ws[x - j - 1];
    }
    assert s[a] == digits[0];
    RunEndUnique(s, j + 1, ReSpace, a);
    forall x | a <= x < b ensures InClass(Digit, s[x]) {
      assert s[x] == digits[x - a];
    }
    assert s[b] == ')';
    RunEndUnique(s, a, Digit, b);
    assert s[a..b] == digits;
  }

  /** The tail of a marker text after its keyword. */
  function TailText(ws: string, digits: string): string
  {
    if digits == [] then ")" else "," + ws + digits + ")"
  }

  /** A marker text cut at its keyword. */
  lemma TextPieces(kind: CaseKind, ws: string, digits: string)
    ensures MarkerText(kind, ws, digits) == "(" + KeywordText(kind) + TailText(ws, digits)
    ensures MarkerText(kind, ws, digits)[0] == '('
    ensures MarkerText(kind, ws, digits)[1..1 + |KeywordText(kind)|] == KeywordText(kind)
    ensures MarkerText(kind, ws, digits)[1 + |KeywordText(kind)|..] == TailText(ws, digits)
  {
  }

  /** A marker text found at offset i matches there as that marker. */
  lemma MarkerTextAt(s: string, i: nat, kind: CaseKind, ws: string, digits: string)
    requires AllRegexSpace(ws) && AllDecimal(digits)
    requires i + |MarkerText(kind, ws, digits)| <= |s| && s[i..i + |MarkerText(kind, ws, digits)|] == MarkerText(kind, ws, digits)
    ensures CaseMarkAt(s, i) == Some(CaseMark(kind, digits, i + |MarkerText(kind, ws, digits)|))
  {
    var n := |MarkerText(kind, ws, digits)|;
    var j := KeywordPart(s, i, kind, ws, digits);
    RestFound(s, kind, j, ws, digits);
  }

  /** The opening parenthesis and the keyword of a marker text found at offset i. */
  lemma KeywordPart(s: string, i: nat, kind: CaseKind, ws: string, digits: string) returns (j: nat)
    requires i + |MarkerText(kind, ws, digits)| <= |s| && s[i..i + |MarkerText(kind, ws, digits)|] == MarkerText(kind, ws, digits)
    ensures j == i + 1 + |KeywordText(kind)| && s[i] == '('
    ensures KeywordAt(s, i + 1) == Some((kind, j))
    ensures j + |TailText(ws, digits)| <= |s| && s[j..j + |TailText(ws, digits)|] == TailText(ws, digits)
  {
    var mt := MarkerText(kind, ws, digits);
    var k, tail := KeywordText(kind), TailText(ws, digits);
    var n := |mt|;
    TextPieces(kind, ws, digits);
    assert s[i] == mt[0];
    SliceOfSlice(s, i, i + n, 1, 1 + |k|);
    KeywordFound(kind, s, i + 1);
    j := i + 1 + |k|;
    SliceOfSlice(s, i, i + n, 1 + |k|, n);
  }

  /** The tail of a marker text found at offset j is read back. */
  lemma RestFound(s: string, kind: CaseKind, j: nat, ws: string, digits: string)
    requires AllRegexSpace(ws) && AllDecimal(digits)
    requires j + |TailText(ws, digits)| <= |s| && s[j..j + |TailText(ws, digits)|] == TailText(ws, digits)
    ensures MarkRest(s, kind, j) == Some(CaseMark(kind, digits, j + |TailText(ws, digits)|))
  {
    if digits == [] {
      assert s[j] == TailText(ws, digits)[0];
    } else {
      CountFound(kind, s, j, ws, digits);
    }
  }

  /** Every marker text, followed by anything, matches as that marker. */
  lemma MarkerTextMatches(kind: CaseKind, ws: string, digits: string, rest: string)
    requires AllRegexSpace(ws) && AllDecimal(digits)
    ensures CaseMarkAt(MarkerText(kind, ws, digits) + rest, 0) == Some(CaseMark(kind, digits, |MarkerText(kind, ws, digits)|))
  {
    var s := MarkerText(kind, ws, digits) + rest;
    assert s[0..|MarkerText(kind, ws, digits)|] == MarkerText(kind, ws, digits);
    MarkerTextAt(s, 0, kind, ws, digits);
  }

  /** Conversely, every match is a marker text: the text matched is "(" keyword ")" or
      "(" keyword "," whitespace digits ")". */
  lemma MatchIsMarkerText(s: string, i: nat, mk: CaseMark)
    requires CaseMarkAt(s, i) == Some(mk)
    ensures AllDecimal(mk.digits)
    ensures exists ws :: AllRegexSpace(ws) && s[i..mk.end] == MarkerText(mk.kind, ws, mk.digits)
  {
    var ws := MatchSpaces(s, i, mk);
    TextPieces(mk.kind, ws, mk.digits);
  }

  /** The keyword found is the keyword text. */
  lemma KeywordIsText(s: string, j: nat)
    requires KeywordAt(s, j).Some?
    ensures s[j..KeywordAt(s, j).value.1] == KeywordText(KeywordAt(s, j).value.0)
  {
  }

  /** The whitespace after the comma of a match, and the match cut into its pieces. */
  lemma MatchSpaces(s: string, i: nat, mk: CaseMark) returns (ws: string)
    requires CaseMarkAt(s, i) == Some(mk)
    ensures AllDecimal(mk.digits) && AllRegexSpace(ws)
    ensures s[i..mk.end] == "(" + KeywordText(mk.kind) + TailText(ws, mk.digits)
  {
    var kw := KeywordAt(s, i + 1).value;
    var j := kw.1;
    KeywordIsText(s, i + 1);
    assert MarkRest(s, kw.0, j) == Some(mk);
    ws := RestSpaces(s, kw.0, j, mk);
    SliceSplit(s, i, i + 1, mk.end);
    SliceSplit(s, i + 1, j, mk.end);
    assert s[i..i + 1] == "(";
  }

  /** The whitespace after the comma of the rest of a match, and the rest cut into its pieces. */
  lemma RestSpaces(s: string, kind: CaseKind, j: nat, mk: CaseMark) returns (ws: string)
    requires j <= |s| && MarkRest(s, kind, j) == Some(mk)
    ensures AllDecimal(mk.digits) && AllRegexSpace(ws)
    ensures s[j..mk.end] == TailText(ws, mk.digits)
  {
    if s[j] == ')' {
      ws := [];
      assert s[j..mk.end] == [s[j]];
    } else {
      var a := RunEnd(s, j + 1, ReSpace);
      var b := RunEnd(s, a, Digit);
      RunEndAll(s, j + 1, ReSpace);
      RunEndAll(s, a, Digit);
      ws := s[j + 1..a];
      assert AllRegexSpace(ws);
      CommaPieces(s, j, a, b);
    }
  }

  /** A slice that runs from a comma over s[j + 1..a] and s[a..b] to a closing parenthesis. */
  lemma CommaPieces(s: string, j: nat, a: nat, b: nat)
    requires j < a <= b < |s| && s[j] == ',' && s[b] == ')'
    ensures s[j..b + 1] == "," + s[j + 1..a] + s[a..b] + ")"
  {
    var r := "," + s[j + 1..a] + s[a..b] + ")";
    forall x | j <= x < b + 1 ensures s[x] == r[x - j] {
      if j < x < a {
        assert r[x - j] == s[j + 1..a][x - j - 1];
      } else if a <= x < b {
        assert r[x - j] == s[a..b][x - a];
      }
    }
    SliceIs(s, j, b + 1, r);
  }
}
