/** How applyAndRemovePattern of processor/processor.go tells markers apart: by
    strings.Contains on the marker's text. The lemmas here show that on the text of a marker
    these tests see exactly its parsed command and kind. */
module Dispatch {

  import opened Wrappers
  import opened Text
  import opened Markers
  import opened Scanner

  /** The chars a piece other than the keyword consists of. */
  predicate PieceChar(p: Piece, x: char)
  {
    match p
    case Lit(c) => x == c
    case Spaces => IsRegexSpace(x)
    case Key(_) => true
    case Count => x == '-' || IsDigit(x)
  }

  lemma PieceChars(s: string, a: nat, p: Piece, e: nat, k: nat)
    requires PieceEnd(s, a, p) == Some(e) && a <= k < e
    ensures PieceChar(p, s[k])
  {
    match p
    case Spaces => RunEndAll(s, a, ReSpace);
    case Count =>
      var m := if a < |s| && s[a] == '-' then a + 1 else a;
      RunEndAll(s, m, Digit);
    case _ =>
  }

  /** Every offset of a matched expression lies inside one of its pieces. */
  lemma {:induction false} PiecesCover(s: string, i: nat, ps: seq<Piece>, k: nat) returns (j: nat)
    requires Bounds(s, i, ps).Some? && i <= k < Bounds(s, i, ps).value[|ps|]
    ensures j < |ps| && Bounds(s, i, ps).value[j] <= k < Bounds(s, i, ps).value[j + 1]
    decreases |ps|
  {
    var b := Bounds(s, i, ps).value;
    var n := PieceEnd(s, i, ps[0]).value;
    var rest := Bounds(s, n, ps[1..]).value;
    assert b == [i] + rest;
    if k < n {
      j := 0;
    } else {
      var j' := PiecesCover(s, n, ps[1..], k);
      j := j' + 1;
    }
  }

  /** The chars of the command names are lower-case letters. */
  lemma NameLetters(c: Command, d: nat)
    requires d < |Name(c)|
    ensures IsLower(Name(c)[d])
  {
  }

  /** The first letter of a command name occurs in no other name. */
  lemma FirstLetterOwned(c: Command, e: Command, d: nat)
    requires d < |Name(c)| && Name(c)[d] == Name(e)[0]
    ensures c == e
  {
  }

  /** The char at offset k of an expression matched from i: inside the keyword piece it is a
      lower-case letter of the keyword, elsewhere a char its piece allows. */
  lemma PiecesChar(s: string, i: nat, ps: seq<Piece>, k: nat) returns (j: nat)
    requires Bounds(s, i, ps).Some? && i <= k < Bounds(s, i, ps).value[|ps|]
    ensures var b := Bounds(s, i, ps).value;
            k < |s| && j < |ps| && b[j] <= k < b[j + 1]
            && (ps[j].Key? ==> CommandAt(s, b[j]).Some? && k < b[j] + |Name(CommandAt(s, b[j]).value)| && IsLower(s[k]))
            && (!ps[j].Key? ==> PieceChar(ps[j], s[k]))
  {
    var b := Bounds(s, i, ps).value;
    j := PiecesCover(s, i, ps, k);
    BoundsStep(s, i, ps, j);
    BoundsOrdered(s, i, ps, j);
    if ps[j].Key? {
      var c := CommandAt(s, b[j]).value;
      CommandAtOccurs(s, b[j], c);
      OccursChar(s, b[j], Name(c), k - b[j]);
      NameLetters(c, k - b[j]);
    } else {
      PieceChars(s, b[j], ps[j], b[j + 1], k);
    }
  }

  /** Inside a simple marker, letters belong to the keyword and no char is a comma. */
  lemma SimpleChar(s: string, i: nat, k: nat)
    requires SimpleAt(s, i).Some? && i <= k < SimpleAt(s, i).value.end
    ensures var m := SimpleAt(s, i).value;
            k < |s| && (IsLetter(s[k]) ==> m.kwStart <= k < m.kwStart + |Name(m.command)|) && s[k] != ','
  {
    var j := PiecesChar(s, i, SimplePieces, k);
    assert j == 0 || j == 1 || j == 2 || j == 3 || j == 4;
  }

  /** Inside a numbered marker, letters belong to the keyword. */
  lemma NumberedChar(s: string, i: nat, k: nat)
    requires NumberedAt(s, i).Some? && i <= k < NumberedAt(s, i).value.end
    ensures var m := NumberedAt(s, i).value;
            k < |s| && (IsLetter(s[k]) ==> m.kwStart <= k < m.kwStart + |Name(m.command)|)
  {
    var j := PiecesChar(s, i, NumberedPieces, k);
    assert j == 0 || j == 1 || j == 2 || j == 3 || j == 4 || j == 5 || j == 6 || j == 7 || j == 8;
  }

  /** A numbered marker holds its comma after the keyword. */
  lemma NumberedComma(s: string, i: nat) returns (k: nat)
    requires NumberedAt(s, i).Some?
    ensures i <= k < NumberedAt(s, i).value.end && k < |s| && s[k] == ','
  {
    var b := Bounds(s, i, NumberedPieces).value;
    assert |b| == 10;
    BoundsStep(s, i, NumberedPieces, 4);
    BoundsOrdered(s, i, NumberedPieces, 4);
    BoundsMonotone(s, i, NumberedPieces, 5, 9);
    k := b[4];
  }

  /** Whether the marker at offset i is a numbered one; a simple one never starts there too. */
  predicate IsNumbered(s: string, i: nat)
    requires AnyMarkerAt(s, i)
  {
    SimpleAt(s, i).None?
  }

  /** The marker that starts at offset i. */
  function MarkerOf(s: string, i: nat): (m: Marker)
    requires AnyMarkerAt(s, i)
    ensures m.end == MarkerEnd(s, i)
    ensures Shaped(s, i, m, IsNumbered(s, i))
  {
    MarkerShape(s, i, IsNumbered(s, i));
    MarkerAt(s, i, IsNumbered(s, i)).value
  }

  /** The text of a marker is the text from its offset to its end, with the keyword inside. */
  lemma MarkerTextFacts(text: string, pos: nat, pattern: string)
    requires MarkerText(text, pos, pattern)
    ensures var m := MarkerOf(text, pos);
            pattern == text[pos..m.end] && pos < m.kwStart && m.kwStart + |Name(m.command)| < m.end <= |text|
            && CommandAt(text, m.kwStart) == Some(m.command)
  {
    var m := MarkerOf(text, pos);
    assert m.end == pos + |pattern|;
  }

  /** A keyword recognised between pos and end occurs in that slice. */
  lemma NameInSlice(text: string, pos: nat, end: nat, kw: nat, c: Command)
    requires pos <= kw && kw + |Name(c)| <= end <= |text| && CommandAt(text, kw) == Some(c)
    ensures Contains(text[pos..end], Name(c))
  {
    CommandAtOccurs(text, kw, c);
    OccursInSlice(text, pos, end, kw, Name(c));
    assert OccursAt(text[pos..end], kw - pos, Name(c));
  }

  /** The text of a marker contains the name of its command. */
  lemma NameInPattern(text: string, pos: nat, pattern: string)
    requires MarkerText(text, pos, pattern)
    ensures Contains(pattern, Name(MarkerOf(text, pos).command))
  {
    var m := MarkerOf(text, pos);
    MarkerTextFacts(text, pos, pattern);
    NameInSlice(text, pos, m.end, m.kwStart, m.command);
  }

  /** The letters of a marker lie in its keyword. */
  lemma LetterInKeyword(text: string, pos: nat, k: nat)
    requires AnyMarkerAt(text, pos) && pos <= k < MarkerOf(text, pos).end
    ensures var m := MarkerOf(text, pos);
            k < |text| && (IsLetter(text[k]) ==> m.kwStart <= k < m.kwStart + |Name(m.command)|)
  {
    if IsNumbered(text, pos) {
      NumberedChar(text, pos, k);
    } else {
      SimpleChar(text, pos, k);
    }
  }

  /** A keyword's letter that starts the name e makes the keyword e. */
  lemma OwnedLetter(text: string, kw: nat, c: Command, k: nat, e: Command)
    requires CommandAt(text, kw) == Some(c) && kw <= k < kw + |Name(c)| && text[k] == Name(e)[0]
    ensures c == e
  {
    CommandAtOccurs(text, kw, c);
    OccursChar(text, kw, Name(c), k - kw);
    FirstLetterOwned(c, e, k - kw);
  }

  /** Where sub occurs in the slice s[a..b], the text holds its first char. */
  lemma OccursStart(s: string, a: nat, b: nat, sub: string) returns (k: nat)
    requires a <= b <= |s| && |sub| > 0 && Contains(s[a..b], sub)
    ensures a <= k < b && s[k] == sub[0]
  {
    var t := s[a..b];
    var o :| 0 <= o <= |t| - |sub| && OccursAt(t, o, sub);
    OccursChar(t, o, sub, 0);
    k := a + o;
    assert s[k] == t[o];
  }

  /** In a slice whose only letters are those of the keyword c, the name e occurs only when
      it is c. */
  lemma NameFromSlice(text: string, pos: nat, end: nat, kw: nat, c: Command, e: Command)
    requires pos <= kw && kw + |Name(c)| <= end <= |text| && CommandAt(text, kw) == Some(c)
    requires forall k :: pos <= k < end && IsLetter(text[k]) ==> kw <= k < kw + |Name(c)|
    requires Contains(text[pos..end], Name(e))
    ensures c == e
  {
    var k := OccursStart(text, pos, end, Name(e));
    NameLetters(e, 0);
    OwnedLetter(text, kw, c, k, e);
  }

  /** Only the name of the marker's own command occurs in its text. */
  lemma NameFromPattern(text: string, pos: nat, pattern: string, e: Command)
    requires MarkerText(text, pos, pattern) && Contains(pattern, Name(e))
    ensures MarkerOf(text, pos).command == e
  {
    var m := MarkerOf(text, pos);
    MarkerTextFacts(text, pos, pattern);
    forall k | pos <= k < m.end && IsLetter(text[k])
      ensures m.kwStart <= k < m.kwStart + |Name(m.command)|
    {
      LetterInKeyword(text, pos, k);
    }
    NameFromSlice(text, pos, m.end, m.kwStart, m.command, e);
  }

  /** A comma in the text of a marker makes it a numbered one. */
  lemma CommaFromPattern(text: string, pos: nat, pattern: string)
    requires MarkerText(text, pos, pattern) && Contains(pattern, ",")
    ensures IsNumbered(text, pos)
  {
    MarkerTextFacts(text, pos, pattern);
    var k := OccursStart(text, pos, MarkerOf(text, pos).end, ",");
    if SimpleAt(text, pos).Some? {
      SimpleChar(text, pos, k);
    }
  }

  /** A char of the slice s[a..b] occurs in it. */
  lemma CharInSlice(s: string, a: nat, b: nat, k: nat)
    requires a <= k < b <= |s|
    ensures Contains(s[a..b], [s[k]])
  {
    assert s[k..k + 1] == [s[k]];
    OccursInSlice(s, a, b, k, [s[k]]);
    assert OccursAt(s[a..b], k - a, [s[k]]);
  }

  /** The text of a numbered marker holds a comma. */
  lemma CommaInPattern(text: string, pos: nat, pattern: string)
    requires MarkerText(text, pos, pattern) && IsNumbered(text, pos)
    ensures Contains(pattern, ",")
  {
    var k := NumberedComma(text, pos);
    MarkerTextFacts(text, pos, pattern);
    CharInSlice(text, pos, MarkerOf(text, pos).end, k);
  }

  /** applyAndRemovePattern tests the marker's text with strings.Contains. On the text of a
      marker, each name test holds exactly for the marker's own command, and the comma test
      exactly for a numbered marker. */
  lemma DispatchTests(text: string, pos: nat, pattern: string, e: Command)
    requires MarkerText(text, pos, pattern)
    ensures Contains(pattern, Name(e)) <==> MarkerOf(text, pos).command == e
    ensures Contains(pattern, ",") <==> IsNumbered(text, pos)
  {
    NameInPattern(text, pos, pattern);
    if Contains(pattern, Name(e)) {
      NameFromPattern(text, pos, pattern, e);
    }
    if Contains(pattern, ",") {
      CommaFromPattern(text, pos, pattern);
    }
    if IsNumbered(text, pos) {
      CommaInPattern(text, pos, pattern);
    }
  }

  /** A word in parentheses contains the word. */
  lemma Bracketed(kw: string)
    ensures Contains("(" + kw + ")", kw)
  {
    var t := "(" + kw + ")";
    assert t[1..1 + |kw|] == kw;
    assert OccursAt(t, 1, kw);
  }

  /** The exact markers the switch names contain their keyword and no comma. */
  lemma LiteralMarkers()
    ensures Contains("(hex)", "hex") && Contains("(bin)", "bin")
    ensures Contains("(up)", "up") && !Contains("(up)", ",")
    ensures Contains("(low)", "low") && !Contains("(low)", ",")
    ensures Contains("(cap)", "cap") && !Contains("(cap)", ",")
  {
    Bracketed("hex");
    Bracketed("bin");
    Bracketed("up");
    Bracketed("low");
    Bracketed("cap");
    assert "(" + "hex" + ")" == "(hex)" && "(" + "bin" + ")" == "(bin)" && "(" + "up" + ")" == "(up)";
    assert "(" + "low" + ")" == "(low)" && "(" + "cap" + ")" == "(cap)";
    CharAbsent("(up)", ',');
    CharAbsent("(low)", ',');
    CharAbsent("(cap)", ',');
  }

  /** The text from a marker's offset to its end is its text. */
  lemma TextOfMarker(s: string, p: nat)
    requires p < |s| && AnyMarkerAt(s, p)
    ensures MarkerText(s, p, s[p..MarkerEnd(s, p)])
  {
    var m := MarkerOf(s, p);
    var t := s[p..MarkerEnd(s, p)];
    assert p + |t| == m.end;
    assert t[0] == s[p] && t[|t| - 1] == s[m.end - 1];
  }
}
