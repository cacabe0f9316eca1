/** The two marker expressions of processor/processor.go, \(\s*(hex|bin|up|low|cap)\s*\)
    and \(\s*(up|low|cap)\s*,\s*(-?\d+)\s*\), recognised by hand at one offset: the pieces
    each is made of, matched greedily one after the other. */
module Markers {

  import opened Wrappers
  import opened Text

  /** The commands a marker can carry, in the order of the alternation (hex|bin|up|low|cap). */
  datatype Command = Hex | Bin | Up | Low | Cap

  /** The word that names a command inside a marker. */
  function Name(c: Command): (r: string)
    ensures 2 <= |r| <= 3
  {
    match c
    case Hex => "hex"
    case Bin => "bin"
    case Up => "up"
    case Low => "low"
    case Cap => "cap"
  }

  /** The commands a numbered marker accepts: (up|low|cap). */
  predicate IsCase(c: Command)
  {
    c.Up? || c.Low? || c.Cap?
  }

  /** The command whose name occurs at offset i, tried in the order of the alternation. */
  function CommandAt(s: string, i: nat): (r: Option<Command>)
    ensures r.Some? ==> i + |Name(r.value)| <= |s|
  {
    if i + 3 <= |s| && s[i] == 'h' && s[i + 1] == 'e' && s[i + 2] == 'x' then Some(Hex)
    else if i + 3 <= |s| && s[i] == 'b' && s[i + 1] == 'i' && s[i + 2] == 'n' then Some(Bin)
    else if i + 2 <= |s| && s[i] == 'u' && s[i + 1] == 'p' then Some(Up)
    else if i + 3 <= |s| && s[i] == 'l' && s[i + 1] == 'o' && s[i + 2] == 'w' then Some(Low)
    else if i + 3 <= |s| && s[i] == 'c' && s[i + 1] == 'a' && s[i + 2] == 'p' then Some(Cap)
    else None
  }

  /** The alternation finds exactly the command whose name occurs at i: no name is a
      prefix of another, so at most one of them occurs there. */
  lemma CommandAtOccurs(s: string, i: nat, c: Command)
    ensures CommandAt(s, i) == Some(c) <==> OccursAt(s, i, Name(c))
  {
    var n := Name(c);
    if OccursAt(s, i, n) {
      assert s[i] == s[i..i + |n|][0] == n[0];
      assert s[i + 1] == s[i..i + |n|][1] == n[1];
      if |n| == 3 {
        assert s[i + 2] == s[i..i + |n|][2] == n[2];
      }
    }
    if CommandAt(s, i) == Some(c) {
      assert s[i..i + |n|] == n;
    }
  }

  /** The pieces the two marker expressions are made of. Each piece is matched greedily:
      every run of spaces or digits is followed by a piece that cannot start with a space
      or a digit, so backtracking never finds another split. */
  datatype Piece = Lit(c: char) | Spaces | Key(numbered: bool) | Count

  /** \(\s*(hex|bin|up|low|cap)\s*\) */
  const SimplePieces: seq<Piece> := [Lit('('), Spaces, Key(false), Spaces, Lit(')')]

  /** \(\s*(up|low|cap)\s*,\s*(-?\d+)\s*\) */
  const NumberedPieces: seq<Piece> := [Lit('('), Spaces, Key(true), Spaces, Lit(','), Spaces, Count, Spaces, Lit(')')]

  /** Where piece p, matched at offset i, ends. */
  function PieceEnd(s: string, i: nat, p: Piece): (r: Option<nat>)
    ensures r.Some? ==> i <= r.value <= |s|
  {
    match p
    case Lit(c) => if i < |s| && s[i] == c then Some(i + 1) else None
    case Spaces => if i <= |s| then Some(RunEnd(s, i, ReSpace)) else None
    case Key(numbered) =>
      var c := CommandAt(s, i);
      if c.Some? && (!numbered || IsCase(c.value)) then Some(i + |Name(c.value)|) else None
    case Count =>
      if i <= |s| then
        var m := if i < |s| && s[i] == '-' then i + 1 else i;
        var e := RunEnd(s, m, Digit);
        if m < e then Some(e) else None
      else None
  }

  /** The offsets between the pieces when they match one after the other from offset i:
      the first is i, the last is where the whole expression ends. */
  function Bounds(s: string, i: nat, ps: seq<Piece>): (r: Option<seq<nat>>)
    ensures r.Some? ==> |r.value| == |ps| + 1 && r.value[0] == i
    decreases |ps|
  {
    if |ps| == 0 then Some([i])
    else
      var j := PieceEnd(s, i, ps[0]);
      if j.None? then None
      else
        var rest := Bounds(s, j.value, ps[1..]);
        if rest.None? then None else Some([i] + rest.value)
  }

  /** Piece k matched from the k-th bound to the next one. */
  lemma {:induction false} BoundsStep(s: string, i: nat, ps: seq<Piece>, k: nat)
    requires Bounds(s, i, ps).Some? && k < |ps|
    ensures PieceEnd(s, Bounds(s, i, ps).value[k], ps[k]) == Some(Bounds(s, i, ps).value[k + 1])
    decreases |ps|
  {
    var j := PieceEnd(s, i, ps[0]).value;
    if k > 0 {
      BoundsStep(s, j, ps[1..], k - 1);
    }
  }

  /** The bounds grow from i and stay within the text. */
  lemma {:induction false} BoundsOrdered(s: string, i: nat, ps: seq<Piece>, k: nat)
    requires Bounds(s, i, ps).Some? && k <= |ps|
    ensures i <= Bounds(s, i, ps).value[k] <= Bounds(s, i, ps).value[|ps|]
    ensures |ps| > 0 ==> Bounds(s, i, ps).value[|ps|] <= |s|
    decreases |ps|
  {
    if |ps| == 0 {
      assert Bounds(s, i, ps).value[0] == i;
    } else {
      var j := PieceEnd(s, i, ps[0]).value;
      BoundsOrdered(s, j, ps[1..], if k == 0 then 0 else k - 1);
    }
  }

  /** A marker recognised at some offset: the offset just past it, its keyword, where
      the keyword starts, and for a numbered marker the text of its count. */
  datatype Marker = Marker(end: nat, command: Command, kwStart: nat, count: Option<string>)

  /** \(\s*(hex|bin|up|low|cap)\s*\) at offset i. */
  function SimpleAt(s: string, i: nat): (r: Option<Marker>)
  {
    var b := Bounds(s, i, SimplePieces);
    if b.None? then None
    else
      PiecesShape(s, i, SimplePieces, 2, b.value, 5);
      Some(Marker(b.value[5], CommandAt(s, b.value[2]).value, b.value[2], None))
  }

  /** \(\s*(up|low|cap)\s*,\s*(-?\d+)\s*\) at offset i; the count is the optional minus
      sign and the whole run of digits after it. */
  function NumberedAt(s: string, i: nat): (r: Option<Marker>)
  {
    var b := Bounds(s, i, NumberedPieces);
    if b.None? then None
    else
      PiecesShape(s, i, NumberedPieces, 2, b.value, 9);
      BoundsMonotone(s, i, NumberedPieces, 6, 7);
      BoundsOrdered(s, i, NumberedPieces, 7);
      Some(Marker(b.value[9], CommandAt(s, b.value[2]).value, b.value[2], Some(s[b.value[6]..b.value[7]])))
  }

  /** What a recognised marker looks like: '(' at i, ')' at its last offset, and one of the
      keywords inside, the case keywords only for a numbered marker. */
  predicate Shaped(s: string, i: nat, m: Marker, numbered: bool)
  {
    i < m.kwStart && m.kwStart + |Name(m.command)| < m.end <= |s|
    && s[i] == '(' && s[m.end - 1] == ')' && CommandAt(s, m.kwStart) == Some(m.command)
    && (numbered ==> IsCase(m.command)) && (numbered <==> m.count.Some?)
  }

  /** Pieces that open with '(', close with ')' and hold a keyword strictly between the
      two: the keyword sits inside the parentheses of the matched text. */
  lemma PiecesShape(s: string, i: nat, ps: seq<Piece>, kw: nat, b: seq<nat>, n: nat)
    requires Bounds(s, i, ps) == Some(b) && n == |ps| && 0 < kw < n - 1 && ps[kw].Key?
    requires ps[0] == Lit('(') && ps[n - 1] == Lit(')')
    ensures |b| == n + 1
    ensures s[i] == '(' && i < b[kw] && CommandAt(s, b[kw]).Some?
    ensures b[kw] + |Name(CommandAt(s, b[kw]).value)| < b[n] <= |s|
    ensures s[b[n] - 1] == ')'
    ensures ps[kw].numbered ==> IsCase(CommandAt(s, b[kw]).value)
  {
    PiecesOpen(s, i, ps, kw, b);
    PiecesKey(s, i, ps, kw, b);
    PiecesClose(s, i, ps, kw, b, n);
  }

  /** The first piece puts '(' at i, before the keyword. */
  lemma PiecesOpen(s: string, i: nat, ps: seq<Piece>, kw: nat, b: seq<nat>)
    requires Bounds(s, i, ps) == Some(b) && 0 < kw < |ps| && ps[0] == Lit('(')
    ensures |b| == |ps| + 1 && s[i] == '(' && i < b[kw]
  {
    BoundsStep(s, i, ps, 0);
    LitEnd(s, b[0], '(', b[1]);
    BoundsMonotone(s, i, ps, 1, kw);
  }

  /** The keyword piece spans the name of the command at its bound. */
  lemma PiecesKey(s: string, i: nat, ps: seq<Piece>, kw: nat, b: seq<nat>)
    requires Bounds(s, i, ps) == Some(b) && kw < |ps| && ps[kw].Key?
    ensures |b| == |ps| + 1 && CommandAt(s, b[kw]).Some?
    ensures b[kw] + |Name(CommandAt(s, b[kw]).value)| == b[kw + 1]
    ensures ps[kw].numbered ==> IsCase(CommandAt(s, b[kw]).value)
  {
    BoundsStep(s, i, ps, kw);
    assert ps[kw] == Key(ps[kw].numbered);
    KeyEnd(s, b[kw], ps[kw].numbered, b[kw + 1]);
  }

  /** The last piece puts ')' just before the end, after the keyword. */
  lemma PiecesClose(s: string, i: nat, ps: seq<Piece>, kw: nat, b: seq<nat>, n: nat)
    requires Bounds(s, i, ps) == Some(b) && n == |ps| && kw < n - 1 && ps[n - 1] == Lit(')')
    ensures |b| == n + 1 && b[kw + 1] < b[n] <= |s| && s[b[n] - 1] == ')'
  {
    BoundsStep(s, i, ps, n - 1);
    LitEnd(s, b[n - 1], ')', b[n]);
    BoundsMonotone(s, i, ps, kw + 1, n - 1);
  }

  /** A literal piece matches exactly its char. */
  lemma LitEnd(s: string, j: nat, c: char, e: nat)
    requires PieceEnd(s, j, Lit(c)) == Some(e)
    ensures j < |s| && s[j] == c && e == j + 1
  {
  }

  /** A keyword piece matches exactly the name of the command at its offset. */
  lemma KeyEnd(s: string, j: nat, numbered: bool, e: nat)
    requires PieceEnd(s, j, Key(numbered)) == Some(e)
    ensures CommandAt(s, j).Some? && e == j + |Name(CommandAt(s, j).value)|
    ensures numbered ==> IsCase(CommandAt(s, j).value)
  {
  }

  /** The bounds never decrease from one piece to a later one. */
  lemma {:induction false} BoundsMonotone(s: string, i: nat, ps: seq<Piece>, j: nat, k: nat)
    requires Bounds(s, i, ps).Some? && j <= k <= |ps|
    ensures Bounds(s, i, ps).value[j] <= Bounds(s, i, ps).value[k]
    decreases |ps|
  {
    if |ps| > 0 {
      var n := PieceEnd(s, i, ps[0]).value;
      if j == 0 {
        BoundsOrdered(s, i, ps, k);
      } else {
        BoundsMonotone(s, n, ps[1..], j - 1, k - 1);
      }
    }
  }

  /** The marker of either kind at offset i. */
  function MarkerAt(s: string, i: nat, numbered: bool): (r: Option<Marker>)
  {
    if numbered then NumberedAt(s, i) else SimpleAt(s, i)
  }
}
