/** transformations/hex_bin.go: every "(hex)" or "(bin)" marker token after the first token
    is dropped, and the word before it is rewritten in decimal when strconv.ParseInt
    accepts it in base 16 or 2. */
module HexBin {

  import opened Wrappers
  import opened Text
  import opened Numbers
  import opened Rewrite
  import opened Spaced
  import opened TokenText

  /** ConvertHexToDec: strconv.ParseInt(s, 16, 64) written with strconv.FormatInt(…, 10);
      None stands for the error. */
  function ConvertHexToDec(hexStr: string): (r: Option<string>)
    ensures r.Some? <==> ParseInt(hexStr, 16).Some?
    ensures r.Some? ==> ParseInt(r.value, 10) == ParseInt(hexStr, 16)
  {
    match ParseInt(hexStr, 16)
    case Some(v) =>
      ParseFormatInt(v);
      Some(FormatInt(v))
    case None => None
  }

  /** ConvertBinToDec: the same with base 2. */
  function ConvertBinToDec(binStr: string): (r: Option<string>)
    ensures r.Some? <==> ParseInt(binStr, 2).Some?
    ensures r.Some? ==> ParseInt(r.value, 10) == ParseInt(binStr, 2)
  {
    match ParseInt(binStr, 2)
    case Some(v) =>
      ParseFormatInt(v);
      Some(FormatInt(v))
    case None => None
  }

  /** A value of int64 written in a base with a leading minus sign when negative. */
  function SignedDigits(v: int, base: nat): string
    requires 2 <= base <= 16
  {
    if v < 0 then "-" + FormatNat(-v, base) else FormatNat(v, base)
  }

  /** ParseInt reads back a signed digit string in its base over the whole int64 range. */
  lemma ParseSignedDigits(v: int, base: nat)
    requires 2 <= base <= 16 && MinInt64 <= v <= MaxInt64
    ensures ParseInt(SignedDigits(v, base), base) == Some(v)
  {
    var s := SignedDigits(v, base);
    if v < 0 {
      ValueOfFormat(-v, base);
      assert s[1..] == FormatNat(-v, base);
    } else {
      ValueOfFormat(v, base);
    }
  }

  /** Every int64 written in hex converts to the same value in decimal. */
  lemma HexRoundTrip(v: int)
    requires MinInt64 <= v <= MaxInt64
    ensures ConvertHexToDec(SignedDigits(v, 16)) == Some(FormatInt(v))
  {
    ParseSignedDigits(v, 16);
  }

  /** Every int64 written in binary converts to the same value in decimal. */
  lemma BinRoundTrip(v: int)
    requires MinInt64 <= v <= MaxInt64
    ensures ConvertBinToDec(SignedDigits(v, 2)) == Some(FormatInt(v))
  {
    ParseSignedDigits(v, 2);
  }

  /** With the base given explicitly, a "0x" or "0b" prefix is not accepted. */
  lemma PrefixRefused(s: string)
    ensures ConvertHexToDec("0x" + s) == None
    ensures ConvertBinToDec("0b" + s) == None
  {
    assert DigitValue(("0x" + s)[1]) >= 16;
    ParseIntRejects("0x" + s, 16);
    assert DigitValue(("0b" + s)[1]) >= 2;
    ParseIntRejects("0b" + s, 2);
  }

  /** The pattern \((hex|bin)\). */
  function MarkerAt(s: string, i: nat): Option<Hit>
  {
    if OccursAt(s, i, "(hex)") || OccursAt(s, i, "(bin)") then Some(Hit(i + 5, s[i..i + 5])) else None
  }

  const Marker: Matcher := MarkerAt

  /** Every match of the pattern is "(hex)" or "(bin)". */
  lemma MarkerText(s: string, i: nat)
    requires HitAt(Marker, s, i)
    ensures Marker(s, i).value.end == i + 5
    ensures s[i..i + 5] == "(hex)" || s[i..i + 5] == "(bin)"
  {
  }

  /** The marker pattern reads only the five chars it matches. */
  lemma MarkerLocal()
    ensures Local(Marker)
  {
    forall s: string, a: nat, b: nat, j: nat | a <= b <= |s| && HitAt(Marker, s[a..b], j)
      ensures HitAt(Marker, s, a + j)
    {
      MarkerText(s[a..b], j);
      SliceOfSlice(s, a, b, j, j + 5);
    }
  }

  lemma MarkerWhole()
    ensures Whole(Marker)
  {
    forall s: string, i: nat | HitAt(Marker, s, i)
      ensures HitAt(Marker, s[i..Marker(s, i).value.end], 0)
    {
      MarkerText(s, i);
      assert s[i..i + 5][0..5] == s[i..i + 5];
    }
  }

  /** A text the marker pattern matches holds a '('. */
  lemma MatchHasParen(t: string)
    requires MatchString(Marker, t)
    ensures '(' in t
  {
    var j :| 0 <= j < |t| && HitAt(Marker, t, j);
    MarkerText(t, j);
    assert t[j] == t[j..j + 5][0];
  }

  /** A decimal from FormatInt holds no '(' and no whitespace. */
  lemma DecimalIsField(v: int)
    ensures IsField(FormatInt(v))
    ensures '(' !in FormatInt(v)
  {
    var r := FormatInt(v);
    var n := FormatNat(if v < 0 then -v else v, 10);
    assert forall k :: 0 <= k < |n| ==> DigitValue(n[k]) < 10;
    if v < 0 {
      assert forall k :: 1 <= k < |r| ==> r[k] == n[k - 1];
    }
  }

  /** The tokens of tokenizeText with this pattern are words without whitespace. */
  lemma {:induction false} MarkerTokensFields(s: string, i: nat)
    requires i <= |s|
    ensures AllFields(TokensFrom(Marker, s, i))
    decreases |s| - i
  {
    var h := FirstHit(Marker, s, i);
    if h.None? {
      FieldsAreWords(s[i..]);
    } else {
      var p := h.value;
      TokensFromStep(Marker, s, i, p);
      MarkerText(s, p);
      var e := p + 5;
      var f, x, rest := Fields(s[i..p]), s[p..e], TokensFrom(Marker, s, e);
      MarkerTokensFields(s, e);
      MarkerIsField(x);
      FieldsAround(f, x, rest);
    }
  }

  lemma FieldsAreWords(s: string)
    ensures AllFields(Fields(s))
  {
  }

  lemma MarkerIsField(t: string)
    requires t == "(hex)" || t == "(bin)"
    ensures IsField(t)
  {
  }

  /** Words, a word, then words. */
  lemma FieldsAround(f: seq<string>, x: string, rest: seq<string>)
    requires AllFields(f) && IsField(x) && AllFields(rest)
    ensures AllFields(f + [x] + rest)
  {
    var r := f + [x] + rest;
    forall k | 0 <= k < |r| ensures IsField(r[k]) {
      if k < |f| {
        assert r[k] == f[k];
      } else if k == |f| {
        assert r[k] == x;
      } else {
        assert r[k] == rest[k - |f| - 1];
      }
    }
  }

  /** The conversion a marker token asks for: hex when the token contains "hex". */
  function Convert(marker: string, word: string): Option<string>
  {
    if Contains(marker, "hex") then ConvertHexToDec(word) else ConvertBinToDec(word)
  }

  /** One turn of the loop of TransformHexBin on token t at index i: a marker after the first
      token is dropped and converts the last word when it can; any other token is kept. */
  function HexBinStep(prev: seq<string>, t: string, i: nat): (r: seq<string>)
    requires i > 0 ==> |prev| > 0
  {
    if MatchString(Marker, t) && i > 0 then
      var c := Convert(t, prev[|prev| - 1]);
      if c.Some? then prev[|prev| - 1 := c.value] else prev
    else prev + [t]
  }

  /** The result list of TransformHexBin after the first n tokens. */
  function HexBinFold(tokens: seq<string>, n: nat): (r: seq<string>)
    requires n <= |tokens|
    ensures n > 0 ==> |r| > 0
  {
    if n == 0 then [] else HexBinStep(HexBinFold(tokens, n - 1), tokens[n - 1], n - 1)
  }

  /** The number of marker tokens among tokens[1..n]. */
  function DroppedMarkers(tokens: seq<string>, n: nat): nat
    requires n <= |tokens|
  {
    if n <= 1 then 0
    else DroppedMarkers(tokens, n - 1) + (if MatchString(Marker, tokens[n - 1]) then 1 else 0)
  }

  /** Each marker after the first token takes its place in the output away; every other
      token keeps one. */
  lemma {:induction false} FoldLength(tokens: seq<string>, n: nat)
    requires n <= |tokens|
    ensures |HexBinFold(tokens, n)| == n - DroppedMarkers(tokens, n)
  {
    if n > 0 {
      FoldLength(tokens, n - 1);
    }
  }

  /** Only the first word of the output can be a marker: the later ones are kept tokens that
      are no markers, or decimals. */
  lemma {:induction false} FoldNoMarkers(tokens: seq<string>, n: nat)
    requires n <= |tokens|
    ensures forall k :: 0 < k < |HexBinFold(tokens, n)| ==> !MatchString(Marker, HexBinFold(tokens, n)[k])
  {
    if n > 0 {
      FoldNoMarkers(tokens, n - 1);
      var prev := HexBinFold(tokens, n - 1);
      var t := tokens[n - 1];
      if MatchString(Marker, t) && n - 1 > 0 {
        var c := Convert(t, prev[|prev| - 1]);
        if c.Some? && |prev| > 1 {
          var v := if Contains(t, "hex") then ParseInt(prev[|prev| - 1], 16).value else ParseInt(prev[|prev| - 1], 2).value;
          assert c.value == FormatInt(v);
          DecimalIsField(v);
          if MatchString(Marker, c.value) {
            MatchHasParen(c.value);
          }
        }
      }
    }
  }

  /** Words without whitespace stay words without whitespace. */
  lemma {:induction false} FoldFields(tokens: seq<string>, n: nat)
    requires n <= |tokens| && AllFields(tokens)
    ensures AllFields(HexBinFold(tokens, n))
  {
    if n > 0 {
      FoldFields(tokens, n - 1);
      var prev := HexBinFold(tokens, n - 1);
      var t := tokens[n - 1];
      if MatchString(Marker, t) && n - 1 > 0 {
        var c := Convert(t, prev[|prev| - 1]);
        if c.Some? {
          var v := if Contains(t, "hex") then ParseInt(prev[|prev| - 1], 16).value else ParseInt(prev[|prev| - 1], 2).value;
          assert c.value == FormatInt(v);
          DecimalIsField(v);
        }
      }
    }
  }

  /** A word without '(' is no marker. */
  lemma NoParenNoMarker(t: string)
    requires '(' !in t
    ensures !MatchString(Marker, t)
  {
    if MatchString(Marker, t) {
      MatchHasParen(t);
    }
  }

  /** "(bin)" does not contain "hex", so it asks for the binary conversion. */
  lemma BinMarkerIsBin()
    ensures !Contains("(bin)", "hex")
  {
    forall i | 0 <= i <= 2 ensures !OccursAt("(bin)", i, "hex") {
      OccursChar("(bin)", i, "hex", 0);
    }
  }

  lemma HexOf30()
    ensures ConvertHexToDec("1E") == Some("30")
  {
    assert DigitValue('1') == 1 && DigitValue('E') == 14;
    assert Value("1E", 16) == 30 by {
      assert "1E"[..1] == "1";
      assert "1"[..0] == "";
    }
    assert ParseInt("1E", 16) == Some(30);
    assert FormatNat(30, 10) == FormatNat(3, 10) + [DigitChar(0)];
    assert FormatNat(3, 10) == "3" && DigitChar(0) == '0';
    assert FormatInt(30) == "30";
  }

  lemma BinOf2()
    ensures ConvertBinToDec("10") == Some("2")
  {
    assert DigitValue('1') == 1 && DigitValue('0') == 0;
    assert Value("10", 2) == 2 by {
      assert "10"[..1] == "1";
      assert "1"[..0] == "";
    }
    assert ParseInt("10", 2) == Some(2);
  }

  /** The first two steps of an example: a plain word, then a marker that converts it. */
  lemma ExampleSteps(ts: seq<string>, d: string)
    requires |ts| == 3 && '(' !in ts[0] && '(' !in ts[2]
    requires ts[1] == "(hex)" || ts[1] == "(bin)"
    requires Convert(ts[1], ts[0]) == Some(d)
    ensures HexBinFold(ts, 3) == [d, ts[2]]
  {
    NoParenNoMarker(ts[0]);
    NoParenNoMarker(ts[2]);
    assert HitAt(Marker, ts[1], 0);
    assert HexBinFold(ts, 1) == [ts[0]];
    assert HexBinFold(ts, 2) == [d];
  }

  /** "1E (hex) files": the word before the marker is rewritten in decimal, the marker is gone. */
  lemma HexExample()
    ensures HexBinFold(["1E", "(hex)", "files"], 3) == ["30", "files"]
  {
    HexOf30();
    assert OccursAt("(hex)", 1, "hex");
    ExampleSteps(["1E", "(hex)", "files"], "30");
  }

  /** "10 (bin) files" becomes "2 files". */
  lemma BinExample()
    ensures HexBinFold(["10", "(bin)", "files"], 3) == ["2", "files"]
  {
    BinOf2();
    BinMarkerIsBin();
    ExampleSteps(["10", "(bin)", "files"], "2");
  }

  /** The output of TransformHexBin for a text. */
  function HexBinText(text: string): string
  {
    var tokens := TokensFrom(Marker, text, 0);
    Join(HexBinFold(tokens, |tokens|), " ")
  }

  /** TransformHexBin */
  method TransformHexBin(text: string) returns (r: string)
    ensures r == HexBinText(text)
  {
    MarkerLocal();
    MarkerWhole();
    var tokens := TokenizeText(Marker, text);
    var result: seq<string> := [];
    for i := 0 to |tokens|
      invariant result == HexBinFold(tokens, i)
    {
      var token := tokens[i];
      if MatchString(Marker, token) && i > 0 {
        var prevWord := result[|result| - 1];
        var converted: Option<string>;
        if Contains(token, "hex") {
          converted := ConvertHexToDec(prevWord);
        } else {
          converted := ConvertBinToDec(prevWord);
        }
        if converted.Some? {
          result := result[|result| - 1 := converted.value];
        }
        continue;
      }
      result := result + [token];
    }
    r := Join(result, " ");
  }

  /** The output is single-spaced and its words are the result list, the first word alone
      possibly a marker; one word fewer for every marker after the first token. */
  lemma HexBinShape(text: string)
    ensures SingleSpaced(HexBinText(text))
    ensures Fields(HexBinText(text)) == HexBinFold(TokensFrom(Marker, text, 0), |TokensFrom(Marker, text, 0)|)
    ensures |Fields(HexBinText(text))| == |TokensFrom(Marker, text, 0)| - DroppedMarkers(TokensFrom(Marker, text, 0), |TokensFrom(Marker, text, 0)|)
    ensures forall k :: 0 < k < |Fields(HexBinText(text))| ==> !MatchString(Marker, Fields(HexBinText(text))[k])
  {
    var tokens := TokensFrom(Marker, text, 0);
    MarkerTokensFields(text, 0);
    FoldFields(tokens, |tokens|);
    var result := HexBinFold(tokens, |tokens|);
    JoinSingleSpaced(result);
    FieldsOfJoin(result);
    FoldLength(tokens, |tokens|);
    FoldNoMarkers(tokens, |tokens|);
  }
}
