/** The (hex) and (bin) appliers of processor/transformations.go: the word found before
    the marker, split at its first punctuation char, is read in base 16 or 2 and written
    back in base 10, and the marker is cut out of the text. */
module Conversions {

  import opened Wrappers
  import opened Text
  import opened Numbers
  import opened WordScan
  import opened WordList
  import opened Splicing

  // The split of a found word at its first punctuation char, shared by (hex) and (bin).

  /** The first punctuation char of w at or after i. */
  function PunctFrom(w: string, i: nat): (r: Option<nat>)
    requires i <= |w|
    ensures r.Some? ==> i <= r.value < |w| && IsPunct(w[r.value])
    ensures r.Some? ==> forall k :: i <= k < r.value ==> !IsPunct(w[k])
    ensures r.None? ==> forall k :: i <= k < |w| ==> !IsPunct(w[k])
    decreases |w| - i
  {
    if i == |w| then None else if IsPunct(w[i]) then Some(i) else PunctFrom(w, i + 1)
  }

  /** The part of a word that is converted and the punctuation that is put back after it. */
  datatype Split = Split(part: string, punct: string)

  /** The part before the first punctuation char (the whole word when it has none or starts
      with one) and that char, if any. */
  function SplitWord(w: string): (r: Split)
    ensures HasPrefix(w, r.part) && |r.punct| <= 1
    ensures r.punct == "" <==> forall k :: 0 <= k < |w| ==> !IsPunct(w[k])
    ensures r.punct != "" ==> IsPunct(r.punct[0])
    ensures r.part != w ==> r.punct != "" && w[|r.part|] == r.punct[0] && |r.part| > 0
                            && forall k :: 0 <= k < |r.part| ==> !IsPunct(r.part[k])
  {
    var p := PunctFrom(w, 0);
    if p.None? then Split(w, "")
    else Split(if p.value > 0 then w[..p.value] else w, [w[p.value]])
  }

  /** The loop of processHexAtPosition and processBinAtPosition that looks for the first
      punctuation char of the word and breaks there. */
  method ScanPunctuation(word: string) returns (hasPunctuation: bool, punctuationChar: char, punctuationPos: int)
    ensures hasPunctuation <==> PunctFrom(word, 0).Some?
    ensures hasPunctuation ==> punctuationPos == PunctFrom(word, 0).value && punctuationChar == word[punctuationPos]
    ensures !hasPunctuation ==> punctuationPos == -1
  {
    hasPunctuation, punctuationChar, punctuationPos := false, '\0', -1;
    var i := 0;
    while i < |word|
      invariant i <= |word|
      invariant PunctFrom(word, 0) == PunctFrom(word, i)
    {
      if IsPunct(word[i]) {
        hasPunctuation, punctuationChar, punctuationPos := true, word[i], i;
        return;
      }
      i := i + 1;
    }
  }

  /** SplitWord from what the scan reports. */
  method SplitScanned(word: string) returns (part: string, punct: string)
    ensures Split(part, punct) == SplitWord(word)
  {
    var hasPunctuation, punctuationChar, punctuationPos := ScanPunctuation(word);
    part := word;
    if hasPunctuation && punctuationPos > 0 {
      part := word[..punctuationPos];
    }
    punct := if hasPunctuation then [punctuationChar] else "";
  }

  // (hex)

  /** The decimal text processHexAtPosition writes for a hex part: ParseUint must accept it,
      its value must not exceed 0x7FFFFFFFFFFFFFFF, and ParseInt must accept it too. */
  function HexDecimal(part: string): Option<string>
  {
    var u := ParseUint(part, 16);
    if u.Some? && u.value <= MaxInt64 then
      var d := ParseInt(part, 16);
      if d.Some? then Some(FormatInt(d.value)) else None
    else None
  }

  /** A hex part converts exactly when its value fits in int64; then the decimal is the
      digits of that value and parses back to it. */
  lemma HexDecimalValue(part: string)
    requires IsHex(part)
    ensures AllDigits(part, 16)
    ensures HexDecimal(part).Some? <==> Value(part, 16) <= MaxInt64
    ensures HexDecimal(part).Some? ==>
              HexDecimal(part).value == FormatNat(Value(part, 16), 10)
              && ParseInt(HexDecimal(part).value, 10) == Some(Value(part, 16))
  {
    DigitPredicatesAgree(part);
    if Value(part, 16) <= MaxInt64 {
      assert part[0] != '-' && part[0] != '+' by {
        assert DigitValue(part[0]) < 16;
      }
      ParseFormatNat(Value(part, 16), 10);
    }
  }

  /** processHexAtPosition on text with a "(hex)" marker at pos. */
  function HexAt(text: string, pos: nat): string
    requires pos + 5 <= |text|
  {
    var f := WordBefore(text, pos);
    if f.word == "" then RemovePatternAt(text, "(hex)", pos)
    else
      var sp := SplitWord(f.word);
      if !IsHex(sp.part) then RemovePatternAt(text, "(hex)", pos)
      else
        var d := HexDecimal(sp.part);
        text[..f.start] + (if d.Some? then d.value else sp.part) + sp.punct + text[pos + 5..]
  }

  method ProcessHexAtPosition(text: string, pos: nat) returns (result: string)
    requires pos + 5 <= |text|
    ensures result == HexAt(text, pos)
  {
    var word, wordStart, _, _, _ := FindWordBefore(text, pos);
    if word != "" {
      var hexPart, punct := SplitScanned(word);
      if IsHex(hexPart) {
        var d := HexDecimal(hexPart);
        var before := text[..wordStart];
        var after := text[pos + 5..];
        if d.Some? {
          return before + d.value + punct + after;
        }
        return before + hexPart + punct + after;
      }
    }
    return RemovePatternAt(text, "(hex)", pos);
  }

  /** The word found before a marker, when it is a plain run of letters and digits. */
  predicate PlainFound(text: string, pos: nat)
    requires pos <= |text|
  {
    WordBefore(text, pos).word != "" && !WordBefore(text, pos).quoted
  }

  /** A plain word has no punctuation, so it is converted whole. */
  lemma PlainSplit(text: string, pos: nat)
    requires pos <= |text| && PlainFound(text, pos)
    ensures SplitWord(WordBefore(text, pos).word) == Split(WordBefore(text, pos).word, "")
  {
    PlainWordFacts(text, pos);
    var f := WordBefore(text, pos);
    forall k | 0 <= k < |f.word| ensures !IsPunct(f.word[k]) {
      assert f.word[k] == text[f.start + k];
    }
  }

  /** A plain hex word whose value fits in int64: the word, the gap after it and the marker
      become the decimal, which reads back as the value. */
  lemma HexConverts(text: string, pos: nat)
    requires pos + 5 <= |text| && PlainFound(text, pos)
    requires IsHex(WordBefore(text, pos).word)
    requires Value(WordBefore(text, pos).word, 16) <= MaxInt64
    ensures var f := WordBefore(text, pos);
            var dec := FormatNat(Value(f.word, 16), 10);
            HexAt(text, pos) == text[..f.start] + dec + text[pos + 5..]
            && ParseInt(dec, 10) == Some(Value(f.word, 16))
  {
    PlainSplit(text, pos);
    HexDecimalValue(WordBefore(text, pos).word);
  }

  /** A plain hex word too large for int64 is kept as it is; the gap and the marker go. */
  lemma HexTooLarge(text: string, pos: nat)
    requires pos + 5 <= |text| && PlainFound(text, pos)
    requires IsHex(WordBefore(text, pos).word)
    requires Value(WordBefore(text, pos).word, 16) > MaxInt64
    ensures var f := WordBefore(text, pos);
            HexAt(text, pos) == text[..f.start] + f.word + text[pos + 5..]
  {
    PlainSplit(text, pos);
    HexDecimalValue(WordBefore(text, pos).word);
  }

  /** Without a word, or when the word is not hex, exactly five bytes are cut at pos. */
  lemma HexFallsBack(text: string, pos: nat)
    requires pos + 5 <= |text|
    requires WordBefore(text, pos).word == "" || !IsHex(SplitWord(WordBefore(text, pos).word).part)
    ensures HexAt(text, pos) == text[..pos] + text[pos + 5..]
    ensures |HexAt(text, pos)| == |text| - 5
  {
  }

  // (bin)

  /** processBinAtPosition on text with a "(bin)" marker at pos. */
  function BinAt(text: string, pos: nat): string
    requires pos + 5 <= |text|
  {
    var f := WordBefore(text, pos);
    if f.word == "" then RemovePatternAt(text, "(bin)", pos)
    else
      var sp := SplitWord(f.word);
      var d := ParseInt(sp.part, 2);
      if IsBin(sp.part) && d.Some? then text[..f.start] + FormatInt(d.value) + sp.punct + text[pos + 5..]
      else RemovePatternAt(text, "(bin)", pos)
  }

  method ProcessBinAtPosition(text: string, pos: nat) returns (result: string)
    requires pos + 5 <= |text|
    ensures result == BinAt(text, pos)
  {
    var word, wordStart, _, _, _ := FindWordBefore(text, pos);
    if word != "" {
      var binPart, punct := SplitScanned(word);
      if IsBin(binPart) {
        var d := ParseInt(binPart, 2);
        if d.Some? {
          return text[..wordStart] + FormatInt(d.value) + punct + text[pos + 5..];
        }
      }
    }
    return RemovePatternAt(text, "(bin)", pos);
  }

  /** A binary part parses exactly when its value fits in int64. */
  lemma BinValue(part: string)
    requires IsBin(part)
    ensures AllDigits(part, 2)
    ensures ParseInt(part, 2).Some? <==> Value(part, 2) <= MaxInt64
    ensures ParseInt(part, 2).Some? ==> FormatInt(ParseInt(part, 2).value) == FormatNat(Value(part, 2), 10)
  {
    DigitPredicatesAgree(part);
    assert DigitValue(part[0]) < 2;
  }

  /** A plain binary word that fits in int64 becomes its decimal; the gap between it and the
      marker is dropped with the marker, so "10.(bin)" becomes "2". */
  lemma BinConverts(text: string, pos: nat)
    requires pos + 5 <= |text| && PlainFound(text, pos)
    requires IsBin(WordBefore(text, pos).word)
    requires Value(WordBefore(text, pos).word, 2) <= MaxInt64
    ensures var f := WordBefore(text, pos);
            var dec := FormatNat(Value(f.word, 2), 10);
            BinAt(text, pos) == text[..f.start] + dec + text[pos + 5..]
            && ParseInt(dec, 10) == Some(Value(f.word, 2))
  {
    PlainSplit(text, pos);
    BinValue(WordBefore(text, pos).word);
    ParseFormatNat(Value(WordBefore(text, pos).word, 2), 10);
  }

  /** A binary word beyond int64 is not converted: only the five bytes at pos are cut. */
  lemma BinTooLarge(text: string, pos: nat)
    requires pos + 5 <= |text| && PlainFound(text, pos)
    requires IsBin(WordBefore(text, pos).word)
    requires Value(WordBefore(text, pos).word, 2) > MaxInt64
    ensures BinAt(text, pos) == text[..pos] + text[pos + 5..]
  {
    PlainSplit(text, pos);
    BinValue(WordBefore(text, pos).word);
  }
}
