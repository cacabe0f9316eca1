/** The driver of processor/processor.go: applyAndRemovePattern, which picks the rewrite for a
    marker by looking at the marker's text; processAllPatterns, which rewrites the leftmost
    marker and searches again until none is left; and ProcessText, the order of all passes. */
module Driver {

  import opened Wrappers
  import opened Text
  import opened Rewrite
  import opened Markers
  import opened Scanner
  import opened Dispatch
  import Conversions
  import Casing
  import Numbered
  import Quotes
  import Punctuation
  import Articles
  import Contractions
  import CasePasses

  /** The rewrite a marker calls for, chosen by its parsed kind and command: hex and bin
      convert the word before it, a simple case marker recases one word, a numbered one
      recases the words its count asks for. */
  function ByCommand(text: string, pos: nat, pattern: string): string
    requires MarkerText(text, pos, pattern)
  {
    var m := MarkerOf(text, pos);
    if IsNumbered(text, pos) then Numbered.NumberedCase(text, pattern, pos)
    else
      match m.command
      case Hex => Conversions.HexAt(text, pos)
      case Bin => Conversions.BinAt(text, pos)
      case _ => Casing.CaseAt(text, pos, Name(m.command), 1)
  }

  /** The switch of applyAndRemovePattern as written: tests on the marker's text. */
  function Switched(text: string, pos: nat, pattern: string): (r: string)
    requires MarkerText(text, pos, pattern)
    ensures r == ByCommand(text, pos, pattern)
  {
    DispatchAll(text, pos, pattern);
    if pattern == "(hex)" || Contains(pattern, "hex") then Conversions.HexAt(text, pos)
    else if pattern == "(bin)" || Contains(pattern, "bin") then Conversions.BinAt(text, pos)
    else if pattern == "(up)" || (Contains(pattern, "up") && !Contains(pattern, ",")) then Casing.CaseAt(text, pos, "up", 1)
    else if pattern == "(low)" || (Contains(pattern, "low") && !Contains(pattern, ",")) then Casing.CaseAt(text, pos, "low", 1)
    else if pattern == "(cap)" || (Contains(pattern, "cap") && !Contains(pattern, ",")) then Casing.CaseAt(text, pos, "cap", 1)
    else Numbered.NumberedCase(text, pattern, pos)
  }

  /** Every test of the switch, on the text of a marker. */
  lemma DispatchAll(text: string, pos: nat, pattern: string)
    requires MarkerText(text, pos, pattern)
    ensures var m := MarkerOf(text, pos);
            (Contains(pattern, "hex") <==> m.command == Hex) && (Contains(pattern, "bin") <==> m.command == Bin)
            && (Contains(pattern, "up") <==> m.command == Up) && (Contains(pattern, "low") <==> m.command == Low)
            && (Contains(pattern, "cap") <==> m.command == Cap) && (Contains(pattern, ",") <==> IsNumbered(text, pos))
            && Contains("(hex)", "hex") && Contains("(bin)", "bin")
            && Contains("(up)", "up") && !Contains("(up)", ",")
            && Contains("(low)", "low") && !Contains("(low)", ",")
            && Contains("(cap)", "cap") && !Contains("(cap)", ",")
  {
    DispatchTests(text, pos, pattern, Hex);
    DispatchTests(text, pos, pattern, Bin);
    DispatchTests(text, pos, pattern, Up);
    DispatchTests(text, pos, pattern, Low);
    DispatchTests(text, pos, pattern, Cap);
    LiteralMarkers();
  }

  /** applyAndRemovePattern: the branch picked by the tests on the marker's text is the one
      its parsed command calls for, and formatQuotes runs on the result. The last branch of
      the switch, removePatternAt, is never reached for a marker. */
  method ApplyAndRemovePattern(text: string, pattern: string, position: nat) returns (result: string)
    requires MarkerText(text, position, pattern)
    ensures result == Quotes.QuotesFormatted(ByCommand(text, position, pattern))
  {
    var applied := Switched(text, position, pattern);
    DispatchAll(text, position, pattern);
    if pattern == "(hex)" || Contains(pattern, "hex") {
      result := Conversions.ProcessHexAtPosition(text, position);
    } else if pattern == "(bin)" || Contains(pattern, "bin") {
      result := Conversions.ProcessBinAtPosition(text, position);
    } else if pattern == "(up)" || (Contains(pattern, "up") && !Contains(pattern, ",")) {
      result := Casing.ProcessCaseAtPosition(text, position, "up", 1);
    } else if pattern == "(low)" || (Contains(pattern, "low") && !Contains(pattern, ",")) {
      result := Casing.ProcessCaseAtPosition(text, position, "low", 1);
    } else if pattern == "(cap)" || (Contains(pattern, "cap") && !Contains(pattern, ",")) {
      result := Casing.ProcessCaseAtPosition(text, position, "cap", 1);
    } else if Contains(pattern, ",") {
      result := Numbered.ProcessNumberedCasePattern(text, pattern, position);
    } else {
      assert false;
    }
    assert result == applied;
    result := Quotes.FormatQuotes(result);
  }

  /** The least offset from i where a marker of either kind starts. */
  function FirstMarkerFrom(s: string, i: nat): (r: Option<nat>)
    ensures r.Some? ==> i <= r.value < |s|
    decreases |s| - i
  {
    if i >= |s| then None
    else if AnyMarkerAt(s, i) then Some(i)
    else FirstMarkerFrom(s, i + 1)
  }

  /** No marker starts from i before the one FirstMarkerFrom reports, nor anywhere when it
      reports none. */
  lemma {:induction false} FirstMarkerFromLeast(s: string, i: nat, q: nat)
    requires i <= q < |s| && AnyMarkerAt(s, q)
    ensures FirstMarkerFrom(s, i).Some? && FirstMarkerFrom(s, i).value <= q
    decreases |s| - i
  {
    if !AnyMarkerAt(s, i) {
      FirstMarkerFromLeast(s, i + 1, q);
    }
  }

  /** A text without markers has no first one. */
  lemma NoMarkerNoFirst(s: string)
    requires forall q :: 0 <= q < |s| ==> !AnyMarkerAt(s, q)
    ensures FirstMarker(s).None?
  {
    FirstMarkerIs(s);
  }

  /** The leftmost marker of the text. */
  function FirstMarker(s: string): (r: Option<nat>)
    ensures r.Some? ==> r.value < |s|
  {
    FirstMarkerFrom(s, 0)
  }

  /** What FirstMarkerFrom reports is a marker. */
  lemma {:induction false} FirstMarkerFromIs(s: string, i: nat)
    ensures FirstMarkerFrom(s, i).Some? ==> AnyMarkerAt(s, FirstMarkerFrom(s, i).value)
    decreases |s| - i
  {
    if i < |s| && !AnyMarkerAt(s, i) {
      FirstMarkerFromIs(s, i + 1);
    }
  }

  /** The leftmost marker is a marker. */
  lemma FirstMarkerIs(s: string)
    ensures FirstMarker(s).Some? ==> AnyMarkerAt(s, FirstMarker(s).value)
  {
    FirstMarkerFromIs(s, 0);
  }

  /** The text of the marker at offset p. */
  function MarkerTextAt(s: string, p: nat): (t: string)
    requires p < |s| && AnyMarkerAt(s, p)
    ensures MarkerText(s, p, t)
  {
    TextOfMarker(s, p);
    s[p..MarkerEnd(s, p)]
  }

  /** findLeftmostPattern reports the leftmost marker and its text, or -1 when there is none. */
  lemma LeftmostIsFirst(s: string, pattern: string, position: int)
    requires position == -1 <==> forall j :: 0 <= j < |s| ==> !AnyMarkerAt(s, j)
    requires position != -1 ==> 0 <= position && MarkerText(s, position, pattern)
    requires position != -1 ==> forall j :: 0 <= j < position ==> !AnyMarkerAt(s, j)
    ensures position == -1 <==> FirstMarker(s).None?
    ensures position != -1 ==> position == FirstMarker(s).value && AnyMarkerAt(s, position) && pattern == MarkerTextAt(s, position)
  {
    if position == -1 {
      NoMarkerNoFirst(s);
    } else {
      LeastMarkerIsFirst(s, position);
      MarkerTextUnique(s, position, pattern, MarkerTextAt(s, position));
    }
  }

  /** A marker with none before it is the leftmost one. */
  lemma LeastMarkerIsFirst(s: string, p: nat)
    requires p < |s| && AnyMarkerAt(s, p)
    requires forall j :: 0 <= j < p ==> !AnyMarkerAt(s, j)
    ensures FirstMarker(s) == Some(p)
  {
    FirstMarkerFromLeast(s, 0, p);
    FirstMarkerIs(s);
  }

  /** findLeftmostPattern, stated by the leftmost marker. */
  method FindLeftmost(s: string) returns (pattern: string, position: int)
    ensures position == -1 <==> FirstMarker(s).None?
    ensures position != -1 ==> position == FirstMarker(s).value && AnyMarkerAt(s, position) && pattern == MarkerTextAt(s, position)
  {
    pattern, position := FindLeftmostPattern(s);
    LeftmostIsFirst(s, pattern, position);
  }

  /** A marker has one text. */
  lemma MarkerTextUnique(s: string, p: nat, t: string, u: string)
    requires MarkerText(s, p, t) && MarkerText(s, p, u)
    ensures t == u
  {
  }

  /** One round of processAllPatterns: the leftmost marker applied, then formatQuotes. */
  function Step(s: string, p: nat): (r: string)
    requires p < |s| && AnyMarkerAt(s, p)
  {
    Quotes.QuotesFormatted(ByCommand(s, p, MarkerTextAt(s, p)))
  }

  /** One round of processAllPatterns on s from offset i: the first marker from i applied,
      or None when none is left. */
  function RoundFrom(s: string, i: nat): (r: Option<string>)
    decreases |s| - i
  {
    if i >= |s| then None
    else if AnyMarkerAt(s, i) then Some(Step(s, i))
    else RoundFrom(s, i + 1)
  }

  /** A round from i is the round from the first marker FirstMarkerFrom reports, and does
      nothing when it reports none. */
  lemma {:induction false} RoundFromFirst(s: string, i: nat)
    ensures FirstMarkerFrom(s, i).None? ==> RoundFrom(s, i).None?
    ensures FirstMarkerFrom(s, i).Some? ==> RoundFrom(s, i) == RoundFrom(s, FirstMarkerFrom(s, i).value)
    decreases |s| - i
  {
    if i < |s| && !AnyMarkerAt(s, i) {
      RoundFromFirst(s, i + 1);
    }
  }

  /** A round from a marker applies that marker. */
  lemma RoundAt(s: string, p: nat)
    requires p < |s| && AnyMarkerAt(s, p)
    ensures RoundFrom(s, p) == Some(Step(s, p))
  {
  }

  /** One round of processAllPatterns on s, or None when s holds no marker. */
  function Round(s: string): (r: Option<string>)
  {
    RoundFrom(s, 0)
  }

  /** A round is the leftmost marker applied. */
  lemma RoundFirst(s: string)
    ensures FirstMarker(s).None? <==> Round(s).None?
    ensures FirstMarker(s).Some? ==>
              AnyMarkerAt(s, FirstMarker(s).value) && Round(s) == Some(Step(s, FirstMarker(s).value))
  {
    RoundFromFirst(s, 0);
    FirstMarkerIs(s);
    if FirstMarker(s).Some? {
      RoundAt(s, FirstMarker(s).value);
    }
  }

  function Rounds(): string -> Option<string>
  {
    s => Round(s)
  }

  /** processAllPatterns with at most fuel rounds: None when the markers outlast the fuel,
      otherwise the text once no marker is left. */
  function PatternsApplied(s: string, fuel: nat): (r: Option<string>)
    ensures r.Some? ==> FirstMarker(r.value).None?
    ensures FirstMarker(s).None? ==> r == Some(s)
  {
    RunDone(Rounds(), s, fuel);
    RoundFirst(s);
    var r := Run(Rounds(), s, fuel);
    if r.Some? then RoundFirst(r.value); r else r
  }

  /** The loop of processAllPatterns, one round at a time: it stops on a text without markers,
      gives up when the fuel is spent, and otherwise goes on from the rewritten text. */
  lemma PatternsAppliedStep(s: string, fuel: nat)
    ensures Round(s).None? ==> PatternsApplied(s, fuel) == Some(s)
    ensures Round(s).Some? && fuel == 0 ==> PatternsApplied(s, fuel).None?
    ensures Round(s).Some? && fuel > 0 ==> PatternsApplied(s, fuel) == PatternsApplied(Round(s).value, fuel - 1)
  {
    RoundFirst(s);
    if Round(s).Some? && fuel > 0 {
      RunStep(Rounds(), s, fuel);
    }
  }

  /** More fuel never changes a result that was reached. */
  lemma PatternsAppliedFuel(s: string, fuel: nat, more: nat)
    requires fuel <= more && PatternsApplied(s, fuel).Some?
    ensures PatternsApplied(s, more) == PatternsApplied(s, fuel)
  {
    RunFuel(Rounds(), s, fuel, more);
  }

  /** One pass of the loop of processAllPatterns: findLeftmostPattern, then
      applyAndRemovePattern on what it found; None when it found nothing. */
  method ApplyLeftmost(t: string) returns (n: Option<string>)
    ensures n == Round(t)
  {
    RoundFirst(t);
    var pattern, position := FindLeftmost(t);
    if position == -1 {
      return None;
    }
    var applied := ApplyAndRemovePattern(t, pattern, position);
    n := Some(applied);
  }

  /** processAllPatterns: find the leftmost marker, apply it, until none is found. The loop
      stops with None when its fuel runs out first. */
  method ProcessAllPatterns(text: string, fuel: nat) returns (r: Option<string>)
    ensures r == PatternsApplied(text, fuel)
  {
    var t := text;
    var left := fuel;
    while true
      invariant PatternsApplied(t, left) == PatternsApplied(text, fuel)
      decreases left
    {
      var n := ApplyLeftmost(t);
      PatternsAppliedStep(t, left);
      if n.None? {
        return Some(t);
      }
      if left == 0 {
        return None;
      }
      t := n.value;
      left := left - 1;
    }
  }

  /** The passes before the markers are resolved one by one, in the order of ProcessText. */
  function PrePassed(text: string): (r: string)
    ensures |r| <= |text|
  {
    var a := CasePasses.AdjacentChars(text);
    var b := CasePasses.NoSpaced(a);
    var c := CasePasses.AdjacentCased(b);
    CasePasses.AdjacentCharsClean(text);
    CasePasses.NoSpacedClean(a);
    CasePasses.SpecialCasesShrink(c);
    CasePasses.Nested(CasePasses.SpecialCases(c))
  }

  /** The formatting passes after the markers, in the order of ProcessText. */
  function Formatted(s: string): (r: string)
  {
    Articles.ArticlesFixed(Contractions.QuotesAndContractions(Punctuation.PunctuationFormatted(s)))
  }

  /** ProcessText with at most fuel rounds of processAllPatterns. */
  function Processed(text: string, fuel: nat): (r: Option<string>)
  {
    var m := PatternsApplied(PrePassed(text), fuel);
    if m.None? then None else Some(Formatted(m.value))
  }

  /** ProcessText: every pass in its order. */
  method ProcessText(text: string, fuel: nat) returns (r: Option<string>)
    ensures r == Processed(text, fuel)
  {
    var t := CasePasses.ExactChars(text);
    CasePasses.TripleShrinking();
    t := RescanLoop(CasePasses.Triple(), t);
    CasePasses.NoSpaceShrinking();
    t := RescanLoop(CasePasses.NoSpace(), t);
    CasePasses.AdjacentShrinking();
    t := RescanLoop(CasePasses.Adjacent(), t);
    t := CasePasses.SpecialCases(t);
    t := CasePasses.Nested(t);
    var m := ProcessAllPatterns(t, fuel);
    if m.None? {
      return None;
    }
    t := Punctuation.FormatPunctuation(m.value);
    t := Contractions.ProcessQuotesAndContractions(t);
    t := Articles.FixArticles(t);
    r := Some(t);
  }

  /** Once ProcessText has a result, more fuel gives the same one. */
  lemma ProcessedFuel(text: string, fuel: nat, more: nat)
    requires fuel <= more && Processed(text, fuel).Some?
    ensures Processed(text, more) == Processed(text, fuel)
  {
    PatternsAppliedFuel(PrePassed(text), fuel, more);
  }

  /** Every marker starts with '('. */
  lemma MarkerOpens(s: string, p: nat)
    requires p < |s|
    ensures AnyMarkerAt(s, p) ==> s[p] == '('
  {
    if AnyMarkerAt(s, p) {
      var m := MarkerOf(s, p);
    }
  }

  /** A text without '(' holds no marker: every pass that looks for one leaves it alone, and
      only the formatting passes act on it, with no fuel needed. */
  lemma PlainProcessed(text: string)
    requires CasePasses.Plain(text)
    ensures Processed(text, 0) == Some(Formatted(text))
  {
    CasePasses.PlainUntouched(text);
    forall q | 0 <= q < |text| ensures !AnyMarkerAt(text, q) {
      MarkerOpens(text, q);
    }
    NoMarkerNoFirst(text);
  }
}
