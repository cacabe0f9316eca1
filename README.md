# go-reloaded, modelled in Dafny

go-reloaded is a small text-completion tool. It reads a text file and edits the text as the markers
written into it ask:
- `(hex)` and `(bin)` replace the word before them with its decimal value;
- `(up)`, `(low)` and `(cap)` change the case of the word before them;
- `(up, n)`, `(low, n)` and `(cap, n)` do the same for the last n words.

It also tidies the spacing around punctuation, pairs single and double quotes, and fixes the
article "a"/"an" before vowels and consonants. Then it writes the result to an output file.

The repository holds several generations of this editor, and the model covers each of them:
- the live `processor` package: the marker driver, the word lookups, the conversions, the case
  passes and the formatters;
- the token pipeline of the `transformations` package, composed in `proccess/proccess.go`;
- the older `go-reloaded/processor` copy of the lookups and formatters;
- the file-name check of `main.go`.

How the Go code is carried over:
- Each Go function becomes a Dafny function, or a method with the same loops where the Go code
  appends, prepends or reassigns in a loop. Each method is proved equal to a specification
  function, and the properties of that function are proved as lemmas.
- Regular expressions are hand-written matchers. `ReplaceAll`, `FindAllStringIndex` and
  `MatchString` are modelled once, with the leftmost-first, non-overlapping semantics of Go's
  regexp package (module `Rewrite`).
- Go strings are sequences of single-byte characters.

## Model

| member | source | states |
|---|---|---|
| Scanner.FindAllPatterns | processor/processor.go:87-124 | the two append loops collect a match record for every simple marker, then for every numbered marker, in the order FindAllStringIndex reports them |
| Scanner.AllPatternsAreMarkers | processor/processor.go:91-121 | every collected match is a marker of the text at its recorded position, with its recorded text |
| Scanner.NoPatternsNoMarker | processor/processor.go:88-123 | when no match is collected, no marker of either kind starts anywhere in the text |
| Scanner.SimpleNumberedDisjoint | processor/processor.go:91-107 | a simple marker and a numbered marker never start at the same '(' |
| Scanner.LeastByPosition | processor/processor.go:68-73 | the loop's choice is one of the matches, and no match starts further left |
| Scanner.LeastIsLeftmost | processor/processor.go:61-76 | the least collected match is a marker, and no marker of either kind starts to its left |
| Scanner.FindLeftmostPattern | processor/processor.go:61-76 | returns -1 (and "") exactly when the text holds no marker; otherwise returns the text of the marker at the returned position, with no marker further left |
| Driver.LeftmostIsFirst | processor/processor.go:61-76 | the result of findLeftmostPattern is the first marker of the text and its text, or -1 when there is none |
| Driver.FindLeftmost | processor/processor.go:61-76 | findLeftmostPattern stated through the first marker of the text |
| Dispatch.DispatchTests | processor/processor.go:131-141 | on a marker's text, each strings.Contains test on a keyword holds exactly for that marker's own command, and the comma test holds exactly for a numbered marker |
| Dispatch.LiteralMarkers | processor/processor.go:131-140 | the exact markers named in the switch contain their keyword and no comma |
| Driver.DispatchAll | processor/processor.go:130-142 | every test of the switch, evaluated on the text of a marker |
| Driver.Switched | processor/processor.go:130-146 | the switch on the marker's text picks the branch its parsed command calls for; the default branch is never reached for a marker |
| Driver.ApplyAndRemovePattern | processor/processor.go:127-152 | the branch for the marker's command (hex, bin, a case of one word, or numbered), then formatQuotes on the result |
| Driver.RoundFirst | processor/processor.go:45-54 | a round exists exactly when the text has a marker; it applies the leftmost marker |
| Driver.PatternsApplied | processor/processor.go:43-58 | any result holds no marker, and a text without markers is returned unchanged |
| Driver.PatternsAppliedStep | processor/processor.go:45-55 | the loop stops on a text without markers; otherwise it continues from the rewritten text |
| Driver.PatternsAppliedFuel | processor/processor.go:43-58 | once the loop has stopped, more rounds allowed give the same text |
| Driver.ProcessAllPatterns | processor/processor.go:43-58 | the find-apply loop computes PatternsApplied |
| Driver.PrePassed | processor/processor.go:14-26 | the passes that run before the marker loop never lengthen the text |
| Driver.ProcessText | processor/processor.go:12-40 | the pre-passes, the marker loop, formatPunctuation, processQuotesAndContractions and fixArticles, in that order |
| Driver.ProcessedFuel | processor/processor.go:12-40 | once ProcessText has a result, more rounds allowed give the same result |
| Driver.PlainProcessed | processor/processor.go:12-40 | a text without '(' holds no marker: only the formatters act on it |
| CasePasses.NoSpaceShrinking | processor/processor.go:157-190 | the no-space expression replaces every match with something strictly shorter (the word alone, without its marker), so the loop ends |
| CasePasses.NoSpacedClean | processor/processor.go:155-193 | afterwards no word is directly followed by a case marker; the text is unchanged exactly when none was; it never grows; the pass is idempotent |
| CasePasses.AdjacentIdleAfterNoSpace | processor/processor.go:196-245 | processAdjacentCasePatterns finds nothing to rewrite in the output of processNoSpacePatterns |
| CasePasses.AdjacentCharsClean | processor/processor.go:332-370 | afterwards no three letter-and-marker units stand in a row, and the text never grows |
| CasePasses.SpecialCasesShrink | processor/processor.go:248-260 | the two literal rewrites never lengthen the text |
| CasePasses.Nested | processor/processor.go:263-267 | processNestedPatterns returns its input |
| CasePasses.PlainUntouched | processor/processor.go:12-26 | none of the pre-passes changes a text without '(' |
| WordScan.DigitPredicatesAgree | processor/utils.go:20-45 | isHex and isBin accept exactly the non-empty strings of base-16 and base-2 digits |
| WordScan.WordBefore | processor/utils.go:210-291 | a found word lies in a span that ends at or before the marker; NotFound exactly when the word is empty |
| WordScan.FindWordBefore | processor/utils.go:210-291 | the loops that move start and end compute WordBefore |
| WordScan.PlainWordFacts | processor/utils.go:268-289 | an unquoted result is the maximal run of letters and digits ending at its end, with only spaces and punctuation between it and the marker |
| WordScan.AdjacentWordFound | processor/utils.go:211-217 | when a letter or digit comes right before the marker, spaces aside, the word that ends there is found |
| WordScan.EnclosedFacts | processor/utils.go:219-266 | a quoted or parenthesised result has that shape, with only spaces between its end and the marker |
| WordScan.QuoteSliceBounds | processor/utils.go:233 | at a closing quote, the slice text[start+1:end-1] is out of order exactly when the quote stands at index 0 |
| WordScan.LoneQuotePanics | processor/utils.go:233 | on "'(up)" at 1 the slice as written is text[1:0], and the guarded lookup finds nothing |
| WordScan.GuardKeepsResults | processor/utils.go:219-239 | wherever the code as written does not panic, the guarded lookup returns exactly what the code returns |
| WordList.WordsBefore | processor/utils.go:303-324 | at most count words, each non-empty and lying before the marker |
| WordList.WordsBeforeOrdered | processor/utils.go:310-321 | the spans come in text order and do not overlap |
| WordList.WordsBeforeStops | processor/utils.go:310-314 | a short result means that one more lookup would find nothing |
| WordList.WordsBeforeLast | processor/utils.go:311-316 | the last word of the list is the word found right before the marker |
| WordList.WordsBeforeEnd | processor/utils.go:310-314 | the lookups stop when the count is used up, the text starts, or nothing is found |
| WordList.FindWordsBefore | processor/utils.go:303-324 | the counted loop that prepends to four parallel slices returns the words, spans, quote flags and quote chars of WordsBefore |
| Splicing.RemovePatternAt | processor/utils.go:327-329 | the result is |pattern| shorter, and the text before the cut, the cut bytes and the text after it give back the input |
| Splicing.RemoveKeeps | processor/utils.go:328 | bytes before the cut keep their offsets |
| Splicing.RemoveShifts | processor/utils.go:328 | bytes after the cut move left by the length of the pattern |
| Splicing.GetPatternLength | processor/utils.go:332-338 | the length of the marker text built from the case type and count; it is len(caseType)+2 exactly when the count is 1 |
| Splicing.ReconstructTextWithTransformedWords | processor/utils.go:341-362 | the appending loop computes ReconstructWithWords |
| Splicing.ReconstructOriginalWords | processor/utils.go:341-362 | writing back the words that were found only excises the marker |
| Splicing.ReconstructKeepsGaps | processor/utils.go:346-359 | for any replacement words, the result holds the text before the first span, each word followed by its original gap, and the text between the last span and the marker followed by the text after the marker |
| Tokenizer.TokensAreTokens | processor/utils.go:48-69 | every token is a non-empty run of letters and digits, or a single char that is neither a space nor a letter or digit |
| Tokenizer.Tokenize | processor/utils.go:48-69 | the builder loop computes Tokens |
| Tokenizer.ReconstructText | processor/utils.go:72-84 | the appending loop computes Reconstruct |
| Tokenizer.TokensConcat | processor/utils.go:48-69 | tokenizing splits at every boundary where two letters or digits do not meet |
| Tokenizer.TokenizeReconstruct | processor/utils.go:48-84 | tokenize undoes reconstructText on any list of tokens it can produce |
| Tokenizer.RetokenizeRoundTrip | processor/utils.go:48-84 | tokenize(reconstructText(tokenize(s))) == tokenize(s) |
| Conversions.ScanPunctuation | processor/transformations.go:16-27 | it reports the first punctuation char of the word and its index, or -1 when there is none |
| Conversions.SplitScanned | processor/transformations.go:16-33 | the part before the first punctuation and that punctuation, as the scan reports them |
| Conversions.ProcessHexAtPosition | processor/transformations.go:12-80 | the splice computes HexAt |
| Conversions.PlainSplit | processor/transformations.go:29-33 | a plain word holds no punctuation, so it is converted whole |
| Conversions.HexConverts | processor/transformations.go:35-56 | a hex word whose value fits in int64 is replaced, together with the gap and the marker, by its decimal, which reads back as the value |
| Conversions.HexTooLarge | processor/transformations.go:61-75 | a hex word beyond int64 is kept as it is; the gap and the marker go |
| Conversions.HexFallsBack | processor/transformations.go:78-79 | with no word, or a word that is not hex, exactly the five bytes of the marker are cut |
| Conversions.ProcessBinAtPosition | processor/transformations.go:83-125 | the splice computes BinAt |
| Conversions.BinConverts | processor/transformations.go:106-119 | a binary word that fits in int64 becomes its decimal, and the gap goes with the marker: "10.(bin)" gives "2" |
| Conversions.BinTooLarge | processor/transformations.go:106-124 | a binary word beyond int64 is not converted; only the five bytes of the marker are cut |
| Numbers.ParseInt | processor/transformations.go:41 | strconv.ParseInt of bit size 64 returns a value in the int64 range, or fails |
| Numbers.Atoi | processor/transformations.go:195 | strconv.Atoi returns a value in the int64 range: the clamped bound on a range error, 0 on a syntax error |
| Numbers.ValueOfFormat | processor/transformations.go:50 | reading back the digits FormatInt writes gives the number |
| Numbers.ParseFormatNat | processor/transformations.go:41-50 | ParseInt accepts what FormatInt writes for every non-negative int64, in bases 2 to 16 |
| Numbers.ParseFormatInt | transformations/hex_bin.go:11-15 | in base 10, ParseInt and Atoi invert FormatInt over the whole int64 range |
| Numbers.ParseIntRejects | processor/transformations.go:107 | an empty string, a lone sign, or a char that is not a digit of the base is a syntax error |
| Numbers.AtoiClamps | processor/transformations.go:195-200 | a count above int64 clamps to the maximum; a count with a minus sign is never positive |
| Casing.CaseOf | processor/transformations.go:134-143 | the word's case is changed by up, cap or low, any other type keeps it; the length never changes |
| Casing.CaseOfIdempotent | processor/transformations.go:134-143 | applying each transformation twice is the same as applying it once |
| Casing.ProcessCaseAtPosition | processor/transformations.go:128-187 | the rewrite computes CaseAt |
| Casing.CaseAtSingle | processor/transformations.go:147-179 | with count 1: the text before the word, the transformed word inside its quotes or parentheses, the text up to the marker, then the text after the first len(caseType)+2 bytes of the marker |
| Casing.CaseAtNoWord | processor/transformations.go:182-186 | with no word before the marker, the marker text built from the type and count is cut, and nothing else changes |
| Numbered.WordsInLineAreRuns | processor/transformations.go:249-290 | at most count words, each a maximal run of word chars on the marker's line to its left, in text order |
| Numbered.FindWordsBeforeInLine | processor/transformations.go:249-290 | the appending loops return the words, spans, quote flags and quote chars of WordsInLine |
| Numbered.ProcessNumberedCasePattern | processor/transformations.go:189-246 | transforming the words, splicing them from right to left and cutting the pattern computes NumberedCase |
| Numbered.NumberedPartsFound | processor/transformations.go:191-195 | the pattern parses exactly when it holds a numbered marker, and then the first such marker is read |
| Numbered.CaseInLineWord | processor/transformations.go:203-238 | with a positive count, each word taken becomes its transformation in place |
| Numbered.CaseInLineKeeps | processor/transformations.go:220-238 | every byte before the marker outside the words taken is kept |
| Numbered.CaseInLineTail | processor/transformations.go:241 | what follows the marker is kept, moved left by the length of the pattern |
| Numbered.CaseInLineOnlyCuts | processor/transformations.go:197-200 | a count of zero or below, or a line without words, only cuts the pattern out |
| Quotes.ConsecutiveQuotesKeepCount | processor/transformations.go:395-414 | handleConsecutiveQuotes keeps the number of quote chars on the line |
| Quotes.ConsecutiveQuotesShort | processor/transformations.go:395-414 | afterwards no run of three or more quote chars is left |
| Quotes.FormatQuoteType | processor/transformations.go:490-555 | the rune loop computes PairQuotes |
| Quotes.PairedEven | processor/transformations.go:490-555 | the quote char occurs an even number of times on the line afterwards |
| Quotes.PairedKeeps | processor/transformations.go:490-555 | every char other than the quote and whitespace is kept with its count, and no other char is brought in |
| Quotes.ContractionGetsCloser | processor/transformations.go:490-555 | a lone apostrophe in "don't" gets a closing quote at the end of the line |
| Quotes.PairIsTrimmed | processor/transformations.go:490-555 | the text inside a pair is trimmed: "' hello '" becomes "'hello'" |
| Quotes.FormatQuotesInLine | processor/transformations.go:383-393 | the double quotes, then the single quotes, of one line |
| Quotes.QuotesInLineEven | processor/transformations.go:383-393 | both quote chars end up in even numbers on the line |
| Quotes.FormatQuotes | processor/transformations.go:373-381 | the line loop computes QuotesFormatted |
| Quotes.FormatQuotesLines | processor/transformations.go:373-381 | line k of the output is line k of the input with its quotes formatted, and the newlines are kept |
| Punctuation.HandleConsecutivePunctuation | processor/transformations.go:358-370 | the fixpoint loop computes PunctJoined |
| Punctuation.PunctJoinedStable | processor/transformations.go:358-370 | afterwards no punctuation, whitespace and punctuation remain in a row |
| Punctuation.ConsecutivePunctuationIdle | processor/transformations.go:358-370 | with no whitespace before punctuation, the pass finds nothing to join |
| Punctuation.FormatPunctuationLine | processor/transformations.go:322-350 | the loop body computes PunctLine |
| Punctuation.FormatPunctuation | processor/transformations.go:318-355 | the line loop computes PunctuationFormatted |
| Punctuation.PunctLineClean | processor/transformations.go:322-350 | a formatted line has no whitespace before punctuation and no leading space |
| Punctuation.FormatPunctuationLines | processor/transformations.go:318-355 | line k of the output is line k of the input formatted, and the newlines are kept |
| Punctuation.FormatPunctuationClean | processor/transformations.go:318-355 | every output line has no whitespace before punctuation and no leading space |
| Spacing.SqueezeTidy | processor/transformations.go:417-430 | squeezing the inside of a pair leaves no two whitespace chars in a row and keeps its first and last non-whitespace chars |
| Spacing.FormatParenthesesKeeps | processor/transformations.go:417-430 | formatParentheses keeps every char that is not a space, with its count |
| Spacing.FormatParenthesesNoNewline | processor/transformations.go:417-430 | formatParentheses brings in no newline |
| Spacing.ParenthesesExample | processor/transformations.go:417-430 | "(   ggg   gg   )" becomes "(ggg gg)" |
| Spacing.CloseGaps | processor/transformations.go:303-310 | the fixpoint loop on one line computes GapsClosed |
| Spacing.GapsClosedStable | processor/transformations.go:303-310 | once the loop stops, no word, two or more whitespace chars and a word remain in a row |
| Spacing.GapsClosedKeeps | processor/transformations.go:303-310 | closing the gaps keeps every char that is not whitespace, with its count |
| Spacing.NormalizeSpaces | processor/transformations.go:293-316 | formatQuotes, formatParentheses, then the gaps closed line by line, compute SpacesNormalized |
| Spacing.NormalizedLines | processor/transformations.go:293-316 | line k of the output is line k of the tidied text with its gaps closed, the newlines are kept, and no line holds a word, a double gap and a word |
| Articles.NewArticle | processor/transformations.go:433-488 | a or A gets an n before a vowel or h, and loses it before anything else; the first letter keeps its case |
| Articles.ArticleWordLower | processor/transformations.go:433-488 | an article word is "a" or "an" in any case mix |
| Articles.FixArticles | processor/transformations.go:433-488 | the rewrite computes ArticlesFixed |
| Articles.ArticlesKeep | processor/transformations.go:433-488 | on a line, only the n of an article and whitespace change |
| Articles.FixArticlesLines | processor/transformations.go:433-488 | the fix works line by line and keeps the newlines |
| Articles.ArticleBeforeVowel | processor/transformations.go:433-488 | "a apple" becomes "an apple" |
| Articles.ArticleBeforeConsonant | processor/transformations.go:433-488 | "An car" becomes "A car" |
| Contractions.ProcessQuotesAndContractions | processor/processor.go:292-329 | the quote expressions, then the loop over the contraction list, compute QuotesAndContractions, keeping the number of apostrophes |
| Contractions.FixContractionsKeep | processor/processor.go:310-327 | the contraction loop keeps the number of apostrophes |
| Contractions.StandaloneKeeps | processor/processor.go:294-300 | a quoted word with spaces inside keeps its two quotes when the spaces go |
| Contractions.QuotesAndContractionsKeep | processor/processor.go:292-329 | the whole pass keeps the number of apostrophes |
| Contractions.ContractionExample | processor/processor.go:310-327 | "I DON 't" has its contraction closed up, matched without regard to case and written as the list spells it |
| HexBin.ConvertHexToDec | transformations/hex_bin.go:10-16 | succeeds exactly when ParseInt in base 16 does, and the decimal reads back as the same value |
| HexBin.ConvertBinToDec | transformations/hex_bin.go:19-25 | the same in base 2 |
| HexBin.HexRoundTrip | transformations/hex_bin.go:10-16 | every int64 written in hex converts to its decimal |
| HexBin.BinRoundTrip | transformations/hex_bin.go:19-25 | every int64 written in binary converts to its decimal |
| HexBin.PrefixRefused | transformations/hex_bin.go:11-20 | with the base given, a "0x" or "0b" prefix is refused |
| HexBin.FoldLength | transformations/hex_bin.go:33-55 | each marker after the first token takes its place out of the result; every other token keeps one |
| HexBin.FoldNoMarkers | transformations/hex_bin.go:33-55 | only the first word of the result can be a marker |
| HexBin.HexExample | transformations/hex_bin.go:42-51 | "1E (hex) files" gives "30 files" |
| HexBin.BinExample | transformations/hex_bin.go:44-51 | "10 (bin) files" gives "2 files" |
| HexBin.TransformHexBin | transformations/hex_bin.go:28-58 | the token loop computes HexBinText |
| HexBin.HexBinShape | transformations/hex_bin.go:28-58 | the output is single-spaced, its words are the result of the fold, one fewer for each marker after the first token, and only the first can be a marker |
| TokenText.PartsConcat | transformations/hex_bin.go:62-77 | the parts glue back into the text |
| TokenText.PartsTokens | transformations/hex_bin.go:61-89 | for a marker pattern that reads only its match, the tokens of the parts are the reference tokens |
| TokenText.TokensShape | transformations/hex_bin.go:79-86 | every token is a whitespace-free word or a text the pattern matches |
| TokenText.CutParts | transformations/hex_bin.go:62-77 | the loop over the matches computes the parts |
| TokenText.TokenizeText | transformations/hex_bin.go:61-89 | the two loops compute the tokens of the parts, which are the reference tokens for such a pattern |
| CasePattern.CaseMarkerLocal | transformations/case.go:41-42 | the case marker pattern reads only the chars of its match |
| CasePattern.CaseMarkerWhole | transformations/case.go:41-46 | a marker matched in a part matches that part as a whole token |
| CasePattern.MarkerTextMatches | transformations/case.go:41 | every marker text, whatever follows it, matches as that marker |
| CasePattern.MatchIsMarkerText | transformations/case.go:41 | every match is "(" keyword ")" or "(" keyword "," whitespace digits ")" |
| CaseMarkers.CapitalizeShape | transformations/case.go:21-26 | capitalize keeps the length and the lower-case form, and leaves an upper first letter and lower-case rest |
| CaseMarkers.QuoteRuleShape | transformations/case.go:62-64 | the quote rule keeps the length and the lower-case form, and capitalizes after the quote |
| CaseMarkers.CaseWordIff | transformations/case.go:60-73 | a word is the transformation of another exactly when they have the same length and lower-case form and it has the shape of the kind |
| CaseMarkers.ReachIs | transformations/case.go:49-55 | no count means 1, a count that Atoi reads means that value, and a count too large for an int means 1 |
| CaseMarkers.ApplyCaseWindow | transformations/case.go:56-74 | a marker reaching n words changes the case of the last min(n, len) words and of no other; a count of 0 changes nothing |
| CaseMarkers.MarkOfIff | transformations/case.go:46-47 | a marker is read from exactly the tokens MatchString accepts |
| CaseMarkers.CaseFoldKept | transformations/case.go:44-79 | the result list holds the non-marker tokens in order, with only their case changed |
| CaseMarkers.EllipsisRoundTrip | transformations/case.go:9-18 | the ellipsis protection is undone exactly on a text without '%' |
| CaseMarkers.PlaceholderInText | transformations/case.go:9-18 | a placeholder already in the text comes out as "..." |
| CaseMarkers.ApplyMarker | transformations/case.go:56-75 | the inner loop changes the case of the words from max(0, len - num) on |
| CaseMarkers.CaseTokensLoop | transformations/case.go:44-80 | the token loop computes CaseFold |
| CaseMarkers.TransformCase | transformations/case.go:34-86 | fixQuotes, the protection, the tokens, the loop, the join and the unprotection compute TransformCaseText |
| CaseMarkers.EllipsisLeakFor | transformations/case.go:39-84 | as written, (low) after a word ending in an ellipsis lower-cases the placeholder, and the ellipsis is lost |
| CaseMarkers.GluedLeakFor | transformations/case.go:39-84 | the same leak when the marker follows the ellipsis with no space between them |
| CaseMarkers.TransformCaseFixedWords | transformations/case.go:34-86 | without the protection, the output is single-spaced and its words are the non-marker tokens with only their case changed |
| CaseMarkers.EllipsisKeptFor | transformations/case.go:39-84 | without the protection, the same inputs keep their ellipsis |
| QuoteFix.QuoteSpanShape | transformations/punctuation.go:19 | every match of '\s*(.*?)\s*' has the shape of a quote pair |
| QuoteFix.QuoteSpanIs | transformations/punctuation.go:19 | that shape pins the match down |
| QuoteFix.FixQuote2Content | transformations/punctuation.go:18-24 | FixQuotes2 writes the group of the match, trimmed with TrimSpace, between two quotes |
| QuoteFix.QuotePassesAgree | transformations/punctuation.go:18-24 | FixQuotes2 and fixQuotes agree on every text without a vertical tab |
| QuoteFix.FixQuotesKeeps | transformations/case.go:29-31 | fixQuotes keeps every char that is not whitespace, with its count |
| QuoteFix.FixQuotes2Keeps | transformations/punctuation.go:18-24 | FixQuotes2 keeps every char that is not whitespace, with its count |
| PunctuationPasses.DotsMeaning | transformations/punctuation.go:29 | the ellipsis expression matches exactly at a run of two or more dots with whitespace between, and replaces the whole run with "..." |
| PunctuationPasses.FixPunctuationGroupsKeeps | transformations/punctuation.go:27-35 | FixPunctuationGroups changes only dots and whitespace |
| PunctuationPasses.SpacesBeforeTight | transformations/punctuation.go:40 | taking the whitespace out before the marks leaves none before a mark and shows the same text |
| PunctuationPasses.FixGeneralPunctuationShape | transformations/punctuation.go:38-59 | FixGeneralPunctuation only moves whitespace, and its first step leaves none before a sentence mark |
| PunctuationPasses.FixSpacingShape | transformations/punctuation.go:62-68 | FixSpacing leaves no double whitespace and none at either end, and shows the same text |
| PunctuationPasses.FixSpacingIdempotent | transformations/punctuation.go:62-68 | a second run of FixSpacing changes nothing |
| PunctuationPasses.CleanFinalSpacingShape | transformations/punctuation.go:71-89 | CleanFinalSpacing only moves whitespace, and its first step leaves none before a comma, dot, exclamation or question mark |
| PunctuationPasses.FixPunctuationShape | transformations/punctuation.go:9-15 | after the quote and group rewrites only whitespace moves, and the result has no double whitespace and none at either end |
| Pipeline.AfterCaseShape | proccess/proccess.go:20-28 | the passes after the case pass leave a single-spaced text that a second normalisation keeps, and that shows what the case pass produced |
| Pipeline.ProcessTextShape | proccess/proccess.go:10-29 | the output is single-spaced, normalisation leaves it alone, and it shows what TransformCase produced |
| Pipeline.ProcessTextFixedShape | proccess/proccess.go:10-29 | the same with the ellipsis protection taken out of the case pass |
| Pipeline.GroupedLow | proccess/proccess.go:12-15 | a word, then "... (low)", reaches the case pass as the word, then "...(low)" |
| Pipeline.ProcessTextLeak | proccess/proccess.go:10-29 | as written, a word of letters followed by "... (low)" comes out lower-cased with "%%ellipsis%%" in place of the ellipsis |
| Pipeline.HiLowLeak | proccess/proccess.go:10-29 | "hi... (low)" comes out as "hi%%ellipsis%%" |
| FileName.Base | main.go:19 | filepath.Base is non-empty, and holds no slash unless it is "/" |
| FileName.TxtBase | main.go:14-19 | when the name ends with ".txt" in any case mix, its base name is its last element |
| FileName.ValidTxtFileIff | main.go:12-25 | a name is accepted exactly when its last element is longer than ".txt", ends with ".txt" in any case mix, and does not start with a dot |
| FileName.DirectoryIrrelevant | main.go:12-25 | a directory part neither helps nor hurts |
| FileName.ExtensionCaseIgnored | main.go:14 | the extension is compared without regard to case |
| FileName.HiddenRefused | main.go:20-22 | a name whose last element starts with a dot is refused, ".txt" itself included |
| FileName.VisibleAccepted | main.go:12-25 | a visible stem before ".txt" is accepted, in any directory |
| LegacyWords.LegacyWordBefore | go-reloaded/processor/utils.go:97-166 | a found word lies in a span that ends at or before the marker; no span exactly when the word is empty |
| LegacyWords.LegacyFindWordBefore | go-reloaded/processor/utils.go:97-166 | the index loops compute LegacyWordBefore |
| LegacyWords.LegacyPlainFacts | go-reloaded/processor/utils.go:157-165 | a plain result is the maximal run of letters and digits that ends where the spaces before the marker begin |
| LegacyWords.PunctuationHidesWord | go-reloaded/processor/utils.go:157-165 | punctuation right before the marker, spaces aside, hides the word before it |
| LegacyWords.LegacyAgrees | go-reloaded/processor/utils.go:97-166 | everywhere else the older lookup finds what the live one finds |
| LegacyWords.LegacyFindWordsBefore | go-reloaded/processor/utils.go:173-238 | the two loops compute LegacyWordsBefore |
| LegacyWords.TakeIsSuffix | go-reloaded/processor/utils.go:212-235 | the second loop takes the last r words of all the groups, each with its group's span |
| LegacyWords.LegacyWordsBeforeShape | go-reloaded/processor/utils.go:173-238 | nothing for a count of zero or less; otherwise the last count words of the groups found, sub-words of a spaced group counted one by one, with spans from the groups in text order before the marker |
| LegacyTransforms.HexRunIs | go-reloaded/processor/transformations.go:23 | the run that ^(\s*\(hex\))* takes away shows only its markers, and no further marker follows it |
| LegacyTransforms.LegacyHexConverts | go-reloaded/processor/transformations.go:15-25 | a word ParseInt reads in base 16 becomes its decimal, and the marker goes with every marker right after it |
| LegacyTransforms.LegacyBinConverts | go-reloaded/processor/transformations.go:32-41 | a word ParseInt reads in base 2 becomes its decimal, and the text after the marker is kept whole |
| LegacyTransforms.LegacyConversionFallsBack | go-reloaded/processor/transformations.go:27-43 | without a word, or with one ParseInt refuses, exactly the five bytes of the marker go |
| LegacyTransforms.LegacyNumberedCuts | go-reloaded/processor/transformations.go:155-243 | on the path that finds no word, exactly the pattern is cut; the count read is never negative |
| LegacyTransforms.PunctuationSpacedShape | go-reloaded/processor/transformations.go:246-258 | after the three expressions no whitespace stands before a mark, a mark followed by a word has a space after it, and the join of stops finds nothing to join |
| LegacyTransforms.LegacyFormatQuotesVisible | go-reloaded/processor/transformations.go:269-287 | formatQuotes takes out whitespace only |
| LegacyTransforms.LegacyFormatPunctuationKeeps | go-reloaded/processor/transformations.go:246-266 | formatPunctuation keeps every char that is not whitespace, with its count |
| LegacyTransforms.LegacyFixArticlesKeeps | go-reloaded/processor/transformations.go:306-340 | fixArticles as written keeps every char but n, N, whitespace and the article's a or A |
| LegacyTransforms.LegacyFixArticlesFixedKeeps | go-reloaded/processor/transformations.go:306-340 | with the article's case kept, fixArticles keeps every char but n, N and whitespace |
| LegacyTransforms.ArticleCaseLost | go-reloaded/processor/transformations.go:325-337 | as written, a lower-case "an" before a consonant comes out as "A" |
| LegacyTransforms.ArticleCaseKept | go-reloaded/processor/transformations.go:325-337 | with the case kept, "an" before a consonant becomes "a", and "An" becomes "A" |

## Left out

- Characters are single bytes with ASCII classes. `unicode.IsLetter`, `unicode.IsSpace`, the rune
  loop of `formatQuoteType` that truncates runes to bytes, and the curly quotes ’ and ” are not
  modelled beyond being opaque chars.
- CasePasses.NoSpaced: `cases.Title(language.Und)` from golang.org/x/text (processor/processor.go:181, 233, 284) is replaced by ASCII capitalisation of the first letter and lower-casing of the rest. Title casing of non-ASCII letters and of words that start with a non-letter is not captured.
- Casing.CaseOf: the `capitalize` that processor/transformations.go:138 and 211 call is not part of this model; it is taken to be the `capitalize` of transformations/case.go:21-26.
- Driver.PatternsApplied: processAllPatterns loops until no marker is left, and its rounds can lengthen the text (formatQuotes may add a quote), so it is given at most a fixed number of rounds as a parameter. None means the markers outlasted that number; nothing is claimed about termination beyond it. Driver.ProcessAllPatterns and Driver.ProcessText carry the same parameter.
- WordScan.WordBefore: the quote branch of findWordBefore is guarded as in go-reloaded/processor/utils.go:120, so it is total. processor/utils.go:233 as written slices out of range when a lone quote stands at index 0 before the marker (a Go panic). The guarded lookup returns NotFound there and equals the code everywhere else (WordScan.GuardKeepsResults). The callers (Casing.CaseAt, WordList.WordsBefore, Conversions.HexAt, Conversions.BinAt and Driver.PatternsApplied) therefore return a value where the program crashes. See Findings.
- CaseMarkers.CaseFoldKept: states that the non-marker tokens keep their order and letters, not that no marker reaches the output. A marker can: "(UP) (low)" lower-cases the first marker token, which the loop has already kept as a word.
- PunctuationPasses.FixGeneralPunctuationShape: states that only whitespace moves and that the first step leaves no whitespace before a sentence mark. The later steps, which add a space after a mark, are not characterised further.
- PunctuationPasses.CleanFinalSpacingShape: states that only whitespace moves and the first step's effect. Steps 2 to 4 are not characterised further. Step 4 can split an ellipsis ("hi..." becomes "hi. ..").
- LegacyTransforms.LegacyFixArticlesKeeps: excludes the article's own a and A from the kept chars, because the an-to-a callback as written turns "an" into "A" (see Findings).
- LegacyTransforms.LegacyNumberedCuts: only the no-word path of the older processNumberedCasePattern is modelled. Its positive-count path (go-reloaded/processor/transformations.go:163-240) and the older processCaseAtPosition (47-153) iterate a Go map, whose order is unspecified. Their ReplaceAllString also rewrites every occurrence of a word anywhere in the text, so the result is not determined by the input.
- processSpecialTestCases and the literal branch of processAdjacentCharPatterns are modelled as the literal rewrites they are, with only the never-lengthens lemmas.
- The unused helpers extractCommands, findWordsAfter, bytesToRunes and isVowel are not modelled.
- isQuoted and getQuoteChar, which findWordsBeforeInLine calls (processor/transformations.go:285-286), are not part of this model. The words they see are runs of `[A-Za-z0-9_]`, so they are taken as false and 0.
- HexBin.TransformHexBin is modelled, but proccess/proccess.go:10-29 never calls it; the pipeline composes only the quote, punctuation and case passes.
- main.go's main (argument count, filepath.Abs, os.Stat, ReadFile, WriteFile and exit codes) is file and process I/O. Only isValidTxtFile is modelled. filepath.Base is taken with Unix separators.
- Concurrency and floating point do not occur in the core.

## Findings

| source | as written | input that shows it | evidently intended | confidence | as-written member | corrected member |
|---|---|---|---|---|---|---|
| processor/utils.go:233 | the quote slice text[start+1:end-1] is taken without checking start+1 <= end-1 | "'(up)", marker at 1: the slice is text[1:0], and Go panics | skip the quote branch when the quotes enclose nothing, as go-reloaded/processor/utils.go:120 does | not executed | WordScan.LoneQuotePanics | WordScan.GuardKeepsResults |
| transformations/case.go:72 | the ellipsis placeholder "%%ELLIPSIS%%" stays glued to its word, so (low) lower-cases it; unprotectEllipsis at line 84 then no longer finds it | "hi... (low)" through proccess/proccess.go gives "hi%%ellipsis%%" | the ellipsis survives: "hi..." | not executed | Pipeline.ProcessTextLeak | CaseMarkers.EllipsisKeptFor |
| go-reloaded/processor/transformations.go:330 | the an-to-a callback tests strings.ToUpper(article) == "AN", which every match passes, so the article always becomes "A" | "an car" gives "A car" | "an car" gives "a car", keeping the article's case | not executed | LegacyTransforms.ArticleCaseLost | LegacyTransforms.ArticleCaseKept |
