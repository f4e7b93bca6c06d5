# CodexParser core, modelled in Dafny

This project models the core of CodexParser, a JavaScript toolkit that finds
Bible references in free text. The model covers six parts:

- **Alias table** (`Aliases`, jstester.js). A list of book abbreviations
  and names is built up in three steps: each numbered-book name gets every
  ordinal prefix ("1 Peter", "Second Kings"), then every entry gets a copy
  with a trailing period, then the list is sorted longest first.
- **Find and mask** (`Scanner`, jstester.js). For each alias, every
  occurrence is searched for with `indexOf`. An occurrence is recorded as a
  hit when a character follows it and that character is not a lower-case
  letter. The alias is then overwritten with `X`s so that a shorter alias
  cannot match inside it.
- **Reconstruction** (`Rebuild`, jstester.js). The hits are sorted by
  position. The text is then rebuilt: the text up to each hit, the book
  name, up to 100 characters of chapter/verse token, and one space.
- **Record builder** (`Parser`, src/CodexParser.js). `parse` turns the
  matches of a scan into passage records. Each record holds the book
  (capitalised), the chapter, the list of verses and the testament.
  `getPassages` returns the records of the last call. The two canon lists
  (`Testaments`) decide the testament.
- **Citation generator** (`Generator`, passage-generator.js). For a book
  with `chapters` chapters and a verse count per chapter, it lists every
  single-verse citation, every in-chapter range and every cross-chapter
  range.
- **Verse tables** (`Canon`). `sch` in src/functions.js builds the table of
  a one-chapter book. The tables of Ecclesiastes and Micah map each chapter
  to the list 1..n of its verses.

The JavaScript built-ins the core relies on are modelled in the modules
`Strings`, `Chars` and `Sorting`, on strings of characters rather than of
UTF-16 code units (see "## Left out"):

- `indexOf` with its clamped start;
- `replace` with a string pattern, which replaces the first occurrence only;
- `charAt`, which gives the empty string out of range;
- `trim` with the JavaScript whitespace set;
- `split` on one character, and `filter(Boolean)`;
- `toUpperCase` on one character;
- `Array.from({ length: n })`, which reads a negative length as 0;
- the stable `Array.prototype.sort`.

Some behaviours of the code are easy to miss; the model keeps each of them:

- The scan matches aliases case-sensitively (`indexOf`, jstester.js:282). It
  tests only the character after a match, which must not be in `[a-z]`
  (jstester.js:284). It never tests the character before a match.
- `parse` returns `null` for an empty reference (src/CodexParser.js:126-128),
  not an empty list.
- `parse` throws on a non-empty text without a match. `scan` stores the
  `null` that `text.match` gives (src/CodexParser.js:115), and the loop then
  reads its `length` (src/CodexParser.js:131). The JSDoc of `parse` at
  src/CodexParser.js:123 promises `null` when there are no matches instead;
  this is the second row of "## Findings".
- The period loop (jstester.js:269-272) adds `"Jd.."` and `"Heb.."`, because
  the list already holds `"Jd."` and `"Heb."` (jstester.js:217-218). So the
  table does hold entries that end in `".."` (`Aliases.AliasTableDoubleDots`).

The regular-expression scan of `CodexParser` is a parameter of `Parse`: a
function from the reference text to the list of its matches, or to nothing
when `text.match` gives `null`.

## Model

| member | source | states |
|---|---|---|
| Aliases.Prefixed | jstester.js:263-267 | the prefixed names number `|names| * |pres|`, and every `pre + " " + name` is among them |
| Aliases.AddPrefixed | jstester.js:263-267 | pushing the prefixed names keeps the original list as a prefix, adds `|names| * |pres|` entries and includes every `pre + " " + name` |
| Aliases.WithDots | jstester.js:269-272 | the dot loop runs over the length fixed beforehand: the list doubles, its first half is unchanged, and entry `n + i` is entry `i` with a period appended |
| Aliases.DoubleDotsComeFromDottedEntries | jstester.js:269-272 | an entry of the doubled list that ends in `..` was already in the list, or is the copy of an entry that ends in one period |
| Aliases.LongestFirst | jstester.js:275 | the sort is a permutation in non-increasing length, and entries of equal length keep their list order (stable sort) |
| Aliases.EntryKept | jstester.js:263-267 | an entry of the alias list before the prefix loop stays at its index |
| Aliases.DottedCopy | jstester.js:269-272 | every entry and its dotted copy are both in the doubled list |
| Aliases.SortKeepsEntries | jstester.js:275 | sorting loses no entry and keeps the length |
| Aliases.TableShape | jstester.js:263-275 | the sorted table has `2 * (|books| + |names| * |pres|)` entries and holds every prefixed name with and without a trailing period |
| Aliases.PrefixedInTable | jstester.js:263-275 | a prefixed name of the list survives into the sorted table together with its dotted copy |
| Aliases.UnsortedSize | jstester.js:1-272 | the list before sorting has 1010 entries: 217 listed, 288 prefixed, all doubled |
| Aliases.ListSizes | jstester.js:1-247 | the three lists have 217 aliases, 12 prefixes and 24 prefixable names |
| Aliases.AliasTableSize | jstester.js:1-275 | the final alias table has 1010 entries |
| Aliases.PeriodEntriesPresent | jstester.js:217-218 | "Jd." and "Heb." are in the list when the dot loop starts |
| Aliases.DoubleDotted | jstester.js:269-272 | a list holding "Jd." and "Heb." yields "Jd.." and "Heb.." |
| Aliases.AliasTableDoubleDots | jstester.js:217-275 | the final table holds "Jd.." and "Heb.." |
| Strings.IndexOf | jstester.js:282 | `indexOf` gives -1 or a position at or after the clamped start where the pattern fits |
| Strings.IndexOfFirst | jstester.js:282 | the position found is an occurrence and no earlier one exists from the start on; -1 exactly when there is none |
| Strings.IndexOfReaches | jstester.js:282 | an occurrence at or after the start means `indexOf` finds one no later than it |
| Strings.ReplaceFirst | jstester.js:288-290 | `replace` with an equally long replacement keeps the text's length |
| Strings.Trim | src/CodexParser.js:137-138 | `trim` gives a slice of the input with only whitespace cut on both sides, and does not start or end with whitespace |
| Strings.TrimIdempotent | src/CodexParser.js:137-138 | trimming twice is trimming once |
| Strings.Split | src/CodexParser.js:140 | `split` gives at least one piece, no piece holds the separator, and joining the pieces gives back the text |
| Strings.DropEmpty | src/CodexParser.js:140 | `filter(Boolean)` drops exactly the empty strings and loses no character; its order is fixed by `Strings.DropEmptyAppend` |
| Strings.DropEmptyAppend | src/CodexParser.js:140 | filtering a concatenation is concatenating the filtered parts, so the kept pieces stay in their order |
| Strings.DropEmptyOne | src/CodexParser.js:140 | a single piece is kept exactly when it is not empty |
| Strings.FirstIndexAt | src/CodexParser.js:138-140 | proof helper: the first occurrence of a character is at `n` when it is at `n` and not before |
| Strings.SplitUnique | src/CodexParser.js:140 | `split` is the only way to cut a text into separator-free pieces that join back to it: any such pieces are the split, in order |
| Strings.TrimKeeps | src/CodexParser.js:137-138 | a text that neither starts nor ends with whitespace is unchanged by `trim` |
| Strings.SplitDropEmptyKeepsText | src/CodexParser.js:140 | splitting and then dropping empty pieces loses nothing but the separators |
| Strings.NatToString | passage-generator.js:7-15 | a number renders as a non-empty string of digits |
| Strings.ParseNatToString | passage-generator.js:7-15 | the digits of a rendered number read back as that number |
| Strings.IntToString | passage-generator.js:7-15 | `${i}` of an integer: a minus sign for a negative number, then its digits |
| Strings.IntToStringReads | passage-generator.js:7-15 | the rendering of an integer is non-empty, starts with `-` exactly for a negative number, and its digits read back as the number's magnitude |
| Chars.ToUpper | src/CodexParser.js:136 | `toUpperCase` on one character maps a lower-case ASCII letter to its capital and leaves every other character alone |
| Sorting.SortBy | jstester.js:296-298 | sorting by an integer key gives a sorted permutation of the same length |
| Sorting.SortByStable | jstester.js:296-298 | entries with equal keys keep their relative order |
| Scanner.MaskReplacement | jstester.js:286-289 | the replacement loop turns `book` into a string of `X`s of the same length |
| Scanner.ReplacementStep | jstester.js:288 | each round turns one pending character into `X` and keeps the length |
| Scanner.Overwrite | jstester.js:286-290 | writing `X`s over a span keeps the text's length |
| Scanner.OverwriteIsSplice | jstester.js:290 | writing over a span that fits is cutting the span out and putting `X`s in its place |
| Scanner.Mask | jstester.js:290 | masking keeps the text's length, so the positions of the text do not move |
| Scanner.MaskFirstIsReplace | jstester.js:290 | masking as written is `text.replace(book, X...X)`, which writes over the FIRST occurrence of `book` |
| Scanner.MaskAtHitIsSplice | jstester.js:290 | masking as intended writes `X`s over the accepted occurrence at `j` and nowhere else |
| Scanner.MaskWrites | jstester.js:284-290 | as written, the span written over starts at the first occurrence, at or before `j`; as intended it is the span at `j` |
| Scanner.Accepts | jstester.js:284 | an occurrence at `j` is accepted exactly when a character follows it and that character is not in `[a-z]` |
| Scanner.ScanAlias | jstester.js:280-293 | the inner loop over one alias ends (the cursor moves to `j + |book| + 1`) and keeps the text's length; what it records is stated by `Scanner.ScanAliasFinds` and `Scanner.ScanAliasKeeps` |
| Scanner.Found | jstester.js:282-292 | one search step keeps the text's length |
| Scanner.Examine | jstester.js:284-291 | examining a match keeps the text's length |
| Scanner.ScanAliasStops | jstester.js:281-283 | proof helper: the loop stops when the cursor reaches the end or `indexOf` finds nothing |
| Scanner.ScanAliasUnfold | jstester.js:282-292 | proof helper: otherwise the match found is examined and the search resumes one character past its end |
| Scanner.AcceptedHitSound | jstester.js:284-290 | a recorded hit is an alias of the table, a character follows it, that character is not in `[a-z]`, and the alias agrees with the original text there except at `X`s |
| Scanner.AcceptSound | jstester.js:284-290 | recording and masking a match keeps every recorded hit sound |
| Scanner.MaskStaysMaskedFrom | jstester.js:290 | the masked text only ever differs from the original by `X`s |
| Scanner.HitStaysSound | jstester.js:290 | later masking never makes an earlier hit unsound |
| Scanner.MaskedSpanApart | jstester.js:290 | a match of an alias without `X` cannot overlap a span already masked |
| Scanner.AcceptExact | jstester.js:284-290 | with masking at the hit, exactly the recorded hits are masked, and the hits stay pairwise apart |
| Scanner.AcceptKeeps | jstester.js:284-291 | recording a match keeps the scan invariant in both masking modes |
| Scanner.ExamineKeeps | jstester.js:284-291 | examining any match keeps the scan invariant |
| Scanner.ScanAliasKeeps | jstester.js:280-293 | the whole inner loop keeps the scan invariant |
| Scanner.FoundKeeps | jstester.js:282-292 | one search step keeps the scan invariant |
| Scanner.FindAllKeeps | jstester.js:278-294 | the outer loop over all aliases keeps the scan invariant |
| Scanner.FindAll | jstester.js:278-294 | the outer loop: the inner loop for each alias in table order, each on the text the aliases before it masked |
| Scanner.Scan | jstester.js:276-294 | the scan starts from the original text with no hits |
| Scanner.ScanSound | jstester.js:278-294 | after the scan as written, the text is the original with some `X`s and every recorded hit is sound; the converse is `Scanner.ScanFinds` |
| Scanner.CorrectedScanExact | jstester.js:278-294 | with masking at the hit, the masked characters are exactly those of the recorded hits, the hits never overlap, and each hit is an occurrence of its alias in the original text |
| Scanner.ExamineKeepsTail | jstester.js:284-290 | proof helper: examining a match, in either masking, keeps the length and every character from the match's end on |
| Scanner.SameFrom | jstester.js:282-284 | proof helper: two texts that agree from a position on have the same occurrences and the same accepted occurrences there |
| Scanner.MaskedOccurrence | jstester.js:290 | proof helper: an occurrence, in a masked text, of a string without `X` is an occurrence in the original |
| Scanner.ScanAliasExtends | jstester.js:280-293 | the inner loop only appends hits |
| Scanner.ScanAliasFinds | jstester.js:280-293 | completeness of the inner loop in both maskings: an occurrence at `p`, at or after the cursor, followed by a character not in `[a-z]`, is recorded unless an occurrence of the same alias starting within `|book|` before `p` (and at or after the cursor) makes the search jump over it |
| Scanner.FindAllSplit | jstester.js:278-294 | the outer loop over `a + b` is the loop over `a` followed by the loop over `b` |
| Scanner.FindAllExtends | jstester.js:278-294 | the outer loop only appends hits |
| Scanner.ScanFinds | jstester.js:278-294 | in both maskings, alias `b` records every accepted occurrence that the text masked by the aliases before it still shows, unless an earlier overlapping occurrence of the same alias hides it |
| Scanner.CorrectedScanFinds | jstester.js:278-294 | with masking at the hit and no alias empty or holding an `X`, an accepted occurrence of alias `b` in the ORIGINAL text is recorded when no earlier occurrence of it overlaps it and no hit of an earlier alias covers it or the character after it |
| Scanner.MaskAccepted | jstester.js:286-290 | the replacement loop followed by the masking step computes `Mask` |
| Scanner.ExamineMatch | jstester.js:284-291 | the body of the inner loop computes `Examine` |
| Scanner.SearchAlias | jstester.js:280-293 | the inner `while` loop computes `ScanAlias` from cursor 0 |
| Scanner.FindAndMask | jstester.js:278-294 | the nested loops compute `Scan`: the masked text comes from the original by `X`s only and every hit is sound; with masking at the hit, only hits are masked and they do not overlap |
| Scanner.ExampleFirstSearch | jstester.js:282-284 | in "1 Johnny 1 John 3", "1 John" is first found at 0 and rejected (a lower-case letter follows), then found at 9 and accepted |
| Scanner.ExampleAsWrittenMasks | jstester.js:290 | as written, accepting "1 John" at 9 masks the rejected occurrence at 0, and "John" is then accepted at 11 |
| Scanner.ExampleCorrectedMasks | jstester.js:290 | masked at the hit, "1 John" at 9 is overwritten and "John" is then found only inside "Johnny" and rejected |
| Scanner.ExampleCorrectedSearchEnds | jstester.js:282-283 | after that, no further "John" is found |
| Scanner.ExampleAsWrittenSteps | jstester.js:278-294 | the as-written scan records "1 John" at 9 and then "John" at 11 |
| Scanner.ExampleCorrectedSteps | jstester.js:278-294 | the corrected scan records "1 John" at 9 and nothing for "John" |
| Scanner.ScanTwoAliases | jstester.js:278-294 | proof helper: a scan over two aliases is the inner loop for the first and then for the second |
| Scanner.AsWrittenRecordsOverlappingHits | jstester.js:290 | the code as written records "John" at 11 inside "1 John" at 9: two overlapping hits for one name |
| Scanner.CorrectedRecordsTheNameOnce | jstester.js:290 | masking at the hit records "1 John 3" once |
| Rebuild.CharAt | jstester.js:304-315 | `charAt` gives the character at `i` inside the text and the empty string outside it |
| Rebuild.Clip | jstester.js:302-306 | copying `charAt` from `a` to `b` is the slice when it fits, the rest of the text when only `a` is inside it, and nothing from past the end; never longer than `b - a` |
| Rebuild.ClipExtend | jstester.js:302-306 | proof helper: one more round of the copy loop appends `charAt` of the cursor |
| Rebuild.ClipCons | jstester.js:309-316 | proof helper: a copied span is its first character followed by the rest |
| Rebuild.TokenFrom | jstester.js:309-316 | the token loop moves the cursor forward by at most its remaining rounds |
| Rebuild.TokenEnd | jstester.js:309-316 | the cursor moves at least once, passes no ASCII letter, and stops before its rounds run out only on a letter |
| Rebuild.TokenText | jstester.js:309-316 | the token copied is the text from the start to the stopping point, without the character just before a stopping letter |
| Rebuild.TokenStopsAtFirstLetter | jstester.js:309-316 | the token is at most 100 characters; it stops at the first ASCII letter within 100 positions and then drops the character before it, or runs the full 100 rounds |
| Rebuild.TokenIs | jstester.js:309-316 | the stopping point is determined by the first letter (or the 100th round), and the token is the text up to it |
| Rebuild.TokenStopsBeforeMask | jstester.js:309-316 | a token never reaches a later masked book (`X` is a capital letter) |
| Rebuild.ByPosition | jstester.js:296-298 | the hits are sorted by position, as a permutation of them |
| Rebuild.ByPositionStable | jstester.js:296-298 | hits at the same position keep the order in which they were recorded |
| Rebuild.Piece | jstester.js:302-317 | each hit's round moves the cursor strictly forward |
| Rebuild.RebuildNoHits | jstester.js:299-318 | with no hits the new text is empty |
| Rebuild.RebuildGrows | jstester.js:301-318 | each round only appends to the new text and moves the cursor forward, and the text ends with a space |
| Rebuild.OneHitRestoresName | jstester.js:299-318 | for one hit masked at its position, the rebuilt text is the original up to the end of the name, the token and one space |
| Rebuild.OneHitKeepsPrefix | jstester.js:299-318 | this holds for any text that agrees with the original before the hit |
| Rebuild.RebuildOne | jstester.js:299-318 | for one hit, the new text is the text before it, the book, the token after it and a space |
| Rebuild.RebuildAllStep | jstester.js:301-318 | proof helper: one more round of the outer loop appends the piece of the next hit |
| Rebuild.TokenAfter | jstester.js:309-316 | the chapter/verse token after a book is the token loop run for its full 100 rounds from the cursor |
| Rebuild.RebuildAll | jstester.js:301-318 | the outer loop: the pieces of the hits in the given order, each starting at the cursor the previous one left |
| Rebuild.Rebuild | jstester.js:296-318 | the new text is the loop run over the hits sorted by position |
| Rebuild.CopyUpTo | jstester.js:302-306 | the first inner loop copies from the cursor up to the hit, or nothing if the cursor is already past it |
| Rebuild.CopyUntilLetter | jstester.js:309-316 | the token loop copies up to the first letter within 100 rounds, less the character before that letter |
| Rebuild.CopyToken | jstester.js:309-316 | the token loop computes `TokenAfter` |
| Rebuild.CopyPiece | jstester.js:302-317 | one round of the outer loop computes `Piece` |
| Rebuild.Reconstruct | jstester.js:296-318 | the sort and the reconstruction loop compute `Rebuild` |
| Testaments.CanonLists | src/CodexParser.js:20-91 | the Old Testament list has 39 names and the New Testament list 27, with no name in both |
| Testaments.AbbreviationNotListed | src/CodexParser.js:21-61 | "Gen" is not an Old Testament name |
| Testaments.LowerCaseNotListed | src/CodexParser.js:21-61 | "Song of solomon" is not an Old Testament name |
| Parser.Capitalize | src/CodexParser.js:136 | the book keeps its length; its first character is upper-cased and the rest is unchanged |
| Parser.StripColonRemovesFirst | src/CodexParser.js:137-138 | `replace(":", "")` removes exactly the first colon, and changes nothing without one |
| Parser.ChapterText | src/CodexParser.js:137 | the chapter text is no longer than the match and neither starts nor ends with whitespace |
| Parser.StripColon | src/CodexParser.js:137-138 | `replace(":", "")` with a string pattern; its meaning is `Parser.StripColonRemovesFirst` |
| Parser.VerseList | src/CodexParser.js:138-140 | no verse piece is empty and none contains a comma; their order and split points are fixed by `Parser.VerseListPieces` |
| Parser.VerseListPieces | src/CodexParser.js:138-140 | for any comma-free pieces that join with commas to the trimmed, colon-stripped verse text, the verse list is exactly those pieces with the empty ones dropped, in order |
| Parser.VerseListExample | src/CodexParser.js:138-140 | the verse text `:16,,20` gives the verses `16` and `20`, in that order |
| Parser.VerseListKeepsText | src/CodexParser.js:138-140 | the verse pieces, put together, are the trimmed verse text without its commas |
| Parser.TestamentOf | src/CodexParser.js:141 | "old" exactly for a name on the Old Testament list, "new" for anything else |
| Parser.Records | src/CodexParser.js:131-143 | the loop pushes one record per match; its contract is `Parser.RecordsPerMatch` |
| Parser.GetPassages | src/CodexParser.js:153-155 | `getPassages` returns the records the last call of `parse` stored |
| Parser.BuildPassage | src/CodexParser.js:134-141 | a record keeps the matched text, capitalises the book, and is "old" exactly when the capitalised book is an Old Testament name |
| Parser.RecordsPerMatch | src/CodexParser.js:131-143 | exactly one record per match, in match order |
| Parser.Parse | src/CodexParser.js:125-146 | an empty reference gives `null` and keeps the state; otherwise the records are cleared, a scan without matches throws, and a scan with matches gives their records and resets `found` to empty |
| Parser.ParseThenGet | src/CodexParser.js:129-155 | after a call that did not throw, `getPassages` returns one record per match, in order |
| Parser.EmptyReferenceKeepsPassages | src/CodexParser.js:126-128 | an empty reference leaves the previous records for `getPassages` |
| Parser.NoReferenceThrows | src/CodexParser.js:123-131 | a text with no reference makes `parse` throw where its documentation promises `null` |
| Parser.ParseCorrected | src/CodexParser.js:123-146 | the documented `parse` never throws and gives `null` exactly for an empty reference or a scan without matches |
| Parser.ParseCorrectedAgrees | src/CodexParser.js:125-146 | the documented `parse` agrees with the code on every call that does not throw, and gives `null` with the same state where the code throws |
| Parser.TestamentOfListed | src/CodexParser.js:141 | an Old Testament name is labelled "old" and a New Testament name "new" |
| Parser.AbbreviationIsNew | src/CodexParser.js:136-141 | the abbreviation "Gen" is labelled "new" |
| Parser.LowerCaseNameIsNew | src/CodexParser.js:136-141 | "song of solomon" is capitalised only at its first letter and is labelled "new" |
| Parser.CapitalizedNameIsOld | src/CodexParser.js:136-141 | "genesis" is capitalised to "Genesis" and is labelled "old" |
| Generator.ChapterBlock | passage-generator.js:5-16 | one chapter's output: its verses and in-chapter ranges, then its cross-chapter ranges |
| Generator.Chapters | passage-generator.js:4-17 | the outputs of chapters 1 to `u`, in order |
| Generator.Generate | passage-generator.js:1-20 | the whole output is the chapters' outputs for chapters 1 to `chapters` |
| Generator.NumberText | passage-generator.js:15 | a verse count inside a template literal: its digits, or `undefined` when the count is missing |
| Generator.Render | passage-generator.js:7-15 | the three template literals `book c:v`, `book c:v-e` and `book c:last-e:1` |
| Generator.Ranges | passage-generator.js:9-11 | the in-chapter ranges from verse `v` are exactly `c:v-e` for `v < e <= n` |
| Generator.Verses | passage-generator.js:5-12 | chapter `c`'s loop emits exactly the verses `c:v` for `1 <= v <= n` and the ranges `c:v-e` with `v < e <= n` |
| Generator.Crosses | passage-generator.js:14-16 | the cross-chapter ranges of chapter `c` are exactly `c:last-e:1` for `c < e <= chapters` |
| Generator.BlockMembers | passage-generator.js:5-16 | one chapter's output is exactly the valid citations of that chapter |
| Generator.ChaptersMembers | passage-generator.js:4-17 | the first `u` chapters' output is exactly the valid citations of chapters up to `u` |
| Generator.GenerateMembers | passage-generator.js:1-20 | the output holds a citation exactly when it is valid: a verse or in-chapter range within the chapter's count, or a cross-chapter range to a later chapter |
| Generator.NoChapters | passage-generator.js:4 | zero chapters give an empty list |
| Generator.EmptyChapterCrosses | passage-generator.js:5-15 | a chapter with 0 verses still emits its cross-chapter ranges from verse 0; a missing count emits them with `undefined` and no verse |
| Generator.RangesIncreasing | passage-generator.js:9-11 | the ranges of one verse come in increasing end verse |
| Generator.VersesIncreasing | passage-generator.js:5-12 | each `c:v` is immediately followed by its ranges, and the verses come in increasing order |
| Generator.CrossesIncreasing | passage-generator.js:14-16 | the cross-chapter ranges come in increasing end chapter |
| Generator.ChapterBlockIncreasing | passage-generator.js:5-16 | one chapter's output is ordered, with the in-chapter citations before the cross-chapter ones |
| Generator.ChaptersIncreasing | passage-generator.js:4-17 | all entries of chapter `c` come before those of chapter `c + 1` |
| Generator.GenerateIncreasing | passage-generator.js:1-20 | the whole output is strictly increasing in (chapter, kind, start, end) order |
| Generator.IncreasingDistinct | passage-generator.js:1-20 | an increasing output has no duplicate citation |
| Generator.TriangleClosed | passage-generator.js:5-11 | `1 + ... + n` is `n (n + 1) / 2` |
| Generator.RangesCount | passage-generator.js:9-11 | the ranges from `v` number `n - v` |
| Generator.CrossesCount | passage-generator.js:14-16 | the cross-chapter ranges of chapter `c` number `chapters - c` |
| Generator.VersesCount | passage-generator.js:5-12 | a chapter of `n` verses emits `n (n + 1) / 2` verses and ranges |
| Generator.ChapterBlockCount | passage-generator.js:5-16 | chapter `c` emits `n_c (n_c + 1) / 2 + (chapters - c)` citations |
| Generator.ChaptersCount | passage-generator.js:4-17 | the output length is the sum of the chapters' counts |
| Generator.GenerateCount | passage-generator.js:1-20 | the output has the sum over `c` of `n_c (n_c + 1) / 2 + (chapters - c)` citations |
| Generator.UniformCount | passage-generator.js:4-17 | with `k` verses in each chapter, the first `u` chapters give `u k (k + 1) / 2 + u (2 chapters - u - 1) / 2` citations |
| Generator.GenerateUniformCount | passage-generator.js:1-20 | `chapters` chapters of `k` verses give `chapters k (k + 1) / 2 + chapters (chapters - 1) / 2` citations |
| Generator.GenesisExampleCount | passage-generator.js:22-24 | the example of 50 chapters of 30 verses gives 24475 citations |
| Generator.PushRanges | passage-generator.js:9-11 | the innermost loop appends the ranges from one verse |
| Generator.PushVerses | passage-generator.js:5-12 | the verse loop appends the verses and ranges of one chapter |
| Generator.PushCrosses | passage-generator.js:14-16 | the chapter-range loop appends the cross-chapter ranges |
| Generator.GenerateCombinations | passage-generator.js:1-20 | the nested loops compute `Generate` |
| Canon.OneTo | src/functions.js:17 | `Array.from({ length: n }, (_, i) => i + 1)` has `n` elements (none for a negative `n`) and element `i` is `i + 1` |
| Canon.ChapterTable | src/chapter_verses/ecclesiastes.js:1-14 | a table whose chapter `c` is `Array.from({ length: n_c }, ...)`; its shape is `Canon.ChapterTableShape` |
| Canon.VerseExists | src/chapter_verses/ecclesiastes.js:1-14 | a citation is in a table when its chapter is a key and its verse is in that chapter's list |
| Canon.Sch | src/functions.js:14-20 | `sch` gives an object with the one key `bookName`, whose table has the one chapter key 1 |
| Canon.SchShape | src/functions.js:14-20 | that table is well shaped; chapter 1 has `verseCount` verses, and none for a count of 0 or less |
| Canon.SchVerses | src/functions.js:14-20 | in `sch`'s table a verse exists exactly when the chapter is 1 and the verse is between 1 and the count |
| Canon.WellShapedVerses | src/chapter_verses/ecclesiastes.js:1-14 | in a well-shaped table a verse exists exactly when its chapter is a key and the verse is between 1 and the chapter's length; the last verse of a chapter is its length |
| Canon.ChapterTableShape | src/chapter_verses/ecclesiastes.js:1-14 | a table written as `c: Array.from({ length: n_c }, ...)` has exactly the chapters 1 to the last, each numbered 1 to its count |
| Canon.ChapterTableTotal | src/chapter_verses/micah.js:1-9 | the verses of a table's chapters add up to the sum of its counts |
| Canon.TotalSnoc | src/chapter_verses/micah.js:1-9 | adding a chapter adds its count to the total |
| Canon.EcclesiastesShape | src/chapter_verses/ecclesiastes.js:2-13 | Ecclesiastes has chapters exactly 1 to 12, with 18, 26, 22, 16, 20, 12, 29, 17, 18, 20, 10, 14 verses, each numbered from 1 without a gap |
| Canon.EcclesiastesTotal | src/chapter_verses/ecclesiastes.js:2-13 | Ecclesiastes has 222 verses |
| Canon.EcclesiastesBounds | src/chapter_verses/ecclesiastes.js:8 | Ecclesiastes 7:29 exists; 7:30 and 13:1 do not |
| Canon.MicahShape | src/chapter_verses/micah.js:2-8 | Micah has chapters exactly 1 to 7, with 16, 13, 12, 13, 15, 16, 20 verses, each numbered from 1 without a gap |
| Canon.MicahTotal | src/chapter_verses/micah.js:2-8 | Micah has 105 verses |
| Canon.CountsSums | src/chapter_verses/micah.js:2-8 | the counts of Ecclesiastes add up to 222 and those of Micah to 105 |

## Left out

- The regular expressions of src/regex.js and src/CodexParser.js (`bookRegex`, `chapterRegex`, `verseRegex` and the scripture patterns) are not modelled. `scan`, and the three `match` calls in `parse`, form one parameter. It gives each match's text and the book, chapter and verse parts that those patterns pick out. Dafny has no regular-expression engine, and the patterns use lookahead and long alternations.
- Parser.Parse: when a match contains no chapter or verse part, the code reads `[0]` of `null` and throws. This does not arise in the model, because the scan parameter always supplies both parts.
- Scanner: no property is proved about the order in which hits are recorded. The reconstruction sorts them by position anyway (`Rebuild.ByPosition`).
- Rebuild.Reconstruct is stated for any list of hits. The theorem that the rebuilt text is the original text with every reference normalised is proved for one hit only (`Rebuild.OneHitRestoresName`). Several hits interact through the cursor, which may already be past a later hit.
- Strings.IndexOf, Rebuild.CharAt, Rebuild.TokenAfter, Scanner.ScanAlias: a JavaScript string is a sequence of UTF-16 code units; the model's strings are sequences of Unicode characters. For text outside the Basic Multilingual Plane the two differ: `indexOf` positions, `charAt` (which can return a lone surrogate), the cursor jump `j + book.length + 1` and the 100 rounds of the token loop count code units in JavaScript and characters in the model.
- Canon.Sch: `Array.from({ length: verseCount })` converts the length with ToLength, so a fraction is truncated (2.5 gives [1, 2]) and a numeric string is converted ("3" gives [1, 2, 3]). The model takes an integer count only; for a negative one it agrees with ToLength (an empty list).
- Chars.ToUpper: upper-cases ASCII letters only. JavaScript's `toUpperCase` also maps non-ASCII letters, and can lengthen a string (`"ß"` becomes `"SS"`).
- Generator.Render: a citation is rendered to the string of the source (`book c:v`, `book c:v-e`, `book c:last-e:1`, with `undefined` for a missing count). No injectivity property is proved about the rendering. Every property is stated on the citation values.
- Generator: a verse count that is not an integer (a fraction, a string) is not modelled. The counts are integers or missing.
- `dump` and `dd` in src/functions.js are console output and `process.exit`. They are not modelled.
- The `console.log` calls in jstester.js and passage-generator.js are not modelled, nor the `window`/global wiring at the end of src/CodexParser.js.
- The example text in jstester.js is not modelled: the scan and reconstruction take any text.
- Canon: JavaScript object keys are strings; the model uses the integer chapter numbers that every lookup goes through.

## Findings

| source | as written | input that shows it | evidently intended | confidence | as-written member | corrected member |
|---|---|---|---|---|---|---|
| jstester.js:290 | `text.replace(book, replacement)` masks the first occurrence of `book` anywhere in the text. That can be an earlier occurrence the scan rejected, not the accepted one at `j`. | text "1 Johnny 1 John 3" with aliases "1 John", "John": the rejected "1 John" at 0 is masked, and "John" at 11 is recorded inside the accepted "1 John" at 9 | mask the accepted span at `j`, so that a shorter alias cannot match inside a recorded one | high, not executed | Scanner.AsWrittenRecordsOverlappingHits | Scanner.CorrectedScanExact |
| src/CodexParser.js:131 | after a scan with no match, `this.found` is `null`, and `this.found.length` throws a `TypeError` | any non-empty reference without a scripture reference, such as "Hello" | return `null`, as the documentation at line 123 promises | high, not executed | Parser.NoReferenceThrows | Parser.ParseCorrectedAgrees |
