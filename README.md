# OCR line reconstruction, modelled in Dafny

The service sends an image or a PDF to an OCR service and gets back an
annotation tree: pages hold blocks, blocks hold paragraphs, paragraphs hold
words, and words hold symbols. Each symbol carries text, a detected break and
detected languages. Each word carries a bounding box. This project models how
the service turns that tree into text lines (`src/image2lines.ts`) and into
`|`-separated table rows (`src/pdf2lines.ts`). It also models the helpers of
`src/utils.ts`: the language filter, the ASCII-word extractor and the per-block
word list.

Both pipelines work the same way:

- Every word becomes a positioned fragment `{ x, y, word }`. Its anchor is the
  least x and the least y of its box.
- Fragments are merged per paragraph row by `symbolsJoin`.
- Fragments of all blocks and pages are concatenated and filtered by
  position.
- Rows are re-keyed: the image pipeline floors y to a multiple of 4, and the
  PDF pipeline rounds y from 120 on to a multiple of 15.
- Each row is rendered.

The stages the two files share sit in module `Merge`, with what one word
yields as a parameter. They behave the same in both files, although the text
differs in places: the break suffix of `filterSymbolsJP` is a `switch` in
`src/pdf2lines.ts` and an `if` chain in `src/image2lines.ts`. The shared stages are:

- the text of a word's symbols;
- `symbolsJoin`;
- the walk from pages down to words.

Module `Fragments` holds lodash's `groupBy('y')` followed by `map`. The groups
come in ascending integer key order, each group in input order. The module
also holds the stable `orderBy(…, 'x')`. `Seqs` and `Text` hold the array and
string built-ins the pipelines use.

Behaviour is modelled as written, including these points:

- The band guard of `symbolsJoin` reads `606 <= x || x <= 608`, which is
  always true. `Merge.GuardHarmless` proves that the results are still those
  of the band test it resembles.
- A row of several fragments that all lie in the band 606..608 leaves
  `newArray` empty. Reading `newArray[0].x` then throws. This is modelled as
  `TypeError`, and `Merge.MergeThrowsOnBand` exhibits it.
- In the PDF pipeline a word without a box keeps the unscaled sentinel
  99999999, while a box with no coordinates gets it scaled by 1000
  (`Pdf2Lines.SentinelUnscaled`).
- The PDF pipeline keeps only symbols tagged with the language "jp". A symbol
  without language tags is dropped.
- A template literal renders an undefined value as "undefined" (a `null`
  text is not modelled; see "Left out").

## Model

| member | source | states |
|---|---|---|
| Seqs.Filter | src/image2lines.ts:112-118 | the filtered elements all pass and come from the input, and there are no more of them than input elements |
| Seqs.FilterCount | src/image2lines.ts:112-118 | a filter keeps every occurrence of a passing element and none of a failing one |
| Seqs.FilterSubseq | src/image2lines.ts:112-118 | a filter keeps the survivors in their original order |
| Seqs.Find | src/pdf2lines.ts:64-66 | `find` is undefined iff no element passes; otherwise it is the first passing element |
| Seqs.Somes | src/image2lines.ts:92 | dropping undefined entries leaves as many values as there are defined entries, and an empty array iff every entry is undefined |
| Seqs.SomeCount | src/image2lines.ts:92 | the number of defined entries is 0 iff all are undefined and the full length iff all are defined |
| Seqs.SomesConcat | src/image2lines.ts:92 | dropping undefined entries commutes with concatenation, so the defined values keep their order |
| Seqs.SomesSingleton | src/image2lines.ts:92 | one entry is kept as its value when defined and dropped when undefined |
| Seqs.SomesMember | src/image2lines.ts:92 | a value is kept iff some entry holds it |
| Seqs.Collect | src/image2lines.ts:76-98 | mapping a callback that may throw throws iff one call throws; otherwise the result is the defined results in order |
| Seqs.CollectValues | src/image2lines.ts:76-98 | when no call throws, the collected results are exactly the defined values, in order |
| Seqs.FlattenSomesNil | src/image2lines.ts:98-102 | when every defined entry is an empty array, concatenating the kept entries gives the empty array |
| Seqs.FlattenMembers | src/image2lines.ts:40 | an element of the concatenation is an element of one of the arrays |
| Text.TrimSpec | src/pdf2lines.ts:113 | `trim` returns the slice of its input between a leading and a trailing run of whitespace |
| Text.TrimEnds | src/pdf2lines.ts:113 | what `trim` returns neither starts nor ends with whitespace |
| Text.TrimBlank | src/pdf2lines.ts:113 | `trim` gives the empty string exactly on blank input |
| Text.Split | src/pdf2lines.ts:117 | `split('・')` gives pieces without the separator that join back to the input, and a single piece iff the separator is absent |
| Text.SliceFromEnd | src/pdf2lines.ts:119-120 | `slice(-n)` is a suffix of length n, or the whole string when it is shorter |
| Text.DeleteAll | src/pdf2lines.ts:129 | `replace(/【復習】/g, '')` never lengthens, introduces no character, and leaves a string without the pattern unchanged |
| Text.DeleteAllHead | src/pdf2lines.ts:129 | an occurrence of the pattern at the front is deleted and the scan resumes right after it |
| Text.DeleteAllStep | src/pdf2lines.ts:129 | where no occurrence starts at the front, the first character is kept |
| Text.DeleteAllKeeps | src/pdf2lines.ts:129 | a prefix in which no occurrence starts is kept unchanged, in order, in front of what the rest becomes |
| Text.Clean | src/pdf2lines.ts:127-128 | removing spaces, then line breaks, leaves neither |
| Text.CleanJoin | src/pdf2lines.ts:119-128 | cleaning a joined string cleans each part and the separator |
| Fragments.WordsConcat | src/image2lines.ts:178 | joining fragment words turns concatenation of fragments into concatenation of strings |
| Fragments.Keys | src/image2lines.ts:168-169 | the group keys strictly ascend and are exactly the y values present |
| Fragments.GroupByY | src/image2lines.ts:168-170 | one non-empty group per key, in key order; group i holds exactly the fragments with that key, in input order |
| Fragments.GroupedPermutation | src/image2lines.ts:48-56 | concatenating the groups loses and invents no fragment |
| Fragments.GroupedSortedByY | src/image2lines.ts:48-56 | concatenating the groups sorts the fragments by y |
| Fragments.GroupedSortedIdentity | src/image2lines.ts:48-56 | grouping an already y-sorted sequence and concatenating the groups gives it back |
| Fragments.SortByX | src/image2lines.ts:177 | `orderBy(…, 'x')` is sorted by x and a permutation of its input |
| Fragments.SortByXStable | src/image2lines.ts:177 | fragments with equal x keep their relative order |
| Fragments.RekeySpec | src/image2lines.ts:48-56 | moving each group to a new key keeps the count and moves every fragment to the image of its own y; a monotone key map keeps y order |
| Fragments.RekeyIdempotent | src/image2lines.ts:48-56 | re-keying twice by a monotone, idempotent map is re-keying once |
| Fragments.RekeyKeys | src/image2lines.ts:58-60 | the keys after re-keying are the images of the original y values |
| Fragments.RekeyRow | src/image2lines.ts:58-60 | a row after re-keying holds the fragments whose y maps to it, in y-then-input order |
| Merge.JoinedTextConcat | src/image2lines.ts:130-140 | a word's text is its symbols' texts, each followed by " " after a SPACE break and by nothing otherwise |
| Merge.FiltersAreSurvivors | src/image2lines.ts:171-175 | the filter keeps a one-fragment row whole and drops from a longer row exactly its members with 606 <= x <= 608 |
| Merge.GuardHarmless | src/image2lines.ts:173 | the always-true guard gives the same rows as the band test it resembles |
| Merge.MergeThrowsOnBand | src/image2lines.ts:173-181 | a row of two in-band fragments throws |
| Merge.MergeGroupSpec | src/image2lines.ts:170-185 | a row merges iff something survives the band filter; the merge is anchored at the least surviving x and the row's y, and carries the survivors' words in ascending x; a single fragment merges to itself |
| Merge.MergeAll | src/image2lines.ts:170-186 | the rows merge iff every row merges, one merged fragment per row |
| Merge.SymbolsJoin | src/image2lines.ts:167-189 | `symbolsJoin` succeeds iff every y-row has a survivor, and then gives one fragment per distinct y in ascending order; the same code is src/pdf2lines.ts:249-271 |
| Merge.WordFragments | src/image2lines.ts:80-92 | the fragments of a paragraph's words are empty iff no word yields one |
| Merge.ParagraphLines | src/image2lines.ts:77-97 | a paragraph yields nothing iff its words are absent or none of them yields a fragment; it throws iff `symbolsJoin` of its fragments throws; otherwise it yields that `symbolsJoin` result |
| Merge.ParagraphThrows | src/image2lines.ts:76-98 | a paragraph result throws iff that paragraph's `symbolsJoin` throws |
| Merge.InlineWords | src/image2lines.ts:73-103 | a block yields undefined iff its paragraphs are absent or no word of any paragraph yields a fragment; it throws iff the `symbolsJoin` of one of its paragraphs throws (`newArray[0].x`, line 181); otherwise it holds the merged rows of its paragraphs, paragraph after paragraph |
| Merge.PageFragments | src/image2lines.ts:33-43 | a page yields undefined iff it has no blocks; it throws iff one of its blocks throws; otherwise it holds the fragments of its blocks that have any, block after block |
| Merge.Values | src/image2lines.ts:32-44 | `values` is undefined when the pages are; it throws iff one page throws; otherwise it holds the fragment list of every page that has blocks, in page order, at most one per page |
| Merge.BarrenPageFragments | src/image2lines.ts:33-43 | a page where no word yields a fragment gives undefined or an empty list, without throwing |
| Merge.BarrenValues | src/image2lines.ts:32-44 | pages where no word yields a fragment give no fragment at all and do not throw |
| Image2Lines.MinCoord | src/image2lines.ts:152-165 | the running minimum is at most every present coordinate, and is one of them unless it is still the sentinel |
| Image2Lines.GetPositions | src/image2lines.ts:152-165 | the loop returns the minimum x and y over the vertices that carry them, or the sentinel for both when there are no vertices |
| Image2Lines.WordLine | src/image2lines.ts:81-91 | a word yields a fragment iff its symbols are present and non-empty; the fragment is anchored where `getPositions` puts the word's box and carries the text of all its symbols |
| Image2Lines.GetInlineWords | src/image2lines.ts:73-103 | a block yields undefined iff it has no paragraphs or no word in it has symbols; it throws iff the `symbolsJoin` of one of its paragraphs throws; otherwise it holds the merged rows of its paragraphs in order |
| Image2Lines.GetSymbols | src/image2lines.ts:105-121 | no values give []; otherwise the result is the concatenated fragments, in order, without the corner at y 64..67 with x >= 800, the band y 103..118 and the lone "·" above y 120, and with every other fragment kept |
| Image2Lines.GetSymbolsNil | src/image2lines.ts:105-121 | no fragments to filter give no fragment |
| Image2Lines.Bucket | src/image2lines.ts:51-53 | the bucket of y is the multiple of 4 at or at most 3 below y |
| Image2Lines.BucketLaws | src/image2lines.ts:51-53 | bucketing is monotone and idempotent |
| Image2Lines.FixedOffsetSpec | src/image2lines.ts:48-56 | `fixedOffset` keeps every fragment with its y moved to its bucket, ordered by bucket |
| Image2Lines.FixedOffsetIdempotent | src/image2lines.ts:48-56 | bucketing the bucketed fragments changes nothing |
| Image2Lines.LinesSpec | src/image2lines.ts:58-68 | one line per distinct bucket, in ascending order; each line is the words of the fragments whose y falls in that bucket, sorted by x |
| Image2Lines.LinesExample | src/image2lines.ts:48-68 | fragments "B" at (50,29), "A" at (10,30) and "C" at (5,64) give the lines "AB" and "C" |
| Image2Lines.LineTies | src/image2lines.ts:61 | fragments of a line that share an x keep their order |
| Image2Lines.Start | src/image2lines.ts:31-71 | `start` throws iff gathering the values throws; otherwise it gives the lines of the selected fragments |
| Image2Lines.StartBarren | src/image2lines.ts:31-71 | when no word anywhere has symbols, `start` gives no line and does not throw |
| Utils.HasLanguageTagged | src/utils.ts:41-43 | the count check passes iff some detected language has the code |
| Utils.FilterLanguageCode | src/utils.ts:39-45 | `filterLanguageCode` keeps exactly the symbols tagged with the code, every occurrence, in order |
| Utils.FilterLanguageCodeEmpty | src/utils.ts:16-19 | the language filter leaves nothing iff no symbol carries the language |
| Utils.RenderedConcat | src/utils.ts:48-65 | a symbol renders as its text followed by " " after SPACE, "\n" after EOL_SURE_SPACE and nothing otherwise |
| Utils.FilterSymbols | src/utils.ts:47-72 | `filterSymbols` gives the trimmed rendering when it is an ASCII word of three or more letters, and '' iff it is not |
| Utils.WordText | src/utils.ts:11-22 | a word's text is '' when its symbols are absent or none carries the language, and otherwise `filterSymbols` of the symbols that carry it; it is '' or an ASCII word of three or more letters |
| Utils.KeptParagraphs | src/utils.ts:9-26 | the kept paragraph lists are those whose words are absent or not all gone, each with every occurrence and in the original order |
| Utils.ConcatArgSpec | src/utils.ts:31 | `concat` spreads an array argument, so its words are appended, and appends undefined as one element |
| Utils.ConcatArgsCons | src/utils.ts:31 | the contributions of a list are those of its head, then of its tail |
| Utils.ConcatFromClosed | src/utils.ts:31 | folding `concat` appends each list's contribution in turn, so each undefined stays where its list was |
| Utils.ConcatFromDefined | src/utils.ts:31 | folding `concat` appends the words of the present lists, in order |
| Utils.ConcatFromUndefineds | src/utils.ts:31 | folding `concat` appends one undefined per absent list |
| Utils.ReduceConcat | src/utils.ts:31 | `reduce` without an initial value: an undefined first list throws unless it is alone; otherwise the result is each list's contribution in order, so it holds the words of the present lists in order and one undefined per absent list, each where its list was |
| Utils.ReduceConcatExample | src/utils.ts:31 | `[["abc"], undefined, ["def"]]` reduces to `["abc", undefined, "def"]` |
| Utils.GetInlineWords | src/utils.ts:7-34 | undefined without paragraphs or with none kept; otherwise the reduce above over the kept paragraphs, in the same closed form |
| Utils.InlineWordsAreLetters | src/utils.ts:7-34 | every word `getInlineWords` returns is an ASCII word of at least three letters |
| Pdf2Lines.MinNorm | src/pdf2lines.ts:233-243 | the running minimum is at most every present normalized coordinate, and is one of them unless it is still the sentinel |
| Pdf2Lines.GetPositions | src/pdf2lines.ts:233-247 | the loop returns the minimum x and y scaled by 1000 and floored, or the unscaled sentinel when there are no vertices |
| Pdf2Lines.PositionsSpec | src/pdf2lines.ts:240-245 | the scaled anchor is at most every scaled present coordinate and equals one of them, or the scaled sentinel |
| Pdf2Lines.SentinelUnscaled | src/pdf2lines.ts:238-245 | absent vertices give (99999999, 99999999); an empty vertex list gives (99999999000, 99999999000) |
| Pdf2Lines.WordLine | src/pdf2lines.ts:147-157 | a word yields a fragment iff some symbol carries the language; it is anchored where `getPositions` puts the word's normalized box, and its text is that of the tagged symbols only |
| Pdf2Lines.GetInlineWords | src/pdf2lines.ts:139-169 | a block yields undefined iff it has no paragraphs or no word has a symbol of the language; it throws iff the `symbolsJoin` of one of its paragraphs throws; otherwise it holds the merged rows of its paragraphs in order |
| Pdf2Lines.GetSymbols | src/pdf2lines.ts:171-188 | no values give []; otherwise the result is the concatenated fragments, in order, without the corner at y 67 with x > 820, the band y 103..118 and the lone "·" above y 120, and with every other fragment kept |
| Pdf2Lines.GetSymbolsNil | src/pdf2lines.ts:171-188 | no fragments to filter give no fragment |
| Pdf2Lines.FindNum | src/pdf2lines.ts:64 | `num` is the first fragment on row 30, or undefined iff there is none |
| Pdf2Lines.FindSubject | src/pdf2lines.ts:66 | `subject` is the first fragment on row 64 or 65 with x >= 140, or undefined iff there is none |
| Pdf2Lines.RemoveSymbol | src/pdf2lines.ts:190-199 | no target changes nothing; otherwise every fragment equal to the target in x, y and word is dropped, and the others are kept in order |
| Pdf2Lines.RemoveBoth | src/pdf2lines.ts:69-71 | the two removals drop exactly the fragments equal to `num` or `subject` |
| Pdf2Lines.RoundQBounds | src/pdf2lines.ts:79 | `Math.round(k / 15)` is the q with 30q <= 2k + 15 < 30q + 30 |
| Pdf2Lines.SnapKey | src/pdf2lines.ts:76-81 | keys below 120 stay; others become a multiple of 15, at least 120 and within 7 |
| Pdf2Lines.SnapNearest | src/pdf2lines.ts:76-81 | from 120 on, a key snaps to the only multiple of 15 within 7 of it |
| Pdf2Lines.SnapLaws | src/pdf2lines.ts:76-81 | snapping is idempotent and monotone |
| Pdf2Lines.SnapRowsRekey | src/pdf2lines.ts:73-84 | the early returns for keys below 120 and multiples of 15 agree with moving every group to its snapped key |
| Pdf2Lines.SnapRowsSpec | src/pdf2lines.ts:73-84 | `fixedOffset` keeps every fragment with only its y snapped, ordered by row; rows from 120 on are multiples of 15; no fragment crosses 120 |
| Pdf2Lines.SnapRowsIdempotent | src/pdf2lines.ts:73-84 | snapping the snapped fragments changes nothing |
| Pdf2Lines.SnapRowsLow | src/pdf2lines.ts:76 | a row above 120 holds after snapping exactly the fragments it held before, in order |
| Pdf2Lines.Band | src/pdf2lines.ts:91-110 | a column band holds exactly the row's fragments with lo <= x <= hi, sorted by x |
| Pdf2Lines.BandStable | src/pdf2lines.ts:91-110 | fragments of a band that share an x keep their order in the row |
| Pdf2Lines.RecordSpec | src/pdf2lines.ts:117-129 | a record is the seven fields cleaned of spaces and line breaks and joined by bars, with `【復習】` then deleted; it contains no space and no line break |
| Pdf2Lines.RowFor | src/pdf2lines.ts:88-132 | a row above 120 is its words; a row from 120 on is dropped iff all three bands are blank, and otherwise becomes the record |
| Pdf2Lines.LowRows | src/pdf2lines.ts:89 | after snapping, a row above 120 is the text of the fragments that had exactly that y, in input order |
| Pdf2Lines.Rows | src/pdf2lines.ts:86-134 | `response` is the non-blank rows in ascending key order, one per key whose row is not blank; it has one row per key iff no row is blank, and a row is in it iff some key's group produces it |
| Pdf2Lines.RowsNil | src/pdf2lines.ts:62-134 | no fragments give no row, whatever the lesson number and subject |
| Pdf2Lines.BarrenRows | src/pdf2lines.ts:47-137 | pages where no word has a symbol of the language give no row and do not throw |
| Pdf2Lines.Start | src/pdf2lines.ts:47-137 | `start` throws iff gathering the values throws; otherwise `num` and `subject` are found, removed, the rows snapped and rendered; with no symbol of the language anywhere it gives no row |

## Left out

- The HTTP handlers of both files (src/image2lines.ts:8-29, src/pdf2lines.ts:8-45), the OCR client (`getClient`) and the network calls. `start` takes the pages as a parameter.
- The PDF handler's concatenation of `start` over the response pages (src/pdf2lines.ts:36-42): it is the I/O wrapper around `start`.
- The `debug` functions and the commented-out file writes: file-system I/O that nothing calls.
- Coordinates are unbounded integers in the image model and exact reals in the PDF model. IEEE-754 rounding of `x * 1000` and `k / 15` is not modelled.
- Object key order of `groupBy`: JavaScript visits integer keys from 0 to 2^32 - 2 in ascending order, and other keys in insertion order. The model uses ascending order for every key. Negative y values and the scaled sentinel 99999999000 are the cases where the two differ.
- Text.Trim: removes only spaces and line breaks, the whitespace the rendered symbols can contain. Other Unicode whitespace, which `trim` also removes, is not modelled.
- Vision.TextOf: `null` and `undefined` are one `None` in the model, and an absent text renders as "undefined". Every `?.`, `=== null || === undefined` and `!== undefined` test of the modelled code treats the two alike, but the template literal `${item.text}` (src/utils.ts:63, src/image2lines.ts:138, src/pdf2lines.ts:219) renders `null` as "null". A symbol whose text is `null` is therefore not modelled.
- Text.SliceFromEnd: counts characters, and a Dafny `char` is a Unicode scalar value, while a JavaScript string counts UTF-16 code units. On characters outside the Basic Multilingual Plane, `slice(-2)` and `slice(-4)` (src/pdf2lines.ts:119-120) differ from the model.
- Utils.FilterSymbols: the length test `word.length <= 2` (src/utils.ts:69) counts characters in the model and UTF-16 code units in the source. The two differ on characters outside the Basic Multilingual Plane.
- Symbol-level bounding boxes and confidence values: the modelled code never reads them.
- src/image2texts.ts, src/handwriting.ts, src/image2words.ts, src/index.ts, test/test.ts and typings/types.d.ts are not part of this model.
